/** What emitted code does when the interpreter runs it. */
module EmissionMeaning {
  import opened Words
  import opened ConstraintTree
  import opened Machine
  import opened Emission

  /** `code` is the finished buffer: every label operand holds the address of its label.  Word 0 is
      the head of the clean-up chain and is not executed. */
  ghost predicate Resolved(code: seq<nat>, b: Output)
  {
    && |code| >= |b.sym|
    && forall i: nat | 1 <= i < |b.sym| ::
         match b.sym[i]
         case Word(w) => code[i] == w
         case Ref(l) => l in b.defs && code[i] == b.defs[l]
  }

  ghost predicate ItemAt(env: Env, code: seq<nat>, addr: nat, item: DataItem)
  {
    match item
    case Text(s) => WideString(code, addr) == env.decode(s)
    case Pattern(p) => addr + NGREPPERWORDS <= |code| && code[addr..addr + NGREPPERWORDS] == env.grep(p)
    case InBits(vs) => addr + MaxOf(vs) / 32 < |code| &&
                       forall v: nat | v <= MaxOf(vs) :: Bit(code[addr + v / 32], v % 32) <==> v in vs
  }

  ghost predicate Laid(env: Env, code: seq<nat>, b: Output)
  {
    forall n | n in b.data :: n.lab in b.defs && ItemAt(env, code, b.defs[n.lab], n.item)
  }

  ghost predicate Finished(env: Env, code: seq<nat>, b: Output)
  {
    Resolved(code, b) && Laid(env, code, b)
  }

  /** The word finally stored where `sym[a] == s`. */
  lemma WordAt(code: seq<nat>, b: Output, a: nat, s: Sym)
    requires Resolved(code, b) && a >= 1 && At(b.sym, a, s)
    ensures a < |code|
    ensures s.Word? ==> code[a] == s.w
    ensures s.Ref? ==> s.lab in b.defs && code[a] == b.defs[s.lab]
  {
  }

  lemma NegateFlips(op: RelOp, c: int)
    ensures Holds(Negate(op), c) <==> !Holds(op, c)
  {
  }

  lemma OpcodeSplit(k: nat, mode: nat)
    requires k < 6 && mode < 8
    ensures var op := JLSS + 8 * k + mode;
            op < JLIKE && (op - JLSS) / 8 == k && (op - JLSS) % 8 == mode
  {
  }

  /** The fetched operands compare like the operands' values. */
  lemma CompareFetches(env: Env, d: Doc, code: seq<nat>, b: Output, a: nat, x: Operand, y: Operand, lt: nat)
    requires Finished(env, code, b) && a >= 1
    requires Known(env, x) && Known(env, y) && IsNumeric(env, x) == IsNumeric(env, y)
    requires OperandAt(env, b, a + 1, x, lt) && OperandAt(env, b, a + 2, y, lt + OperandLabels(x))
    ensures a + 2 < |code|
    ensures Compare(env, d, code, Mode(env, x, y), code[a + 1], code[a + 2]) ==
            if IsNumeric(env, x) then NumValue(env, d, x) - NumValue(env, d, y)
            else env.collate(StrValue(env, d, x), StrValue(env, d, y))
  {
    if x.Str? {
      WordAt(code, b, a + 1, Ref(lt));
      assert ItemAt(env, code, b.defs[lt], Text(x.s));
    }
    if y.Str? {
      var n := lt + OperandLabels(x);
      WordAt(code, b, a + 2, Ref(n));
      assert ItemAt(env, code, b.defs[n], Text(y.s));
    }
  }

  /** Where a test at `a` goes next. */
  function After(b: Output, a: nat, t: Tree, c: Call, value: bool): nat
    requires Target(c) in b.defs
  {
    if value == c.m.InOr? then b.defs[Target(c)] else a + Size(t)
  }

  lemma RelStep(env: Env, d: Doc, code: seq<nat>, b: Output, a: nat, t: Tree, c: Call)
    requires Finished(env, code, b) && a >= 1 && t.Rel? && LeafAt(env, b, a, t, c) && Typed(env, t)
    ensures Target(c) in b.defs
    ensures Step(env, d, code, a) == Continue(After(b, a, t, c, Eval(env, d, t)))
  {
    var op := if c.m.InOr? then t.op else Negate(t.op);
    var mode := Mode(env, t.x, t.y);
    WordAt(code, b, a, Word(JLSS + 8 * JumpIndex(op) + mode));
    WordAt(code, b, a + 3, Ref(Target(c)));
    OpcodeSplit(JumpIndex(op), mode);
    CompareFetches(env, d, code, b, a, t.x, t.y, c.lt);
    NegateFlips(t.op, Compare(env, d, code, mode, code[a + 1], code[a + 2]));
  }

  lemma InStep(env: Env, d: Doc, code: seq<nat>, b: Output, a: nat, t: Tree, c: Call)
    requires Finished(env, code, b) && a >= 1 && t.In? && LeafAt(env, b, a, t, c)
    ensures Target(c) in b.defs
    ensures Step(env, d, code, a) == Continue(After(b, a, t, c, Eval(env, d, t)))
  {
    WordAt(code, b, a, Word(if c.m.InOr? then INNEQUAL else INEQUAL));
    WordAt(code, b, a + 1, Word(Index(env, t.id)));
    WordAt(code, b, a + 2, Word(MaxOf(t.values)));
    WordAt(code, b, a + 3, Ref(c.lt));
    WordAt(code, b, a + 4, Ref(Target(c)));
    var v := d.num(Index(env, t.id));
    if v <= MaxOf(t.values) {
      assert ItemAt(env, code, b.defs[c.lt], InBits(t.values));
      assert v / 32 <= MaxOf(t.values) / 32;
      AndPow2(code[b.defs[c.lt] + v / 32], v % 32);
    }
  }

  lemma LikeStep(env: Env, d: Doc, code: seq<nat>, b: Output, a: nat, t: Tree, c: Call)
    requires Finished(env, code, b) && a >= 1 && t.Like? && LeafAt(env, b, a, t, c)
    ensures Target(c) in b.defs
    ensures Step(env, d, code, a) == Continue(After(b, a, t, c, Eval(env, d, t)))
  {
    WordAt(code, b, a, Word(if c.m.InOr? then JLIKE else JNLIKE));
    WordAt(code, b, a + 1, Word(Index(env, t.id)));
    WordAt(code, b, a + 2, Ref(c.lt));
    WordAt(code, b, a + 3, Ref(Target(c)));
    assert ItemAt(env, code, b.defs[c.lt], Pattern(t.pattern));
  }

  lemma FlagStep(env: Env, d: Doc, code: seq<nat>, b: Output, a: nat, t: Tree, c: Call)
    requires Finished(env, code, b) && a >= 1 && (t.AttrOr? || t.AttrAnd?) && LeafAt(env, b, a, t, c)
    ensures Target(c) in b.defs
    ensures Step(env, d, code, a) == Continue(After(b, a, t, c, Eval(env, d, t)))
  {
    var k := if t.group1 == 0 then 1 else 2;
    WordAt(code, b, a, Word(FlagOpcode(t, c.m)));
    if t.group1 != 0 { WordAt(code, b, a + 1, Word(t.group1 - 1)); }
    WordAt(code, b, a + k, Word(t.mask));
    WordAt(code, b, a + k + 1, Ref(Target(c)));
  }

  /** One test is one step: to the target label or to the word behind the instruction. */
  lemma LeafStep(env: Env, d: Doc, code: seq<nat>, b: Output, a: nat, t: Tree, c: Call)
    requires Finished(env, code, b) && a >= 1 && IsLeaf(t) && !t.Flag? && Typed(env, t)
    requires LeafAt(env, b, a, t, c)
    ensures Target(c) in b.defs
    ensures Step(env, d, code, a) == Continue(After(b, a, t, c, Eval(env, d, t)))
  {
    match t
    case Rel(_, _, _) => RelStep(env, d, code, b, a, t, c);
    case In(_, _) => InStep(env, d, code, b, a, t, c);
    case Like(_, _) => LikeStep(env, d, code, b, a, t, c);
    case _ => FlagStep(env, d, code, b, a, t, c);
  }

  /** The contract of `evalexp`: where control may leave the code of `t`.

      Under `InAnd` a false node leaves for `fl`; a true node falls through, and only an OR node may
      also leave for `tl`.  Under `InOr` it is the other way round.  In tail position a true node may
      always leave for `tl`. */
  ghost predicate LeavesAt(b: Output, a: nat, t: Tree, c: Call, value: bool, e: nat)
  {
    match c.m
    case InAnd => if value then e == a + Size(t) || (t.Or? && Defined(b, c.tl, e)) else Defined(b, c.fl, e)
    case InOr => if value then Defined(b, c.tl, e) else e == a + Size(t) || (t.And? && Defined(b, c.fl, e))
    case Tail => if value then e == a + Size(t) || Defined(b, c.tl, e) else Defined(b, c.fl, e)
  }

  /** The exit labels lie behind the node's code, so that every jump goes forward. */
  ghost predicate ExitsAhead(b: Output, a: nat, t: Tree, c: Call)
  {
    && (c.tl in b.defs ==> b.defs[c.tl] >= a + Size(t))
    && (c.fl in b.defs ==> b.defs[c.fl] >= a + Size(t))
  }

  lemma NotLeaves(b: Output, a: nat, t: Tree, c: Call, value: bool, e: nat)
    requires t.Not? && LeavesAt(b, a, t.arg, NotCall(t, c), !value, e)
    requires NotLabelled(t, c.m) ==> Defined(b, c.lt, a + Size(t))
    ensures LeavesAt(b, a, t, c, value, e)
  {
  }

  /** The first operand either decides and leaves for the whole node, or falls through. */
  lemma LeftLeaves(b: Output, a: nat, t: Tree, c: Call, value: bool, e: nat)
    requires (t.And? || t.Or?) && LeavesAt(b, a, t.left, LeftCall(t, c), value, e)
    requires LeftLabelled(t) ==> Defined(b, c.lt, a + Size(t.left))
    ensures if value == t.And? then e == a + Size(t.left) else LeavesAt(b, a, t, c, value, e)
  {
  }

  lemma RightLeaves(b: Output, a: nat, t: Tree, c: Call, value: bool, e: nat)
    requires (t.And? || t.Or?) && LeavesAt(b, a + Size(t.left), t.right, RightCall(t, c), value, e)
    requires RightLabelled(t, c.m) ==> Defined(b, RightLabel(t, c), a + Size(t))
    ensures LeavesAt(b, a, t, c, value, e)
  {
  }

  lemma {:induction false} BinaryMeaning(env: Env, d: Doc, code: seq<nat>, b: Output, a: nat, t: Tree, c: Call)
    returns (e: nat, n: nat)
    requires Finished(env, code, b) && a >= 1 && (t.And? || t.Or?)
    requires Emits(env, b, a, t, c) && FlagFree(t) && Typed(env, t) && ExitsAhead(b, a, t, c)
    ensures Run(env, d, code, a, n) == Continue(e) && n <= Size(t)
    ensures LeavesAt(b, a, t, c, Eval(env, d, t), e)
    decreases t, 0
  {
    hide Finished, Run;
    var l := Eval(env, d, t.left);
    assert ExitsAhead(b, a, t.left, LeftCall(t, c));
    e, n := NodeMeaning(env, d, code, b, a, t.left, LeftCall(t, c));
    LeftLeaves(b, a, t, c, l, e);
    if l == t.And? {
      // the first operand does not decide, so control reaches the second one
      var e2, n2 := NodeMeaning(env, d, code, b, e, t.right, RightCall(t, c));
      RightLeaves(b, a, t, c, Eval(env, d, t), e2);
      RunSplit(env, d, code, a, n, n2);
      e, n := e2, n + n2;
    }
  }

  /** Running the code of any node, in any nesting, honours the contract, and does so within as many
      steps as the code has words. */
  lemma {:induction false} NodeMeaning(env: Env, d: Doc, code: seq<nat>, b: Output, a: nat, t: Tree, c: Call)
    returns (e: nat, n: nat)
    requires Finished(env, code, b) && a >= 1
    requires Emits(env, b, a, t, c) && FlagFree(t) && Typed(env, t) && ExitsAhead(b, a, t, c)
    ensures Run(env, d, code, a, n) == Continue(e) && n <= Size(t)
    ensures LeavesAt(b, a, t, c, Eval(env, d, t), e)
    decreases t, 1
  {
    hide Finished;
    if IsLeaf(t) {
      LeafStep(env, d, code, b, a, t, c);
      e, n := After(b, a, t, c, Eval(env, d, t)), 1;
      assert Run(env, d, code, e, 0) == Continue(e);
    } else if t.Not? {
      e, n := NodeMeaning(env, d, code, b, a, t.arg, NotCall(t, c));
      NotLeaves(b, a, t, c, Eval(env, d, t), e);
    } else {
      e, n := BinaryMeaning(env, d, code, b, a, t, c);
    }
  }

  lemma {:induction false} WideStringStored(code: seq<nat>, a: nat, ws: seq<nat>, text: seq<nat>)
    requires a + |ws| <= |code| && code[a..a + |ws|] == ws && text + [0] <= ws && 0 !in text
    ensures WideString(code, a) == text
    decreases |text|
  {
    assert code[a] == ws[0] == (text + [0])[0];
    if text != [] {
      assert code[a + 1..a + 1 + |ws[1..]|] == ws[1..];
      assert text[1..] + [0] <= ws[1..];
      WideStringStored(code, a + 1, ws[1..], text[1..]);
    }
  }

  lemma WordsRead(code: seq<nat>, b: Output, a: nat, ws: seq<nat>)
    requires Resolved(code, b) && a >= 1 && StoredAt(b.sym, a, ws)
    ensures a + |ws| <= |code| && code[a..a + |ws|] == ws
  {
    forall i: nat | i < |ws| ensures code[a + i] == ws[i] {
      assert b.sym[a + i] == b.sym[a..a + |ws|][i] == AsWords(ws)[i];
    }
  }

  lemma StoredItemReads(env: Env, code: seq<nat>, a: nat, ws: seq<nat>, item: DataItem)
    requires env.Valid() && ItemWords(env, item, ws)
    requires a + |ws| <= |code| && code[a..a + |ws|] == ws
    ensures ItemAt(env, code, a, item)
  {
    match item
    case Text(s) => WideStringStored(code, a, ws, env.decode(s));
    case Pattern(p) => assert code[a..a + NGREPPERWORDS] == ws[..NGREPPERWORDS];
    case InBits(vs) =>
      forall v: nat | v <= MaxOf(vs) ensures v / 32 < |ws| && code[a + v / 32] == ws[v / 32] {
        assert code[a..a + |ws|][v / 32] == code[a + v / 32];
      }
  }

  /** Stored data reads back. */
  lemma ItemReads(env: Env, code: seq<nat>, b: Output, n: DataNode)
    requires env.Valid() && Resolved(code, b) && ItemStored(env, b, n) && b.defs[n.lab] >= 1
    ensures ItemAt(env, code, b.defs[n.lab], n.item)
  {
    var a := b.defs[n.lab];
    var ws :| ItemWords(env, n.item, ws) && StoredAt(b.sym, a, ws);
    WordsRead(code, b, a, ws);
    StoredItemReads(env, code, a, ws, n.item);
  }

  /** Running the code behind the tree from one of its two exits. */
  lemma EpilogueMeaning(env: Env, d: Doc, code: seq<nat>, b: Output, t: Tree, e: nat, fuel: nat)
    requires Resolved(code, b) && FlagFree(t) && RootAt(env, b, t)
    requires e == 1 + Size(t) || Defined(b, 2, e)
    requires fuel >= if TestedAlready(t) then 2 else 4
    ensures Run(env, d, code, e, fuel) ==
            Done(e == 1 + Size(t) && (TestedAlready(t) || d.Exists()))
  {
    var end := 1 + Size(t);
    var last := b.defs[2];
    WordAt(code, b, last, Word(FALSERESULT));
    if e == end {
      if TestedAlready(t) {
        WordAt(code, b, end, Word(TRUERESULT));
      } else {
        WordAt(code, b, end, Word(NEXIST));
        WordAt(code, b, end + 1, Ref(2));
        WordAt(code, b, end + 2, Word(TRUERESULT));
        var q := if d.Exists() then end + 2 else last;
        assert Step(env, d, code, e) == Continue(q);
        assert Run(env, d, code, q, fuel - 1) == Step(env, d, code, q);
      }
    }
  }

  /** What the finished program answers about any document: the plain evaluator's answer, except
      that a document without its existence bit is turned down unless the tests were taken to imply
      existence.  It answers within as many steps as there are code words. */
  lemma RootMeaning(env: Env, d: Doc, code: seq<nat>, b: Output, t: Tree)
    requires Finished(env, code, b) && FlagFree(t) && Typed(env, t) && RootAt(env, b, t)
    ensures Run(env, d, code, 1, |code|) == Done(Eval(env, d, t) && (TestedAlready(t) || d.Exists()))
  {
    hide Run;
    var c := Call(1, 2, Tail, 3);
    var e, n := NodeMeaning(env, d, code, b, 1, t, c);
    var v := Eval(env, d, t);
    assert LeavesAt(b, 1, t, c, v, e);
    assert if v then e == 1 + Size(t) else Defined(b, 2, e) && e != 1 + Size(t);
    var fuel := |code| - n;
    assert fuel >= if TestedAlready(t) then 2 else 4;
    RunSplit(env, d, code, 1, n, fuel);
    EpilogueMeaning(env, d, code, b, t, e, fuel);
  }
}
