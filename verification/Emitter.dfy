/** The code generator: `evalexp` and the code buffer, labels and data list it works on. */
module Emitter {
  import opened Words
  import opened ConstraintTree
  import opened Machine
  import opened Emission

  /** A label's address, and the most recent operand waiting for it; 0 stands for none. */
  datatype LabelPointer = LabelPointer(value: nat, chain: nat)

  /** The last operand before position `n` that names label `l`, or 0. */
  function PrevRef(sym: seq<Sym>, l: nat, n: nat): (p: nat)
    requires n <= |sym|
    ensures p == 0 || (p < n && sym[p] == Ref(l))
    ensures forall i | p < i < n :: sym[i] != Ref(l)
  {
    if n <= 1 then 0
    else if sym[n - 1] == Ref(l) then n - 1
    else PrevRef(sym, l, n - 1)
  }

  lemma {:induction false} PrevRefPrefix(sym: seq<Sym>, s: Sym, l: nat, n: nat)
    requires n <= |sym|
    ensures PrevRef(sym + [s], l, n) == PrevRef(sym, l, n)
  {
    if n > 1 { PrevRefPrefix(sym, s, l, n - 1); }
  }

  /** A code-buffer word as it stands: an operand whose label is not yet defined links to the
      previous operand waiting for the same label. */
  ghost predicate WordOk(code: seq<nat>, sym: seq<Sym>, defs: map<nat, nat>, i: nat)
    requires i < |sym| == |code|
  {
    match sym[i]
    case Word(w) => code[i] == w
    case Ref(l) => code[i] == if l in defs then defs[l] else PrevRef(sym, l, i)
  }

  ghost predicate LabelOk(labelPointers: seq<LabelPointer>, sym: seq<Sym>, defs: map<nat, nat>, l: nat)
    requires l < |labelPointers|
  {
    labelPointers[l] == if l in defs then LabelPointer(defs[l], 0)
                        else LabelPointer(0, PrevRef(sym, l, |sym|))
  }

  /** Every operand names an allocated label, and a defined label lies behind all its operands. */
  ghost predicate RefOk(sym: seq<Sym>, defs: map<nat, nat>, labels: nat, i: nat)
    requires i < |sym|
  {
    sym[i].Ref? ==>
      var l := sym[i].lab;
      1 <= l < labels && (l in defs ==> i < defs[l])
  }

  /** The emitter's whole invariant, over its fields. */
  ghost predicate Consistent(code: seq<nat>, labelPointers: seq<LabelPointer>, sym: seq<Sym>, defs: map<nat, nat>)
  {
    && |sym| == |code| >= 1 && sym[0].Word?
    && |labelPointers| >= 1
    && (forall i: nat | 1 <= i < |code| :: WordOk(code, sym, defs, i))
    && (forall i: nat | 1 <= i < |code| :: RefOk(sym, defs, |labelPointers|, i))
    && (forall l: nat | 1 <= l < |labelPointers| :: LabelOk(labelPointers, sym, defs, l))
    && (forall l | l in defs :: 1 <= l < |labelPointers| && 1 <= defs[l] <= |code|)
  }

  /** Appending one word keeps the invariant, provided an operand is linked into its label's chain. */
  lemma AppendKeeps(code: seq<nat>, labelPointers: seq<LabelPointer>, sym: seq<Sym>, defs: map<nat, nat>, w: nat, s: Sym)
    requires Consistent(code, labelPointers, sym, defs)
    requires s.Word? ==> w == s.w
    requires s.Ref? ==> 1 <= s.lab < |labelPointers| && s.lab !in defs && w == labelPointers[s.lab].chain
    ensures var lp := if s.Ref? then labelPointers[s.lab := LabelPointer(0, |code|)] else labelPointers;
            Consistent(code + [w], lp, sym + [s], defs)
  {
    var n := |code|;
    var sym' := sym + [s];
    var lp := if s.Ref? then labelPointers[s.lab := LabelPointer(0, n)] else labelPointers;
    forall i: nat | 1 <= i < n + 1 ensures WordOk(code + [w], sym', defs, i) && RefOk(sym', defs, |lp|, i) {
      if i < n {
        assert WordOk(code, sym, defs, i) && RefOk(sym, defs, |lp|, i);
        if s.Ref? || sym[i].Ref? {
          PrevRefPrefix(sym, s, if sym[i].Ref? then sym[i].lab else 0, i);
        }
      } else if s.Ref? {
        assert LabelOk(labelPointers, sym, defs, s.lab);
        PrevRefPrefix(sym, s, s.lab, n);
      }
    }
    forall l: nat | 1 <= l < |lp| ensures LabelOk(lp, sym', defs, l) {
      assert LabelOk(labelPointers, sym, defs, l);
      PrevRefPrefix(sym, s, l, n);
    }
  }

  /** The data list only gains nodes, each with a label of its own among those numbered from `lo`
      up to `hi`. */
  ghost predicate FreshData(before: seq<DataNode>, after: seq<DataNode>, lo: nat, hi: nat)
  {
    && before <= after
    && (forall i | |before| <= i < |after| :: lo <= after[i].lab < hi)
    && (forall i, j | |before| <= i < j < |after| :: after[i].lab != after[j].lab)
  }

  /** `after` comes from `before` by emitting more: labels and data nodes gained are numbered from
      `lo` up to `hi`, and no gained data node has been given an address yet. */
  ghost predicate Grew(before: Output, lo: nat, after: Output, hi: nat)
  {
    && before.GrowsTo(after) && lo <= hi
    && FreshData(before.data, after.data, lo, hi)
    && (forall l | l in after.defs :: l in before.defs || lo <= l < hi)
    && (forall i | |before.data| <= i < |after.data| :: after.data[i].lab !in after.defs)
  }

  /** Emitting twice is emitting. */
  lemma GrewTwice(b0: Output, lo: nat, b1: Output, mid: nat, b2: Output, hi: nat)
    requires Grew(b0, lo, b1, mid) && Grew(b1, mid, b2, hi)
    requires forall l | l in b0.defs :: l < lo
    ensures Grew(b0, lo, b2, hi)
  {
    forall i | |b0.data| <= i < |b2.data|
      ensures lo <= b2.data[i].lab < hi && b2.data[i].lab !in b2.defs
    {
      if i < |b1.data| { assert b2.data[i] == b1.data[i]; }
    }
  }

  /** The output state `b` with `labels` labels allocated is what emitting `t` leads to. */
  ghost predicate EmittedFrom(env: Env, b0: Output, lo: nat, b: Output, hi: nat, t: Tree, c: Call)
  {
    && Grew(b0, lo, b, hi)
    && |b.sym| == |b0.sym| + Size(t) && hi == c.lt + Labels(t, c.m)
    && Emits(env, b, |b0.sym|, t, c)
  }

  /** Emitting an operand and defining its label, when it has one, behind it. */
  ghost predicate OperandEmitted(env: Env, b0: Output, lo: nat, b: Output, hi: nat, t: Tree, c: Call,
                                 labelled: bool)
  {
    && EmittedFrom(env, b0, lo, b, hi, t, c)
    && (labelled ==> Defined(b, lo, |b.sym|))
  }

  lemma BinaryGrew(env: Env, b0: Output, b1: Output, mid: nat, b2: Output, hi: nat, t: Tree, c: Call)
    requires t.And? || t.Or?
    requires OperandEmitted(env, b0, c.lt, b1, mid, t.left, LeftCall(t, c), LeftLabelled(t))
    requires OperandEmitted(env, b1, mid, b2, hi, t.right, RightCall(t, c), RightLabelled(t, c.m))
    requires forall l | l in b0.defs :: l < c.lt
    ensures Grew(b0, c.lt, b2, hi) && |b2.sym| == |b0.sym| + Size(t) && hi == c.lt + Labels(t, c.m)
  {
    GrewTwice(b0, c.lt, b1, mid, b2, hi);
  }

  lemma BinaryEmits(env: Env, b0: Output, b1: Output, mid: nat, b2: Output, hi: nat, t: Tree, c: Call)
    requires t.And? || t.Or?
    requires OperandEmitted(env, b0, c.lt, b1, mid, t.left, LeftCall(t, c), LeftLabelled(t))
    requires OperandEmitted(env, b1, mid, b2, hi, t.right, RightCall(t, c), RightLabelled(t, c.m))
    ensures Emits(env, b2, |b0.sym|, t, c)
  {
    hide FreshData;
    EmitsStable(env, b1, b2, |b0.sym|, t.left, LeftCall(t, c));
  }

  /** Two operands emitted one behind the other are the code of their conjunction or disjunction. */
  lemma BinaryEmitted(env: Env, b0: Output, b1: Output, mid: nat, b2: Output, hi: nat, t: Tree, c: Call)
    requires t.And? || t.Or?
    requires OperandEmitted(env, b0, c.lt, b1, mid, t.left, LeftCall(t, c), LeftLabelled(t))
    requires OperandEmitted(env, b1, mid, b2, hi, t.right, RightCall(t, c), RightLabelled(t, c.m))
    requires forall l | l in b0.defs :: l < c.lt
    ensures EmittedFrom(env, b0, c.lt, b2, hi, t, c)
  {
    hide Grew, Emits, OperandEmitted, Size, Labels, LeftCall, RightCall;
    BinaryGrew(env, b0, b1, mid, b2, hi, t, c);
    BinaryEmits(env, b0, b1, mid, b2, hi, t, c);
  }

  /** The opcode of a comparison, its two operands and its target. */
  lemma RelEmitted(env: Env, b: Output, b1: Output, mid: nat, b2: Output, hi: nat, t: Tree, c: Call)
    requires t.Rel? && forall l | l in b.defs :: l < c.lt
    requires var b0 := b.(sym := b.sym + [Word(RelOpcode(env, t, c.m))]);
             && Grew(b0, c.lt, b1, mid) && |b1.sym| == |b.sym| + 2 && mid == c.lt + OperandLabels(t.x)
             && OperandAt(env, b1, |b.sym| + 1, t.x, c.lt)
    requires Grew(b1, mid, b2, hi) && |b2.sym| == |b.sym| + 3 && hi == mid + OperandLabels(t.y)
    requires OperandAt(env, b2, |b.sym| + 2, t.y, mid)
    ensures EmittedFrom(env, b, c.lt, b2.(sym := b2.sym + [Ref(Target(c))]), hi, t, c)
  {
    GrewTwice(b.(sym := b.sym + [Word(RelOpcode(env, t, c.m))]), c.lt, b1, mid, b2, hi);
  }

  ghost predicate Addressed(data: seq<DataNode>, defs: map<nat, nat>)
  {
    forall i | 0 <= i < |data| :: data[i].lab in defs && defs[data[i].lab] >= 1
  }

  /** The addresses of the compiled patterns, last one first. */
  ghost function Patterns(data: seq<DataNode>, defs: map<nat, nat>): seq<nat>
    requires Addressed(data, defs)
  {
    if data == [] then []
    else
      var n := data[|data| - 1];
      (if n.item.Pattern? then [defs[n.lab]] else []) + Patterns(data[..|data| - 1], defs)
  }

  /** Following the links from `head` visits exactly `addrs`, in order, and then stops. */
  ghost predicate CleanupChain(sym: seq<Sym>, head: nat, addrs: seq<nat>)
    decreases addrs
  {
    if addrs == [] then head == 0
    else
      && head == addrs[0] && head != 0 && head + NGREPPERWORDS < |sym|
      && sym[head + NGREPPERWORDS].Word?
      && CleanupChain(sym, sym[head + NGREPPERWORDS].w, addrs[1..])
  }

  /** The first `i` data nodes have been stored from address `start` on, and `head` is the head of the
      chain of compiled patterns. */
  ghost predicate LaidOut(env: Env, b: Output, start: nat, i: nat, head: nat)
  {
    && i <= |b.data|
    && (forall j | 0 <= j < i :: ItemStored(env, b, b.data[j]))
    && Addressed(b.data[..i], b.defs)
    && (forall j | i <= j < |b.data| :: b.data[j].lab !in b.defs)
    && (forall k | start <= k < |b.sym| :: b.sym[k].Word?)
    && CleanupChain(b.sym, head, Patterns(b.data[..i], b.defs))
  }

  lemma RootEmitted(env: Env, b0: Output, b1: Output, b2: Output, labels: nat, root: Tree)
    requires b0 == Output([Word(0)], map[], []) && FlagFree(root)
    requires EmittedFrom(env, b0, 3, b1, labels, root, Call(1, 2, Tail, 3))
    requires b2.data == b1.data && b1.sym <= b2.sym
    requires b2.defs == b1.defs[1 := |b1.sym|][2 := |b2.sym| - 1]
    requires ResultsAt(b2, |b1.sym|, root, 1, 2)
    ensures RootAt(env, b2, root) && FreshData([], b2.data, 1, labels)
    ensures LaidOut(env, b2, |b2.sym|, 0, 0)
  {
    EmitsStable(env, b1, b2, 1, root, Call(1, 2, Tail, 3));
  }

  lemma {:induction false} PatternsStable(data: seq<DataNode>, defs: map<nat, nat>, defs': map<nat, nat>)
    requires Addressed(data, defs) && Addressed(data, defs')
    requires forall l | l in defs :: l in defs' && defs'[l] == defs[l]
    ensures Patterns(data, defs) == Patterns(data, defs')
  {
    if data != [] { PatternsStable(data[..|data| - 1], defs, defs'); }
  }

  /** Giving the next data node an address puts that address in front if the node is a pattern. */
  lemma PatternsNext(data: seq<DataNode>, i: nat, defs: map<nat, nat>, addr: nat)
    requires i < |data| && addr >= 1 && Addressed(data[..i], defs) && data[i].lab !in defs
    ensures var defs' := defs[data[i].lab := addr];
            && Addressed(data[..i + 1], defs')
            && Patterns(data[..i + 1], defs')
               == (if data[i].item.Pattern? then [addr] else []) + Patterns(data[..i], defs)
  {
    var defs' := defs[data[i].lab := addr];
    var some, more := data[..i], data[..i + 1];
    assert more[..i] == some && more[i] == data[i];
    forall j | 0 <= j < |more| ensures more[j].lab in defs' && defs'[more[j].lab] >= 1 {
      if j < i { assert some[j] == more[j]; }
    }
    forall j | 0 <= j < |some| ensures some[j].lab in defs' && defs'[some[j].lab] >= 1 {
      assert some[j] == more[j];
    }
    PatternsStable(some, defs, defs');
  }

  lemma {:induction false} ChainStable(sym: seq<Sym>, sym': seq<Sym>, head: nat, addrs: seq<nat>)
    requires CleanupChain(sym, head, addrs) && sym <= sym'
    ensures CleanupChain(sym', head, addrs)
    decreases addrs
  {
    if addrs != [] { ChainStable(sym, sym', sym[head + NGREPPERWORDS].w, addrs[1..]); }
  }

  lemma ItemStaysStored(env: Env, b: Output, b': Output, n: DataNode)
    requires ItemStored(env, b, n) && b.GrowsTo(b')
    ensures ItemStored(env, b', n)
  {
    var ws :| ItemWords(env, n.item, ws) && StoredAt(b.sym, b.defs[n.lab], ws);
    var a := b.defs[n.lab];
    assert b'.sym[a..a + |ws|] == b.sym[a..a + |ws|];
    assert StoredAt(b'.sym, a, ws);
  }

  /** Storing one more data node. */
  lemma LayNext(env: Env, b: Output, b': Output, start: nat, i: nat, head: nat, head': nat, labels: nat)
    requires LaidOut(env, b, start, i, head) && i < |b.data| && FreshData([], b.data, 1, labels)
    requires b'.data == b.data && 1 <= |b.sym| && b.sym <= b'.sym
    requires b'.defs == b.defs[b.data[i].lab := |b.sym|]
    requires ItemStored(env, b', b.data[i])
    requires forall k | |b.sym| <= k < |b'.sym| :: b'.sym[k].Word?
    requires head' == if b.data[i].item.Pattern? then |b.sym| else head
    requires b.data[i].item.Pattern? ==> At(b'.sym, |b.sym| + NGREPPERWORDS, Word(head))
    ensures LaidOut(env, b', start, i + 1, head')
  {
    forall j | 0 <= j < i ensures ItemStored(env, b', b'.data[j]) {
      ItemStaysStored(env, b, b', b.data[j]);
    }
    PatternsNext(b.data, i, b.defs, |b.sym|);
    var addrs := Patterns(b.data[..i], b.defs);
    ChainStable(b.sym, b'.sym, head, addrs);
    if b.data[i].item.Pattern? {
      assert ([|b.sym|] + addrs)[1..] == addrs;
    } else {
      assert [] + addrs == addrs;
    }
  }

  /** The operand at `i`, if it is one, names a defined label. */
  ghost predicate Settled(b: Output, i: nat)
    requires i < |b.sym|
  {
    b.sym[i].Ref? ==> b.sym[i].lab in b.defs
  }

  /** Every operand names a defined label, which lies behind it: jumps only go forward. */
  ghost predicate AllResolved(b: Output, labels: nat)
  {
    forall i: nat | 1 <= i < |b.sym| :: Settled(b, i) && RefOk(b.sym, b.defs, labels, i)
  }

  /** What `Emit` leaves behind: the program and its data are laid out, every operand has been filled
      in with the address of its label, which lies ahead of it, and the clean-up chain that starts at
      word 0 visits every compiled pattern exactly once. */
  ghost predicate Complete(env: Env, head: nat, b: Output, labels: nat, root: Tree)
    requires FlagFree(root)
  {
    && RootAt(env, b, root)
    && AllResolved(b, labels)
    && Addressed(b.data, b.defs)
    && (forall n | n in b.data :: ItemStored(env, b, n))
    && CleanupChain(b.sym, head, Patterns(b.data, b.defs))
  }

  lemma RootStays(env: Env, b: Output, b': Output, root: Tree)
    requires FlagFree(root) && RootAt(env, b, root) && b.GrowsTo(b')
    ensures RootAt(env, b', root)
  {
    EmitsStable(env, b, b', 1, root, Call(1, 2, Tail, 3));
  }

  lemma OperandSettled(env: Env, b: Output, root: Tree, i: nat, data: nat)
    requires FlagFree(root) && RootAt(env, b, root) && 1 <= i < |b.sym|
    requires data == 1 + Size(root) + if TestedAlready(root) then 2 else 4
    requires forall k | data <= k < |b.sym| :: b.sym[k].Word?
    requires forall n | n in b.data :: n.lab in b.defs
    ensures Settled(b, i)
  {
    if i < 1 + Size(root) {
      RefsCovered(env, b, 1, root, Call(1, 2, Tail, 3), i);
    }
  }

  lemma RootResolved(env: Env, b: Output, labels: nat, root: Tree, data: nat)
    requires FlagFree(root) && RootAt(env, b, root)
    requires data == 1 + Size(root) + if TestedAlready(root) then 2 else 4
    requires forall k | data <= k < |b.sym| :: b.sym[k].Word?
    requires Addressed(b.data, b.defs)
    requires forall i: nat | 1 <= i < |b.sym| :: RefOk(b.sym, b.defs, labels, i)
    ensures AllResolved(b, labels)
  {
    forall i: nat | 1 <= i < |b.sym| ensures Settled(b, i) {
      OperandSettled(env, b, root, i, data);
    }
  }

  lemma RootComplete(env: Env, b: Output, b': Output, labels: nat, head: nat, root: Tree)
    requires FlagFree(root) && RootAt(env, b, root) && b.GrowsTo(b')
    requires 1 in b.defs && 2 in b.defs
    requires |b.sym| == 1 + Size(root) + if TestedAlready(root) then 2 else 4
    requires LaidOut(env, b', |b.sym|, |b'.data|, head)
    requires forall i: nat | 1 <= i < |b'.sym| :: RefOk(b'.sym, b'.defs, labels, i)
    ensures Complete(env, head, b', labels, root)
  {
    RootStays(env, b, b', root);
    assert b'.data[..|b'.data|] == b'.data;
    RootResolved(env, b', labels, root, |b.sym|);
  }

  /** Build the bitmap of an `in()` list by setting one bit per listed value. */
  method SetBits(values: seq<word>, max: nat) returns (bits: seq<nat>)
    requires max == MaxOf(values)
    ensures BitmapOf(bits, values)
  {
    bits := seq(max / 32 + 1, _ => 0);
    forall v: nat | v <= max ensures !Bit(bits[v / 32], v % 32) { BitZero(v % 32); }
    for i := 0 to |values|
      invariant |bits| == max / 32 + 1
      invariant forall v: nat | v <= max :: Bit(bits[v / 32], v % 32) <==> v in values[..i]
    {
      var value := values[i];
      ghost var before := bits;
      assert value in values;
      bits := bits[value / 32 := Words.Or(bits[value / 32], Pow2(value % 32))];
      forall v: nat | v <= max
        ensures Bit(bits[v / 32], v % 32) <==> v in values[..i + 1]
      {
        assert Bit(before[v / 32], v % 32) <==> v in values[..i];
        assert values[..i + 1] == values[..i] + [value];
        if v / 32 == value / 32 {
          BitOr(before[v / 32], Pow2(value % 32), v % 32);
          BitPow2(value % 32, v % 32);
        }
      }
    }
    assert values[..|values|] == values;
  }

  /** Smallest and largest member of a list; an empty list has bottom `ULONG_MAX` and top 0. */
  method FindRange(values: seq<word>) returns (bottom: word, top: word)
    ensures top == MaxOf(values)
    ensures values == [] ==> bottom == WORD_LIMIT - 1
    ensures values != [] ==> bottom in values && forall v | v in values :: bottom <= v
  {
    bottom, top := WORD_LIMIT - 1, 0;
    for i := 0 to |values|
      invariant i == 0 ==> bottom == WORD_LIMIT - 1 && top == 0
      invariant i > 0 ==> bottom in values && top in values
      invariant forall j | 0 <= j < i :: bottom <= values[j] <= top
    {
      var v := values[i];
      if v < bottom { bottom := v; }
      if v > top { top := v; }
    }
  }

  /** The opcode of a pattern comparison, its attribute, and the labels of the pattern and of the target. */
  lemma LikeEmitted(env: Env, b: Output, t: Tree, c: Call)
    requires t.Like? && c.lt !in b.defs
    ensures EmittedFrom(env, b, c.lt,
                        b.(sym := b.sym + [Word(if c.m.InOr? then JLIKE else JNLIKE), Word(Index(env, t.id)), Ref(c.lt),
                                           Ref(Target(c))],
                           data := b.data + [DataNode(c.lt, Pattern(t.pattern))]),
                        c.lt + 1, t, c)
  {
    assert DataNode(c.lt, Pattern(t.pattern)) in b.data + [DataNode(c.lt, Pattern(t.pattern))];
  }

  /** The words of a flag test before its target. */
  function FlagWords(t: Tree, m: MoreLog): seq<Sym>
    requires t.AttrOr? || t.AttrAnd?
  {
    [Word(FlagOpcode(t, m))] + (if t.group1 != 0 then [Word(t.group1 - 1)] else []) + [Word(t.mask)]
  }

  lemma FlagsEmitted(env: Env, b: Output, t: Tree, c: Call)
    requires t.AttrOr? || t.AttrAnd?
    ensures EmittedFrom(env, b, c.lt, b.(sym := b.sym + FlagWords(t, c.m) + [Ref(Target(c))]), c.lt, t, c)
  {
  }

  /** The opcode of a set membership, its attribute, the size of the set, and the labels of the set and of the
      target. */
  lemma InEmitted(env: Env, b: Output, t: Tree, c: Call)
    requires t.In? && c.lt !in b.defs
    ensures EmittedFrom(env, b, c.lt,
                        b.(sym := b.sym + [Word(if c.m.InOr? then INNEQUAL else INEQUAL), Word(Index(env, t.id)),
                                           Word(MaxOf(t.values)), Ref(c.lt), Ref(Target(c))],
                           data := b.data + [DataNode(c.lt, InBits(t.values))]),
                        c.lt + 1, t, c)
  {
    assert DataNode(c.lt, InBits(t.values)) in b.data + [DataNode(c.lt, InBits(t.values))];
  }

  /** The words behind the tree: the existence test when one is needed, and the two results. */
  function ResultWords(root: Tree, flab: nat): (ws: seq<Sym>)
    requires FlagFree(root)
    ensures |ws| == if TestedAlready(root) then 2 else 4
  {
    (if TestedAlready(root) then [] else [Word(NEXIST), Ref(flab)]) + [Word(TRUERESULT), Word(FALSERESULT)]
  }

  lemma ResultsPlaced(b: Output, sym: seq<Sym>, root: Tree, tlab: nat, flab: nat)
    requires FlagFree(root) && tlab != flab && b.sym == sym + ResultWords(root, flab)
    requires tlab in b.defs && b.defs[tlab] == |sym| && flab in b.defs && b.defs[flab] == |b.sym| - 1
    ensures ResultsAt(b, |sym|, root, tlab, flab)
  {
  }

  class Emitter {
    const env: Env
    var codeBuffer: seq<nat>
    var labelPointers: seq<LabelPointer>
    var innodelist: seq<DataNode>
    ghost var sym: seq<Sym>
    ghost var defs: map<nat, nat>

    ghost function Out(): Output
      reads this
    {
      Output(sym, defs, innodelist)
    }

    ghost predicate Valid()
      reads this
    {
      && Consistent(codeBuffer, labelPointers, sym, defs)
      && env.Valid()
    }

    constructor (env: Env)
      requires env.Valid()
      ensures Valid() && this.env == env
      ensures sym == [Word(0)] && defs == map[] && innodelist == [] && |labelPointers| == 1
      ensures codeBuffer == [0]
    {
      this.env := env;
      codeBuffer := [0];
      labelPointers := [LabelPointer(0, 0)];
      innodelist := [];
      sym := [Word(0)];
      defs := map[];
    }

    method GetLabel() returns (lab: nat)
      requires Valid()
      modifies this
      ensures Valid() && Out() == old(Out()) && codeBuffer == old(codeBuffer)
      ensures lab == old(|labelPointers|) && |labelPointers| == lab + 1
      ensures labelPointers[..lab] == old(labelPointers) && lab !in defs && lab >= 1
    {
      lab := |labelPointers|;
      labelPointers := labelPointers + [LabelPointer(0, 0)];
      assert LabelOk(labelPointers, sym, defs, lab) by {
        var p := PrevRef(sym, lab, |sym|);
        assert p != 0 ==> RefOk(sym, defs, lab, p);
      }
      forall l: nat | 1 <= l < lab ensures LabelOk(labelPointers, sym, defs, l) {
        assert LabelOk(old(labelPointers), sym, defs, l);
      }
      forall i: nat | 1 <= i < |sym| ensures RefOk(sym, defs, |labelPointers|, i) {
        assert RefOk(sym, defs, lab, i);
      }
    }

    method OutputCode(w: nat)
      requires Valid()
      modifies `codeBuffer, `sym
      ensures Valid() && codeBuffer == old(codeBuffer) + [w] && sym == old(sym) + [Word(w)]
    {
      AppendKeeps(codeBuffer, labelPointers, sym, defs, w, Word(w));
      codeBuffer := codeBuffer + [w];
      sym := sym + [Word(w)];
    }

    /** The branch for an already defined label is dead: no caller meets it. */
    method OutputLabel(lab: nat)
      requires Valid() && 1 <= lab < |labelPointers| && lab !in defs
      modifies `codeBuffer, `sym, `labelPointers
      ensures Valid() && |labelPointers| == old(|labelPointers|)
      ensures sym == old(sym) + [Ref(lab)] && codeBuffer[0] == old(codeBuffer[0])
    {
      assert LabelOk(labelPointers, sym, defs, lab);
      if labelPointers[lab].value != 0 {
        assert false;
      } else {
        AppendKeeps(codeBuffer, labelPointers, sym, defs, labelPointers[lab].chain, Ref(lab));
        var pointer := labelPointers[lab].chain;
        labelPointers := labelPointers[lab := LabelPointer(0, |codeBuffer|)];
        codeBuffer := codeBuffer + [pointer];
        sym := sym + [Ref(lab)];
      }
    }

    /** Give `lab` the current address, walking its chain to fill in every operand that waited. */
    method DefineLabel(lab: nat)
      requires Valid() && 1 <= lab < |labelPointers| && lab !in defs
      modifies `codeBuffer, `labelPointers, `defs
      ensures Valid() && |labelPointers| == old(|labelPointers|)
      ensures defs == old(defs)[lab := |sym|]
      ensures codeBuffer[0] == old(codeBuffer[0])
    {
      var top := |codeBuffer|;
      assert LabelOk(labelPointers, sym, defs, lab);
      var next := labelPointers[lab].chain;
      ghost var bound := top;
      while next != 0
        invariant |codeBuffer| == top && sym == old(sym) && defs == old(defs) && labelPointers == old(labelPointers)
        invariant 1 <= bound <= top
        invariant next == PrevRef(sym, lab, bound)
        invariant forall i | 0 <= i < top ::
          codeBuffer[i] == if i >= bound && sym[i] == Ref(lab) then top else old(codeBuffer)[i]
        decreases next
      {
        var pointer := next;
        assert WordOk(old(codeBuffer), sym, old(defs), pointer);
        next := codeBuffer[pointer];
        codeBuffer := codeBuffer[pointer := top];
        bound := pointer;
      }
      labelPointers := labelPointers[lab := LabelPointer(top, 0)];
      defs := defs[lab := top];
      forall i: nat | 1 <= i < top
        ensures WordOk(codeBuffer, sym, defs, i) && RefOk(sym, defs, |labelPointers|, i)
      {
        assert WordOk(old(codeBuffer), sym, old(defs), i) && RefOk(sym, old(defs), |labelPointers|, i);
      }
      forall l: nat | 1 <= l < |labelPointers| ensures LabelOk(labelPointers, sym, defs, l) {
        assert LabelOk(old(labelPointers), sym, old(defs), l);
      }
    }

    method StoreSpecialNode(lab: nat, item: DataItem)
      requires Valid()
      modifies `innodelist
      ensures Valid() && innodelist == old(innodelist) + [DataNode(lab, item)]
    {
      innodelist := innodelist + [DataNode(lab, item)];
    }

    /** Output an operand: a number, an attribute index, or the label of a string emitted later. */
    method OutputOperand(o: Operand)
      requires Valid()
      modifies this
      ensures Valid() && Grew(old(Out()), old(|labelPointers|), Out(), |labelPointers|)
      ensures defs == old(defs) && codeBuffer[0] == old(codeBuffer[0])
      ensures |sym| == old(|sym|) + 1 && |labelPointers| == old(|labelPointers|) + OperandLabels(o)
      ensures OperandAt(env, Out(), old(|sym|), o, old(|labelPointers|))
    {
      match o
      case Num(n) => OutputCode(n);
      case Str(s) =>
        var lab := GetLabel();
        StoreSpecialNode(lab, Text(s));
        OutputLabel(lab);
      case Name(id) => OutputCode(Index(env, id));
    }

    ghost predicate Callable(c: Call)
      reads this
    {
      && Valid() && c.lt == |labelPointers|
      && 1 <= c.tl < c.lt && c.tl !in defs
      && 1 <= c.fl < c.lt && c.fl !in defs
    }

    method EmitRel(t: Tree, ghost c: Call, target: nat, morelog: MoreLog)
      requires Callable(c) && t.Rel? && target == Target(c) && morelog == c.m
      modifies this
      ensures Valid() && codeBuffer[0] == old(codeBuffer[0])
      ensures EmittedFrom(env, old(Out()), c.lt, Out(), |labelPointers|, t, c)
    {
      assert |sym| == |codeBuffer| >= 1;
      hide Consistent, Emits, Grew, EmittedFrom;
      ghost var b := Out();
      OutputCode(RelOpcode(env, t, morelog));
      OutputOperand(t.x);
      ghost var b1, mid := Out(), |labelPointers|;
      OutputOperand(t.y);
      ghost var b2 := Out();
      OutputLabel(target);
      RelEmitted(env, b, b1, mid, b2, |labelPointers|, t, c);
    }

    /** An opcode and the attribute it is about. */
    method OutputHead(op: nat, id: string)
      requires Valid()
      modifies `codeBuffer, `sym
      ensures Valid() && |codeBuffer| == old(|codeBuffer|) + 2 && codeBuffer[0] == old(codeBuffer[0])
      ensures sym == old(sym) + [Word(op), Word(Index(env, id))]
    {
      OutputCode(op);
      OutputCode(Index(env, id));
    }

    /** The label of a data item and the target. */
    method OutputLabels(lab: nat, target: nat)
      requires Valid() && 1 <= lab < |labelPointers| && lab !in defs && 1 <= target < |labelPointers| && target !in defs
      modifies `codeBuffer, `sym, `labelPointers
      ensures Valid() && |labelPointers| == old(|labelPointers|)
      ensures sym == old(sym) + [Ref(lab), Ref(target)] && codeBuffer[0] == old(codeBuffer[0])
    {
      OutputLabel(lab);
      OutputLabel(target);
    }

    method EmitLike(t: Tree, ghost c: Call, target: nat, morelog: MoreLog)
      requires Callable(c) && t.Like? && target == Target(c) && morelog == c.m
      modifies this
      ensures Valid() && codeBuffer[0] == old(codeBuffer[0])
      ensures EmittedFrom(env, old(Out()), c.lt, Out(), |labelPointers|, t, c)
    {
      hide Consistent, EmittedFrom;
      ghost var b := Out();
      OutputHead(if morelog.InOr? then JLIKE else JNLIKE, t.id);
      var lab := GetLabel();
      StoreSpecialNode(lab, Pattern(t.pattern));
      OutputLabels(lab, target);
      LikeEmitted(env, b, t, c);
      assert sym == b.sym + [Word(if c.m.InOr? then JLIKE else JNLIKE), Word(Index(env, t.id)), Ref(lab), Ref(target)];
    }

    method EmitFlags(t: Tree, ghost c: Call, target: nat, morelog: MoreLog)
      requires Callable(c) && (t.AttrOr? || t.AttrAnd?) && target == Target(c) && morelog == c.m
      modifies this
      ensures Valid() && codeBuffer[0] == old(codeBuffer[0])
      ensures EmittedFrom(env, old(Out()), c.lt, Out(), |labelPointers|, t, c)
    {
      assert |codeBuffer| >= 1;
      hide Consistent, EmittedFrom;
      ghost var b := Out();
      OutputCode(FlagOpcode(t, morelog));
      if t.group1 != 0 { OutputCode(t.group1 - 1); }
      OutputCode(t.mask);
      assert sym == b.sym + FlagWords(t, c.m);
      OutputLabel(target);
      FlagsEmitted(env, b, t, c);
    }

    /** `storeInNode`: note the list for later and refuse one with too large a value. */
    method StoreInNode(values: seq<word>) returns (ok: bool, lab: nat, top: nat)
      requires Valid()
      modifies this
      ensures ok == (MaxOf(values) <= INFUNCTIONMAXVALUE) && top == MaxOf(values)
      ensures Valid() && codeBuffer == old(codeBuffer) && sym == old(sym) && defs == old(defs)
      ensures lab == old(|labelPointers|) && |labelPointers| == lab + 1 && 1 <= lab && lab !in defs
      ensures innodelist == old(innodelist) + [DataNode(lab, InBits(values))]
    {
      lab := GetLabel();
      StoreSpecialNode(lab, InBits(values));
      var bottom;
      bottom, top := FindRange(values);
      ok := top <= INFUNCTIONMAXVALUE;
    }

    method EmitIn(t: Tree, ghost c: Call, target: nat, morelog: MoreLog) returns (ok: bool)
      requires Callable(c) && t.In? && target == Target(c) && morelog == c.m
      modifies this
      ensures ok == InListsBounded(t)
      ensures ok ==> Valid() && codeBuffer[0] == old(codeBuffer[0])
      ensures ok ==> EmittedFrom(env, old(Out()), c.lt, Out(), |labelPointers|, t, c)
    {
      hide Consistent, EmittedFrom;
      ghost var b := Out();
      var lab, top;
      ok, lab, top := StoreInNode(t.values);
      if ok {
        OutputHead(if morelog.InOr? then INNEQUAL else INEQUAL, t.id);
        OutputCode(top);
        OutputLabels(lab, target);
        InEmitted(env, b, t, c);
        assert sym == b.sym + [Word(if c.m.InOr? then INNEQUAL else INEQUAL), Word(Index(env, t.id)),
                               Word(top), Ref(lab), Ref(target)];
      }
    }

    method EvalAndOperand(t: Tree, tlab: nat, flab: nat, morelog: MoreLog, labelled: bool) returns (ok: bool)
      requires Callable(Call(tlab, flab, morelog, |labelPointers|))
      modifies this
      ensures ok == InListsBounded(t)
      ensures ok ==> Valid() && codeBuffer[0] == old(codeBuffer[0])
      ensures ok ==> OperandEmitted(env, old(Out()), old(|labelPointers|), Out(), |labelPointers|, t,
                                    AndOperandCall(labelled, tlab, flab, morelog, old(|labelPointers|)), labelled)
      decreases t, 3
    {
      if labelled {
        var lab := GetLabel();
        ok := EvalThenDefine(t, lab, flab, InAnd, lab);
      } else {
        ok := EvalExp(t, tlab, flab, morelog);
      }
    }

    method EvalAnd(t: Tree, tlab: nat, flab: nat, morelog: MoreLog) returns (ok: bool)
      requires t.And? && Callable(Call(tlab, flab, morelog, |labelPointers|))
      modifies this
      ensures ok == InListsBounded(t)
      ensures ok ==> Valid() && codeBuffer[0] == old(codeBuffer[0])
      ensures ok ==> EmittedFrom(env, old(Out()), old(|labelPointers|), Out(), |labelPointers|, t,
                                 Call(tlab, flab, morelog, old(|labelPointers|)))
      decreases t, 0
    {
      assert |sym| == |codeBuffer| >= 1;
      hide Consistent, Emits, Labels;
      ghost var c := Call(tlab, flab, morelog, |labelPointers|);
      ghost var b0 := Out();
      ok := EvalAndOperand(t.left, tlab, flab, InAnd, t.left.Or?);
      if ok {
        ghost var b1, mid := Out(), |labelPointers|;
        ok := EvalAndOperand(t.right, tlab, flab, morelog, t.right.Or? && morelog.InAnd?);
        if ok {
          BinaryEmitted(env, b0, b1, mid, Out(), |labelPointers|, t, c);
        }
      }
    }

    method EvalOrOperand(t: Tree, tlab: nat, flab: nat, morelog: MoreLog, labelled: bool) returns (ok: bool)
      requires Callable(Call(tlab, flab, morelog, |labelPointers|))
      modifies this
      ensures ok == InListsBounded(t)
      ensures ok ==> Valid() && codeBuffer[0] == old(codeBuffer[0])
      ensures ok ==> OperandEmitted(env, old(Out()), old(|labelPointers|), Out(), |labelPointers|, t,
                                    OrOperandCall(labelled, tlab, flab, morelog, old(|labelPointers|)), labelled)
      decreases t, 3
    {
      if labelled {
        var lab := GetLabel();
        ok := EvalThenDefine(t, tlab, lab, InOr, lab);
      } else {
        ok := EvalExp(t, tlab, flab, morelog);
      }
    }

    method EvalOr(t: Tree, tlab: nat, flab: nat, morelog: MoreLog) returns (ok: bool)
      requires t.Or? && Callable(Call(tlab, flab, morelog, |labelPointers|))
      modifies this
      ensures ok == InListsBounded(t)
      ensures ok ==> Valid() && codeBuffer[0] == old(codeBuffer[0])
      ensures ok ==> EmittedFrom(env, old(Out()), old(|labelPointers|), Out(), |labelPointers|, t,
                                 Call(tlab, flab, morelog, old(|labelPointers|)))
      decreases t, 0
    {
      assert |sym| == |codeBuffer| >= 1;
      hide Consistent, Emits, Labels;
      ghost var c := Call(tlab, flab, morelog, |labelPointers|);
      ghost var b0 := Out();
      ok := EvalOrOperand(t.left, tlab, flab, InOr, t.left.And?);
      if ok {
        ghost var b1, mid := Out(), |labelPointers|;
        ok := EvalOrOperand(t.right, tlab, flab, morelog, t.right.And? && morelog.InOr?);
        if ok {
          BinaryEmitted(env, b0, b1, mid, Out(), |labelPointers|, t, c);
        }
      }
    }

    method EvalNot(t: Tree, tlab: nat, flab: nat, morelog: MoreLog) returns (ok: bool)
      requires t.Not? && Callable(Call(tlab, flab, morelog, |labelPointers|))
      modifies this
      ensures ok == InListsBounded(t)
      ensures ok ==> Valid() && codeBuffer[0] == old(codeBuffer[0])
      ensures ok ==> EmittedFrom(env, old(Out()), old(|labelPointers|), Out(), |labelPointers|, t,
                                 Call(tlab, flab, morelog, old(|labelPointers|)))
      decreases t, 0
    {
      assert |sym| == |codeBuffer| >= 1;
      hide Consistent;
      var inner := if morelog.InOr? then InAnd else InOr;
      if morelog.InAnd? && t.arg.And? {
        var lab := GetLabel();
        ok := EvalThenDefine(t.arg, flab, lab, inner, lab);
      } else if morelog.InOr? && t.arg.Or? {
        var lab := GetLabel();
        ok := EvalThenDefine(t.arg, lab, tlab, inner, lab);
      } else {
        ok := EvalExp(t.arg, flab, tlab, inner);
      }
    }

    /** `evalexp` for a node below the root.  It fails only when an `in()` list is out of bounds. */
    method EvalExp(t: Tree, tlab: nat, flab: nat, morelog: MoreLog) returns (ok: bool)
      requires Callable(Call(tlab, flab, morelog, |labelPointers|))
      modifies this
      ensures ok == InListsBounded(t)
      ensures ok ==> Valid() && codeBuffer[0] == old(codeBuffer[0])
      ensures ok ==> EmittedFrom(env, old(Out()), old(|labelPointers|), Out(), |labelPointers|, t,
                                 Call(tlab, flab, morelog, old(|labelPointers|)))
      decreases t, 1
    {
      ghost var c := Call(tlab, flab, morelog, |labelPointers|);
      var target := if morelog.InOr? then tlab else flab;
      match t
      case And(_, _) => ok := EvalAnd(t, tlab, flab, morelog);
      case Or(_, _) => ok := EvalOr(t, tlab, flab, morelog);
      case Not(_) => ok := EvalNot(t, tlab, flab, morelog);
      case Rel(_, _, _) => EmitRel(t, c, target, morelog); ok := true;
      case Like(_, _) => EmitLike(t, c, target, morelog); ok := true;
      case Flag(_) => ok := true;
      case AttrOr(_, _) => EmitFlags(t, c, target, morelog); ok := true;
      case AttrAnd(_, _) => EmitFlags(t, c, target, morelog); ok := true;
      case In(_, _) => ok := EmitIn(t, c, target, morelog);
    }

    /** Evaluate an operand whose true or false exit is the label just allocated, and define that
        label behind it. */
    method EvalThenDefine(t: Tree, tlab: nat, flab: nat, morelog: MoreLog, lab: nat) returns (ok: bool)
      requires Callable(Call(tlab, flab, morelog, |labelPointers|))
      requires lab == |labelPointers| - 1 && lab !in defs
      modifies this
      ensures ok == InListsBounded(t)
      ensures ok ==> Valid() && codeBuffer[0] == old(codeBuffer[0])
      ensures ok ==> OperandEmitted(env, old(Out()), lab, Out(), |labelPointers|, t,
                                    Call(tlab, flab, morelog, old(|labelPointers|)), true)
      decreases t, 2
    {
      assert |sym| == |codeBuffer| >= 1;
      hide Consistent, Emits;
      ghost var c := Call(tlab, flab, morelog, |labelPointers|);
      ok := EvalExp(t, tlab, flab, morelog);
      if ok {
        ghost var b := Out();
        DefineLabel(lab);
        EmitsStable(env, b, Out(), old(|sym|), t, c);
      }
    }

    method OutputWords(ws: seq<nat>)
      requires Valid()
      modifies `codeBuffer, `sym
      ensures Valid() && codeBuffer == old(codeBuffer) + ws && sym == old(sym) + AsWords(ws)
    {
      for j := 0 to |ws|
        invariant Valid() && codeBuffer == old(codeBuffer) + ws[..j] && sym == old(sym) + AsWords(ws[..j])
      {
        assert ws[..j + 1] == ws[..j] + [ws[j]];
        assert AsWords(ws[..j + 1]) == AsWords(ws[..j]) + [Word(ws[j])];
        OutputCode(ws[j]);
      }
      assert ws[..|ws|] == ws;
    }

    method SetHead(w: nat)
      requires Valid()
      modifies `codeBuffer
      ensures Valid() && codeBuffer == old(codeBuffer)[0 := w]
    {
      codeBuffer := codeBuffer[0 := w];
      forall i: nat | 1 <= i < |codeBuffer| ensures WordOk(codeBuffer, sym, defs, i) {
        assert WordOk(old(codeBuffer), sym, defs, i);
      }
    }

    /** Define a data node's label and store its words; patterns are linked into the clean-up chain
        that starts at word 0. */
    method EmitItem(n: DataNode)
      requires Valid() && 1 <= n.lab < |labelPointers| && n.lab !in defs
      modifies this
      ensures Valid() && |labelPointers| == old(|labelPointers|) && innodelist == old(innodelist)
      ensures old(sym) <= sym && defs == old(defs)[n.lab := old(|sym|)]
      ensures forall i | old(|sym|) <= i < |sym| :: sym[i].Word?
      ensures ItemStored(env, Out(), n)
      ensures codeBuffer[0] == if n.item.Pattern? then old(|sym|) else old(codeBuffer[0])
      ensures n.item.Pattern? ==> At(sym, old(|sym|) + NGREPPERWORDS, Word(old(codeBuffer[0])))
    {
      assert |sym| == |codeBuffer| >= 1;
      hide Consistent;
      ghost var a := |sym|;
      DefineLabel(n.lab);
      var ws: seq<nat>;
      match n.item {
        case InBits(vs) => ws := SetBits(vs, MaxOf(vs));
        case Text(s) =>
          var text := env.decode(s);
          ws := text + seq(|s| + 1 - |text|, _ => 0);
          assert text + [0] <= ws;
        case Pattern(p) =>
          var top := |codeBuffer|;
          ws := env.grep(p) + [codeBuffer[0]];
          SetHead(top);
      }
      OutputWords(ws);
      assert sym[a..a + |ws|] == AsWords(ws);
      assert StoredAt(sym, a, ws) && ItemWords(env, n.item, ws);
    }

    /** Store the data of every `in()` list, string and pattern behind the code. */
    method EmitInBitmaps()
      requires Valid() && FreshData([], innodelist, 1, |labelPointers|)
      requires LaidOut(env, Out(), |sym|, 0, codeBuffer[0])
      modifies this
      ensures Valid() && |labelPointers| == old(|labelPointers|) && old(Out()).GrowsTo(Out())
      ensures innodelist == old(innodelist)
      ensures LaidOut(env, Out(), old(|sym|), |innodelist|, codeBuffer[0])
    {
      for i := 0 to |innodelist|
        invariant Valid() && |labelPointers| == old(|labelPointers|) && innodelist == old(innodelist)
        invariant old(Out()).GrowsTo(Out())
        invariant LaidOut(env, Out(), old(|sym|), i, codeBuffer[0])
      {
        ghost var b, head := Out(), codeBuffer[0];
        EmitItem(innodelist[i]);
        LayNext(env, b, Out(), old(|sym|), i, head, codeBuffer[0], |labelPointers|);
      }
    }

    method EmitExistence(flab: nat)
      requires Valid() && 1 <= flab < |labelPointers| && flab !in defs
      modifies `codeBuffer, `sym, `labelPointers
      ensures Valid() && |labelPointers| == old(|labelPointers|)
      ensures sym == old(sym) + [Word(NEXIST), Ref(flab)] && codeBuffer[0] == old(codeBuffer[0])
    {
      OutputCode(NEXIST);
      OutputLabel(flab);
    }

    /** The existence test unless a flag was tested already, and the two results. */
    method EmitResults(root: Tree, tlab: nat, flab: nat)
      requires Valid() && FlagFree(root) && 1 <= tlab < |labelPointers| && 1 <= flab < |labelPointers|
      requires tlab != flab && tlab !in defs && flab !in defs
      modifies this
      ensures Valid() && |labelPointers| == old(|labelPointers|) && innodelist == old(innodelist)
      ensures codeBuffer[0] == old(codeBuffer[0]) && old(sym) <= sym
      ensures ResultsAt(Out(), old(|sym|), root, tlab, flab)
      ensures defs == old(defs)[tlab := old(|sym|)][flab := |sym| - 1]
      ensures |sym| == old(|sym|) + if TestedAlready(root) then 2 else 4
    {
      assert |codeBuffer| >= 1;
      hide Consistent, ResultsAt;
      ghost var before := sym;
      DefineLabel(tlab);
      if !TestedAlready(root) {
        EmitExistence(flab);
      }
      OutputCode(TRUERESULT);
      DefineLabel(flab);
      OutputCode(FALSERESULT);
      assert sym == before + ResultWords(root, flab);
      ResultsPlaced(Out(), before, root, tlab, flab);
    }

    /** The code part of `evalexp` for the root: two fresh labels, the tree, the existence test unless
        a flag was tested already, and the two results. */
    method EmitRoot(root: Tree) returns (ok: bool)
      requires Valid() && |labelPointers| == 1 && sym == [Word(0)] && defs == map[] && innodelist == []
      requires codeBuffer == [0] && FlagFree(root)
      modifies this
      ensures ok == InListsBounded(root)
      ensures ok ==> Valid() && RootAt(env, Out(), root) && FreshData([], innodelist, 1, |labelPointers|)
      ensures ok ==> LaidOut(env, Out(), |sym|, 0, codeBuffer[0]) && 1 in defs && 2 in defs
      ensures ok ==> |sym| == 1 + Size(root) + if TestedAlready(root) then 2 else 4
    {
      assert |sym| == |codeBuffer| >= 1;
      hide Consistent, Emits;
      var tlab := GetLabel();
      var flab := GetLabel();
      ghost var b0 := Out();
      ok := EvalExp(root, tlab, flab, Tail);
      if ok {
        ghost var b1 := Out();
        EmitResults(root, tlab, flab);
        RootEmitted(env, b0, b1, Out(), |labelPointers|, root);
      }
    }

    /** The whole emission. */
    method Emit(root: Tree) returns (ok: bool)
      requires Valid() && |labelPointers| == 1 && sym == [Word(0)] && defs == map[] && innodelist == []
      requires codeBuffer == [0] && FlagFree(root)
      modifies this
      ensures ok == InListsBounded(root)
      ensures ok ==> Valid() && Complete(env, codeBuffer[0], Out(), |labelPointers|, root)
    {
      ok := EmitRoot(root);
      if !ok { return; }
      ghost var b := Out();
      EmitInBitmaps();
      RootComplete(env, b, Out(), |labelPointers|, codeBuffer[0], root);
    }
  }
}
