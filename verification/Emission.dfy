/** The layout of emitted code, as a relation between a tree and a stretch of the code buffer.

    `Emits` says which words `evalexp` puts where, with label operands still symbolic, and at which
    address each label it defines ends up.  `Emitter` is proved to produce this layout and
    `EmissionMeaning` proves what running it does. */
module Emission {
  import opened Words
  import opened ConstraintTree
  import opened Machine

  /** The `morelog` argument of `evalexp`: 0 (nothing follows), `N_AND` or `N_OR`. */
  datatype MoreLog = Tail | InAnd | InOr

  /** A code-buffer word: a value, or an operand naming a label. */
  datatype Sym = Word(w: nat) | Ref(lab: nat)

  /** Data put behind the code: an `in()` bitmap, a string or a compiled pattern. */
  datatype DataItem = InBits(values: seq<word>) | Text(s: string) | Pattern(p: string)

  datatype DataNode = DataNode(lab: nat, item: DataItem)

  function Negate(op: RelOp): RelOp
  {
    match op
    case Lt => Ge
    case Gt => Le
    case Le => Gt
    case Ge => Lt
    case Eq => Ne
    case Ne => Eq
  }

  function JumpIndex(op: RelOp): (k: nat)
    ensures k < 6 && JumpRel(k) == op
  {
    match op
    case Lt => 0
    case Gt => 1
    case Le => 2
    case Ge => 3
    case Eq => 4
    case Ne => 5
  }

  /** `addressingMode` */
  function Mode(env: Env, x: Operand, y: Operand): (m: nat)
    ensures m < 8
  {
    if x.Num? && y.Num? then 0
    else if x.Str? && y.Str? then 4
    else if x.Num? then 1
    else if x.Str? then 5
    else if y.Num? then 2
    else if y.Str? then 6
    else if x.id in env.numIndex then 3
    else 7
  }

  /** Words of code emitted for a node. */
  function Size(t: Tree): nat
  {
    match t
    case And(l, r) => Size(l) + Size(r)
    case Or(l, r) => Size(l) + Size(r)
    case Not(a) => Size(a)
    case Rel(_, _, _) => 4
    case Like(_, _) => 4
    case Flag(_) => 0
    case AttrOr(g, _) => if g == 0 then 3 else 4
    case AttrAnd(g, _) => if g == 0 then 3 else 4
    case In(_, _) => 5
  }

  /** The labels, the `morelog` argument and the next free label of one call of `evalexp`. */
  datatype Call = Call(tl: nat, fl: nat, m: MoreLog, lt: nat)

  /** The emitter's output: the code buffer, the labels defined so far and the pending data. */
  datatype Output = Output(sym: seq<Sym>, defs: map<nat, nat>, data: seq<DataNode>)
  {
    /** `more` is a later state of the same output. */
    ghost predicate GrowsTo(more: Output)
    {
      && sym <= more.sym
      && (forall l | l in defs :: l in more.defs && more.defs[l] == defs[l])
      && data <= more.data
    }
  }

  function OperandLabels(o: Operand): nat { if o.Str? then 1 else 0 }

  predicate RightLabelled(t: Tree, m: MoreLog)
    requires t.And? || t.Or?
  {
    if t.And? then t.right.Or? && m.InAnd? else t.right.And? && m.InOr?
  }

  predicate NotLabelled(t: Tree, m: MoreLog)
    requires t.Not?
  {
    (m.InAnd? && t.arg.And?) || (m.InOr? && t.arg.Or?)
  }

  /** The `morelog` a negation passes down. */
  function Flip(m: MoreLog): MoreLog { if m.InOr? then InAnd else InOr }

  /** Labels `evalexp` allocates for a node. */
  function Labels(t: Tree, m: MoreLog): nat
  {
    match t
    case And(l, r) =>
      (if l.Or? then 1 else 0) + Labels(l, InAnd) + (if RightLabelled(t, m) then 1 else 0) + Labels(r, m)
    case Or(l, r) =>
      (if l.And? then 1 else 0) + Labels(l, InOr) + (if RightLabelled(t, m) then 1 else 0) + Labels(r, m)
    case Not(a) => (if NotLabelled(t, m) then 1 else 0) + Labels(a, Flip(m))
    case Rel(_, x, y) => OperandLabels(x) + OperandLabels(y)
    case Like(_, _) => 1
    case In(_, _) => 1
    case _ => 0
  }

  /** The first operand gets a label of its own, defined right behind it. */
  predicate LeftLabelled(t: Tree)
    requires t.And? || t.Or?
  {
    if t.And? then t.left.Or? else t.left.And?
  }

  /** How an operand of a conjunction is evaluated: a labelled one jumps to its own label when true. */
  function AndOperandCall(labelled: bool, tl: nat, fl: nat, m: MoreLog, lt: nat): Call
  {
    if labelled then Call(lt, fl, InAnd, lt + 1) else Call(tl, fl, m, lt)
  }

  /** How an operand of a disjunction is evaluated: a labelled one jumps to its own label when false. */
  function OrOperandCall(labelled: bool, tl: nat, fl: nat, m: MoreLog, lt: nat): Call
  {
    if labelled then Call(tl, lt, InOr, lt + 1) else Call(tl, fl, m, lt)
  }

  function LeftCall(t: Tree, c: Call): Call
    requires t.And? || t.Or?
  {
    if t.And? then AndOperandCall(LeftLabelled(t), c.tl, c.fl, InAnd, c.lt)
    else OrOperandCall(LeftLabelled(t), c.tl, c.fl, InOr, c.lt)
  }

  /** The first label free after the first operand. */
  function RightLabel(t: Tree, c: Call): nat
    requires t.And? || t.Or?
  {
    LeftCall(t, c).lt + Labels(t.left, LeftCall(t, c).m)
  }

  function RightCall(t: Tree, c: Call): Call
    requires t.And? || t.Or?
  {
    if t.And? then AndOperandCall(RightLabelled(t, c.m), c.tl, c.fl, c.m, RightLabel(t, c))
    else OrOperandCall(RightLabelled(t, c.m), c.tl, c.fl, c.m, RightLabel(t, c))
  }

  function NotCall(t: Tree, c: Call): Call
    requires t.Not?
  {
    if !NotLabelled(t, c.m) then Call(c.fl, c.tl, Flip(c.m), c.lt)
    else if c.m.InAnd? then Call(c.fl, c.lt, Flip(c.m), c.lt + 1)
    else Call(c.lt, c.tl, Flip(c.m), c.lt + 1)
  }

  /** The label a test jumps to. */
  function Target(c: Call): nat { if c.m.InOr? then c.tl else c.fl }

  predicate At(sym: seq<Sym>, a: nat, s: Sym)
  {
    a < |sym| && sym[a] == s
  }

  predicate OperandAt(env: Env, b: Output, a: nat, o: Operand, lt: nat)
  {
    match o
    case Num(n) => At(b.sym, a, Word(n))
    case Name(id) => At(b.sym, a, Word(Index(env, id)))
    case Str(s) => At(b.sym, a, Ref(lt)) && DataNode(lt, Text(s)) in b.data
  }

  /** Label `l` is defined as address `a`. */
  predicate Defined(b: Output, l: nat, a: nat)
  {
    l in b.defs && b.defs[l] == a
  }

  predicate IsLeaf(t: Tree) { !t.And? && !t.Or? && !t.Not? }

  /** The opcode of a comparison; outside an OR the jump is taken when the comparison fails. */
  function RelOpcode(env: Env, t: Tree, m: MoreLog): nat
    requires t.Rel?
  {
    JLSS + 8 * JumpIndex(if m.InOr? then t.op else Negate(t.op)) + Mode(env, t.x, t.y)
  }

  /** The opcode of a flag test: on the document's own word or on a group, for any or all of the
      mask's bits, jumping when the test holds or when it fails. */
  function FlagOpcode(t: Tree, m: MoreLog): nat
    requires t.AttrOr? || t.AttrAnd?
  {
    if t.AttrOr? then
      if t.group1 == 0 then (if m.InOr? then ATTROR else NATTROR)
      else (if m.InOr? then ATTRORI else NATTRORI)
    else
      if t.group1 == 0 then (if m.InOr? then ATTRAND else NATTRAND)
      else (if m.InOr? then ATTRANDI else NATTRANDI)
  }

  predicate FlagTestAt(b: Output, a: nat, t: Tree, c: Call)
    requires t.AttrOr? || t.AttrAnd?
  {
    var k := if t.group1 == 0 then 1 else 2;
    && At(b.sym, a, Word(FlagOpcode(t, c.m)))
    && (t.group1 != 0 ==> At(b.sym, a + 1, Word(t.group1 - 1)))
    && At(b.sym, a + k, Word(t.mask))
    && At(b.sym, a + k + 1, Ref(Target(c)))
  }

  /** The code of a node that tests something: one instruction, whose last operand is the label to
      jump to when the test (under `InOr`) or its opposite (otherwise) succeeds. */
  predicate LeafAt(env: Env, b: Output, a: nat, t: Tree, c: Call)
    requires IsLeaf(t)
  {
    match t
    case Rel(_, x, y) =>
      && At(b.sym, a, Word(RelOpcode(env, t, c.m)))
      && OperandAt(env, b, a + 1, x, c.lt)
      && OperandAt(env, b, a + 2, y, c.lt + OperandLabels(x))
      && At(b.sym, a + 3, Ref(Target(c)))
    case Like(id, p) =>
      && At(b.sym, a, Word(if c.m.InOr? then JLIKE else JNLIKE))
      && At(b.sym, a + 1, Word(Index(env, id)))
      && At(b.sym, a + 2, Ref(c.lt)) && DataNode(c.lt, Pattern(p)) in b.data
      && At(b.sym, a + 3, Ref(Target(c)))
    case Flag(_) => true
    case AttrOr(_, _) => FlagTestAt(b, a, t, c)
    case AttrAnd(_, _) => FlagTestAt(b, a, t, c)
    case In(id, vs) =>
      && At(b.sym, a, Word(if c.m.InOr? then INNEQUAL else INEQUAL))
      && At(b.sym, a + 1, Word(Index(env, id))) && At(b.sym, a + 2, Word(MaxOf(vs)))
      && At(b.sym, a + 3, Ref(c.lt)) && DataNode(c.lt, InBits(vs)) in b.data
      && At(b.sym, a + 4, Ref(Target(c)))
  }

  /** The code `evalexp` emits for `t` when called with `c` is at address `a`. */
  ghost predicate Emits(env: Env, b: Output, a: nat, t: Tree, c: Call)
    decreases t
  {
    if IsLeaf(t) then
      LeafAt(env, b, a, t, c)
    else if t.Not? then
      && Emits(env, b, a, t.arg, NotCall(t, c))
      && (NotLabelled(t, c.m) ==> Defined(b, c.lt, a + Size(t)))
    else
      && Emits(env, b, a, t.left, LeftCall(t, c))
      && (LeftLabelled(t) ==> Defined(b, c.lt, a + Size(t.left)))
      && Emits(env, b, a + Size(t.left), t.right, RightCall(t, c))
      && (RightLabelled(t, c.m) ==> Defined(b, RightLabel(t, c), a + Size(t)))
  }

  lemma LeafStable(env: Env, b: Output, b': Output, a: nat, t: Tree, c: Call)
    requires IsLeaf(t) && LeafAt(env, b, a, t, c) && b.GrowsTo(b')
    ensures LeafAt(env, b', a, t, c)
  {
    assert forall i: nat, s | At(b.sym, i, s) :: At(b'.sym, i, s);
    assert forall n | n in b.data :: n in b'.data;
  }

  /** Code already emitted stays emitted while the buffer, the labels and the data list grow. */
  lemma {:induction false} EmitsStable(env: Env, b: Output, b': Output, a: nat, t: Tree, c: Call)
    requires Emits(env, b, a, t, c) && b.GrowsTo(b')
    ensures Emits(env, b', a, t, c)
    decreases t
  {
    if IsLeaf(t) {
      LeafStable(env, b, b', a, t, c);
    } else if t.Not? {
      EmitsStable(env, b, b', a, t.arg, NotCall(t, c));
    } else {
      EmitsStable(env, b, b', a, t.left, LeftCall(t, c));
      EmitsStable(env, b, b', a + Size(t.left), t.right, RightCall(t, c));
    }
  }

  ghost predicate LabelKnown(b: Output, c: Call, l: nat)
  {
    l == c.tl || l == c.fl || l in b.defs || exists n :: n in b.data && n.lab == l
  }

  /** Every operand in a node's code names one of its exits, a label it defined, or a data node. */
  lemma {:induction false} RefsCovered(env: Env, b: Output, a: nat, t: Tree, c: Call, i: nat)
    requires Emits(env, b, a, t, c) && FlagFree(t) && a <= i < a + Size(t)
    ensures i < |b.sym|
    ensures b.sym[i].Ref? ==> LabelKnown(b, c, b.sym[i].lab)
    decreases t
  {
    if IsLeaf(t) {
      if t.Rel? {
        assert i < a + 4;
      }
    } else if t.Not? {
      RefsCovered(env, b, a, t.arg, NotCall(t, c), i);
    } else if i < a + Size(t.left) {
      RefsCovered(env, b, a, t.left, LeftCall(t, c), i);
    } else {
      RefsCovered(env, b, a + Size(t.left), t.right, RightCall(t, c), i);
    }
  }

  /** `testedAlready`: a true outcome implies a flag word was found non-zero on the way. */
  predicate TestedAlready(t: Tree)
    requires FlagFree(t)
  {
    match t
    case And(l, r) => TestedAlready(l) || TestedAlready(r)
    case Or(l, r) => TestedAlready(l) && TestedAlready(r)
    case AttrOr(_, _) => true
    case AttrAnd(_, _) => true
    case _ => false
  }

  function AsWords(ws: seq<nat>): seq<Sym>
  {
    seq(|ws|, i requires 0 <= i < |ws| => Word(ws[i]))
  }

  /** The bitmap of an `in()` list: bit `v` is set exactly when `v` is listed. */
  ghost predicate BitmapOf(bits: seq<nat>, vs: seq<word>)
  {
    && |bits| == MaxOf(vs) / 32 + 1
    && forall v: nat | v <= MaxOf(vs) :: Bit(bits[v / 32], v % 32) <==> v in vs
  }

  /** The words stored for a data node. */
  ghost predicate ItemWords(env: Env, item: DataItem, ws: seq<nat>)
  {
    match item
    case Text(s) => env.decode(s) + [0] <= ws
    case Pattern(p) => env.grep(p) <= ws
    case InBits(vs) => BitmapOf(ws, vs)
  }

  ghost predicate StoredAt(sym: seq<Sym>, a: nat, ws: seq<nat>)
  {
    a + |ws| <= |sym| && sym[a..a + |ws|] == AsWords(ws)
  }

  ghost predicate ItemStored(env: Env, b: Output, n: DataNode)
  {
    n.lab in b.defs && exists ws :: ItemWords(env, n.item, ws) && StoredAt(b.sym, b.defs[n.lab], ws)
  }

  /** The code behind the tree, from `e` on: the existence test when one is needed, the results. */
  ghost predicate ResultsAt(b: Output, e: nat, t: Tree, tlab: nat, flab: nat)
    requires FlagFree(t)
  {
    var k := if TestedAlready(t) then e else e + 2;
    && Defined(b, tlab, e)
    && (!TestedAlready(t) ==> At(b.sym, e, Word(NEXIST)) && At(b.sym, e + 1, Ref(flab)))
    && At(b.sym, k, Word(TRUERESULT))
    && Defined(b, flab, k + 1) && At(b.sym, k + 1, Word(FALSERESULT))
  }

  /** The whole program: the tree's code from address 1, and the results behind it. */
  ghost predicate RootAt(env: Env, b: Output, t: Tree)
    requires FlagFree(t)
  {
    Emits(env, b, 1, t, Call(1, 2, Tail, 3)) && ResultsAt(b, 1 + Size(t), t, 1, 2)
  }
}
