/** The constraint language: parse trees, the attribute schema and a plain evaluator.

    The evaluator is the reference the compiler is proved against.  It reads a document's values
    directly and knows nothing of labels, jumps, masks or node ordering. */
module ConstraintTree {
  import opened Words

  datatype RelOp = Lt | Gt | Le | Ge | Eq | Ne

  /** A leaf operand: `N_ULONG`, `N_STRING` or `N_IDENT`. */
  datatype Operand = Num(n: word) | Str(s: string) | Name(id: string)

  /** A node of the tree in `treeMem`.  `Flag` is an identifier standing alone; the optimiser turns
      it into `AttrOr` or `AttrAnd`, whose `group1` is the flag group plus one (0 is the word that
      lives in the document table). */
  datatype Tree =
    | And(left: Tree, right: Tree)
    | Or(left: Tree, right: Tree)
    | Not(arg: Tree)
    | Rel(op: RelOp, x: Operand, y: Operand)
    | Like(id: string, pattern: string)
    | Flag(id: string)
    | AttrOr(group1: nat, mask: nat)
    | AttrAnd(group1: nat, mask: nat)
    | In(id: string, values: seq<word>)

  /** Where a flag attribute lives: `group < 0` means the document's own flag word. */
  datatype FlagPlace = FlagPlace(group: int, bit: nat)

  /** Words in an `ntvgrepper_t`: a 64-bit mask, a pointer and a count. */
  const NGREPPERWORDS: nat := 4

  /** The attribute definitions and the library routines the compiler and interpreter call:
      `decode` turns UTF-8 text into a string of wide characters, `collate` compares two of those,
      `grep` builds a pattern automaton and `like` runs one. */
  datatype Env = Env(
    numIndex: map<string, nat>,
    strIndex: map<string, nat>,
    flags: map<string, FlagPlace>,
    decode: string -> seq<nat>,
    collate: (seq<nat>, seq<nat>) -> int,
    grep: string -> seq<nat>,
    like: (seq<nat>, seq<nat>) -> bool)
  {
    /** Flag groups are -1 or above and hold 32 flags each; decoding never lengthens a text and
        yields no terminator; every compiled pattern fills one `ntvgrepper_t`. */
    ghost predicate Valid()
    {
      && (forall id | id in flags :: flags[id].group >= -1 && flags[id].bit < 32)
      && (forall s :: |decode(s)| <= |s| && 0 !in decode(s))
      && (forall p :: |grep(p)| == NGREPPERWORDS)
    }
  }

  /** A document's stored values: flag words, numeric values and decoded string values, the last
      two by attribute index. */
  datatype Doc = Doc(docFlags: nat, flagGroup: nat -> nat, num: nat -> nat, str: nat -> seq<nat>)
  {
    /** `NTV_DOCBIT_EXISTS` */
    predicate Exists() { Bit(docFlags, 0) }

    /** The flag word with group number `group1 - 1`. */
    function FlagWord(group1: nat): nat
    {
      if group1 == 0 then docFlags else flagGroup(group1 - 1)
    }
  }

  /** The operand word emitted for an attribute name; an unknown name yields -1. */
  function Index(env: Env, id: string): nat
  {
    if id in env.numIndex then env.numIndex[id]
    else if id in env.strIndex then env.strIndex[id]
    else WORD_LIMIT - 1
  }

  predicate IsNumeric(env: Env, o: Operand)
  {
    match o
    case Num(_) => true
    case Str(_) => false
    case Name(id) => id in env.numIndex
  }

  predicate Known(env: Env, o: Operand)
  {
    o.Name? ==> o.id in env.numIndex || o.id in env.strIndex
  }

  function NumValue(env: Env, d: Doc, o: Operand): nat
  {
    match o
    case Num(n) => n
    case Str(_) => 0
    case Name(id) => d.num(Index(env, id))
  }

  function StrValue(env: Env, d: Doc, o: Operand): seq<nat>
  {
    match o
    case Num(_) => []
    case Str(s) => env.decode(s)
    case Name(id) => d.str(Index(env, id))
  }

  /** Whether a comparison result, negative, zero or positive, satisfies an operator. */
  predicate Holds(op: RelOp, c: int)
  {
    match op
    case Lt => c < 0
    case Gt => c > 0
    case Le => c <= 0
    case Ge => c >= 0
    case Eq => c == 0
    case Ne => c != 0
  }

  /** The plain meaning of a constraint on one document. */
  predicate Eval(env: Env, d: Doc, t: Tree)
  {
    match t
    case And(l, r) => Eval(env, d, l) && Eval(env, d, r)
    case Or(l, r) => Eval(env, d, l) || Eval(env, d, r)
    case Not(a) => !Eval(env, d, a)
    case Rel(op, x, y) =>
      Holds(op,
            if IsNumeric(env, x) then NumValue(env, d, x) - NumValue(env, d, y)
            else env.collate(StrValue(env, d, x), StrValue(env, d, y)))
    case Like(id, p) => env.like(env.grep(p), d.str(Index(env, id)))
    case Flag(id) =>
      id in env.flags && env.flags[id].group >= -1 &&
      Bit(d.FlagWord(env.flags[id].group + 1), env.flags[id].bit)
    case AttrOr(g, m) => Words.And(d.FlagWord(g), m) != 0
    case AttrAnd(g, m) => Words.And(d.FlagWord(g), m) == m
    case In(id, vs) => d.num(Index(env, id)) in vs
  }

  /** What the parser checks before it builds a node. */
  predicate Typed(env: Env, t: Tree)
  {
    match t
    case And(l, r) => Typed(env, l) && Typed(env, r)
    case Or(l, r) => Typed(env, l) && Typed(env, r)
    case Not(a) => Typed(env, a)
    case Rel(_, x, y) => Known(env, x) && Known(env, y) && IsNumeric(env, x) == IsNumeric(env, y)
    case Like(id, _) => id in env.strIndex
    case Flag(id) => id in env.flags
    case AttrOr(_, m) => m != 0
    case AttrAnd(_, m) => m != 0
    case In(_, vs) => vs != []
  }

  /** No identifier is left standing alone: what the optimiser hands to the code generator. */
  predicate FlagFree(t: Tree)
  {
    match t
    case And(l, r) => FlagFree(l) && FlagFree(r)
    case Or(l, r) => FlagFree(l) && FlagFree(r)
    case Not(a) => FlagFree(a)
    case Flag(_) => false
    case _ => true
  }

  /** The largest member of a list, 0 for an empty one. */
  function MaxOf(vs: seq<word>): (m: nat)
    ensures forall v | v in vs :: v <= m
    ensures vs != [] ==> m in vs
  {
    if vs == [] then 0
    else
      var m := MaxOf(vs[1..]);
      assert vs == [vs[0]] + vs[1..];
      if vs[0] > m then vs[0] else m
  }

  const INFUNCTIONMAXVALUE: nat := 1000000

  /** No `in()` list holds a value the compiler refuses. */
  predicate InListsBounded(t: Tree)
  {
    match t
    case And(l, r) => InListsBounded(l) && InListsBounded(r)
    case Or(l, r) => InListsBounded(l) && InListsBounded(r)
    case Not(a) => InListsBounded(a)
    case In(_, vs) => MaxOf(vs) <= INFUNCTIONMAXVALUE
    case _ => true
  }
}
