/** The interpreter `CONSTRAINT_ENGINE`: one step per opcode over the raw code buffer. */
module Machine {
  import opened Words
  import opened ConstraintTree

  const FALSERESULT: nat := 0
  const TRUERESULT: nat := 1
  const JLSS: nat := 8        // six operators, eight addressing modes each
  const JLIKE: nat := 56
  const JNLIKE: nat := 57
  const ATTROR: nat := 58
  const ATTRORI: nat := 59
  const NATTROR: nat := 60
  const NATTRORI: nat := 61
  const ATTRAND: nat := 62
  const ATTRANDI: nat := 63
  const NATTRAND: nat := 64
  const NATTRANDI: nat := 65
  const NEXIST: nat := 66
  const INNEQUAL: nat := 67
  const INEQUAL: nat := 68

  datatype Outcome = Continue(pc: nat) | Done(result: bool) | Stuck

  /** The operator tested by the compare-and-jump opcode `JLSS + 8 * k + mode`. */
  function JumpRel(k: nat): RelOp
    requires k < 6
  {
    if k == 0 then Lt else if k == 1 then Gt else if k == 2 then Le
    else if k == 3 then Ge else if k == 4 then Eq else Ne
  }

  /** The zero-terminated wide string at `addr`. */
  function WideString(code: seq<nat>, addr: nat): seq<nat>
    decreases |code| - addr
  {
    if addr >= |code| || code[addr] == 0 then [] else [code[addr]] + WideString(code, addr + 1)
  }

  /** Fetch a numeric operand: a literal, or the document's value for an attribute index. */
  function NumFetch(d: Doc, literal: bool, w: nat): nat
  {
    if literal then w else d.num(w)
  }

  /** Fetch a string operand: a literal in the code buffer, or the document's value. */
  function StrFetch(d: Doc, code: seq<nat>, literal: bool, w: nat): seq<nat>
  {
    if literal then WideString(code, w) else d.str(w)
  }

  /** The result of comparing the two operands in addressing mode `mode`. */
  function Compare(env: Env, d: Doc, code: seq<nat>, mode: nat, a: nat, b: nat): int
  {
    var leftLiteral := mode % 4 == 0 || mode % 4 == 1;
    var rightLiteral := mode % 4 == 0 || mode % 4 == 2;
    if mode < 4 then NumFetch(d, leftLiteral, a) - NumFetch(d, rightLiteral, b)
    else env.collate(StrFetch(d, code, leftLiteral, a), StrFetch(d, code, rightLiteral, b))
  }

  function Branch(taken: bool, target: nat, next: nat): Outcome
  {
    Continue(if taken then target else next)
  }

  /** Execute the instruction at `pc`.  Reading past the end of the buffer leaves the machine stuck. */
  function Step(env: Env, d: Doc, code: seq<nat>, pc: nat): Outcome
  {
    if pc >= |code| then Stuck
    else
      var op := code[pc];
      if op == FALSERESULT then Done(false)
      else if op == TRUERESULT then Done(true)
      else if op < JLSS then Continue(pc + 2)
      else if op == NEXIST then
        if pc + 1 >= |code| then Stuck else Branch(!d.Exists(), code[pc + 1], pc + 2)
      else if pc + 2 >= |code| then Stuck
      else if op == ATTROR then Branch(Words.And(d.docFlags, code[pc + 1]) != 0, code[pc + 2], pc + 3)
      else if op == NATTROR then Branch(Words.And(d.docFlags, code[pc + 1]) == 0, code[pc + 2], pc + 3)
      else if op == ATTRAND then
        Branch(Words.And(d.docFlags, code[pc + 1]) == code[pc + 1], code[pc + 2], pc + 3)
      else if op == NATTRAND then
        Branch(Words.And(d.docFlags, code[pc + 1]) != code[pc + 1], code[pc + 2], pc + 3)
      else if pc + 3 >= |code| then Stuck
      else if op < JLIKE then
        var c := Compare(env, d, code, (op - JLSS) % 8, code[pc + 1], code[pc + 2]);
        Branch(Holds(JumpRel((op - JLSS) / 8), c), code[pc + 3], pc + 4)
      else if op == JLIKE || op == JNLIKE then
        if code[pc + 2] + NGREPPERWORDS > |code| then Stuck
        else
          var grepper := code[code[pc + 2]..code[pc + 2] + NGREPPERWORDS];
          Branch(env.like(grepper, d.str(code[pc + 1])) == (op == JLIKE), code[pc + 3], pc + 4)
      else if op == ATTRORI then
        Branch(Words.And(d.flagGroup(code[pc + 1]), code[pc + 2]) != 0, code[pc + 3], pc + 4)
      else if op == NATTRORI then
        Branch(Words.And(d.flagGroup(code[pc + 1]), code[pc + 2]) == 0, code[pc + 3], pc + 4)
      else if op == ATTRANDI then
        Branch(Words.And(d.flagGroup(code[pc + 1]), code[pc + 2]) == code[pc + 2], code[pc + 3], pc + 4)
      else if op == NATTRANDI then
        Branch(Words.And(d.flagGroup(code[pc + 1]), code[pc + 2]) != code[pc + 2], code[pc + 3], pc + 4)
      else if pc + 4 >= |code| then Stuck
      else if op == INNEQUAL || op == INEQUAL then
        var v := d.num(code[pc + 1]);
        if v > code[pc + 2] then Branch(op == INEQUAL, code[pc + 4], pc + 5)
        else if code[pc + 3] + v / 32 >= |code| then Stuck
        else
          var found := Words.And(code[code[pc + 3] + v / 32], Pow2(v % 32)) != 0;
          Branch(found == (op == INNEQUAL), code[pc + 4], pc + 5)
      else Stuck
  }

  /** Run at most `fuel` instructions. */
  function Run(env: Env, d: Doc, code: seq<nat>, pc: nat, fuel: nat): Outcome
    decreases fuel
  {
    if fuel == 0 then Continue(pc)
    else
      var o := Step(env, d, code, pc);
      if o.Continue? then Run(env, d, code, o.pc, fuel - 1) else o
  }

  /** Running for `m` and then for `n` more steps is running for `m + n` steps. */
  lemma {:induction false} RunSplit(env: Env, d: Doc, code: seq<nat>, pc: nat, m: nat, n: nat)
    ensures Run(env, d, code, pc, m + n) ==
            var o := Run(env, d, code, pc, m);
            if o.Continue? then Run(env, d, code, o.pc, n) else o
    decreases m
  {
    if m > 0 {
      var o := Step(env, d, code, pc);
      if o.Continue? { RunSplit(env, d, code, o.pc, m - 1, n); }
    }
  }
}
