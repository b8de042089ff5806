/** The recursive-descent parser, over the token stream, and the grammar it recognises. */
module Parser {
  import opened Words
  import opened ConstraintTree

  /** The lexer's tokens.  The end of the sequence is `END`. */
  datatype Token =
    | TLParen | TRParen | TComma
    | TIdent(id: string) | TUlong(n: word) | TString(s: string)
    | TRel(op: RelOp) | TLike | TIn
    | TNot | TAnd | TOr

  /** A parsed phrase and the tokens behind it, or a reported error (a `longjmp`). */
  datatype Parsed<T> = Ok(value: T, rest: seq<Token>) | Error

  predicate Next(ts: seq<Token>, t: Token)
  {
    ts != [] && ts[0] == t
  }

  /** What may follow a factor, a term and a constraint without being taken as part of it. */
  predicate EndsFactor(rest: seq<Token>)
  {
    rest == [] || !(rest[0].TRel? || rest[0].TLike? || rest[0].TIn?)
  }

  predicate EndsTerm(rest: seq<Token>) { EndsFactor(rest) && !Next(rest, TAnd) }

  predicate EndsBool(rest: seq<Token>) { EndsTerm(rest) && !Next(rest, TOr) }

  /** An operand token and the leaf built for it. */
  predicate IsOperand(t: Token)
  {
    t.TIdent? || t.TUlong? || t.TString?
  }

  function OperandOf(t: Token): Operand
    requires IsOperand(t)
  {
    match t
    case TIdent(id) => Name(id)
    case TUlong(n) => Num(n)
    case TString(s) => Str(s)
  }

  /** `numberList`: a comma at the end of the list is accepted. */
  function NumberList(ts: seq<Token>): (r: (seq<word>, seq<Token>))
    ensures |r.1| <= |ts|
    ensures ts != [] && ts[0].TUlong? ==> r.0 != [] && |r.1| < |ts|
  {
    if ts == [] || !ts[0].TUlong? then ([], ts)
    else if Next(ts[1..], TComma) then
      var (vs, rest) := NumberList(ts[2..]);
      ([ts[0].n] + vs, rest)
    else ([ts[0].n], ts[1..])
  }

  /** What the parser checks about `x op y`. */
  predicate Comparable(env: Env, x: Operand, y: Operand)
  {
    Known(env, x) && Known(env, y) && IsNumeric(env, x) == IsNumeric(env, y)
  }

  /** `relop` and what `factor` does behind it; `ts` starts with the operator. */
  function ParseRelation(env: Env, x: Operand, ts: seq<Token>): (r: Parsed<Tree>)
    requires ts != [] && (ts[0].TRel? || ts[0].TLike?)
    ensures r.Ok? ==> |r.rest| < |ts|
  {
    if |ts| < 2 || !IsOperand(ts[1]) then Error
    else
      var y := OperandOf(ts[1]);
      if ts[0].TLike? then
        if !x.Name? || x.id !in env.strIndex || !y.Str? then Error
        else Ok(Like(x.id, y.s), ts[2..])
      else if !Comparable(env, x, y) then Error
      else Ok(Rel(ts[0].op, x, y), ts[2..])
  }

  /** `inFunction`; `ts` starts behind the word `in`. */
  function ParseIn(id: string, ts: seq<Token>): (r: Parsed<Tree>)
    ensures r.Ok? ==> |r.rest| < |ts|
  {
    if |ts| < 2 || !ts[0].TLParen? || !ts[1].TUlong? then Error
    else
      var (vs, rest) := NumberList(ts[1..]);
      if !Next(rest, TRParen) then Error else Ok(In(id, vs), rest[1..])
  }

  /** `factor` from an operand token on. */
  function ParsePrimary(env: Env, ts: seq<Token>): (r: Parsed<Tree>)
    requires ts != [] && IsOperand(ts[0])
    ensures r.Ok? ==> |r.rest| < |ts|
  {
    var x := OperandOf(ts[0]);
    var more := ts[1..];
    if !EndsFactor(more) && !Next(more, TIn) then ParseRelation(env, x, more)
    else if !x.Name? then Error
    else if Next(more, TIn) then ParseIn(x.id, more[1..])
    else if x.id !in env.flags then Error
    else Ok(Flag(x.id), more)
  }

  function ParseTermDash(env: Env, p1: Tree, ts: seq<Token>): (r: Parsed<Tree>)
    ensures r.Ok? ==> |r.rest| <= |ts|
    decreases |ts|, 1
  {
    if !Next(ts, TAnd) then Ok(p1, ts)
    else
      var p2 := ParseFactor(env, ts[1..]);
      if p2.Error? then Error
      else
        var p3 := ParseTermDash(env, p2.value, p2.rest);
        if p3.Error? then Error else Ok(And(p1, p3.value), p3.rest)
  }

  function ParseTerm(env: Env, ts: seq<Token>): (r: Parsed<Tree>)
    ensures r.Ok? ==> |r.rest| < |ts|
    decreases |ts|, 2
  {
    var p1 := ParseFactor(env, ts);
    if p1.Error? then Error else ParseTermDash(env, p1.value, p1.rest)
  }

  function ParseBooleanDash(env: Env, p1: Tree, ts: seq<Token>): (r: Parsed<Tree>)
    ensures r.Ok? ==> |r.rest| <= |ts|
    decreases |ts|, 3
  {
    if !Next(ts, TOr) then Ok(p1, ts)
    else
      var p2 := ParseTerm(env, ts[1..]);
      if p2.Error? then Error
      else
        var p3 := ParseBooleanDash(env, p2.value, p2.rest);
        if p3.Error? then Error else Ok(Or(p1, p3.value), p3.rest)
  }

  function ParseBoolean(env: Env, ts: seq<Token>): (r: Parsed<Tree>)
    ensures r.Ok? ==> |r.rest| < |ts|
    decreases |ts|, 4
  {
    var p1 := ParseTerm(env, ts);
    if p1.Error? then Error else ParseBooleanDash(env, p1.value, p1.rest)
  }

  function ParseFactor(env: Env, ts: seq<Token>): (r: Parsed<Tree>)
    ensures r.Ok? ==> |r.rest| < |ts|
    decreases |ts|, 0
  {
    if ts == [] then Error
    else if ts[0].TLParen? then
      var p := ParseBoolean(env, ts[1..]);
      if p.Error? || !Next(p.rest, TRParen) then Error
      else Ok(p.value, p.rest[1..])
    else if ts[0].TNot? then
      var p := ParseFactor(env, ts[1..]);
      if p.Error? then Error else Ok(Not(p.value), p.rest)
    else if IsOperand(ts[0]) then ParsePrimary(env, ts)
    else Error
  }

  /** A whole constraint: nothing may follow it. */
  function ParseQuery(env: Env, ts: seq<Token>): Parsed<Tree>
  {
    var p := ParseBoolean(env, ts);
    if p.Error? || p.rest != [] then Error else p
  }

  // ----- the grammar -----

  datatype FactorSyntax =
    | Paren(b: BoolSyntax)
    | NotFactor(f: FactorSyntax)
    | Relation(x: Operand, op: RelOp, y: Operand)
    | LikePattern(id: string, pattern: string)
    | InList(id: string, values: seq<word>, trailingComma: bool)
    | FlagName(id: string)

  datatype TermSyntax = OneFactor(f: FactorSyntax) | AndFactors(f: FactorSyntax, more: TermSyntax)

  /** Concrete syntax: `bool ::= term | term OR bool`, `term ::= factor | factor AND term`. */
  datatype BoolSyntax = OneTerm(t: TermSyntax) | OrTerms(t: TermSyntax, more: BoolSyntax)

  function TokenOf(o: Operand): Token
  {
    match o
    case Name(id) => TIdent(id)
    case Num(n) => TUlong(n)
    case Str(s) => TString(s)
  }

  function NumberTokens(vs: seq<word>, trailingComma: bool): seq<Token>
  {
    if vs == [] then []
    else if |vs| == 1 then [TUlong(vs[0])] + if trailingComma then [TComma] else []
    else [TUlong(vs[0]), TComma] + NumberTokens(vs[1..], trailingComma)
  }

  function TermTokens(t: TermSyntax): seq<Token>
  {
    match t
    case OneFactor(f) => FactorTokens(f)
    case AndFactors(f, more) => FactorTokens(f) + [TAnd] + TermTokens(more)
  }

  function BoolTokens(b: BoolSyntax): seq<Token>
  {
    match b
    case OneTerm(t) => TermTokens(t)
    case OrTerms(t, more) => TermTokens(t) + [TOr] + BoolTokens(more)
  }

  /** The sentence a phrase of the grammar spells. */
  function FactorTokens(f: FactorSyntax): seq<Token>
  {
    match f
    case Paren(b) => [TLParen] + BoolTokens(b) + [TRParen]
    case NotFactor(g) => [TNot] + FactorTokens(g)
    case Relation(x, op, y) => [TokenOf(x), TRel(op), TokenOf(y)]
    case LikePattern(id, p) => [TIdent(id), TLike, TString(p)]
    case InList(id, vs, c) => [TIdent(id), TIn, TLParen] + NumberTokens(vs, c) + [TRParen]
    case FlagName(id) => [TIdent(id)]
  }

  function TermTree(t: TermSyntax): Tree
  {
    match t
    case OneFactor(f) => FactorTree(f)
    case AndFactors(f, more) => And(FactorTree(f), TermTree(more))
  }

  function BoolTree(b: BoolSyntax): Tree
  {
    match b
    case OneTerm(t) => TermTree(t)
    case OrTerms(t, more) => Or(TermTree(t), BoolTree(more))
  }

  /** The tree a phrase stands for: AND binds tighter than OR, NOT tighter still, and runs of either
      group to the right. */
  function FactorTree(f: FactorSyntax): Tree
  {
    match f
    case Paren(b) => BoolTree(b)
    case NotFactor(g) => Not(FactorTree(g))
    case Relation(x, op, y) => Rel(op, x, y)
    case LikePattern(id, p) => Like(id, p)
    case InList(id, vs, _) => In(id, vs)
    case FlagName(id) => Flag(id)
  }

  // ----- completeness: every sentence of the grammar is accepted -----

  lemma Regroup(x: seq<Token>, t: Token, y: seq<Token>, rest: seq<Token>)
    ensures x + [t] + y + rest == x + ([t] + (y + rest))
    ensures ([t] + (y + rest))[1..] == y + rest
  {
  }

  lemma {:induction false} NumbersComplete(vs: seq<word>, c: bool, rest: seq<Token>)
    requires vs != [] && Next(rest, TRParen)
    ensures NumberList(NumberTokens(vs, c) + rest) == (vs, rest)
  {
    var ts := NumberTokens(vs, c) + rest;
    assert [vs[0]] + vs[1..] == vs;
    assert ts[0] == TUlong(vs[0]);
    if |vs| == 1 {
      if c {
        assert ts == [TUlong(vs[0]), TComma] + rest;
        assert ts[2..] == rest;
      } else {
        assert ts == [TUlong(vs[0])] + rest;
        assert ts[1..] == rest && vs == [vs[0]];
        assert !Next(rest, TComma);
      }
    } else {
      NumbersComplete(vs[1..], c, rest);
      assert ts[2..] == NumberTokens(vs[1..], c) + rest;
    }
  }

  lemma RelationComplete(env: Env, x: Operand, op: RelOp, y: Operand, rest: seq<Token>)
    requires Comparable(env, x, y)
    ensures ParseFactor(env, [TokenOf(x), TRel(op), TokenOf(y)] + rest) == Ok(Rel(op, x, y), rest)
  {
    var ts := [TokenOf(x), TRel(op), TokenOf(y)] + rest;
    assert ts[1..] == [TRel(op), TokenOf(y)] + rest;
    assert ts[1..][2..] == rest;
  }

  lemma LikeComplete(env: Env, id: string, p: string, rest: seq<Token>)
    requires id in env.strIndex
    ensures ParseFactor(env, [TIdent(id), TLike, TString(p)] + rest) == Ok(Like(id, p), rest)
  {
    var ts := [TIdent(id), TLike, TString(p)] + rest;
    assert ts[1..] == [TLike, TString(p)] + rest;
    assert ts[1..][2..] == rest;
  }

  lemma InListComplete(id: string, vs: seq<word>, c: bool, rest: seq<Token>)
    requires vs != []
    ensures ParseIn(id, [TLParen] + (NumberTokens(vs, c) + ([TRParen] + rest))) == Ok(In(id, vs), rest)
  {
    var close := [TRParen] + rest;
    var nums := NumberTokens(vs, c) + close;
    NumbersComplete(vs, c, close);
    assert nums[0] == TUlong(vs[0]);
    assert ([TLParen] + nums)[1..] == nums && close[1..] == rest;
  }

  lemma InComplete(env: Env, id: string, vs: seq<word>, c: bool, rest: seq<Token>)
    requires vs != []
    ensures ParseFactor(env, [TIdent(id), TIn, TLParen] + NumberTokens(vs, c) + [TRParen] + rest) ==
            Ok(In(id, vs), rest)
  {
    var tail := [TLParen] + (NumberTokens(vs, c) + ([TRParen] + rest));
    InListComplete(id, vs, c, rest);
    var ts := [TIdent(id), TIn, TLParen] + NumberTokens(vs, c) + [TRParen] + rest;
    assert ts == [TIdent(id), TIn] + tail;
    assert ts[1..][1..] == tail;
  }

  lemma {:induction false} TermComplete(env: Env, t: TermSyntax, rest: seq<Token>)
    requires Typed(env, TermTree(t)) && EndsTerm(rest)
    ensures ParseTerm(env, TermTokens(t) + rest) == Ok(TermTree(t), rest)
    decreases t
  {
    match t
    case OneFactor(f) => FactorComplete(env, f, rest);
    case AndFactors(f, more) =>
      Regroup(FactorTokens(f), TAnd, TermTokens(more), rest);
      FactorComplete(env, f, [TAnd] + (TermTokens(more) + rest));
      TermComplete(env, more, rest);
  }

  lemma {:induction false} BoolComplete(env: Env, b: BoolSyntax, rest: seq<Token>)
    requires Typed(env, BoolTree(b)) && EndsBool(rest)
    ensures ParseBoolean(env, BoolTokens(b) + rest) == Ok(BoolTree(b), rest)
    decreases b
  {
    match b
    case OneTerm(t) => TermComplete(env, t, rest);
    case OrTerms(t, more) =>
      Regroup(TermTokens(t), TOr, BoolTokens(more), rest);
      TermComplete(env, t, [TOr] + (BoolTokens(more) + rest));
      BoolComplete(env, more, rest);
  }

  lemma Enclose(x: seq<Token>, rest: seq<Token>)
    ensures [TLParen] + x + [TRParen] + rest == [TLParen] + (x + ([TRParen] + rest))
    ensures ([TLParen] + (x + ([TRParen] + rest)))[1..] == x + ([TRParen] + rest)
  {
  }

  lemma {:induction false} FactorComplete(env: Env, f: FactorSyntax, rest: seq<Token>)
    requires Typed(env, FactorTree(f)) && EndsFactor(rest)
    ensures ParseFactor(env, FactorTokens(f) + rest) == Ok(FactorTree(f), rest)
    decreases f
  {
    var ts := FactorTokens(f) + rest;
    match f
    case Paren(b) =>
      BoolComplete(env, b, [TRParen] + rest);
      Enclose(BoolTokens(b), rest);
      assert ([TRParen] + rest)[1..] == rest;
    case NotFactor(g) =>
      FactorComplete(env, g, rest);
      assert ts == [TNot] + (FactorTokens(g) + rest);
    case Relation(x, op, y) => RelationComplete(env, x, op, y, rest);
    case LikePattern(id, p) => LikeComplete(env, id, p, rest);
    case InList(id, vs, c) => InComplete(env, id, vs, c, rest);
    case FlagName(id) => assert ts[1..] == rest;
  }

  // ----- soundness: whatever is accepted is a sentence of the grammar -----

  lemma {:induction false} NumbersSound(ts: seq<Token>) returns (c: bool)
    requires ts != [] && ts[0].TUlong?
    ensures var (vs, rest) := NumberList(ts); vs != [] && ts == NumberTokens(vs, c) + rest
  {
    var (vs, rest) := NumberList(ts);
    if Next(ts[1..], TComma) {
      if |ts| > 2 && ts[2].TUlong? {
        c := NumbersSound(ts[2..]);
        var (ws, _) := NumberList(ts[2..]);
        assert vs[1..] == ws;
        assert ts == [ts[0], TComma] + ts[2..];
      } else {
        c := true;
        assert ts == [ts[0], TComma] + rest;
      }
    } else {
      c := false;
      assert ts == [ts[0]] + rest;
    }
  }

  lemma RelationSound(env: Env, x: Operand, ts: seq<Token>) returns (f: FactorSyntax)
    requires ts != [] && (ts[0].TRel? || ts[0].TLike?) && ParseRelation(env, x, ts).Ok?
    ensures var p := ParseRelation(env, x, ts);
            FactorTokens(f) + p.rest == [TokenOf(x)] + ts && FactorTree(f) == p.value && Typed(env, p.value)
  {
    var p := ParseRelation(env, x, ts);
    assert ts == [ts[0], ts[1]] + ts[2..];
    f := if ts[0].TLike? then LikePattern(p.value.id, p.value.pattern)
         else Relation(x, p.value.op, p.value.y);
    assert FactorTokens(f) == [TokenOf(x), ts[0], ts[1]];
  }

  lemma InSound(env: Env, id: string, ts: seq<Token>) returns (f: FactorSyntax)
    requires ParseIn(id, ts).Ok?
    ensures var p := ParseIn(id, ts);
            FactorTokens(f) + p.rest == [TIdent(id), TIn] + ts && FactorTree(f) == p.value && Typed(env, p.value)
  {
    var c := NumbersSound(ts[1..]);
    var (vs, rest) := NumberList(ts[1..]);
    f := InList(id, vs, c);
    hide NumberTokens, NumberList;
    assert ts == [TLParen] + (NumberTokens(vs, c) + rest);
    assert rest == [TRParen] + rest[1..];
    assert [TIdent(id), TIn] + ts == [TIdent(id), TIn, TLParen] + NumberTokens(vs, c) + [TRParen] + rest[1..];
  }

  lemma PrimarySound(env: Env, ts: seq<Token>) returns (f: FactorSyntax)
    requires ts != [] && IsOperand(ts[0]) && ParsePrimary(env, ts).Ok?
    ensures var p := ParsePrimary(env, ts);
            FactorTokens(f) + p.rest == ts && FactorTree(f) == p.value && Typed(env, p.value)
  {
    var x := OperandOf(ts[0]);
    var more := ts[1..];
    assert TokenOf(x) == ts[0] && ts == [ts[0]] + more;
    if !EndsFactor(more) && !Next(more, TIn) {
      f := RelationSound(env, x, more);
    } else if Next(more, TIn) {
      f := InSound(env, x.id, more[1..]);
      assert ts == [ts[0], TIn] + more[1..];
    } else {
      f := FlagName(x.id);
    }
  }

  lemma {:induction false} TermSound(env: Env, ts: seq<Token>) returns (t: TermSyntax)
    requires ParseTerm(env, ts).Ok?
    ensures var p := ParseTerm(env, ts);
            TermTokens(t) + p.rest == ts && TermTree(t) == p.value && Typed(env, p.value)
    decreases |ts|, 2
  {
    var f := FactorSound(env, ts);
    var p1 := ParseFactor(env, ts);
    if Next(p1.rest, TAnd) {
      var next := p1.rest[1..];
      var more := TermSound(env, next);
      t := AndFactors(f, more);
      Regroup(FactorTokens(f), TAnd, TermTokens(more), ParseTerm(env, next).rest);
      assert p1.rest == [TAnd] + next;
    } else {
      t := OneFactor(f);
    }
  }

  lemma {:induction false} BoolSound(env: Env, ts: seq<Token>) returns (b: BoolSyntax)
    requires ParseBoolean(env, ts).Ok?
    ensures var p := ParseBoolean(env, ts);
            BoolTokens(b) + p.rest == ts && BoolTree(b) == p.value && Typed(env, p.value)
    decreases |ts|, 4
  {
    var t := TermSound(env, ts);
    var p1 := ParseTerm(env, ts);
    if Next(p1.rest, TOr) {
      var next := p1.rest[1..];
      var more := BoolSound(env, next);
      b := OrTerms(t, more);
      Regroup(TermTokens(t), TOr, BoolTokens(more), ParseBoolean(env, next).rest);
      assert p1.rest == [TOr] + next;
    } else {
      b := OneTerm(t);
    }
  }

  lemma {:induction false} FactorSound(env: Env, ts: seq<Token>) returns (f: FactorSyntax)
    requires ParseFactor(env, ts).Ok?
    ensures var p := ParseFactor(env, ts);
            FactorTokens(f) + p.rest == ts && FactorTree(f) == p.value && Typed(env, p.value)
    decreases |ts|, 0
  {
    if ts[0].TLParen? {
      var b := BoolSound(env, ts[1..]);
      f := Paren(b);
      var rest := ParseBoolean(env, ts[1..]).rest;
      Enclose(BoolTokens(b), rest[1..]);
      assert rest == [TRParen] + rest[1..] && ts == [TLParen] + ts[1..];
    } else if ts[0].TNot? {
      var g := FactorSound(env, ts[1..]);
      f := NotFactor(g);
      var p := ParseFactor(env, ts[1..]);
      assert ts == [TNot] + (FactorTokens(g) + p.rest);
      assert FactorTokens(f) + p.rest == [TNot] + (FactorTokens(g) + p.rest);
    } else {
      f := PrimarySound(env, ts);
    }
  }

  /** The parser accepts exactly the well-typed sentences of the grammar, and builds the tree the
      grammar gives them. */
  lemma ParserMeetsGrammar(env: Env, ts: seq<Token>, tree: Tree)
    ensures ParseQuery(env, ts) == Ok(tree, []) <==>
            exists b :: BoolTokens(b) == ts && BoolTree(b) == tree && Typed(env, tree)
  {
    if ParseQuery(env, ts) == Ok(tree, []) {
      var b := BoolSound(env, ts);
      assert BoolTokens(b) + [] == BoolTokens(b);
    }
    if exists b :: BoolTokens(b) == ts && BoolTree(b) == tree && Typed(env, tree) {
      var b :| BoolTokens(b) == ts && BoolTree(b) == tree && Typed(env, tree);
      BoolComplete(env, b, []);
      assert BoolTokens(b) + [] == ts;
    }
  }

  /** The grammar is unambiguous: a sentence has one tree. */
  lemma GrammarUnambiguous(env: Env, b: BoolSyntax, b': BoolSyntax)
    requires BoolTokens(b) == BoolTokens(b')
    requires Typed(env, BoolTree(b)) && Typed(env, BoolTree(b'))
    ensures BoolTree(b) == BoolTree(b')
  {
    BoolComplete(env, b, []);
    BoolComplete(env, b', []);
  }
}
