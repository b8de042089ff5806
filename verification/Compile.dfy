/** `ntvCompileQuery`: parse, optimise, and either hand back a plain flag mask or emit code. */
module Compile {
  import opened Words
  import opened ConstraintTree
  import opened Parser
  import Optimiser
  import opened Machine
  import opened Emission
  import opened EmissionMeaning
  import opened Emitter

  /** `Overrun` stands for the undefined behaviour of an insertion beyond the cluster table. */
  datatype Compiled = Rejected | Overrun | Simple(mask: nat) | Code(code: seq<nat>)

  function NewTree(env: Env, tree: Tree): Tree
  {
    Optimiser.Optimised(env, tree, Optimiser.KTop)
  }

  /** The optimised tree asks for nothing but a flag in the document's own word. */
  predicate IsSimple(t: Tree)
  {
    t.AttrOr? && t.group1 == 0
  }

  /** `code` is a finished program for `t`. */
  ghost predicate ProgramFor(env: Env, t: Tree, code: seq<nat>)
  {
    FlagFree(t) && exists b :: Finished(env, code, b) && RootAt(env, b, t)
  }

  /** Which of its results the compiler returns for which constraint. */
  ghost predicate CompiledFrom(env: Env, ts: seq<Token>, r: Compiled)
  {
    var p := ParseQuery(env, ts);
    if p.Error? then r == Rejected
    else if !Optimiser.Fits(p.value) then r == Overrun
    else
      var t := NewTree(env, p.value);
      if IsSimple(t) then r == Simple(t.mask)
      else if !InListsBounded(p.value) then r == Rejected
      else r.Code? && ProgramFor(env, t, r.code)
  }

  /** An emitter that has completed a tree holds a finished program for it. */
  lemma CompleteIsFinished(env: Env, code: seq<nat>, labelPointers: seq<LabelPointer>, b: Output, t: Tree)
    requires env.Valid() && FlagFree(t) && Consistent(code, labelPointers, b.sym, b.defs)
    requires Complete(env, code[0], b, |labelPointers|, t)
    ensures ProgramFor(env, t, code)
  {
    forall i: nat | 1 <= i < |b.sym|
      ensures match b.sym[i]
              case Word(w) => code[i] == w
              case Ref(l) => l in b.defs && code[i] == b.defs[l]
    {
      assert WordOk(code, b.sym, b.defs, i) && Settled(b, i);
    }
    forall n | n in b.data ensures n.lab in b.defs && ItemAt(env, code, b.defs[n.lab], n.item) {
      var i :| 0 <= i < |b.data| && b.data[i] == n;
      ItemReads(env, code, b, n);
    }
    assert Finished(env, code, b);
  }

  method CompileQuery(env: Env, ts: seq<Token>) returns (r: Compiled)
    requires env.Valid()
    ensures CompiledFrom(env, ts, r)
  {
    var p := ParseQuery(env, ts);
    if p.Error? { return Rejected; }
    var tree := p.value;
    assert Typed(env, tree) by { var b := BoolSound(env, ts); }

    var optimiser := new Optimiser.Optimiser(env);
    var ok, subtree := optimiser.OptimiseNode(tree, Optimiser.KTop, 0);
    if !ok { return Overrun; }
    var newTree := subtree.value;
    assert newTree == NewTree(env, tree);
    Optimiser.OptimisedReady(env, tree, Optimiser.KTop);
    Optimiser.OptimisedBounded(env, tree, Optimiser.KTop);
    if newTree.AttrOr? && newTree.group1 == 0 {
      return Simple(newTree.mask);
    }

    var emitter := new Emitter(env);
    ok := emitter.Emit(newTree);
    if !ok { return Rejected; }
    CompleteIsFinished(env, emitter.codeBuffer, emitter.labelPointers, emitter.Out(), newTree);
    return Code(emitter.codeBuffer);
  }

  // ----- what a compiled query selects -----

  /** The searcher's test on a document, `parallel_list_decode` with or without a constraint. */
  ghost predicate Selects(env: Env, d: Doc, r: Compiled)
    requires r.Simple? || r.Code?
  {
    match r
    case Simple(mask) => Words.And(d.docFlags, mask) != 0
    case Code(code) => Run(env, d, code, 1, |code|) == Done(true)
  }

  /** The compiled query answers on every document, and selects it exactly when the constraint holds
      and either the document exists or the program was emitted without an existence test. */
  lemma QueryMeaning(env: Env, d: Doc, ts: seq<Token>, r: Compiled)
    requires env.Valid() && CompiledFrom(env, ts, r) && (r.Simple? || r.Code?)
    ensures ParseQuery(env, ts).Ok?
    ensures var tree := ParseQuery(env, ts).value;
            var t := NewTree(env, tree);
            && FlagFree(t)
            && (r.Code? ==> Run(env, d, r.code, 1, |r.code|).Done?)
            && (Selects(env, d, r) <==> Eval(env, d, tree) && (TestedAlready(t) || d.Exists()))
  {
    var tree := ParseQuery(env, ts).value;
    var b0 := BoolSound(env, ts);
    var t := NewTree(env, tree);
    Optimiser.OptimisedReady(env, tree, Optimiser.KTop);
    Optimiser.OptimisedMeaning(env, d, tree, Optimiser.KTop);
    if r.Code? {
      var b :| Finished(env, r.code, b) && RootAt(env, b, t);
      RootMeaning(env, d, r.code, b, t);
    }
  }

  /** A constraint refers to a flag in group `group1 - 1`. */
  predicate Mentions(env: Env, t: Tree, group1: nat)
  {
    match t
    case And(l, r) => Mentions(env, l, group1) || Mentions(env, r, group1)
    case Or(l, r) => Mentions(env, l, group1) || Mentions(env, r, group1)
    case Not(a) => Mentions(env, a, group1)
    case Flag(id) => id in env.flags && env.flags[id].group + 1 == group1
    case AttrOr(g, _) => g == group1
    case AttrAnd(g, _) => g == group1
    case _ => false
  }

  /** When `testedAlready` holds, a true constraint has found a non-zero flag word. */
  lemma {:induction false} TestedNeedsFlag(env: Env, d: Doc, t: Tree) returns (g: nat)
    requires Optimiser.Ready(env, t) && TestedAlready(t) && Eval(env, d, t)
    ensures Mentions(env, t, g) && d.FlagWord(g) != 0
  {
    match t
    case And(l, r) =>
      if TestedAlready(l) { g := TestedNeedsFlag(env, d, l); } else { g := TestedNeedsFlag(env, d, r); }
    case Or(l, r) =>
      if Eval(env, d, l) { g := TestedNeedsFlag(env, d, l); } else { g := TestedNeedsFlag(env, d, r); }
    case AttrOr(g', _) => g := g';
    case AttrAnd(g', _) => g := g';
  }

  predicate SomeMention(env: Env, list: seq<Tree>, g: nat)
  {
    list != [] && (Mentions(env, list[0], g) || SomeMention(env, list[1..], g))
  }

  lemma {:induction false} InsertMentions(env: Env, list: seq<Tree>, twig: Tree, k: Optimiser.Kind, g: nat)
    ensures SomeMention(env, Optimiser.Insert(list, twig, k), g) ==
            (SomeMention(env, list, g) || Mentions(env, twig, g))
  {
    if list != [] { InsertMentions(env, list[1..], twig, k, g); }
  }

  lemma {:induction false} MentionSnoc(env: Env, list: seq<Tree>, x: Tree, g: nat)
    ensures SomeMention(env, list + [x], g) == (SomeMention(env, list, g) || Mentions(env, x, g))
  {
    if list != [] {
      MentionSnoc(env, list[1..], x, g);
      assert (list + [x])[1..] == list[1..] + [x];
    }
  }

  lemma {:induction false} RebuildMentions(env: Env, k: Optimiser.Kind, list: seq<Tree>, g: nat)
    requires (k == Optimiser.KAnd || k == Optimiser.KOr) && list != []
    ensures Mentions(env, Optimiser.Rebuild(k, list), g) == SomeMention(env, list, g)
  {
    var n := |list| - 1;
    var init := list[..n];
    assert list == init + [list[n]];
    MentionSnoc(env, init, list[n], g);
    if n > 0 {
      RebuildMentions(env, k, init, g);
      assert Optimiser.Rebuild(k, list) == Optimiser.Node(k, Optimiser.Rebuild(k, init), list[n]);
    }
  }

  /** The optimised tree refers to the same flag groups as the constraint. */
  lemma {:induction false} OptimisedMentions(env: Env, t: Tree, prev: Optimiser.Kind, g: nat)
    requires env.Valid()
    ensures Mentions(env, Optimiser.Optimised(env, t, prev), g) == Mentions(env, t, g)
    decreases t, 0
  {
    match t
    case And(l, r) =>
      var list := Optimiser.Collect(env, l, Optimiser.KAnd, []);
      CollectMentions(env, l, Optimiser.KAnd, [], g);
      CollectMentions(env, r, Optimiser.KAnd, list, g);
      RebuildMentions(env, Optimiser.KAnd, Optimiser.Collect(env, r, Optimiser.KAnd, list), g);
    case Or(l, r) =>
      var list := Optimiser.Collect(env, l, Optimiser.KOr, []);
      CollectMentions(env, l, Optimiser.KOr, [], g);
      CollectMentions(env, r, Optimiser.KOr, list, g);
      RebuildMentions(env, Optimiser.KOr, Optimiser.Collect(env, r, Optimiser.KOr, list), g);
    case Not(a) => OptimisedMentions(env, a, Optimiser.KNot, g);
    case _ =>
  }

  lemma {:induction false} CollectMentions(env: Env, t: Tree, k: Optimiser.Kind, list: seq<Tree>, g: nat)
    requires env.Valid()
    ensures SomeMention(env, Optimiser.Collect(env, t, k, list), g) ==
            (SomeMention(env, list, g) || Mentions(env, t, g))
    decreases t, 1
  {
    if (k == Optimiser.KAnd && t.And?) || (k == Optimiser.KOr && t.Or?) {
      CollectMentions(env, t.left, k, list, g);
      CollectMentions(env, t.right, k, Optimiser.Collect(env, t.left, k, list), g);
    } else {
      OptimisedMentions(env, t, k, g);
      InsertMentions(env, list, Optimiser.Optimised(env, t, k), k, g);
    }
  }

  /** The promise of a query: it selects the documents that exist and satisfy the constraint.  It is
      kept on every document that exists or whose flag words, for the groups the constraint mentions,
      have been cleared. */
  lemma QuerySelectsExisting(env: Env, d: Doc, ts: seq<Token>, r: Compiled)
    requires env.Valid() && CompiledFrom(env, ts, r) && (r.Simple? || r.Code?)
    requires ParseQuery(env, ts).Ok?
    requires !d.Exists() ==> forall g: nat | Mentions(env, ParseQuery(env, ts).value, g) :: d.FlagWord(g) == 0
    ensures Selects(env, d, r) <==> d.Exists() && Eval(env, d, ParseQuery(env, ts).value)
  {
    QueryMeaning(env, d, ts, r);
    var tree := ParseQuery(env, ts).value;
    var t := NewTree(env, tree);
    var b0 := BoolSound(env, ts);
    Optimiser.OptimisedReady(env, tree, Optimiser.KTop);
    Optimiser.OptimisedMeaning(env, d, tree, Optimiser.KTop);
    if !d.Exists() && TestedAlready(t) && Eval(env, d, t) {
      var g := TestedNeedsFlag(env, d, t);
      OptimisedMentions(env, tree, Optimiser.KTop, g);
      assert false;
    }
  }

  /** Deleting a document clears only its own flag word.  That is enough exactly for the documents
      that a program without an existence test does not find true. */
  lemma DeletedDocument(env: Env, d: Doc, ts: seq<Token>, r: Compiled)
    requires env.Valid() && CompiledFrom(env, ts, r) && (r.Simple? || r.Code?)
    requires d.docFlags == 0 && ParseQuery(env, ts).Ok?
    ensures FlagFree(NewTree(env, ParseQuery(env, ts).value))
    ensures (Selects(env, d, r) <==> d.Exists() && Eval(env, d, ParseQuery(env, ts).value)) <==>
            !(TestedAlready(NewTree(env, ParseQuery(env, ts).value)) && Eval(env, d, ParseQuery(env, ts).value))
  {
    QueryMeaning(env, d, ts, r);
  }

  /** A query is right about every document so deleted if and only if the program was emitted with an
      existence test, or the constraint cannot hold of a document whose own flag word is zero. */
  lemma DeletedDocuments(env: Env, ts: seq<Token>, r: Compiled)
    requires env.Valid() && CompiledFrom(env, ts, r) && (r.Simple? || r.Code?) && ParseQuery(env, ts).Ok?
    ensures FlagFree(NewTree(env, ParseQuery(env, ts).value))
    ensures (forall d: Doc | d.docFlags == 0 :: !Selects(env, d, r)) <==>
            !TestedAlready(NewTree(env, ParseQuery(env, ts).value)) ||
            (forall d: Doc | d.docFlags == 0 :: !Eval(env, d, ParseQuery(env, ts).value))
  {
    var tree := ParseQuery(env, ts).value;
    QueryMeaning(env, Doc(0, g => 0, i => 0, i => []), ts, r);
    var tested := TestedAlready(NewTree(env, tree));
    forall d: Doc | d.docFlags == 0 ensures Selects(env, d, r) <==> tested && Eval(env, d, tree) {
      QueryMeaning(env, d, ts, r);
    }
  }

  /** In particular it is enough when all flags the constraint mentions live in that word. */
  lemma DeletedNotSelected(env: Env, d: Doc, ts: seq<Token>, r: Compiled)
    requires env.Valid() && CompiledFrom(env, ts, r) && (r.Simple? || r.Code?)
    requires d.docFlags == 0 && ParseQuery(env, ts).Ok?
    requires forall g: nat | Mentions(env, ParseQuery(env, ts).value, g) :: g == 0
    ensures !Selects(env, d, r)
  {
    QuerySelectsExisting(env, d, ts, r);
  }

  /** A deleted document that a query still selects: the query asks for one flag of group 0, which
      deletion leaves set. */
  lemma DeletedSelected(env: Env, id: string, r: Compiled)
    requires env.Valid() && id in env.flags && env.flags[id] == FlagPlace(0, 0)
    requires CompiledFrom(env, [TIdent(id)], r)
    ensures r.Code?
    ensures var d := Doc(0, g => 1, i => 0, i => []); !d.Exists() && Selects(env, d, r)
  {
    var d := Doc(0, g => 1, i => 0, i => []);
    var f := FlagName(id);
    var b := OneTerm(OneFactor(f));
    assert FactorTree(f) == Flag(id) && TermTree(b.t) == Flag(id);
    assert FactorTokens(f) == [TIdent(id)] && TermTokens(b.t) == [TIdent(id)];
    BoolComplete(env, b, []);
    assert [TIdent(id)] + [] == [TIdent(id)];
    QueryMeaning(env, d, [TIdent(id)], r);
  }
}
