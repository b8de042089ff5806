/** A numeric keyed attribute whose values several documents may share. */
module DuplicateAttribute {
  import opened Collections
  import opened Pigeonhole
  import opened Primes
  import opened Probing
  import opened DocumentChains

  const FIRST_SIZE: nat := 13
  const MAX_DOCUMENTS: nat := 0x1000_0000          // keeps places in the chain table below 2^31

  /** The values of documents 1 to `n - 1`. */
  ghost function Values(vals: seq<nat>, n: nat): set<nat>
  {
    set d | 0 < d < n && d < |vals| && vals[d] >= DIRECT :: vals[d] - DIRECT
  }

  /** A value is stored with the high bit set; 0 means that none is. */
  ghost predicate WellFormed(vals: seq<nat>)
  {
    0 < |vals| < MAX_DOCUMENTS && forall d | 0 <= d < |vals| :: vals[d] == 0 || DIRECT <= vals[d] < 2 * DIRECT
  }

  /** How many of documents 1 to `n - 1` have a value. */
  ghost function Count(vals: seq<nat>, n: nat): (c: nat)
    requires n <= |vals|
    ensures c <= n
  {
    if n <= 1 then 0 else Count(vals, n - 1) + if vals[n - 1] != 0 then 1 else 0
  }

  lemma {:induction false} CountSame(vals: seq<nat>, vals': seq<nat>, n: nat)
    requires n <= |vals| && n <= |vals'| && forall d | 0 <= d < n :: vals[d] == vals'[d]
    ensures Count(vals, n) == Count(vals', n)
  {
    if n > 1 { CountSame(vals, vals', n - 1); }
  }

  /** What the first document named by a used slot tells. */
  lemma HeadDocument(t: Table, vals: seq<nat>, n: nat, x: nat)
    requires Indexes(t, vals, n) && x < |t.tab| && t.tab[x] != 0
    ensures t.keys[x].Some? && t.docs[x] != []
    ensures t.tab[x] < DIRECT ==> t.tab[x] < |t.valdoc|
    ensures var d := if t.tab[x] >= DIRECT then t.tab[x] - DIRECT else t.valdoc[t.tab[x]];
            d == t.docs[x][0] && 0 < d < n && vals[d] == DIRECT + t.keys[x].value
  {
    assert SlotOk(t, x) && DocsOk(t, vals, n, x);
    if t.tab[x] < DIRECT { assert LinkOk(t, x, 0); }
    assert t.docs[x][0] in t.docs[x];
  }

  /** What a used slot says, as the search reads it. */
  lemma ProbeTells(t: Table, vals: seq<nat>, n: nat, x: nat)
    requires Indexes(t, vals, n) && WellFormed(vals) && x < |t.tab|
    ensures t.tab[x] == 0 <==> t.keys[x].None?
    ensures t.tab[x] != 0 ==>
      var d := if t.tab[x] >= DIRECT then t.tab[x] - DIRECT else if t.tab[x] < |t.valdoc| then t.valdoc[t.tab[x]] else 0;
      (t.tab[x] < DIRECT ==> t.tab[x] < |t.valdoc|) && d < |vals| && vals[d] % DIRECT == t.keys[x].value
  {
    assert SlotOk(t, x);
    if t.tab[x] != 0 { HeadDocument(t, vals, n, x); }
  }

  lemma KeysAreValues(t: Table, vals: seq<nat>, n: nat)
    requires Indexes(t, vals, n)
    ensures forall y | 0 <= y < |t.keys| && t.keys[y].Some? :: t.keys[y].value in Values(vals, n)
  {
    forall y | 0 <= y < |t.keys| && t.keys[y].Some? ensures t.keys[y].value in Values(vals, n) {
      assert SlotOk(t, y);
      HeadDocument(t, vals, n, y);
      assert vals[t.docs[y][0]] - DIRECT in Values(vals, n);
    }
  }

  /** A value is in the table exactly if a document has it. */
  lemma ValueIndexed(t: Table, vals: seq<nat>, n: nat, v: nat)
    requires Indexes(t, vals, n) && WellFormed(vals)
    ensures v in Values(vals, n) <==> exists y :: 0 <= y < |t.keys| && t.keys[y] == Some(v)
  {
    KeysAreValues(t, vals, n);
    if v in Values(vals, n) {
      var d :| 0 < d < n && d < |vals| && vals[d] >= DIRECT && vals[d] - DIRECT == v;
      assert Listed(t, vals, d);
    }
  }

  /** A document without a value needs no entry. */
  lemma SkipDocument(t: Table, vals: seq<nat>, vals': seq<nat>, n: nat)
    requires Indexes(t, vals, n) && n < |vals'| && vals'[n] == 0 && forall d | 0 <= d < n :: vals'[d] == vals[d]
    ensures Indexes(t, vals', n + 1)
  {
    var m := n + 1;
    forall y | 0 <= y < |t.tab| ensures DocsOk(t, vals', m, y) { assert DocsOk(t, vals, n, y); }
    forall d | 0 < d < m ensures Listed(t, vals', d) {
      if d < n { assert Listed(t, vals, d); }
    }
  }

  /** A last document without a value can be left out. */
  lemma DropLast(t: Table, vals: seq<nat>, n: nat)
    requires Indexes(t, vals, n + 1) && 0 < n < |vals| && vals[n] == 0
    ensures Indexes(t, vals, n)
  {
    var m := n + 1;
    forall y | 0 <= y < |t.tab| ensures DocsOk(t, vals, n, y) {
      assert DocsOk(t, vals, m, y) && SlotOk(t, y);
    }
    forall d | 0 < d < n ensures Listed(t, vals, d) { assert Listed(t, vals, d); }
  }

  ghost function Fresh(m: nat): Table
  {
    Table(seq(m, _ => 0), [0], seq(m, _ => None), seq(m, _ => []), seq(m, _ => []))
  }

  lemma EmptyIndexes(m: nat, vals: seq<nat>)
    requires m >= 3 && |vals| > 0
    ensures Indexes(Fresh(m), vals, 1)
  {
    var t := Fresh(m);
    EmptyTable(m);
    forall x | 0 <= x < |t.tab| ensures SlotOk(t, x) && DocsOk(t, vals, 1, x) {}
  }

  /** Exactly the documents with a value, each once. */
  ghost predicate DocumentsOf(ds: seq<nat>, vals: seq<nat>, v: nat)
  {
    NoDup(ds) && forall d :: d in ds <==> 0 < d < |vals| && vals[d] == DIRECT + v
  }

  lemma SlotHasAll(t: Table, vals: seq<nat>, x: nat, v: nat)
    requires Indexes(t, vals, |vals|) && WellFormed(vals) && x < |t.tab| && t.keys[x] == Some(v)
    ensures DocumentsOf(t.docs[x], vals, v)
  {
    assert DocsOk(t, vals, |vals|, x);
    forall d | 0 < d < |vals| && vals[d] == DIRECT + v ensures d in t.docs[x] {
      assert Listed(t, vals, d);
      var y :| 0 <= y < |t.keys| && t.keys[y] == Some(v) && d in t.docs[y];
      OneSlotPerValue(t.keys, x, y);
    }
  }

  lemma NoDocument(vals: seq<nat>, v: nat)
    requires v !in Values(vals, |vals|)
    ensures DocumentsOf([], vals, v)
  {
    forall d | 0 < d < |vals| ensures vals[d] != DIRECT + v {
      assert vals[d] >= DIRECT ==> vals[d] - DIRECT in Values(vals, |vals|);
    }
  }

  lemma ValuesWith(was: seq<nat>, vals: seq<nat>, dn: nat, v: nat)
    requires 0 < dn && dn + 1 == |was| && vals == was[dn := DIRECT + v]
    ensures Values(vals, |vals|) == Values(was, dn) + {v}
  {
    assert vals[dn] - DIRECT == v;
    forall u ensures u in Values(vals, |vals|) <==> u in Values(was, dn) || u == v {
      if u in Values(was, dn) {
        var d :| 0 < d < dn && d < |was| && was[d] >= DIRECT && was[d] - DIRECT == u;
        assert vals[d] - DIRECT == u;
      }
    }
  }

  lemma ValuesNext(vals: seq<nat>, n: nat)
    requires 0 < n < |vals| && vals[n] == 0
    ensures Values(vals, n + 1) == Values(vals, n)
  {
  }

  lemma ValuesAdd(was: seq<nat>, vals: seq<nat>, dn: nat, v: nat)
    requires 0 < dn && dn + 1 == |was| && was[dn] == 0 && vals == was[dn := DIRECT + v]
    ensures Values(was, |was|) == Values(was, dn)
    ensures |Values(vals, |vals|)| == |Values(was, dn)| + if v in Values(was, dn) then 0 else 1
    ensures Count(was, |was|) == Count(was, dn) && Count(vals, |vals|) == Count(was, dn) + 1
  {
    ValuesWith(was, vals, dn, v);
    ValuesNext(was, dn);
    CountSame(was, vals, dn);
    if v in Values(was, dn) { assert Values(was, dn) + {v} == Values(was, dn); }
  }

  lemma ValuesGrow(vals: seq<nat>, n: nat, m: nat)
    requires n < m <= |vals|
    ensures |Values(vals, n + 1)| <= |Values(vals, m)|
  {
    Subset(Values(vals, n + 1), Values(vals, m));
  }

  class DuplicateAttribute {
    var vals: seq<nat>
    var hashTab: seq<nat>
    var valdocTab: seq<nat>
    var nuniquevals: nat
    const hashFilllimit: nat := FIRST_SIZE / 2
    ghost var keys: Keys
    ghost var docs: seq<seq<nat>>
    ghost var idxs: seq<seq<nat>>

    ghost function Now(): Table
      reads this
    {
      Table(hashTab, valdocTab, keys, docs, idxs)
    }

    /** The tables index documents 1 to `n - 1` and have room for one more value. */
    ghost predicate Ready(n: nat)
      reads this
    {
      && WellFormed(vals) && 0 < n <= |vals| && Indexes(Now(), vals, n)
      && IsPrime(|hashTab|) && |hashTab| >= FIRST_SIZE && |Values(vals, n)| < |hashTab|
      && |valdocTab| <= 1 + 4 * Count(vals, n)
    }

    ghost predicate Valid()
      reads this
    {
      Ready(|vals|) && nuniquevals == |Values(vals, |vals|)| < |hashTab|
    }

    /** A fresh index.  Entry 0 of the value table is not used. */
    constructor ()
      ensures Valid() && vals == [0]
    {
      vals := [0];
      hashTab := seq(FIRST_SIZE, _ => 0);
      valdocTab := [0];
      nuniquevals := 0;
      keys := seq(FIRST_SIZE, _ => None);
      docs := seq(FIRST_SIZE, _ => []);
      idxs := seq(FIRST_SIZE, _ => []);
      new;
      EmptyIndexes(FIRST_SIZE, vals);
      assert Now() == Fresh(FIRST_SIZE);
      assert Values(vals, 1) == {};
      ThirteenIsPrime();
    }

    /** `attr_numstr_sv_dup_nfind`: the slot where the search for a value ends. */
    method Find(v: nat, ghost n: nat) returns (x: nat, ghost k: nat)
      requires Ready(n)
      ensures x < |hashTab| && Reaches(keys, v, k, x)
      ensures if hashTab[x] == 0 then v !in Values(vals, n) else keys[x] == Some(v) && v in Values(vals, n)
    {
      KeysAreValues(Now(), vals, n);
      ghost var empty := EmptySlot(keys, Values(vals, n));
      ghost var last := VisitsEverySlot(v, |hashTab|, empty);
      x := v % |hashTab|;
      var hstep := Step(v, |hashTab|);
      k := 0;
      ghost var t := Now();
      while true
        invariant x == At(v, k, |hashTab|) && Passes(keys, v, k) && k <= last
        decreases last - k
      {
        ProbeTells(t, vals, n, x);
        if hashTab[x] == 0 {
          EmptyMeansAbsent(keys, v, k, x);
          ValueIndexed(t, vals, n, v);
          return;
        }
        var docidx := if hashTab[x] >= DIRECT then hashTab[x] - DIRECT else valdocTab[hashTab[x]];
        if vals[docidx] % DIRECT == v {
          return;
        }
        k := k + 1;
        x := x + hstep;
        if x >= |hashTab| {
          x := x - |hashTab|;
        }
      }
    }

    /** The documents with a value: none if the search ends at an empty slot, the one named there, or the
        documents of the chain. */
    method Documents(v: nat) returns (ds: seq<nat>)
      requires Valid()
      ensures DocumentsOf(ds, vals, v)
    {
      var x, k := Find(v, |vals|);
      assert SlotOk(Now(), x);
      if hashTab[x] == 0 {
        NoDocument(vals, v);
        return [];
      }
      SlotHasAll(Now(), vals, x, v);
      if hashTab[x] >= DIRECT {
        return [hashTab[x] - DIRECT];
      }
      var idx := hashTab[x];
      ds := [];
      while idx != 0
        invariant |ds| <= |docs[x]| && ds == docs[x][..|ds|]
        invariant idx == if |ds| < |idxs[x]| then idxs[x][|ds|] else 0
        decreases |docs[x]| - |ds|
      {
        assert LinkOk(Now(), x, |ds|);
        ds := ds + [valdocTab[idx]];
        idx := valdocTab[idx + 1];
      }
      forall i | 0 <= i < |idxs[x]| ensures idxs[x][i] != 0 { OldPlace(Now(), x, i); }
      assert ds == docs[x];
    }

    /** `attr_num_newdoc` */
    method NewDocument()
      requires Valid() && |vals| + 1 < MAX_DOCUMENTS
      modifies `vals
      ensures Valid() && vals == old(vals) + [0]
    {
      hide Indexes, IsPrime;
      SkipDocument(Now(), vals, vals + [0], |vals|);
      assert Values(vals + [0], |vals| + 1) == Values(vals, |vals|);
      CountSame(vals, vals + [0], |vals|);
      vals := vals + [0];
    }

    /** The first document with a value goes into the slot. */
    method PutDirect(x: nat, ghost k: nat, dn: nat, v: nat, ghost was: seq<nat>)
      requires |hashTab| >= 3 && Indexes(Now(), was, dn) && |was| == |vals| && 0 < dn < |vals| && v < DIRECT
      requires vals[dn] == DIRECT + v && (forall d | 0 <= d < dn :: vals[d] == was[d]) && x < |hashTab| && hashTab[x] == 0
      requires |keys| == |hashTab| && Reaches(keys, v, k, x)
      modifies `hashTab, `keys, `docs
      ensures Indexes(Now(), vals, dn + 1) && |hashTab| == old(|hashTab|)
    {
      assert |keys| == |docs| == |hashTab|;
      hide Indexes, Reaches;
      AddDirect(Now(), was, vals, dn, v, k, x);
      hashTab := hashTab[x := DIRECT + dn];
      keys, docs := keys[x := Some(v)], docs[x := [dn]];
    }

    /** Enter one document while rehashing, when there are others with its value. */
    method ReinsertInChain(x: nat, dn: nat, nval: nat)
      requires Ready(dn) && 0 < dn < |vals| && vals[dn] == DIRECT + nval && nval < DIRECT
      requires x < |hashTab| && hashTab[x] != 0 && keys[x] == Some(nval) && nval in Values(vals, dn)
      modifies `hashTab, `valdocTab, `docs, `idxs
      ensures Ready(dn + 1) && |hashTab| == old(|hashTab|)
    {
      assert |keys| == |docs| == |idxs| == |hashTab|;
      ProbeTells(Now(), vals, dn, x);
      assert Values(vals, dn + 1) == Values(vals, dn);
      hide Indexes, IsPrime, WellFormed, Values;
      var top := |valdocTab|;
      if hashTab[x] >= DIRECT {
        AddSecond(Now(), vals, vals, dn, nval, x);
        ghost var first := hashTab[x] - DIRECT;
        valdocTab := valdocTab + [hashTab[x] - DIRECT] + [top + 2] + [dn] + [0];
        hashTab := hashTab[x := top];
        docs, idxs := docs[x := [first, dn]], idxs[x := [top, top + 2]];
        assert valdocTab == old(valdocTab) + [first, top + 2, dn, 0];
      } else {
        AddBehindHead(Now(), vals, vals, dn, nval, x);
        var oldnext := valdocTab[hashTab[x] + 1];
        valdocTab := valdocTab[hashTab[x] + 1 := top] + [dn] + [oldnext];
        docs, idxs := docs[x := InsertSecond(docs[x], dn)], idxs[x := InsertSecond(idxs[x], top)];
        assert valdocTab == old(valdocTab)[old(hashTab[x]) + 1 := top] + [dn, oldnext];
      }
    }

    /** Enter one document while rehashing. */
    method Reinsert(dn: nat)
      requires Ready(dn) && 0 < dn < |vals| && vals[dn] != 0
      requires |Values(vals, dn + 1)| < |hashTab|
      modifies `hashTab, `valdocTab, `keys, `docs, `idxs
      ensures Ready(dn + 1) && |hashTab| == old(|hashTab|)
    {
      assert |keys| == |docs| == |idxs| == |hashTab|;
      hide Indexes, Reaches, IsPrime;
      var nval := vals[dn] % DIRECT;
      var x, k := Find(nval, dn);
      if hashTab[x] == 0 {
        PutDirect(x, k, dn, nval, vals);
      } else {
        ReinsertInChain(x, dn, nval);
      }
    }

    /** `attr_numstr_sv_dup_rehash`: a larger table, filled from the values of the documents. */
    method Rehash()
      requires WellFormed(vals) && nuniquevals == |Values(vals, |vals|)| && nuniquevals >= hashFilllimit
      modifies `hashTab, `valdocTab, `keys, `docs, `idxs
      ensures Ready(|vals|) && |hashTab| > 4 * nuniquevals
    {
      hide Indexes, IsPrime;
      var newsize := Prime(nuniquevals * 4);
      hashTab := seq(newsize, _ => 0);
      valdocTab := [0];
      keys, docs, idxs := seq(newsize, _ => None), seq(newsize, _ => []), seq(newsize, _ => []);
      EmptyIndexes(newsize, vals);
      assert Now() == Fresh(newsize);
      assert Values(vals, 1) == {};
      var dn := 1;
      while dn < |vals|
        invariant 1 <= dn <= |vals| && |hashTab| == newsize && Ready(dn)
      {
        ValuesGrow(vals, dn, |vals|);
        if vals[dn] == 0 {
          SkipDocument(Now(), vals, vals, dn);
          ValuesNext(vals, dn);
        } else {
          Reinsert(dn);
        }
        dn := dn + 1;
      }
    }

    /** The value is new: its document goes into the empty slot, unless it is time for a larger table. */
    method EnterValue(x: nat, ghost k: nat, dn: nat, v: nat, ghost was: seq<nat>)
      requires WellFormed(vals) && dn + 1 == |vals| == |was| && 0 < dn && v < DIRECT && vals[dn] == DIRECT + v
      requires Indexes(Now(), was, dn) && IsPrime(|hashTab|) && |hashTab| >= FIRST_SIZE && vals == was[dn := DIRECT + v]
      requires x < |hashTab| && Reaches(keys, v, k, x) && hashTab[x] == 0
      requires |valdocTab| <= 1 + 4 * Count(vals, |vals|)
      requires nuniquevals == |Values(vals, |vals|)|
      modifies `hashTab, `valdocTab, `keys, `docs, `idxs
      ensures Valid()
    {
      assert |keys| == |docs| == |idxs| == |hashTab|;
      hide Indexes, Reaches, IsPrime;
      if nuniquevals >= hashFilllimit {
        Rehash();
      } else {
        PutDirect(x, k, dn, v, was);
      }
    }

    /** The value exists: put the document into the chain, or start one. */
    method AppendToChain(x: nat, dn: nat, v: nat, ghost was: seq<nat>)
      requires WellFormed(vals) && dn + 1 == |vals| == |was| && 0 < dn && v < DIRECT && vals[dn] == DIRECT + v
      requires Indexes(Now(), was, dn) && IsPrime(|hashTab|) && |hashTab| >= FIRST_SIZE && vals == was[dn := DIRECT + v]
      requires x < |hashTab| && hashTab[x] != 0 && keys[x] == Some(v)
      requires |valdocTab| + 3 <= 4 * Count(vals, |vals|)
      requires nuniquevals == |Values(vals, |vals|)| < |hashTab|
      modifies `hashTab, `valdocTab, `docs, `idxs
      ensures Valid()
    {
      assert |keys| == |docs| == |idxs| == |hashTab|;
      hide Indexes, Reaches, IsPrime;
      var hent := hashTab[x];
      var top := |valdocTab|;
      if hent >= DIRECT {
        AddSecond(Now(), was, vals, dn, v, x);
        hashTab := hashTab[x := top];
        valdocTab := valdocTab + [hent - DIRECT] + [top + 2] + [dn] + [0];
        docs, idxs := docs[x := [hent - DIRECT, dn]], idxs[x := [top, top + 2]];
        assert valdocTab == old(valdocTab) + [hent - DIRECT, top + 2, dn, 0];
      } else {
        AddFront(Now(), was, vals, dn, v, x);
        hashTab := hashTab[x := top];
        valdocTab := valdocTab + [dn] + [hent];
        docs, idxs := docs[x := [dn] + docs[x]], idxs[x := [top] + idxs[x]];
        assert valdocTab == old(valdocTab) + [dn, hent];
      }
    }

    /** `attr_numstr_sv_dup_setval`: give the last document its value. */
    method SetValue(v: nat)
      requires Valid() && |vals| > 1 && vals[|vals| - 1] == 0 && v < DIRECT
      modifies this
      ensures Valid() && vals == old(vals)[old(|vals|) - 1 := DIRECT + v]
    {
      hide Indexes, Reaches, IsPrime;
      var dn := |vals| - 1;
      var x, k := Find(v, |vals|);
      DropLast(Now(), vals, dn);
      ValuesAdd(vals, vals[dn := DIRECT + v], dn, v);
      ghost var was := vals;
      vals := vals[dn := DIRECT + v];
      if hashTab[x] == 0 {
        nuniquevals := nuniquevals + 1;
        EnterValue(x, k, dn, v, was);
      } else {
        AppendToChain(x, dn, v, was);
      }
    }
  }

  /** One step of building an index. */
  datatype Action = Start | Set(value: nat)

  /** The values a run gives its documents, and whether the last one still waits for its value. */
  function Recorded(actions: seq<Action>): (r: (seq<nat>, bool))
    ensures 0 < |r.0| <= |actions| + 1
  {
    if actions == [] then ([0], false) else
      var (vals, open) := Recorded(actions[..|actions| - 1]);
      match actions[|actions| - 1]
      case Start => (vals + [0], true)
      case Set(v) => if open then (vals[|vals| - 1 := DIRECT + v], false) else (vals, false)
  }

  /** For any run of new documents and their values, afterwards the search for any value ends at an empty
      slot if no document has it, and else yields exactly the documents that do. */
  method Build(actions: seq<Action>, v: nat) returns (vals: seq<nat>, ds: seq<nat>)
    requires |actions| + 2 < MAX_DOCUMENTS
    requires forall i | 0 <= i < |actions| && actions[i].Set? :: actions[i].value < DIRECT
    ensures vals == Recorded(actions).0 && DocumentsOf(ds, vals, v)
  {
    var a := new DuplicateAttribute();
    var open := false;
    for i := 0 to |actions|
      invariant a.Valid() && fresh(a) && Recorded(actions[..i]) == (a.vals, open)
      invariant open ==> |a.vals| > 1 && a.vals[|a.vals| - 1] == 0
    {
      assert actions[..i + 1][..i] == actions[..i];
      match actions[i]
      case Start =>
        a.NewDocument();
        open := true;
      case Set(value) =>
        if open {
          a.SetValue(value);
          open := false;
        }
    }
    assert actions[..|actions|] == actions;
    vals := a.vals;
    ds := a.Documents(v);
  }
}
