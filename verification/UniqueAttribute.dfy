/** A numeric keyed attribute that at most one existing document has a given value of. */
module UniqueAttribute {
  import opened Collections
  import opened Pigeonhole
  import opened Primes
  import opened Probing

  const HASH_DOUBLING_LIMIT: nat := 500000

  /** The values that documents were ever given. */
  ghost function Values(vals: seq<nat>): set<nat>
  {
    set d | 0 < d < |vals| && vals[d] >= DIRECT :: vals[d] - DIRECT
  }

  ghost predicate WellFormed(vals: seq<nat>, exists_: seq<bool>)
  {
    && 0 < |vals| == |exists_|
    && (forall d | 0 <= d < |vals| :: vals[d] == 0 || DIRECT <= vals[d] < 2 * DIRECT)
  }

  /** A used slot names a document with the slot's value. */
  ghost predicate SlotOk(tab: seq<nat>, keys: Keys, vals: seq<nat>, x: nat)
    requires x < |tab| == |keys|
  {
    && (tab[x] == 0 <==> keys[x].None?)
    && (tab[x] != 0 ==> tab[x] < |vals| && vals[tab[x]] == DIRECT + keys[x].value)
  }

  /** An existing document below `n` with a value is the one its value's slot names. */
  ghost predicate Named(tab: seq<nat>, keys: Keys, vals: seq<nat>, exists_: seq<bool>, d: nat)
    requires |tab| == |keys| && d < |vals| == |exists_|
  {
    exists_[d] && vals[d] != 0 ==>
      vals[d] >= DIRECT && exists x :: 0 <= x < |tab| && keys[x] == Some(vals[d] - DIRECT) && tab[x] == d
  }

  ghost predicate TableOk(tab: seq<nat>, keys: Keys, vals: seq<nat>, exists_: seq<bool>, n: nat)
  {
    && |tab| == |keys| && |vals| == |exists_| && n <= |vals| && Sound(keys)
    && (forall x {:trigger SlotOk(tab, keys, vals, x)} | 0 <= x < |tab| :: SlotOk(tab, keys, vals, x))
    && (forall d {:trigger Named(tab, keys, vals, exists_, d)} | 0 < d < n :: Named(tab, keys, vals, exists_, d))
  }

  /** No two existing documents below `n` have the same value. */
  ghost predicate Unique(vals: seq<nat>, exists_: seq<bool>, n: nat)
    requires n <= |vals| == |exists_|
  {
    forall d, e | 0 < d < e < n && exists_[d] && exists_[e] && vals[d] != 0 :: vals[d] != vals[e]
  }

  lemma KeysAreValues(tab: seq<nat>, keys: Keys, vals: seq<nat>, exists_: seq<bool>, n: nat)
    requires TableOk(tab, keys, vals, exists_, n)
    ensures forall y | 0 <= y < |keys| && keys[y].Some? :: keys[y].value in Values(vals)
  {
    forall y | 0 <= y < |keys| && keys[y].Some? ensures keys[y].value in Values(vals) {
      assert SlotOk(tab, keys, vals, y);
      assert vals[tab[y]] - DIRECT in Values(vals);
    }
  }

  /** The table's slots make existing documents unique. */
  lemma NamesUnique(tab: seq<nat>, keys: Keys, vals: seq<nat>, exists_: seq<bool>, n: nat)
    requires TableOk(tab, keys, vals, exists_, n)
    ensures Unique(vals, exists_, n)
  {
    forall d, e | 0 < d < e < n && exists_[d] && exists_[e] && vals[d] != 0 ensures vals[d] != vals[e] {
      assert Named(tab, keys, vals, exists_, d) && Named(tab, keys, vals, exists_, e);
      if vals[d] == vals[e] {
        var x :| 0 <= x < |tab| && keys[x] == Some(vals[d] - DIRECT) && tab[x] == d;
        var y :| 0 <= y < |tab| && keys[y] == Some(vals[e] - DIRECT) && tab[y] == e;
        OneSlotPerValue(keys, x, y);
      }
    }
  }

  /** Let document `n`, which now has value `v`, be the one named by the slot where the search for the
      value ends.  A document named there before must no longer exist. */
  lemma NameDocument(tab: seq<nat>, keys: Keys, vals: seq<nat>, exists_: seq<bool>, n: nat,
                     vals': seq<nat>, exists': seq<bool>, v: nat, k: nat, x: nat)
    requires TableOk(tab, keys, vals, exists_, n) && x < |tab| && Reaches(keys, v, k, x)
    requires keys[x].None? || keys[x] == Some(v)
    requires |vals'| == |exists'| && 0 < n < |vals'| && vals'[n] == DIRECT + v && |vals| <= |vals'|
    requires forall d | 0 <= d < |vals| && d != n :: vals'[d] == vals[d]
    requires forall d | 0 <= d < n :: exists'[d] ==> exists_[d]
    requires forall d | 0 <= d < n && exists'[d] && keys[x].Some? :: d != tab[x]
    requires forall y | 0 <= y < |tab| && y != x :: tab[y] != n
    ensures TableOk(tab[x := n], keys[x := Some(v)], vals', exists', n + 1)
  {
    var t, ks, m := tab[x := n], keys[x := Some(v)], n + 1;
    assert SlotOk(tab, keys, vals, x);
    if keys[x].None? {
      PutKeepsSound(keys, v, k, x);
    } else {
      assert ks == keys;
    }
    forall y | 0 <= y < |t| ensures SlotOk(t, ks, vals', y) { assert SlotOk(tab, keys, vals, y); }
    forall d | 0 < d < m ensures Named(t, ks, vals', exists', d) {
      if d < n {
        assert Named(tab, keys, vals, exists_, d);
        if exists'[d] && vals[d] != 0 {
          var y :| 0 <= y < |tab| && keys[y] == Some(vals[d] - DIRECT) && tab[y] == d;
          assert y != x;
          assert t[y] == d && ks[y] == keys[y];
        }
      } else {
        assert ks[x] == Some(vals'[n] - DIRECT) && t[x] == n;
      }
    }
  }

  /** A document without a value, or one that no longer exists, needs no slot. */
  lemma SkipDocument(tab: seq<nat>, keys: Keys, vals: seq<nat>, exists_: seq<bool>, n: nat,
                     vals': seq<nat>, exists': seq<bool>)
    requires TableOk(tab, keys, vals, exists_, n) && n < |vals'| == |exists'| && |vals| <= |vals'|
    requires forall d | 0 <= d < |vals| :: vals'[d] == vals[d]
    requires forall d | 0 <= d < n :: exists'[d] ==> exists_[d]
    requires exists'[n] ==> vals'[n] == 0
    ensures TableOk(tab, keys, vals', exists', n + 1)
  {
    var m := n + 1;
    forall y | 0 <= y < |tab| ensures SlotOk(tab, keys, vals', y) { assert SlotOk(tab, keys, vals, y); }
    forall d | 0 < d < m ensures Named(tab, keys, vals', exists', d) {
      if d < n { assert Named(tab, keys, vals, exists_, d); }
    }
  }

  lemma EmptyTableOk(m: nat, vals: seq<nat>, exists_: seq<bool>)
    requires m >= 3 && 0 < |vals| == |exists_|
    ensures TableOk(seq(m, _ => 0), seq(m, _ => None), vals, exists_, 1)
  {
    EmptyTable(m);
  }

  lemma ValuesGrow(vals: seq<nat>, dn: nat, v: nat)
    requires 0 < dn < |vals| && vals[dn] == 0
    ensures |Values(vals[dn := DIRECT + v])| <= |Values(vals)| + 1
    ensures v in Values(vals) ==> |Values(vals[dn := DIRECT + v])| <= |Values(vals)|
  {
    assert Values(vals[dn := DIRECT + v]) <= Values(vals) + {v};
    Subset(Values(vals[dn := DIRECT + v]), Values(vals) + {v});
    if v in Values(vals) { assert Values(vals) + {v} == Values(vals); }
  }

  /** The named documents exist and are below `n`. */
  ghost predicate NamesBelow(tab: seq<nat>, exists_: seq<bool>, n: nat)
  {
    forall x | 0 <= x < |tab| && tab[x] != 0 :: tab[x] < n && tab[x] < |exists_| && exists_[tab[x]]
  }

  /** The documents that exist when document `dn` has taken the value `v` over. */
  function TakenOver(vals: seq<nat>, exists_: seq<bool>, dn: nat, v: nat): (r: seq<bool>)
    requires |vals| == |exists_|
    ensures |r| == |exists_|
  {
    seq(|exists_|, d requires 0 <= d < |exists_| => exists_[d] && (d == 0 || d == dn || vals[d] != DIRECT + v))
  }

  /** What a slot says, as the search reads it. */
  lemma ProbeTells(tab: seq<nat>, keys: Keys, vals: seq<nat>, exists_: seq<bool>, n: nat, x: nat)
    requires TableOk(tab, keys, vals, exists_, n) && WellFormed(vals, exists_) && x < |tab|
    ensures tab[x] == 0 <==> keys[x].None?
    ensures tab[x] != 0 ==> tab[x] < |vals| && vals[tab[x]] % DIRECT == keys[x].value
  {
    assert SlotOk(tab, keys, vals, x);
  }

  lemma NotNamed(tab: seq<nat>, keys: Keys, vals: seq<nat>, exists_: seq<bool>, dn: nat)
    requires TableOk(tab, keys, vals, exists_, dn) && 0 < dn < |vals| && vals[dn] == 0
    ensures forall y | 0 <= y < |tab| :: tab[y] != dn
  {
    forall y | 0 <= y < |tab| ensures tab[y] != dn { assert SlotOk(tab, keys, vals, y); }
  }

  lemma DropLast(tab: seq<nat>, keys: Keys, vals: seq<nat>, exists_: seq<bool>, n: nat)
    requires TableOk(tab, keys, vals, exists_, n + 1)
    ensures TableOk(tab, keys, vals, exists_, n)
  {
  }

  class UniqueAttribute {
    var vals: seq<nat>
    var exists_: seq<bool>               // of each document, whether its flag word says that it exists
    var hashTab: seq<nat>
    var nuniquevals: nat
    var hashFilllimit: nat
    ghost var keys: Keys

    /** The table is in order for documents below `n`, and the search for a value meets an empty slot. */
    ghost predicate Ready(n: nat)
      reads this
    {
      && WellFormed(vals, exists_) && TableOk(hashTab, keys, vals, exists_, n)
      && IsPrime(|hashTab|) && |Values(vals)| <= nuniquevals < |hashTab|
    }

    ghost predicate Valid()
      reads this
    {
      Ready(|vals|) && nuniquevals < hashFilllimit <= |hashTab| &&
      forall x | 0 <= x < |hashTab| :: hashTab[x] < |vals|
    }

    constructor ()
      ensures Valid() && vals == [0] && exists_ == [false]
    {
      vals, exists_ := [0], [false];
      hashTab, keys := seq(13, _ => 0), seq(13, _ => None);
      nuniquevals, hashFilllimit := 0, 6;
      new;
      EmptyTableOk(13, vals, exists_);
      ThirteenIsPrime();
      assert Values(vals) == {};
    }

    /** `attr_numstr_sv_un_nfind`: the search always ends, at the slot of the value or an empty one. */
    method Find(v: nat, ghost n: nat) returns (x: nat, ghost k: nat)
      requires Ready(n)
      ensures x < |hashTab| && Reaches(keys, v, k, x) && (hashTab[x] != 0 ==> keys[x] == Some(v) && v in Values(vals))
    {
      KeysAreValues(hashTab, keys, vals, exists_, n);
      ghost var empty := EmptySlot(keys, Values(vals));
      ghost var last := VisitsEverySlot(v, |hashTab|, empty);
      x := v % |hashTab|;
      var hstep := Step(v, |hashTab|);
      k := 0;
      while true
        invariant x == At(v, k, |hashTab|) && Passes(keys, v, k) && k <= last
        decreases last - k
      {
        ProbeTells(hashTab, keys, vals, exists_, n, x);
        if hashTab[x] == 0 {
          return;
        }
        if vals[hashTab[x]] % DIRECT == v {
          return;
        }
        k := k + 1;
        x := x + hstep;
        if x >= |hashTab| {
          x := x - |hashTab|;
        }
      }
    }

    /** `ntvIDX_doc_start` with `attr_num_newdoc` */
    method NewDocument()
      requires Valid()
      modifies `vals, `exists_
      ensures Valid() && vals == old(vals) + [0] && exists_ == old(exists_) + [true]
    {
      SkipDocument(hashTab, keys, vals, exists_, |vals|, vals + [0], exists_ + [true]);
      assert Values(vals + [0]) == Values(vals);
      vals, exists_ := vals + [0], exists_ + [true];
    }

    /** `ntvIDX_doc_delete` */
    method DeleteDocument(d: nat)
      requires Valid()
      modifies `exists_
      ensures Valid()
      ensures exists_ == if 0 < d < |vals| then old(exists_)[d := false] else old(exists_)
    {
      if d == 0 || d >= |exists_| {
        return;
      }
      ghost var was := exists_;
      exists_ := exists_[d := false];
      forall e | 0 < e < |vals| ensures Named(hashTab, keys, vals, exists_, e) {
        assert Named(hashTab, keys, vals, was, e);
      }
    }

    /** An existing document with the value is the one named where the search ends. */
    lemma OnlyNamed(x: nat, k: nat, v: nat)
      requires TableOk(hashTab, keys, vals, exists_, |vals|) && x < |hashTab| && Reaches(keys, v, k, x)
      requires keys[x].None? || keys[x] == Some(v)
      ensures forall d | 0 < d < |vals| && exists_[d] && vals[d] == DIRECT + v :: keys[x].Some? && d == hashTab[x]
    {
      forall d | 0 < d < |vals| && exists_[d] && vals[d] == DIRECT + v ensures keys[x].Some? && d == hashTab[x] {
        assert Named(hashTab, keys, vals, exists_, d);
        var y :| 0 <= y < |hashTab| && keys[y] == Some(v) && hashTab[y] == d;
        if keys[x].None? { EmptyMeansAbsent(keys, v, k, x); } else { OneSlotPerValue(keys, x, y); }
      }
    }

    /** The value exists: copy it, delete the document that had it and name the new one. */
    method ReplaceDocument(x: nat, ghost k: nat, dn: nat, v: nat)
      requires Valid() && 0 < dn && dn + 1 == |vals| && vals[dn] == 0 && v < DIRECT && v in Values(vals)
      requires x < |hashTab| && Reaches(keys, v, k, x) && hashTab[x] != 0 && keys[x] == Some(v)
      modifies `vals, `exists_, `hashTab
      ensures Valid() && vals == old(vals)[dn := DIRECT + v] && exists_ == old(exists_)[old(hashTab[x]) := false]
      ensures old(hashTab[x]) < dn
    {
      assert SlotOk(hashTab, keys, vals, x);
      ghost var t, vs, es := hashTab, vals, exists_;
      var d := hashTab[x];
      ValuesGrow(vals, dn, v);
      vals := vals[dn := vals[d]];
      exists_ := exists_[d := false];
      hashTab := hashTab[x := dn];
      assert keys[x := Some(v)] == keys;
      DropLast(t, keys, vs, es, dn);
      NotNamed(t, keys, vs, es, dn);
      NameDocument(t, keys, vs, es, dn, vals, exists_, v, k, x);
    }

    method Reinsert(dn: nat)
      requires Ready(dn) && 0 < dn < |vals| && exists_[dn] && vals[dn] != 0
      requires NamesBelow(hashTab, exists_, dn) && Unique(vals, exists_, |vals|)
      modifies `hashTab, `keys
      ensures Ready(dn + 1) && NamesBelow(hashTab, exists_, dn + 1) && |hashTab| == old(|hashTab|)
    {
      var nval := vals[dn] % DIRECT;
      var x, k := Find(nval, dn);
      assert SlotOk(hashTab, keys, vals, x);
      assert hashTab[x] == 0;
      NameDocument(hashTab, keys, vals, exists_, dn, vals, exists_, nval, k, x);
      hashTab := hashTab[x := dn];
      keys := keys[x := Some(nval)];
    }

    /** `attr_numstr_sv_un_rehash` */
    method Rehash()
      requires WellFormed(vals, exists_) && Unique(vals, exists_, |vals|)
      requires |Values(vals)| <= nuniquevals && nuniquevals > 0
      modifies `hashTab, `keys, `hashFilllimit
      ensures Valid()
    {
      var newsize;
      if nuniquevals < HASH_DOUBLING_LIMIT {
        newsize := nuniquevals * 2;
      } else {
        newsize := nuniquevals;
        if newsize / 2 < 500000 {
          newsize := newsize + newsize / 2;
        } else {
          newsize := newsize + 500000;
        }
      }
      hashFilllimit := newsize;
      ghost var limit := newsize;
      newsize := newsize + newsize / 2;
      newsize := Prime(newsize);
      hashTab, keys := seq(newsize, _ => 0), seq(newsize, _ => None);
      EmptyTableOk(newsize, vals, exists_);
      var dn := 1;
      while dn < |vals|
        invariant 1 <= dn <= |vals| && |hashTab| == newsize && hashFilllimit == limit
        invariant Ready(dn) && NamesBelow(hashTab, exists_, dn)
      {
        if !exists_[dn] || vals[dn] == 0 {
          SkipDocument(hashTab, keys, vals, exists_, dn, vals, exists_);
        } else {
          Reinsert(dn);
        }
        dn := dn + 1;
      }
    }

    /** The value is new: name its document in the empty slot, unless it is time for a larger table. */
    method EnterValue(x: nat, ghost k: nat, dn: nat, v: nat)
      requires WellFormed(vals, exists_) && TableOk(hashTab, keys, vals, exists_, |vals|) && IsPrime(|hashTab|)
      requires hashFilllimit <= |hashTab| && nuniquevals > 0 && forall y | 0 <= y < |hashTab| :: hashTab[y] < |vals|
      requires 0 < dn && dn + 1 == |vals| && vals[dn] == 0 && v < DIRECT
      requires |Values(vals[dn := DIRECT + v])| <= nuniquevals
      requires x < |hashTab| && Reaches(keys, v, k, x) && hashTab[x] == 0
      requires forall d | 0 < d < |vals| && exists_[d] :: vals[d] != DIRECT + v
      modifies `vals, `hashTab, `keys, `hashFilllimit
      ensures Valid() && vals == old(vals)[dn := DIRECT + v]
    {
      assert SlotOk(hashTab, keys, vals, x);
      ghost var vs := vals;
      vals := vals[dn := DIRECT + v];
      DropLast(hashTab, keys, vs, exists_, dn);
      NotNamed(hashTab, keys, vs, exists_, dn);
      if nuniquevals >= hashFilllimit {
        NamesUnique(hashTab, keys, vs, exists_, dn);
        Rehash();
      } else {
        NameDocument(hashTab, keys, vs, exists_, dn, vals, exists_, v, k, x);
        hashTab := hashTab[x := dn];
        keys := keys[x := Some(v)];
      }
    }

    /** `attr_numstr_sv_un_setval`: give the last document its value; a document that had it is deleted. */
    method SetValue(v: nat)
      requires Valid() && |vals| > 1 && vals[|vals| - 1] == 0 && exists_[|vals| - 1] && v < DIRECT
      modifies this
      ensures Valid() && Unique(vals, exists_, |vals|)
      ensures vals == old(vals)[old(|vals|) - 1 := DIRECT + v]
      ensures exists_ == TakenOver(old(vals), old(exists_), old(|vals|) - 1, v)
    {
      var dn := |vals| - 1;
      var x, k := Find(v, |vals|);
      ValuesGrow(vals, dn, v);
      assert SlotOk(hashTab, keys, vals, x);
      OnlyNamed(x, k, v);
      if hashTab[x] == 0 {
        nuniquevals := nuniquevals + 1;
        EnterValue(x, k, dn, v);
      } else {
        ReplaceDocument(x, k, dn, v);
      }
      NamesUnique(hashTab, keys, vals, exists_, |vals|);
      assert exists_ == TakenOver(old(vals), old(exists_), dn, v);
    }

    /** The only existing document that can have the value: the one named where the search ends. */
    method Holder(v: nat) returns (d: nat)
      requires Valid()
      ensures Unique(vals, exists_, |vals|)
      ensures forall e | 0 < e < |vals| && exists_[e] && vals[e] == DIRECT + v :: e == d
    {
      var x, k := Find(v, |vals|);
      NamesUnique(hashTab, keys, vals, exists_, |vals|);
      assert SlotOk(hashTab, keys, vals, x);
      OnlyNamed(x, k, v);
      d := hashTab[x];
    }
  }

  // ----- whole runs -----

  /** One step of building an index.  A value is given to the document just started, once. */
  datatype Action = Start | Set(value: nat) | Delete(document: nat)

  /** What a run should leave: the documents' values, which of them exist, and whether the last one still
      waits for its value. */
  datatype Record = Record(vals: seq<nat>, exists_: seq<bool>, open: bool)

  /** One action, if it is in order. */
  function Next(r: Record, action: Action): (n: Record)
    requires 0 < |r.vals| == |r.exists_|
    ensures 0 < |n.vals| == |n.exists_|
  {
    var last := |r.vals| - 1;
    match action
    case Start => Record(r.vals + [0], r.exists_ + [true], true)
    case Set(v) =>
      if r.open && r.exists_[last] then
        Record(r.vals[last := DIRECT + v], TakenOver(r.vals, r.exists_, last, v), false)
      else r
    case Delete(d) => if 0 < d < |r.exists_| then r.(exists_ := r.exists_[d := false]) else r
  }

  function Recorded(actions: seq<Action>): (r: Record)
    ensures 0 < |r.vals| == |r.exists_|
  {
    if actions == [] then Record([0], [false], false)
    else Next(Recorded(actions[..|actions| - 1]), actions[|actions| - 1])
  }

  method Perform(a: UniqueAttribute, action: Action, open: bool) returns (stillOpen: bool)
    requires a.Valid() && (open ==> |a.vals| > 1 && a.vals[|a.vals| - 1] == 0)
    requires action.Set? ==> action.value < DIRECT
    modifies a
    ensures a.Valid() && (stillOpen ==> |a.vals| > 1 && a.vals[|a.vals| - 1] == 0)
    ensures Record(a.vals, a.exists_, stillOpen) == Next(old(Record(a.vals, a.exists_, open)), action)
  {
    stillOpen := open;
    match action
    case Start =>
      a.NewDocument();
      stillOpen := true;
    case Set(value) =>
      if open && a.exists_[|a.exists_| - 1] {
        a.SetValue(value);
        stillOpen := false;
      }
    case Delete(d) =>
      a.DeleteDocument(d);
  }

  /** For any run of new documents, values and deletions, every value has at most one existing document:
      the last one it was given to, if that has not been deleted.  The search for it finds that document. */
  method Build(actions: seq<Action>, v: nat) returns (vals: seq<nat>, existing: seq<bool>, found: nat)
    requires forall i | 0 <= i < |actions| && actions[i].Set? :: actions[i].value < DIRECT
    ensures vals == Recorded(actions).vals && existing == Recorded(actions).exists_
    ensures Unique(vals, existing, |vals|)
    ensures forall d | 0 < d < |vals| && existing[d] && vals[d] == DIRECT + v :: d == found
  {
    var a := new UniqueAttribute();
    var open := false;
    for i := 0 to |actions|
      invariant a.Valid() && fresh(a) && Recorded(actions[..i]) == Record(a.vals, a.exists_, open)
      invariant open ==> |a.vals| > 1 && a.vals[|a.vals| - 1] == 0
    {
      assert actions[..i + 1][..i] == actions[..i];
      open := Perform(a, actions[i], open);
    }
    assert actions[..|actions|] == actions;
    found := a.Holder(v);
    return a.vals, a.exists_, found;
  }
}
