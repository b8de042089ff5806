/** The hash index of a keyed attribute whose values several documents may share. */
module DocumentChains {
  import opened Collections
  import opened Probing

  /** The hash table and the table of document chains, with what they stand for: the value of each used
      slot, its documents, and the places of those in the chain table. */
  datatype Table = Table(tab: seq<nat>, valdoc: seq<nat>, keys: Keys, docs: seq<seq<nat>>, idxs: seq<seq<nat>>)

  /** One link of a chain: a document and the place of the next link, or 0. */
  ghost predicate LinkOk(t: Table, x: nat, i: nat)
    requires x < |t.docs| && x < |t.idxs| && i < |t.idxs[x]|
  {
    var idx := t.idxs[x][i];
    && i < |t.docs[x]| && idx % 2 == 1 && idx + 1 < |t.valdoc|
    && t.valdoc[idx] == t.docs[x][i]
    && t.valdoc[idx + 1] == if i + 1 < |t.idxs[x]| then t.idxs[x][i + 1] else 0
  }

  /** A slot is empty, names its one document, or leads to a chain. */
  ghost predicate SlotOk(t: Table, x: nat)
    requires x < |t.tab| && x < |t.keys| && x < |t.docs| && x < |t.idxs|
  {
    && (t.tab[x] == 0 <==> t.keys[x].None?)
    && (t.tab[x] == 0 ==> t.docs[x] == [] && t.idxs[x] == [])
    && (t.tab[x] >= DIRECT ==> t.docs[x] == [t.tab[x] - DIRECT] && t.idxs[x] == [])
    && (0 < t.tab[x] < DIRECT ==>
          && t.idxs[x] != [] && t.idxs[x][0] == t.tab[x] && |t.docs[x]| == |t.idxs[x]|
          && (forall i {:trigger LinkOk(t, x, i)} | 0 <= i < |t.idxs[x]| :: LinkOk(t, x, i)))
  }

  /** No place of the chain table is used twice. */
  ghost predicate Apart(t: Table, x: nat, i: nat, y: nat, j: nat)
    requires x < |t.idxs| && y < |t.idxs| && i < |t.idxs[x]| && j < |t.idxs[y]|
  {
    x != y || i != j ==> t.idxs[x][i] != t.idxs[y][j]
  }

  ghost predicate ChainsOk(t: Table)
  {
    && |t.keys| == |t.docs| == |t.idxs| == |t.tab| && Sound(t.keys)
    && |t.valdoc| % 2 == 1
    && (forall x {:trigger SlotOk(t, x)} | 0 <= x < |t.tab| :: SlotOk(t, x))
    && (forall x, i, y, j {:trigger Apart(t, x, i, y, j)} | 0 <= x < |t.idxs| && 0 <= i < |t.idxs[x]|
          && 0 <= y < |t.idxs| && 0 <= j < |t.idxs[y]| :: Apart(t, x, i, y, j))
  }

  /** The documents of a slot are documents below `n` with the slot's value, each once. */
  ghost predicate DocsOk(t: Table, vals: seq<nat>, n: nat, x: nat)
    requires x < |t.keys| && x < |t.docs|
  {
    && NoDup(t.docs[x])
    && (forall d | d in t.docs[x] :: 0 < d < n && d < |vals| && t.keys[x].Some? && vals[d] == DIRECT + t.keys[x].value)
  }

  /** A document with a value is among the documents of that value's slot. */
  ghost predicate Listed(t: Table, vals: seq<nat>, d: nat)
    requires d < |vals|
  {
    vals[d] != 0 ==>
      vals[d] >= DIRECT &&
      exists x :: 0 <= x < |t.keys| && x < |t.docs| && t.keys[x] == Some(vals[d] - DIRECT) && d in t.docs[x]
  }

  /** The tables index documents 1 to `n - 1`. */
  ghost predicate Indexes(t: Table, vals: seq<nat>, n: nat)
  {
    && ChainsOk(t) && n <= |vals|
    && (forall x {:trigger DocsOk(t, vals, n, x)} | 0 <= x < |t.tab| :: DocsOk(t, vals, n, x))
    && (forall d {:trigger Listed(t, vals, d)} | 0 < d < n :: Listed(t, vals, d))
  }

  /** When document `n` has been added to the documents of one slot, the tables index it as well. */
  lemma IndexesMore(t: Table, u: Table, vals: seq<nat>, vals': seq<nat>, n: nat, v: nat, x: nat)
    requires Indexes(t, vals, n) && ChainsOk(u) && |u.tab| == |t.tab| && x < |t.tab| && 0 < n < |vals'|
    requires vals'[n] == DIRECT + v && forall d | 0 <= d < n :: vals'[d] == vals[d]
    requires u.keys[x] == Some(v) && (t.keys[x].None? || t.keys[x] == Some(v))
    requires forall y | 0 <= y < |t.tab| && y != x :: u.keys[y] == t.keys[y] && u.docs[y] == t.docs[y]
    requires NoDup(u.docs[x]) && forall d :: d in u.docs[x] <==> d in t.docs[x] || d == n
    ensures Indexes(u, vals', n + 1)
  {
    assert SlotOk(t, x);
    var m := n + 1;
    forall y | 0 <= y < |u.tab| ensures DocsOk(u, vals', m, y) {
      assert DocsOk(t, vals, n, y);
    }
    forall d | 0 < d < m ensures Listed(u, vals', d) {
      if d < n {
        assert Listed(t, vals, d);
        if vals[d] != 0 {
          var y :| 0 <= y < |t.keys| && t.keys[y] == Some(vals[d] - DIRECT) && d in t.docs[y];
          assert u.keys[y] == t.keys[y] && d in u.docs[y];
        }
      } else {
        assert u.keys[x] == Some(vals'[d] - DIRECT) && d in u.docs[x];
      }
    }
  }

  // ----- the ways of adding a document -----

  function WithDirect(t: Table, x: nat, v: nat, n: nat): Table
    requires x < |t.tab| == |t.keys| == |t.docs|
  {
    t.(tab := t.tab[x := DIRECT + n], keys := t.keys[x := Some(v)], docs := t.docs[x := [n]])
  }

  /** The first document of a value. */
  lemma AddDirect(t: Table, vals: seq<nat>, vals': seq<nat>, n: nat, v: nat, k: nat, x: nat)
    requires Indexes(t, vals, n) && 0 < n < |vals'| && vals'[n] == DIRECT + v
    requires forall d | 0 <= d < n :: vals'[d] == vals[d]
    requires x < |t.tab| && Reaches(t.keys, v, k, x) && t.tab[x] == 0
    ensures Indexes(WithDirect(t, x, v, n), vals', n + 1)
  {
    var u := WithDirect(t, x, v, n);
    assert SlotOk(t, x);
    PutKeepsSound(t.keys, v, k, x);
    forall y | 0 <= y < |u.tab| ensures SlotOk(u, y) {
      assert SlotOk(t, y);
      forall i | 0 <= i < |u.idxs[y]| ensures LinkOk(u, y, i) { assert LinkOk(t, y, i); }
    }
    forall y, i, z, j | 0 <= y < |u.idxs| && 0 <= i < |u.idxs[y]| && 0 <= z < |u.idxs| && 0 <= j < |u.idxs[z]|
      ensures Apart(u, y, i, z, j)
    {
      assert Apart(t, y, i, z, j);
    }
    IndexesMore(t, u, vals, vals', n, v, x);
  }

  function WithPair(t: Table, x: nat, n: nat): Table
    requires x < |t.tab| == |t.docs| == |t.idxs| && t.tab[x] >= DIRECT
  {
    var top := |t.valdoc|;
    t.(tab := t.tab[x := top], valdoc := t.valdoc + [t.tab[x] - DIRECT, top + 2, n, 0],
       docs := t.docs[x := [t.tab[x] - DIRECT, n]], idxs := t.idxs[x := [top, top + 2]])
  }

  lemma OldPlace(t: Table, y: nat, i: nat)
    requires ChainsOk(t) && y < |t.idxs| && i < |t.idxs[y]|
    ensures 0 < t.idxs[y][i] && t.idxs[y][i] % 2 == 1 && t.idxs[y][i] + 1 < |t.valdoc|
  {
    assert SlotOk(t, y);
    assert LinkOk(t, y, i);
  }

  /** Places from the end of the old chain table on are new. */
  lemma NewApart(t: Table, u: Table, x: nat, top: nat)
    requires ChainsOk(t) && |u.idxs| == |t.idxs| && x < |t.idxs| && top == |t.valdoc|
    requires forall y | 0 <= y < |t.idxs| && y != x :: u.idxs[y] == t.idxs[y]
    requires forall i | 0 <= i < |u.idxs[x]| :: u.idxs[x][i] >= top || u.idxs[x][i] in t.idxs[x]
    requires NoDup(u.idxs[x])
    ensures forall y, i, z, j {:trigger Apart(u, y, i, z, j)} | 0 <= y < |u.idxs| && 0 <= i < |u.idxs[y]|
              && 0 <= z < |u.idxs| && 0 <= j < |u.idxs[z]| :: Apart(u, y, i, z, j)
  {
    forall y, i, z, j | 0 <= y < |u.idxs| && 0 <= i < |u.idxs[y]| && 0 <= z < |u.idxs| && 0 <= j < |u.idxs[z]|
      ensures Apart(u, y, i, z, j)
    {
      if y == x && z != x {
        OldPlace(t, z, j);
        if u.idxs[x][i] < top {
          var i' :| 0 <= i' < |t.idxs[x]| && t.idxs[x][i'] == u.idxs[x][i];
          assert Apart(t, x, i', z, j);
        }
      } else if z == x && y != x {
        OldPlace(t, y, i);
        if u.idxs[x][j] < top {
          var j' :| 0 <= j' < |t.idxs[x]| && t.idxs[x][j'] == u.idxs[x][j];
          assert Apart(t, y, i, x, j');
        }
      } else if y != x {
        assert Apart(t, y, i, z, j);
      }
    }
  }

  /** The second document of a value: a chain of two. */
  lemma AddSecond(t: Table, vals: seq<nat>, vals': seq<nat>, n: nat, v: nat, x: nat)
    requires Indexes(t, vals, n) && 0 < n < |vals'| && vals'[n] == DIRECT + v
    requires forall d | 0 <= d < n :: vals'[d] == vals[d]
    requires x < |t.tab| && t.keys[x] == Some(v) && t.tab[x] >= DIRECT && |t.valdoc| < DIRECT
    ensures Indexes(WithPair(t, x, n), vals', n + 1)
  {
    var u, top := WithPair(t, x, n), |t.valdoc|;
    assert SlotOk(t, x) && DocsOk(t, vals, n, x);
    forall y | 0 <= y < |u.tab| ensures SlotOk(u, y) {
      assert SlotOk(t, y);
      forall i | 0 <= i < |u.idxs[y]| ensures LinkOk(u, y, i) {
        if y != x { assert LinkOk(t, y, i); }
      }
    }
    NewApart(t, u, x, top);
    assert t.tab[x] - DIRECT in t.docs[x];
    IndexesMore(t, u, vals, vals', n, v, x);
  }

  function WithFront(t: Table, x: nat, n: nat): Table
    requires x < |t.tab| == |t.docs| == |t.idxs|
  {
    t.(tab := t.tab[x := |t.valdoc|], valdoc := t.valdoc + [n, t.tab[x]],
       docs := t.docs[x := [n] + t.docs[x]], idxs := t.idxs[x := [|t.valdoc|] + t.idxs[x]])
  }

  function InsertSecond(s: seq<nat>, n: nat): seq<nat>
    requires s != []
  {
    [s[0], n] + s[1..]
  }

  lemma NewDocument(s: seq<nat>, n: nat)
    requires NoDup(s) && n !in s
    ensures NoDup([n] + s)
    ensures s != [] ==> NoDup(InsertSecond(s, n)) && forall d :: d in InsertSecond(s, n) <==> d in s || d == n
  {
    if s != [] {
      assert s == [s[0]] + s[1..];
    }
  }

  /** A further document at the head of the chain. */
  lemma AddFront(t: Table, vals: seq<nat>, vals': seq<nat>, n: nat, v: nat, x: nat)
    requires Indexes(t, vals, n) && 0 < n < |vals'| && vals'[n] == DIRECT + v
    requires forall d | 0 <= d < n :: vals'[d] == vals[d]
    requires x < |t.tab| && t.keys[x] == Some(v) && 0 < t.tab[x] < DIRECT && |t.valdoc| < DIRECT
    ensures Indexes(WithFront(t, x, n), vals', n + 1)
  {
    var u, top := WithFront(t, x, n), |t.valdoc|;
    assert SlotOk(t, x) && DocsOk(t, vals, n, x);
    forall y | 0 <= y < |u.tab| ensures SlotOk(u, y) {
      assert SlotOk(t, y);
      forall i | 0 <= i < |u.idxs[y]| ensures LinkOk(u, y, i) {
        if y != x { assert LinkOk(t, y, i); }
        if y == x && i > 0 { assert LinkOk(t, x, i - 1); }
      }
    }
    forall i, j | 0 <= i < j < |u.idxs[x]| ensures u.idxs[x][i] != u.idxs[x][j] {
      OldPlace(t, x, j - 1);
      if i > 0 { assert Apart(t, x, i - 1, x, j - 1); }
    }
    NewApart(t, u, x, top);
    NewDocument(t.docs[x], n);
    IndexesMore(t, u, vals, vals', n, v, x);
  }

  function WithSecond(t: Table, x: nat, n: nat): Table
    requires x < |t.tab| == |t.docs| == |t.idxs| && t.tab[x] + 1 < |t.valdoc| && t.docs[x] != [] && t.idxs[x] != []
  {
    t.(valdoc := t.valdoc[t.tab[x] + 1 := |t.valdoc|] + [n, t.valdoc[t.tab[x] + 1]],
       docs := t.docs[x := InsertSecond(t.docs[x], n)], idxs := t.idxs[x := InsertSecond(t.idxs[x], |t.valdoc|)])
  }

  lemma SecondLink(t: Table, x: nat, n: nat, y: nat, i: nat)
    requires ChainsOk(t) && x < |t.tab| && y < |t.tab| && 0 < t.tab[x] < DIRECT
    requires t.tab[x] + 1 < |t.valdoc| && t.docs[x] != [] && t.idxs[x] != []
    requires i < |WithSecond(t, x, n).idxs[y]|
    ensures LinkOk(WithSecond(t, x, n), y, i)
  {
    assert SlotOk(t, x);
    assert LinkOk(t, x, 0);
    if y != x {
      assert SlotOk(t, y) && LinkOk(t, y, i) && Apart(t, y, i, x, 0);
    } else if i > 1 {
      assert LinkOk(t, x, i - 1) && Apart(t, x, i - 1, x, 0);
    }
  }

  /** A further document behind the head of the chain, which is what a rehash does. */
  lemma AddBehindHead(t: Table, vals: seq<nat>, vals': seq<nat>, n: nat, v: nat, x: nat)
    requires Indexes(t, vals, n) && 0 < n < |vals'| && vals'[n] == DIRECT + v
    requires forall d | 0 <= d < n :: vals'[d] == vals[d]
    requires x < |t.tab| && t.keys[x] == Some(v) && 0 < t.tab[x] < DIRECT
    ensures t.tab[x] + 1 < |t.valdoc| && t.docs[x] != [] && t.idxs[x] != []
    ensures Indexes(WithSecond(t, x, n), vals', n + 1)
  {
    assert SlotOk(t, x) && DocsOk(t, vals, n, x);
    OldPlace(t, x, 0);
    var u, top := WithSecond(t, x, n), |t.valdoc|;
    forall y | 0 <= y < |u.tab| ensures SlotOk(u, y) {
      assert SlotOk(t, y);
      forall i | 0 <= i < |u.idxs[y]| ensures LinkOk(u, y, i) {
        SecondLink(t, x, n, y, i);
      }
    }
    forall i, j | 0 <= i < j < |u.idxs[x]| ensures u.idxs[x][i] != u.idxs[x][j] {
      if j > 1 { OldPlace(t, x, j - 1); }
      if i != 1 && j > 1 { assert Apart(t, x, if i == 0 then 0 else i - 1, x, j - 1); }
    }
    NewApart(t, u, x, top);
    NewDocument(t.docs[x], n);
    IndexesMore(t, u, vals, vals', n, v, x);
  }
}
