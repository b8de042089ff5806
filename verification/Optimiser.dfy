/** The clustering optimiser: runs of AND and of OR are flattened into sorted lists, flag tests on
    one word are merged into one masked test, and each list is rebuilt as a left-deep tree. */
module Optimiser {
  import opened Collections
  import opened Words
  import opened ConstraintTree

  /** The `prevNodeType` argument: 0 at the root, or the kind of the parent node. */
  datatype Kind = KTop | KAnd | KOr | KNot

  datatype Cluster = Cluster(list: seq<Tree>, kind: Kind)

  const CLUSTERINC: nat := 10

  /** `nodeType_t`, which orders the nodes of a cluster. */
  function Rank(t: Tree): nat
  {
    match t
    case And(_, _) => 1
    case Or(_, _) => 2
    case Not(_) => 3
    case Rel(op, _, _) => (match op case Lt => 4 case Gt => 5 case Le => 6 case Ge => 7 case Eq => 8 case Ne => 9)
    case Like(_, _) => 10
    case Flag(_) => 13
    case AttrOr(_, _) => 14
    case AttrAnd(_, _) => 15
    case In(_, _) => 16
  }

  function KindOf(t: Tree): Kind
  {
    if t.And? then KAnd else if t.Or? then KOr else if t.Not? then KNot else KTop
  }

  /** Flag tests that may be merged with others in a cluster of kind `k`. */
  predicate Mergeable(t: Tree, k: Kind)
  {
    (t.AttrOr? && k == KOr) || (t.AttrAnd? && k == KAnd)
  }

  function Merged(t: Tree, twig: Tree): Tree
    requires t.AttrOr? || t.AttrAnd?
    requires twig.AttrOr? || twig.AttrAnd?
  {
    t.(mask := Words.Or(t.mask, twig.mask))
  }

  /** Where a branch goes in relation to a member of the list: in front of it, into it, or behind. */
  datatype Place = Before | Merge | After

  function PlaceOf(twig: Tree, h: Tree, k: Kind): (p: Place)
    ensures p.Merge? ==> Mergeable(twig, k) && Mergeable(h, k) && h.group1 == twig.group1
  {
    if Rank(twig) < Rank(h) then Before
    else if Rank(twig) > Rank(h) then After
    else if !Mergeable(twig, k) || twig.group1 < h.group1 then Before
    else if twig.group1 == h.group1 then Merge
    else After
  }

  /** Insert a branch into a cluster list at its place, or merge it into the test already there. */
  function Insert(list: seq<Tree>, twig: Tree, k: Kind): seq<Tree>
  {
    if list == [] then [twig]
    else
      match PlaceOf(twig, list[0], k)
      case Before => [twig] + list
      case Merge => [Merged(list[0], twig)] + list[1..]
      case After => [list[0]] + Insert(list[1..], twig, k)
  }

  lemma PrependPart<T>(list: seq<T>, i: nat, mid: seq<T>, j: nat)
    requires 0 < i <= j <= |list|
    ensures [list[0]] + (list[1..][..i - 1] + mid + list[1..][j - 1..]) == list[..i] + mid + list[j..]
  {
    assert list[1..][j - 1..] == list[j..];
    assert [list[0]] + list[1..][..i - 1] == list[..i];
  }

  /** Insertion happens at the first member the branch does not go behind. */
  lemma {:induction false} InsertStops(list: seq<Tree>, twig: Tree, k: Kind, i: nat)
    requires i <= |list| && forall j | 0 <= j < i :: PlaceOf(twig, list[j], k).After?
    requires i < |list| ==> !PlaceOf(twig, list[i], k).After?
    ensures Insert(list, twig, k) ==
            if i < |list| && PlaceOf(twig, list[i], k).Merge?
            then list[..i] + [Merged(list[i], twig)] + list[i + 1..]
            else list[..i] + [twig] + list[i..]
  {
    hide PlaceOf, Merged, Rank;
    if i > 0 {
      InsertStops(list[1..], twig, k, i - 1);
      if i < |list| && PlaceOf(twig, list[i], k).Merge? {
        PrependPart(list, i, [Merged(list[i], twig)], i + 1);
      } else {
        PrependPart(list, i, [twig], i);
      }
    }
  }

  function Node(k: Kind, l: Tree, r: Tree): Tree
    requires k == KAnd || k == KOr
  {
    if k == KAnd then And(l, r) else Or(l, r)
  }

  /** The left-deep tree over a cluster list. */
  function Rebuild(k: Kind, list: seq<Tree>): Tree
    requires (k == KAnd || k == KOr) && list != []
  {
    var n := |list| - 1;
    if n == 0 then list[0] else Node(k, Rebuild(k, list[..n]), list[n])
  }

  /** The subtree `optimiseNode` returns for a node that does not continue its parent's run. */
  function Optimised(env: Env, t: Tree, prev: Kind): Tree
    decreases t, 0
  {
    match t
    case And(l, r) => Rebuild(KAnd, Collect(env, r, KAnd, Collect(env, l, KAnd, [])))
    case Or(l, r) => Rebuild(KOr, Collect(env, r, KOr, Collect(env, l, KOr, [])))
    case Not(a) => Not(Optimised(env, a, KNot))
    case Flag(id) =>
      if id in env.flags && env.flags[id].group >= -1 then
        var place := env.flags[id];
        if prev == KAnd then AttrAnd(place.group + 1, Pow2(place.bit))
        else AttrOr(place.group + 1, Pow2(place.bit))
      else t
    case _ => t
  }

  /** Insert all operands of the run of `k` nodes headed by `t` into a cluster list. */
  function Collect(env: Env, t: Tree, k: Kind, list: seq<Tree>): (r: seq<Tree>)
    ensures r != []
    decreases t, 1
  {
    if (k == KAnd && t.And?) || (k == KOr && t.Or?) then
      Collect(env, t.right, k, Collect(env, t.left, k, list))
    else
      var r := Insert(list, Optimised(env, t, k), k);
      r
  }

  // ----- meaning -----

  /** A cluster's truth value: all of its members for AND, one of them for OR. */
  predicate ClusterHolds(env: Env, d: Doc, k: Kind, list: seq<Tree>)
  {
    if list == [] then k == KAnd
    else if k == KAnd then Eval(env, d, list[0]) && ClusterHolds(env, d, k, list[1..])
    else Eval(env, d, list[0]) || ClusterHolds(env, d, k, list[1..])
  }

  predicate Combine(k: Kind, x: bool, y: bool)
  {
    if k == KAnd then x && y else x || y
  }

  /** Inserting a branch, merged or not, adds exactly its truth value to the cluster's. */
  lemma {:induction false} InsertMeaning(env: Env, d: Doc, list: seq<Tree>, twig: Tree, k: Kind)
    requires k == KAnd || k == KOr
    ensures ClusterHolds(env, d, k, Insert(list, twig, k)) ==
            Combine(k, ClusterHolds(env, d, k, list), Eval(env, d, twig))
  {
    if list == [] {
    } else {
      var h := list[0];
      InsertMeaning(env, d, list[1..], twig, k);
      if PlaceOf(twig, h, k).Merge? {
        var w := d.FlagWord(h.group1);
        AnyOfUnion(w, h.mask, twig.mask);
        AllOfUnion(w, h.mask, twig.mask);
      }
    }
  }

  lemma {:induction false} ClusterSplit(env: Env, d: Doc, k: Kind, list: seq<Tree>, n: nat)
    requires (k == KAnd || k == KOr) && n <= |list|
    ensures ClusterHolds(env, d, k, list) ==
            Combine(k, ClusterHolds(env, d, k, list[..n]), ClusterHolds(env, d, k, list[n..]))
  {
    if n == 0 {
      assert list[0..] == list;
    } else {
      ClusterSplit(env, d, k, list[1..], n - 1);
      assert list[1..][..n - 1] == list[..n][1..];
      assert list[1..][n - 1..] == list[n..];
    }
  }

  lemma {:induction false} RebuildMeaning(env: Env, d: Doc, k: Kind, list: seq<Tree>)
    requires (k == KAnd || k == KOr) && list != []
    ensures Eval(env, d, Rebuild(k, list)) == ClusterHolds(env, d, k, list)
  {
    var n := |list| - 1;
    ClusterSplit(env, d, k, list, n);
    assert list[n..] == [list[n]];
    if n > 0 { RebuildMeaning(env, d, k, list[..n]); }
  }

  /** A one-bit mask is found in a word, in part or in full, exactly when the bit is set. */
  lemma SingleBit(w: nat, i: nat)
    ensures Words.And(w, Pow2(i)) != 0 <==> Bit(w, i)
    ensures Words.And(w, Pow2(i)) == Pow2(i) <==> Bit(w, i)
  {
    AndPow2(w, i);
    AllSet(w, Pow2(i));
    if Bit(w, i) {
      forall j: nat | Bit(Pow2(i), j) ensures Bit(w, j) { BitPow2(i, j); }
    } else {
      BitPow2(i, i);
    }
  }

  /** The optimiser preserves the truth value of every tree on every document. */
  lemma {:induction false} OptimisedMeaning(env: Env, d: Doc, t: Tree, prev: Kind)
    requires Typed(env, t) && env.Valid()
    ensures Eval(env, d, Optimised(env, t, prev)) == Eval(env, d, t)
    decreases t, 0
  {
    match t
    case And(l, r) =>
      var list := Collect(env, l, KAnd, []);
      CollectMeaning(env, d, l, KAnd, []);
      CollectMeaning(env, d, r, KAnd, list);
      RebuildMeaning(env, d, KAnd, Collect(env, r, KAnd, list));
    case Or(l, r) =>
      var list := Collect(env, l, KOr, []);
      CollectMeaning(env, d, l, KOr, []);
      CollectMeaning(env, d, r, KOr, list);
      RebuildMeaning(env, d, KOr, Collect(env, r, KOr, list));
    case Not(a) => OptimisedMeaning(env, d, a, KNot);
    case Flag(id) =>
      var place := env.flags[id];
      SingleBit(d.FlagWord(place.group + 1), place.bit);
    case _ =>
  }

  lemma {:induction false} CollectMeaning(env: Env, d: Doc, t: Tree, k: Kind, list: seq<Tree>)
    requires (k == KAnd || k == KOr) && Typed(env, t) && env.Valid()
    ensures ClusterHolds(env, d, k, Collect(env, t, k, list)) ==
            Combine(k, ClusterHolds(env, d, k, list), Eval(env, d, t))
    decreases t, 1
  {
    if KindOf(t) == k {
      CollectMeaning(env, d, t.left, k, list);
      CollectMeaning(env, d, t.right, k, Collect(env, t.left, k, list));
    } else {
      OptimisedMeaning(env, d, t, k);
      InsertMeaning(env, d, list, Optimised(env, t, k), k);
    }
  }

  // ----- order -----

  predicate InOrder(x: Tree, y: Tree, k: Kind)
  {
    Rank(x) < Rank(y) ||
    (Rank(x) == Rank(y) && (Mergeable(x, k) && Mergeable(y, k) ==> x.group1 < y.group1))
  }

  /** A cluster list is in node-type order, and its mergeable flag tests are in strictly increasing
      order of their flag word, so there is at most one for each word. */
  ghost predicate Sorted(list: seq<Tree>, k: Kind)
  {
    forall i, j | 0 <= i < j < |list| :: InOrder(list[i], list[j], k)
  }

  /** Every member of the result is a member of the list, the branch, or a merger of both. */
  lemma {:induction false} InsertMembers(list: seq<Tree>, twig: Tree, k: Kind, x: Tree)
    requires x in Insert(list, twig, k)
    ensures x in list || x == twig ||
            (Mergeable(twig, k) && exists h :: h in list && Rank(h) == Rank(twig) &&
                                               h.group1 == twig.group1 && x == Merged(h, twig))
  {
    if list != [] && x !in list && x != twig {
      if x in Insert(list[1..], twig, k) { InsertMembers(list[1..], twig, k, x); }
    }
  }

  lemma ConsSorted(h: Tree, rest: seq<Tree>, k: Kind)
    requires Sorted(rest, k) && forall x | x in rest :: InOrder(h, x, k)
    ensures Sorted([h] + rest, k)
  {
  }

  lemma SortedTail(list: seq<Tree>, k: Kind)
    requires Sorted(list, k) && list != []
    ensures Sorted(list[1..], k) && forall x | x in list[1..] :: InOrder(list[0], x, k)
  {
    forall x | x in list[1..] ensures InOrder(list[0], x, k) {
      var i :| 0 <= i < |list| - 1 && list[1..][i] == x;
      assert list[i + 1] == x;
    }
  }

  lemma {:induction false} InsertKeepsSorted(list: seq<Tree>, twig: Tree, k: Kind)
    requires Sorted(list, k)
    ensures Sorted(Insert(list, twig, k), k)
  {
    if list != [] {
      var h, rest := list[0], list[1..];
      SortedTail(list, k);
      assert list == [h] + rest;
      if PlaceOf(twig, h, k).After? {
        InsertKeepsSorted(rest, twig, k);
        forall x | x in Insert(rest, twig, k) ensures InOrder(h, x, k) {
          InsertMembers(rest, twig, k, x);
        }
        ConsSorted(h, Insert(rest, twig, k), k);
      } else if PlaceOf(twig, h, k).Merge? {
        forall x | x in rest ensures InOrder(Merged(h, twig), x, k) {
          assert InOrder(h, x, k);
        }
        ConsSorted(Merged(h, twig), rest, k);
      } else {
        forall x | x in list ensures InOrder(twig, x, k) {
          assert x == h || InOrder(h, x, k);
        }
        ConsSorted(twig, list, k);
      }
    }
  }

  lemma {:induction false} CollectKeepsSorted(env: Env, t: Tree, k: Kind, list: seq<Tree>)
    requires Sorted(list, k)
    ensures Sorted(Collect(env, t, k, list), k)
    decreases t
  {
    if (k == KAnd && t.And?) || (k == KOr && t.Or?) {
      CollectKeepsSorted(env, t.left, k, list);
      CollectKeepsSorted(env, t.right, k, Collect(env, t.left, k, list));
    } else {
      InsertKeepsSorted(list, Optimised(env, t, k), k);
    }
  }

  // ----- what the code generator relies on -----

  predicate Ready(env: Env, t: Tree)
  {
    FlagFree(t) && Typed(env, t)
  }

  lemma InsertReady(env: Env, list: seq<Tree>, twig: Tree, k: Kind)
    requires (forall x | x in list :: Ready(env, x)) && Ready(env, twig)
    ensures forall x | x in Insert(list, twig, k) :: Ready(env, x)
  {
    hide Insert;
    forall x | x in Insert(list, twig, k) ensures Ready(env, x) {
      InsertMembers(list, twig, k, x);
      if x !in list && x != twig {
        var h :| h in list && Rank(h) == Rank(twig) && h.group1 == twig.group1 && x == Merged(h, twig);
        OrZero(h.mask, twig.mask);
      }
    }
  }

  lemma {:induction false} RebuildReady(env: Env, k: Kind, list: seq<Tree>)
    requires (k == KAnd || k == KOr) && list != [] && forall x | x in list :: Ready(env, x)
    ensures Ready(env, Rebuild(k, list))
  {
    assert list[|list| - 1] in list;
    if |list| > 1 { RebuildReady(env, k, list[..|list| - 1]); }
  }

  /** The optimised tree is well typed and has no flag identifier left. */
  lemma {:induction false} OptimisedReady(env: Env, t: Tree, prev: Kind)
    requires env.Valid() && Typed(env, t)
    ensures Ready(env, Optimised(env, t, prev))
    decreases t, 0
  {
    match t
    case And(l, r) =>
      CollectReady(env, l, KAnd, []);
      CollectReady(env, r, KAnd, Collect(env, l, KAnd, []));
      RebuildReady(env, KAnd, Collect(env, r, KAnd, Collect(env, l, KAnd, [])));
    case Or(l, r) =>
      CollectReady(env, l, KOr, []);
      CollectReady(env, r, KOr, Collect(env, l, KOr, []));
      RebuildReady(env, KOr, Collect(env, r, KOr, Collect(env, l, KOr, [])));
    case Not(a) => OptimisedReady(env, a, KNot);
    case _ =>
  }

  lemma {:induction false} CollectReady(env: Env, t: Tree, k: Kind, list: seq<Tree>)
    requires env.Valid() && Typed(env, t) && forall x | x in list :: Ready(env, x)
    ensures forall x | x in Collect(env, t, k, list) :: Ready(env, x)
    decreases t, 1
  {
    if (k == KAnd && t.And?) || (k == KOr && t.Or?) {
      CollectReady(env, t.left, k, list);
      CollectReady(env, t.right, k, Collect(env, t.left, k, list));
    } else {
      OptimisedReady(env, t, k);
      InsertReady(env, list, Optimised(env, t, k), k);
    }
  }

  predicate AllBounded(list: seq<Tree>)
  {
    list == [] || (InListsBounded(list[0]) && AllBounded(list[1..]))
  }

  lemma {:induction false} InsertBounded(list: seq<Tree>, twig: Tree, k: Kind)
    ensures AllBounded(Insert(list, twig, k)) <==> AllBounded(list) && InListsBounded(twig)
  {
    if list != [] { InsertBounded(list[1..], twig, k); }
  }

  lemma {:induction false} BoundedSnoc(list: seq<Tree>, x: Tree)
    ensures AllBounded(list + [x]) <==> AllBounded(list) && InListsBounded(x)
  {
    if list != [] {
      BoundedSnoc(list[1..], x);
      assert (list + [x])[1..] == list[1..] + [x];
    }
  }

  lemma {:induction false} RebuildBounded(k: Kind, list: seq<Tree>)
    requires (k == KAnd || k == KOr) && list != []
    ensures InListsBounded(Rebuild(k, list)) <==> AllBounded(list)
  {
    var n := |list| - 1;
    assert list[..n] + [list[n]] == list;
    BoundedSnoc(list[..n], list[n]);
    if n > 0 { RebuildBounded(k, list[..n]); }
  }

  /** Optimising neither adds nor drops an `in()` list. */
  lemma {:induction false} OptimisedBounded(env: Env, t: Tree, prev: Kind)
    ensures InListsBounded(Optimised(env, t, prev)) <==> InListsBounded(t)
    decreases t, 0
  {
    match t
    case And(l, r) =>
      CollectBounded(env, l, KAnd, []);
      CollectBounded(env, r, KAnd, Collect(env, l, KAnd, []));
      RebuildBounded(KAnd, Collect(env, r, KAnd, Collect(env, l, KAnd, [])));
    case Or(l, r) =>
      CollectBounded(env, l, KOr, []);
      CollectBounded(env, r, KOr, Collect(env, l, KOr, []));
      RebuildBounded(KOr, Collect(env, r, KOr, Collect(env, l, KOr, [])));
    case Not(a) => OptimisedBounded(env, a, KNot);
    case _ =>
  }

  lemma {:induction false} CollectBounded(env: Env, t: Tree, k: Kind, list: seq<Tree>)
    ensures AllBounded(Collect(env, t, k, list)) <==> AllBounded(list) && InListsBounded(t)
    decreases t, 1
  {
    if (k == KAnd && t.And?) || (k == KOr && t.Or?) {
      CollectBounded(env, t.left, k, list);
      CollectBounded(env, t.right, k, Collect(env, t.left, k, list));
    } else {
      OptimisedBounded(env, t, k);
      InsertBounded(list, Optimised(env, t, k), k);
    }
  }

  // ----- room in the cluster table -----

  /** How many clusters have been opened, how many entries the table has, and whether every insertion
      so far found its entry inside the table. */
  datatype Room = Room(top: nat, size: nat, fits: bool)

  /** One insertion into cluster `c`: the table grows by one increment when `c` lies beyond it. */
  function InsertRoom(c: nat, s: Room): Room
  {
    var size := if c >= s.size then s.size + CLUSTERINC else s.size;
    Room(s.top, size, s.fits && c < size)
  }

  function TrackRun(t: Tree, k: Kind, c: nat, s: Room): Room
    requires t.And? || t.Or?
    decreases t, 0
  {
    var s1 := Track(t.left, k, c, s);
    var s2 := if KindOf(t.left) == k then s1 else InsertRoom(c, s1);
    var s3 := Track(t.right, k, c, s2);
    if KindOf(t.right) == k then s3 else InsertRoom(c, s3)
  }

  /** The table's history while `optimiseNode` works on `t`. */
  function Track(t: Tree, prev: Kind, cluster: nat, s: Room): Room
    decreases t, 1
  {
    match t
    case Not(a) => Track(a, KNot, 0, s)
    case And(_, _) => TrackRun(t, KAnd, if prev == KAnd then cluster else s.top,
                               if prev == KAnd then s else s.(top := s.top + 1))
    case Or(_, _) => TrackRun(t, KOr, if prev == KOr then cluster else s.top,
                              if prev == KOr then s else s.(top := s.top + 1))
    case _ => s
  }

  /** The cluster table is large enough for a tree: checked from the tree alone. */
  predicate Fits(t: Tree)
  {
    Track(t, KTop, 0, Room(0, 0, true)).fits
  }

  lemma {:induction false} RunMonotone(t: Tree, k: Kind, c: nat, s: Room)
    requires t.And? || t.Or?
    ensures TrackRun(t, k, c, s).fits ==> s.fits
    ensures TrackRun(t, k, c, s).top >= s.top
    decreases t, 0
  {
    var s1 := Track(t.left, k, c, s);
    var s2 := if KindOf(t.left) == k then s1 else InsertRoom(c, s1);
    TrackMonotone(t.left, k, c, s);
    TrackMonotone(t.right, k, c, s2);
  }

  lemma {:induction false} TrackMonotone(t: Tree, prev: Kind, cluster: nat, s: Room)
    ensures Track(t, prev, cluster, s).fits ==> s.fits
    ensures Track(t, prev, cluster, s).top >= s.top
    decreases t
  {
    match t
    case Not(a) => TrackMonotone(a, KNot, 0, s);
    case And(l, r) => RunMonotone(t, KAnd, if prev == KAnd then cluster else s.top,
                                  if prev == KAnd then s else s.(top := s.top + 1));
    case Or(l, r) => RunMonotone(t, KOr, if prev == KOr then cluster else s.top,
                                 if prev == KOr then s else s.(top := s.top + 1));
    case _ =>
  }

  function Max(x: nat, y: nat): nat { if x > y then x else y }

  /** How many clusters can be open at once while `optimiseNode` works on a tree. */
  function Nesting(t: Tree, prev: Kind): nat
  {
    match t
    case Not(a) => Nesting(a, KNot)
    case And(l, r) => (if prev == KAnd then 0 else 1) + Max(Nesting(l, KAnd), Nesting(r, KAnd))
    case Or(l, r) => (if prev == KOr then 0 else 1) + Max(Nesting(l, KOr), Nesting(r, KOr))
    case _ => 0
  }

  /** Clusters opened that the table does not reach yet. */
  function Pending(s: Room): nat { if s.top > s.size then s.top - s.size else 0 }

  lemma {:induction false} ShallowRun(t: Tree, k: Kind, c: nat, s: Room)
    requires (t.And? && k == KAnd) || (t.Or? && k == KOr)
    requires s.fits && Pending(s) + Max(Nesting(t.left, k), Nesting(t.right, k)) <= CLUSTERINC
    requires c < s.top && (Pending(s) > 0 ==> c == s.top - 1)
    ensures var s' := TrackRun(t, k, c, s); s'.fits && Pending(s') == 0
    decreases t, 0
  {
    ShallowTracks(t.left, k, c, s);
    TrackMonotone(t.left, k, c, s);
    var s1 := Track(t.left, k, c, s);
    var s2 := if KindOf(t.left) == k then s1 else InsertRoom(c, s1);
    ShallowTracks(t.right, k, c, s2);
    TrackMonotone(t.right, k, c, s2);
  }

  lemma {:induction false} ShallowTracks(t: Tree, prev: Kind, c: nat, s: Room)
    requires s.fits && Pending(s) + Nesting(t, prev) <= CLUSTERINC
    requires prev == KAnd || prev == KOr ==> c < s.top && (Pending(s) > 0 ==> c == s.top - 1)
    ensures var s' := Track(t, prev, c, s);
            s'.fits && (Pending(s') == 0 || (s' == s && !t.And? && !t.Or?))
    decreases t, 1
  {
    match t
    case Not(a) => ShallowTracks(a, KNot, 0, s);
    case And(_, _) => ShallowRun(t, KAnd, if prev == KAnd then c else s.top,
                                 if prev == KAnd then s else s.(top := s.top + 1));
    case Or(_, _) => ShallowRun(t, KOr, if prev == KOr then c else s.top,
                                if prev == KOr then s else s.(top := s.top + 1));
    case _ =>
  }

  /** Ten levels of alternating AND and OR always fit the table. */
  lemma ShallowFits(t: Tree)
    requires Nesting(t, KTop) <= CLUSTERINC
    ensures Fits(t)
  {
    ShallowTracks(t, KTop, 0, Room(0, 0, true));
  }

  /** `n` levels of alternating AND and OR, nested to the left. */
  function Alternating(n: nat): Tree
  {
    var leaf := In("a", [1]);
    if n == 0 then leaf
    else if n % 2 == 0 then And(Alternating(n - 1), leaf)
    else Or(Alternating(n - 1), leaf)
  }

  lemma AlternatingLeft(n: nat)
    requires n >= 1
    ensures var t := Alternating(n); (t.And? || t.Or?) && t.left == Alternating(n - 1) && KindOf(t.left) != KindOf(t)
  {
    assert n > 1 ==> n % 2 != (n - 1) % 2;
  }

  lemma LeftOverruns(t: Tree, k: Kind, c: nat, s: Room)
    requires (t.And? || t.Or?) && KindOf(t.left) != k && !InsertRoom(c, Track(t.left, k, c, s)).fits
    ensures !TrackRun(t, k, c, s).fits
  {
    TrackMonotone(t.right, k, c, InsertRoom(c, Track(t.left, k, c, s)));
  }

  /** A cluster is opened for a node of another kind than the one above it. */
  lemma TrackOpens(t: Tree, prev: Kind, c: nat, s: Room)
    requires (t.And? || t.Or?) && prev != KindOf(t)
    ensures Track(t, prev, c, s) == TrackRun(t, KindOf(t), s.top, s.(top := s.top + 1))
  {
  }

  lemma LeafTracks(k: Kind, c: nat, s: Room)
    ensures Track(Alternating(0), k, c, s) == s
  {
  }

  lemma OverrunHere(t: Tree, prev: Kind, c: nat, top: nat)
    requires (t.And? || t.Or?) && prev != KindOf(t) && KindOf(t.left) != KindOf(t)
    requires !InsertRoom(top, Track(t.left, KindOf(t), top, Room(top + 1, 0, true))).fits
    ensures !Track(t, prev, c, Room(top, 0, true)).fits
  {
    hide Track, TrackRun, InsertRoom;
    LeftOverruns(t, KindOf(t), top, Room(top + 1, 0, true));
    TrackOpens(t, prev, c, Room(top, 0, true));
  }

  lemma {:induction false} AlternatingOverruns(n: nat, prev: Kind, c: nat, top: nat)
    requires n >= 1 && prev != KindOf(Alternating(n)) && top + n > CLUSTERINC
    ensures !Track(Alternating(n), prev, c, Room(top, 0, true)).fits
  {
    AlternatingLeft(n);
    hide Track, Alternating, KindOf;
    if n == 1 {
      LeafTracks(KindOf(Alternating(1)), top, Room(top + 1, 0, true));
    } else {
      AlternatingOverruns(n - 1, KindOf(Alternating(n)), top, top + 1);
    }
    OverrunHere(Alternating(n), prev, c, top);
  }

  /** Eleven levels do not: the first insertion asks for an entry beyond the first increment. */
  lemma DeepOverruns(n: nat)
    requires n > CLUSTERINC
    ensures !Fits(Alternating(n))
  {
    AlternatingOverruns(n, KTop, 0, 0);
  }

  // ----- the imperative optimiser -----

  /** The list of a cluster; clusters beyond the table have not been given anything yet. */
  ghost function ListIn(chain: seq<Cluster>, c: nat): seq<Tree>
  {
    if c < |chain| then chain[c].list else []
  }

  /** Clusters opened before, other than `except`, still hold what they held. */
  ghost predicate Untouched(before: seq<Cluster>, after: seq<Cluster>, top: nat, except: nat)
  {
    && |before| <= |after|
    && (forall i: nat | i < top && i != except :: ListIn(after, i) == ListIn(before, i))
    && (forall i: nat | i < top && i != except && i < |before| :: after[i] == before[i])
  }

  function OperandRoom(t: Tree, k: Kind, c: nat, s: Room): Room
  {
    var s1 := Track(t, k, c, s);
    if KindOf(t) == k then s1 else InsertRoom(c, s1)
  }

  lemma RunSteps(t: Tree, k: Kind, c: nat, s: Room)
    requires t.And? || t.Or?
    ensures TrackRun(t, k, c, s) == OperandRoom(t.right, k, c, OperandRoom(t.left, k, c, s))
    ensures TrackRun(t, k, c, s).fits ==> OperandRoom(t.left, k, c, s).fits
  {
    TrackMonotone(t.right, k, c, OperandRoom(t.left, k, c, s));
  }

  class Optimiser {
    const env: Env
    var clusterTop: nat
    var clusterChain: seq<Cluster>
    constructor (env: Env)
      ensures this.env == env && clusterTop == 0 && clusterChain == []
    {
      this.env := env;
      clusterTop := 0;
      clusterChain := [];
    }

    ghost function RoomNow(): Room
      reads this
    {
      Room(clusterTop, |clusterChain|, true)
    }

    /** The search loop of `insertBranch`, and the insertion or merger at the place it finds. */
    method PlaceTwig(list: seq<Tree>, twig: Tree, k: Kind) returns (r: seq<Tree>)
      ensures r == Insert(list, twig, k)
    {
      var i := 0;
      while i < |list| && PlaceOf(twig, list[i], k).After?
        invariant 0 <= i <= |list|
        invariant forall j | 0 <= j < i :: PlaceOf(twig, list[j], k).After?
      {
        i := i + 1;
      }
      InsertStops(list, twig, k, i);
      if i < |list| && PlaceOf(twig, list[i], k).Merge? {
        r := list[i := Merged(list[i], twig)];
        assert r == list[..i] + [Merged(list[i], twig)] + list[i + 1..];
      } else {
        r := list[..i] + [twig] + list[i..];
      }
    }

    /** `insertBranch`.  The table grows by a fixed step, which need not reach the cluster asked for;
        the result says whether it did. */
    method InsertBranch(c: nat, twig: Tree, k: Kind) returns (ok: bool)
      requires k == KAnd || k == KOr
      modifies `clusterChain
      ensures ok == InsertRoom(c, old(RoomNow())).fits
      ensures ok ==> RoomNow() == InsertRoom(c, old(RoomNow()))
      ensures ok ==> ListIn(clusterChain, c) == Insert(ListIn(old(clusterChain), c), twig, k) && clusterChain[c].kind == k
      ensures ok ==> forall i: nat | i != c :: ListIn(clusterChain, i) == ListIn(old(clusterChain), i)
      ensures ok ==> forall i | 0 <= i < |old(clusterChain)| && i != c :: clusterChain[i] == old(clusterChain[i])
    {
      if c >= |clusterChain| {
        clusterChain := clusterChain + seq(CLUSTERINC, _ => Cluster([], KTop));
      }
      if c >= |clusterChain| {
        return false;
      }
      var list := PlaceTwig(clusterChain[c].list, twig, k);
      clusterChain := clusterChain[c := Cluster(list, k)];
      ok := true;
    }

    /** `newSubTree`: rebuild a cluster as a left-deep tree. */
    method NewSubTree(c: nat) returns (tree: Tree)
      requires c < |clusterChain| && clusterChain[c].list != []
      requires clusterChain[c].kind == KAnd || clusterChain[c].kind == KOr
      ensures tree == Rebuild(clusterChain[c].kind, clusterChain[c].list)
    {
      var list, k := clusterChain[c].list, clusterChain[c].kind;
      tree := list[0];
      for i := 1 to |list|
        invariant tree == Rebuild(k, list[..i])
      {
        assert list[..i + 1][..i] == list[..i];
        tree := Node(k, tree, list[i]);
      }
      assert list[..|list|] == list;
    }

    /** What a call leaves in the cluster table and returns. */
    ghost predicate Outcome(t: Tree, prev: Kind, prevCluster: nat, top: nat, before: seq<Cluster>,
                            after: seq<Cluster>, subtree: Option<Tree>)
    {
      if KindOf(t) == prev && (t.And? || t.Or?) then
        && subtree == None
        && prevCluster < |after| && after[prevCluster].kind == prev
        && after[prevCluster].list == Collect(env, t, prev, ListIn(before, prevCluster))
        && Untouched(before, after, top, prevCluster)
      else
        && subtree == Some(Optimised(env, t, prev))
        && Untouched(before, after, top, top)
    }

    /** One operand of a run: its subtree, if it yields one, goes into the run's cluster. */
    method OptimiseOperand(t: Tree, k: Kind, c: nat) returns (ok: bool)
      requires env.Valid() && Typed(env, t) && (k == KAnd || k == KOr) && c < clusterTop
      requires forall i: nat | i >= clusterTop :: ListIn(clusterChain, i) == []
      modifies this
      ensures ok == OperandRoom(t, k, c, old(RoomNow())).fits
      ensures ok ==> RoomNow() == OperandRoom(t, k, c, old(RoomNow())) && clusterTop >= old(clusterTop)
      ensures ok ==> forall i: nat | i >= clusterTop :: ListIn(clusterChain, i) == []
      ensures ok ==> c < |clusterChain| && clusterChain[c].kind == k
      ensures ok ==> clusterChain[c].list == Collect(env, t, k, ListIn(old(clusterChain), c))
      ensures ok ==> Untouched(old(clusterChain), clusterChain, old(clusterTop), c)
      decreases t, 2
    {
      ghost var s0 := RoomNow();
      TrackMonotone(t, k, c, s0);
      var twig;
      ok, twig := OptimiseNode(t, k, c);
      if ok && twig.Some? {
        ok := InsertBranch(c, twig.value, k);
      }
    }

    method OptimiseRun(t: Tree, k: Kind, prev: Kind, prevCluster: nat) returns (ok: bool, subtree: Option<Tree>)
      requires env.Valid() && Typed(env, t) && (t.And? || t.Or?) && k == KindOf(t)
      requires prev == KAnd || prev == KOr ==> prevCluster < clusterTop
      requires forall i: nat | i >= clusterTop :: ListIn(clusterChain, i) == []
      modifies this
      ensures ok == Track(t, prev, prevCluster, old(RoomNow())).fits
      ensures ok ==> RoomNow() == Track(t, prev, prevCluster, old(RoomNow()))
      ensures ok ==> forall i: nat | i >= clusterTop :: ListIn(clusterChain, i) == []
      ensures ok ==> Outcome(t, prev, prevCluster, old(clusterTop), old(clusterChain), clusterChain, subtree)
      decreases t, 0
    {
      subtree := None;
      var c := prevCluster;
      if k != prev {
        c := clusterTop;
        clusterTop := clusterTop + 1;
      }
      ghost var s := RoomNow();
      ghost var list := ListIn(clusterChain, c);
      RunSteps(t, k, c, s);
      ok := OptimiseOperand(t.left, k, c);
      if !ok { return; }
      ok := OptimiseOperand(t.right, k, c);
      if !ok { return; }
      assert clusterChain[c].list == Collect(env, t.right, k, Collect(env, t.left, k, list));
      if k != prev {
        var tree := NewSubTree(c);
        subtree := Some(tree);
      }
    }

    /** `optimiseNode`.  A node that continues its parent's run puts its operands into the parent's
        cluster and yields no subtree. */
    method OptimiseNode(t: Tree, prev: Kind, prevCluster: nat) returns (ok: bool, subtree: Option<Tree>)
      requires env.Valid() && Typed(env, t)
      requires prev == KAnd || prev == KOr ==> prevCluster < clusterTop
      requires forall i: nat | i >= clusterTop :: ListIn(clusterChain, i) == []
      modifies this
      ensures ok == Track(t, prev, prevCluster, old(RoomNow())).fits
      ensures ok ==> RoomNow() == Track(t, prev, prevCluster, old(RoomNow()))
      ensures ok ==> forall i: nat | i >= clusterTop :: ListIn(clusterChain, i) == []
      ensures ok ==> Outcome(t, prev, prevCluster, old(clusterTop), old(clusterChain), clusterChain, subtree)
      decreases t, 1
    {
      match t
      case And(_, _) => ok, subtree := OptimiseRun(t, KAnd, prev, prevCluster);
      case Or(_, _) => ok, subtree := OptimiseRun(t, KOr, prev, prevCluster);
      case Not(a) =>
        var twig;
        ok, twig := OptimiseNode(a, KNot, 0);
        if ok { subtree := Some(Tree.Not(twig.value)); } else { subtree := None; }
      case Flag(id) =>
        var place := env.flags[id];
        var word, bitmask := place.group, Pow2(place.bit);
        ok, subtree := true, Some(if prev == KAnd then AttrAnd(word + 1, bitmask) else AttrOr(word + 1, bitmask));
      case _ => ok, subtree := true, Some(t);
    }
  }
}
