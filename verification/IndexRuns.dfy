/** From writing fragments to reading them back: the indexer's store is closed, the searcher's tables are
    rebuilt from its log, and lookups lead to the bytes that were written. */
module IndexRuns {
  import opened BlockMap
  import opened Collections
  import opened PageMaps
  import opened Pages
  import opened Records
  import opened StoreStates
  import BlockStore
  import CachedPages
  import F = FreeList

  // ----- the log of a closed store -----

  lemma {:induction false} PlainLog(log: seq<Rfb>)
    requires forall i | 0 <= i < |log| :: !IsRun(log[i])
    ensures ExpandedLog(log) == log
  {
    if log != [] {
      PlainLog(log[..|log| - 1]);
      assert log == log[..|log| - 1] + [log[|log| - 1]];
    }
  }

  /** The block that the log has for a fragment is one on disk that holds its bytes. */
  lemma LastStores(h: History, nfrags: seq<nat>, data: Contents, r: nat, f: nat)
    requires Complete(h, nfrags, data) && 0 < r < |nfrags| && f < nfrags[r]
    ensures Last(h.log, r, f).Some? && Stores(h, Last(h.log, r, f).value, data, r, f)
  {
    assert FragLogged(h, r, f);
    var i := h.index[(r, f)];
    assert EntryFinal(h, nfrags, data, i);
    forall j | i < j < |h.log| ensures h.log[j].recno != r || h.log[j].fragno != f {
      assert EntryFinal(h, nfrags, data, j);
    }
    LastAt(h.log, r, f, i);
  }

  /** The log of a closed store can be loaded exactly if every record has been written to. */
  lemma CompleteLoads(h: History, nfrags: seq<nat>, data: Contents)
    requires Complete(h, nfrags, data) && h.blockout <= ENDBIT
    ensures ExpandedLog(h.log) == h.log
    ensures Loadable(nfrags, h.blockout, h.log) <==> forall r | 0 < r < |nfrags| :: nfrags[r] > 0
  {
    forall i | 0 <= i < |h.log| ensures !IsRun(h.log[i]) && InRange(nfrags, h.blockout, h.log[i]) {
      assert EntryFinal(h, nfrags, data, i);
    }
    PlainLog(h.log);
    forall r: nat, f: nat | 0 < r < |nfrags| && f < nfrags[r] ensures Filled(nfrags, h.log, r, f) {
      LastStores(h, nfrags, data, r, f);
    }
  }

  // ----- reading -----

  /** A lookup leads to these bytes. */
  ghost predicate Locates(s: Searcher, disk: map<nat, Page>, r: nat, f: nat, bytes: seq<byte>)
    reads s
  {
    && r < |s.blks| && (HasEnd(s.blks[r]) || s.blks[r] + f < |s.allblks|)
    && var b := s.HashBlockInd(r, f);
    && b != 0 && b in disk && Valid(disk[b]) && Value(disk[b], r, f) == Some(bytes)
  }

  /** `BFrecord_frag_read` of the searcher: look the block up, read it from disk, and find the fragment in it. */
  method FragRead(s: Searcher, disk: map<nat, Page>, r: nat, f: nat, numbytes: nat, offset: nat, ghost bytes: seq<byte>)
    returns (result: Option<seq<byte>>)
    requires Locates(s, disk, r, f, bytes) && offset <= |bytes|
    ensures result == Some(if numbytes > |bytes| - offset then bytes[offset..] else bytes[offset..offset + numbytes])
  {
    var b := s.HashBlockInd(r, f);
    result := CachedPages.Read(disk[b], r, f, numbytes, offset);
  }

  // ----- whole runs -----

  /** What an indexer does with its store: `fidx` is the frequency area of the record, and `evict` the block
      that a full cache gives up. */
  datatype Action =
    | NewRecord
    | Write(rec: nat, buffer: seq<byte>, offset: nat, fidx: nat, evict: Option<nat>)
    | Grow(rec: nat, newsize: nat, fidx: nat, evict: Option<nat>)
    | NoteBits(rec: nat, bits: nat)
    | Full(rec: nat)

  /** What an indexer knows of its records: how many fragments each has, whether the last one has been begun,
      and the bytes of all that have. */
  datatype View = View(nfrags: seq<nat>, open: seq<bool>, data: Contents)

  ghost function Opened(live: seq<nat>): (r: seq<bool>)
    ensures |r| == |live|
  {
    seq(|live|, r requires 0 <= r < |live| => live[r] != 0)
  }

  ghost function ViewIn(t: Tables): View { View(t.nfrags, Opened(t.live), t.data) }

  ghost function ViewOf(store: BlockStore.Store): View
    reads store
  {
    ViewIn(store.Now())
  }

  /** The bytes of a record's last fragment. */
  ghost function LastBytes(v: View, rec: nat): seq<byte>
  {
    if rec < |v.nfrags| && v.nfrags[rec] >= 1 && (rec, v.nfrags[rec] - 1) in v.data then v.data[(rec, v.nfrags[rec] - 1)]
    else []
  }

  /** An action is in order: a write within its fragment, growth up to the largest size. */
  ghost predicate InOrder(v: View, action: Action)
  {
    action.NewRecord? ||
    (0 < action.rec < |v.nfrags| && action.rec < |v.open| &&
     match action
     case NewRecord => true
     case Write(rec, buffer, offset, fidx, _) =>
       && fidx < F.AREAS && |buffer| + offset <= if v.open[rec] then |LastBytes(v, rec)| else FRAGMENT_MAX
     case Grow(rec, newsize, fidx, _) => v.open[rec] && fidx < F.AREAS && newsize <= FRAGMENT_MAX
     case NoteBits(rec, _) => v.open[rec]
     case Full(rec) => v.open[rec] && |LastBytes(v, rec)| == FRAGMENT_MAX)
  }

  /** Records other than the one written to stay as they are, but where a block had to leave the cache their
      last fragments may have been closed. */
  ghost predicate OthersClosed(v: View, v': View, rec: nat, evict: Option<nat>)
  {
    && |v'.nfrags| == |v.nfrags| == |v.open| == |v'.open|
    && forall r | 0 < r < |v.nfrags| && r != rec ::
         || (v'.nfrags[r] == v.nfrags[r] && v'.open[r] == v.open[r])
         || (v'.nfrags[r] == v.nfrags[r] + 1 && v.open[r] && !v'.open[r] && evict.Some?)
  }

  /** The specification of an action. */
  ghost predicate ActionStep(v: View, action: Action, v': View)
  {
    if !InOrder(v, action) then v' == v else
      match action
      case NewRecord => v' == View(v.nfrags + [1], v.open + [false], v.data)
      case Write(rec, buffer, offset, _, evict) =>
        && OthersClosed(v, v', rec, evict) && v'.nfrags[rec] == v.nfrags[rec] >= 1 && v'.open[rec]
        && Step(v.data, Op.Write(rec, v.nfrags[rec] - 1, buffer, offset), v'.data)
      case Grow(rec, newsize, _, evict) =>
        && OthersClosed(v, v', rec, evict) && v'.nfrags[rec] == v.nfrags[rec] >= 1 && v'.open[rec]
        && Step(v.data, Op.Grow(rec, v.nfrags[rec] - 1, newsize), v'.data)
      case NoteBits(_, _) => v' == v
      case Full(rec) => v' == View(v.nfrags[rec := v.nfrags[rec] + 1], v.open[rec := false], v.data)
  }

  /** The fragments that a record has when the store is closed. */
  ghost function Count(v: View, r: nat): int
    requires r < |v.nfrags| && r < |v.open|
  {
    v.nfrags[r] as int - if v.open[r] then 0 else 1
  }

  lemma StoreView(store: BlockStore.Store)
    requires store.Valid()
    ensures |store.live| == |store.nfrags| > 0
    ensures forall r: nat, f: nat | 0 < r < |store.nfrags| ::
              (r, f) in store.data <==> f < Count(ViewOf(store), r)
  {
    var t := store.Now();
    forall r: nat, f: nat | 0 < r < |store.nfrags|
      ensures (r, f) in store.data <==> f < Count(ViewOf(store), r)
    {
      assert LiveOk(t, r);
      assert (r, f) in t.data <==> Begun(t.nfrags, t.live, r, f);
    }
  }

  /** Close the store and open its files for searching.  Unless the 31-bit numbers do not suffice, a lookup of
      any fragment leads to the bytes it had; the records' fragments are those they had, without a last one
      never begun.  The searcher gives up exactly when some record was never written to. */
  method CloseAndLoad(store: BlockStore.Store, s: Searcher) returns (fits: bool, ok: bool)
    requires store.Valid()
    modifies store, s
    ensures store.data == old(store.data) && |store.nfrags| == old(|store.nfrags|)
    ensures forall r | 0 < r < |store.nfrags| ::
              store.nfrags[r] + (if old(store.live[r]) != 0 then 0 else 1) == old(store.nfrags[r])
    ensures fits <==> store.blockout <= ENDBIT && 1 + RunTotal(store.nfrags) < ENDBIT
    ensures fits ==> (ok <==> forall r | 0 < r < |store.nfrags| :: store.nfrags[r] > 0)
    ensures fits && ok ==> forall r: nat, f: nat | 0 < r < |store.nfrags| && f < store.nfrags[r] ::
              (r, f) in store.data && Locates(s, store.disk, r, f, store.data[(r, f)])
  {
    StoreView(store);
    hide InStep, F.FreeList.Valid, Complete, Loadable, Extends;
    store.Close();
    fits := store.blockout <= ENDBIT && 1 + RunTotal(store.nfrags) < ENDBIT;
    ok := false;
    if fits {
      ghost var h := store.Written();
      CompleteLoads(h, store.nfrags, store.data);
      ok := s.Load(store.log, store.nfrags, store.blockout);
      forall r: nat, f: nat | 0 < r < |store.nfrags| && f < store.nfrags[r]
        ensures ok ==> (r, f) in store.data && Locates(s, store.disk, r, f, store.data[(r, f)])
      {
        LastStores(h, store.nfrags, store.data, r, f);
      }
    }
  }

  // ----- one action, if it is in order -----

  lemma OthersView(t: Tables, u: Tables, rec: nat, used: Option<nat>, evict: Option<nat>)
    requires OthersKeep(t, u, rec, used) && (used == None || used == evict)
    ensures OthersClosed(ViewIn(t), ViewIn(u), rec, evict)
  {
  }

  lemma WriteView(t: Tables, u: Tables, rec: nat, buffer: seq<byte>, offset: nat, fidx: nat,
                  evict: Option<nat>, used: Option<nat>)
    requires OthersKeep(t, u, rec, used) && (used == None || used == evict)
    requires rec < |t.live| && u.live[rec] != 0 && u.nfrags[rec] == t.nfrags[rec] >= 1
    requires Step(t.data, Op.Write(rec, t.nfrags[rec] - 1, buffer, offset), u.data)
    requires InOrder(ViewIn(t), Action.Write(rec, buffer, offset, fidx, evict))
    ensures ActionStep(ViewIn(t), Action.Write(rec, buffer, offset, fidx, evict), ViewIn(u))
  {
    OthersView(t, u, rec, used, evict);
  }

  method PerformWrite(store: BlockStore.Store, rec: nat, buffer: seq<byte>, offset: nat, fidx: nat, evict: Option<nat>)
    requires store.Valid() && 0 < rec < |store.live|
    modifies store, store.free
    ensures store.Valid() && ActionStep(old(ViewOf(store)), Action.Write(rec, buffer, offset, fidx, evict), ViewOf(store))
  {
    StoreView(store);
    hide InStep, F.FreeList.Valid, Step, Extends, OthersKeep;
    ghost var t := store.Now();
    var most := FRAGMENT_MAX;
    if store.live[rec] != 0 {
      most := store.LiveSize(rec);
    }
    if |buffer| + offset <= most && fidx < F.AREAS {
      var used := if evict.Some? && evict.value in store.cache then evict else None;
      store.Write(rec, buffer, offset, fidx, used);
      WriteView(t, store.Now(), rec, buffer, offset, fidx, evict, used);
    }
  }

  lemma GrowView(t: Tables, u: Tables, rec: nat, newsize: nat, fidx: nat, evict: Option<nat>, used: Option<nat>)
    requires OthersKeep(t, u, rec, used) && (used == None || used == evict)
    requires rec < |t.live| && u.live[rec] != 0 && u.nfrags[rec] == t.nfrags[rec] >= 1
    requires Step(t.data, Op.Grow(rec, t.nfrags[rec] - 1, newsize), u.data)
    requires InOrder(ViewIn(t), Action.Grow(rec, newsize, fidx, evict))
    ensures ActionStep(ViewIn(t), Action.Grow(rec, newsize, fidx, evict), ViewIn(u))
  {
    OthersView(t, u, rec, used, evict);
  }

  method PerformGrow(store: BlockStore.Store, rec: nat, newsize: nat, fidx: nat, evict: Option<nat>)
    requires store.Valid() && 0 < rec < |store.live|
    modifies store, store.free
    ensures store.Valid() && ActionStep(old(ViewOf(store)), Action.Grow(rec, newsize, fidx, evict), ViewOf(store))
  {
    StoreView(store);
    hide InStep, F.FreeList.Valid, Step, Extends, OthersKeep;
    ghost var t := store.Now();
    if store.live[rec] != 0 && newsize <= FRAGMENT_MAX && fidx < F.AREAS {
      var used := if evict.Some? && evict.value in store.cache then evict else None;
      store.Grow(rec, newsize, fidx, used);
      GrowView(t, store.Now(), rec, newsize, fidx, evict, used);
    }
  }

  method PerformFull(store: BlockStore.Store, rec: nat)
    requires store.Valid() && 0 < rec < |store.live|
    modifies store, store.free
    ensures store.Valid() && ActionStep(old(ViewOf(store)), Full(rec), ViewOf(store))
  {
    StoreView(store);
    hide InStep, F.FreeList.Valid, Extends;
    if store.live[rec] != 0 {
      var size := store.LiveSize(rec);
      if size == FRAGMENT_MAX {
        store.FlushFull(rec);
      }
    }
  }

  method Perform(store: BlockStore.Store, action: Action)
    requires store.Valid()
    modifies store, store.free
    ensures store.Valid() && ActionStep(old(ViewOf(store)), action, ViewOf(store))
  {
    StoreView(store);
    if action.NewRecord? {
      var rec := store.NewRecord();
      assert ViewOf(store) == View(old(store.nfrags) + [1], Opened(old(store.live)) + [false], store.data);
    } else if 0 < action.rec < |store.live| {
      match action
      case Write(rec, buffer, offset, fidx, evict) => PerformWrite(store, rec, buffer, offset, fidx, evict);
      case Grow(rec, newsize, fidx, evict) => PerformGrow(store, rec, newsize, fidx, evict);
      case NoteBits(rec, bits) =>
        if store.live[rec] != 0 {
          store.SetBitSize(rec, bits);
        }
      case Full(rec) => PerformFull(store, rec);
    }
  }

  /** Any run of an indexer on a new store does what the actions say, step by step.  After closing it and
      loading its files, unless the 31-bit numbers do not suffice, a lookup of every fragment of every record
      leads to the bytes that the actions gave it; the searcher gives up exactly if some record was never
      written to.  `counts` are the numbers of fragments that the searcher reads, and `blocks` the number
      of the next block. */
  method IndexAndSearch(actions: seq<Action>)
    returns (s: Searcher, disk: map<nat, Page>, counts: seq<nat>, blocks: nat, fits: bool, ok: bool,
             ghost views: seq<View>)
    ensures |views| == |actions| + 1 && views[0] == View([0], [false], map[])
    ensures forall i {:trigger actions[i]} | 0 <= i < |actions| :: ActionStep(views[i], actions[i], views[i + 1])
    ensures var v := views[|actions|];
            && |counts| == |v.nfrags| == |v.open| && (forall r | 0 < r < |counts| :: counts[r] == Count(v, r))
            && (forall r: nat, f: nat | 0 < r < |counts| :: (r, f) in v.data <==> f < counts[r])
            && (fits && ok ==> forall r: nat, f: nat | 0 < r < |counts| && f < counts[r] ::
                  Locates(s, disk, r, f, v.data[(r, f)]))
    ensures fits <==> blocks <= ENDBIT && 1 + RunTotal(counts) < ENDBIT
    ensures fits ==> (ok <==> forall r | 0 < r < |counts| :: counts[r] > 0)
  {
    hide InStep, F.FreeList.Valid, Locates, ActionStep;
    var store := new BlockStore.Store();
    views := [ViewOf(store)];
    assert Opened([0]) == [false];
    for i := 0 to |actions|
      invariant fresh(store) && fresh(store.free) && store.Valid()
      invariant |views| == i + 1 && views[0] == View([0], [false], map[]) && views[i] == ViewOf(store)
      invariant forall j {:trigger actions[j]} | 0 <= j < i :: ActionStep(views[j], actions[j], views[j + 1])
    {
      Perform(store, actions[i]);
      views := views + [ViewOf(store)];
    }
    StoreView(store);
    s := new Searcher();
    fits, ok := CloseAndLoad(store, s);
    disk, counts, blocks := store.disk, store.nfrags, store.blockout;
  }
}
