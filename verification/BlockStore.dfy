/** The indexer's block store: growing fragments in cached blocks, written out once and for all. */
module BlockStore {
  import opened Blocks
  import opened CachedPages
  import opened Collections
  import opened PageMaps
  import opened Pages
  import opened Records
  import opened StoreStates
  import F = FreeList

  class Store {
    var nfrags: seq<nat>
    var live: seq<nat>
    var bitsize: seq<nat>
    var cache: map<nat, Page>
    var blockcount: nat
    var log: seq<Rfb>
    var disk: map<nat, Page>
    var blockout: nat
    const free: F.FreeList
    ghost var index: map<(nat, nat), nat>
    ghost var data: Contents                    // the bytes of every fragment that has been begun

    ghost function Now(): Tables
      reads this
    {
      Tables(nfrags, live, cache, data)
    }

    ghost function Written(): History
      reads this
    {
      History(log, index, disk, blockout)
    }

    ghost function Value(): State
      reads this, free`byBlock
    {
      State(Now(), Written(), bitsize, blockcount, free.byBlock)
    }

    ghost predicate ValidBut(x: nat, y: nat)
      reads this, free
    {
      free.Valid() && InStep(Value(), x, y)
    }

    ghost predicate Valid()
      reads this, free
    {
      ValidBut(0, 0)
    }

    /** The bytes of a record's last fragment, if it is live. */
    ghost function LiveBytes(rec: nat): seq<byte>
      requires rec < |nfrags|
      reads this`nfrags, this`data
    {
      if nfrags[rec] >= 1 && (rec, nfrags[rec] - 1) in data then data[(rec, nfrags[rec] - 1)] else []
    }

    /** An empty index.  Record number 0 is not used. */
    constructor ()
      ensures Valid() && fresh(free)
      ensures nfrags == [0] && live == [0] && data == map[] && log == []
    {
      nfrags, live, bitsize := [0], [0], [0];
      cache, disk, index, data := map[], map[], map[], map[];
      blockcount, blockout := 1, 1;
      log := [];
      free := new F.FreeList();
    }

    /** `BFgetnewrecord` and the initial values its caller sets. */
    method NewRecord() returns (rec: nat)
      requires Valid()
      modifies `nfrags, `live, `bitsize
      ensures Valid() && rec == old(|nfrags|) && nfrags == old(nfrags) + [1] && live == old(live) + [0]
    {
      NewStep(Value());
      rec := |nfrags|;
      nfrags, live, bitsize := nfrags + [1], live + [0], bitsize + [0];
    }

    /** Log the fragment in slot `k` and let its record move on. */
    method AdvanceOne(p: Page, k: nat, ghost t: Tables, ghost b: nat, ghost d: map<nat, Page>)
      requires TablesOk(t) && b in t.cache && p == t.cache[b] && k < |p.slots| && t.data == data
      requires Advanced(t, Now(), p.slots[..k]) && |bitsize| == |nfrags|
      requires HistoryOk(History(log, index, d, blockout + 1), nfrags, data)
      requires blockout > 0 && blockout in d && d[blockout] == p
      modifies `nfrags, `live, `bitsize, `log, `index
      ensures Advanced(t, Now(), p.slots[..k + 1])
      ensures HistoryOk(History(log, index, d, blockout + 1), nfrags, data)
      ensures log == old(log) + [Rfb(p.slots[k].recnum, p.slots[k].fragnum, blockout)]
      ensures p.slots[k].recnum < |bitsize| == old(|bitsize|) && bitsize == old(bitsize)[p.slots[k].recnum := 0]
      ensures forall r :: RecIn(p.slots[..k + 1], r) <==> RecIn(p.slots[..k], r) || p.slots[k].recnum == r
    {
      RecInStep(p.slots, k);
      NotYetAdvanced(t, Now(), b, k);
      var rec, frag := p.slots[k].recnum, p.slots[k].fragnum;
      if frag + 1 != nfrags[rec] {
        assert false;
      } else {
        LogStep(History(log, index, d, blockout + 1), nfrags, data, rec);
        log := log + [Rfb(rec, frag, blockout)];
        index := index[(rec, frag) := |log| - 1];
        nfrags := nfrags[rec := nfrags[rec] + 1];
        bitsize := bitsize[rec := 0];
        live := live[rec := 0];
      }
    }

    /** `cache_block_out`: every record with a fragment in the block is logged and moves on to its next
        fragment; then the block is written to the next place on disk. */
    method CacheBlockOut(p: Page, ghost t: Tables, ghost b: nat)
      requires TablesOk(t) && b in t.cache && p == t.cache[b]
      requires t.nfrags == nfrags && t.live == live && t.data == data
      requires HistoryOk(Written(), nfrags, data) && |bitsize| == |nfrags|
      modifies `nfrags, `live, `bitsize, `log, `index, `disk, `blockout
      ensures Advanced(t, Now(), p.slots)
      ensures HistoryOk(Written(), nfrags, data) && Extends(old(Written()), Written())
      ensures blockout == old(blockout) + 1 && disk == old(disk)[old(blockout) := p]
      ensures |log| == old(|log|) + |p.slots|
      ensures forall i | 0 <= i < |p.slots| ::
                log[old(|log|) + i] == Rfb(p.slots[i].recnum, p.slots[i].fragnum, old(blockout))
      ensures |bitsize| == |nfrags| &&
              forall r | 0 <= r < |bitsize| :: bitsize[r] == if RecIn(p.slots, r) then 0 else old(bitsize[r])
    {
      assert BlockOk(t, b);
      DiskStep(Written(), nfrags, data, p);
      ghost var d := disk[blockout := p];
      for k := 0 to |p.slots|
        invariant Advanced(t, Now(), p.slots[..k])
        invariant blockout == old(blockout) && disk == old(disk)
        invariant HistoryOk(History(log, index, d, blockout + 1), nfrags, data)
        invariant |log| == old(|log|) + k && old(log) <= log
        invariant forall i | 0 <= i < k :: log[old(|log|) + i] == Rfb(p.slots[i].recnum, p.slots[i].fragnum, blockout)
        invariant |bitsize| == |nfrags| &&
                  forall r | 0 <= r < |bitsize| :: bitsize[r] == if RecIn(p.slots[..k], r) then 0 else old(bitsize[r])
      {
        AdvanceOne(p, k, t, b, d);
      }
      assert p.slots[..|p.slots|] == p.slots;
      disk := disk[blockout := p];
      blockout := blockout + 1;
    }

    /** Write a block out and forget it.  When the cache is full this happens to some block; its room is
        then struck off the free list.  When a record's fragment is full (`full`), the caller has its
        block written out; there is no such entry. */
    method WriteOut(victim: nat, full: bool, ghost x: nat, ghost y: nat)
      requires ValidBut(x, y) && victim in cache && victim != x
      requires full ==> FreeBytes(cache[victim].slots) < F.FREE_TOLERANCE
      modifies this, free
      ensures ValidBut(x, y)
      ensures WrittenOut(old(Value()), Value(), victim)
    {
      ghost var s := Value();
      assert RoomOk(s.entries, s.t.cache, victim);
      var p := cache[victim];
      cache := cache - {victim};
      if !full {
        free.Drop(victim);
      }
      CacheBlockOut(p, s.t, victim);
      assert free.byBlock == s.entries - {victim};
      OutStep(s, Value(), victim, x, y);
    }

    /** The page of a block, empty if there is no such block yet. */
    ghost function PageOf(b: nat): Page
      reads this`cache
    {
      if b in cache then cache[b] else EMPTY_PAGE
    }

    /** The free list already counts a fragment of this size as part of the block. */
    ghost predicate RoomFor(b: nat, size: nat)
      reads free`byBlock, this`cache
    {
      var left := FreeBytes(PageOf(b).slots) - size - ENTRY_SIZE;
      left >= 0 && EntryFor(free.byBlock, b, left)
    }

    /** A new block for a new fragment; a full cache first gives up another one (`evict`). */
    method NewBlock(rec: nat, size: nat, fidx: nat, evict: Option<nat>) returns (b: nat)
      requires ValidBut(0, rec) && 0 < rec < |live| && live[rec] == 0 && fidx < F.AREAS && size <= FRAGMENT_MAX
      requires evict.Some? ==> evict.value in cache
      modifies this, free
      ensures ValidBut(b, rec) && b == old(blockcount) && blockcount == b + 1 && b !in cache && RoomFor(b, size)
      ensures data == old(data)
      ensures rec < |live| == old(|live|) && live[rec] == 0 && nfrags[rec] == old(nfrags[rec])
      ensures OthersKeep(old(Now()), Now(), rec, evict) && Extends(old(Written()), Written())
    {
      hide InStep;
      b := blockcount;
      ghost var s := Value();
      NextFacts(s, rec);
      AbsentFacts(s, 0, rec, rec, 0);
      free.AddToFree(b, fidx, BLOCK_SIZE - size - HeaderSize(1), false);
      EntryStep(s, b, free.byBlock, rec);
      if evict.Some? {
        ghost var u := Value();
        WriteOut(evict.value, false, b, rec);
        OutOthers(u, Value(), evict.value, rec);
      }
      CountStep(Value(), b, rec);
      blockcount := blockcount + 1;
    }

    /** Find a block for a new fragment: one of the same frequency area with room for it, the best fitting
        one, or a new block, for which a full cache first gives up another one (`evict`). */
    method FindRoom(rec: nat, size: nat, fidx: nat, evict: Option<nat>) returns (b: nat)
      requires ValidBut(0, rec) && 0 < rec < |live| && live[rec] == 0 && fidx < F.AREAS && size <= FRAGMENT_MAX
      requires evict.Some? ==> evict.value in cache
      modifies this, free
      ensures ValidBut(b, rec) && 0 < b < blockcount && RoomFor(b, size)
      ensures data == old(data)
      ensures rec < |live| == old(|live|) && live[rec] == 0 && nfrags[rec] == old(nfrags[rec])
      ensures OthersKeep(old(Now()), Now(), rec, evict) && Extends(old(Written()), Written())
      ensures old(blockcount) == blockcount ==> F.BestFit(old(free.byBlock), b, fidx, size + ENTRY_SIZE)
      ensures old(blockcount) != blockcount ==> F.NoFit(old(free.byBlock), fidx, size + ENTRY_SIZE)
    {
      ghost var s := Value();
      b := free.Get(size, fidx);
      if b == 0 {
        b := NewBlock(rec, size, fidx, evict);
      } else {
        assert RoomOk(s.entries, s.t.cache, b);
        EntryStep(s, b, free.byBlock, rec);
      }
    }

    /** Enter a new fragment into the block found for it. */
    method Place(b: nat, rec: nat, buffer: seq<byte>, offset: nat)
      requires ValidBut(b, rec) && 0 < b < blockcount && 0 < rec < |live| && live[rec] == 0
      requires RoomFor(b, |buffer| + offset)
      modifies `live, `cache, `data
      ensures Valid() && live == old(live)[rec := b] && nfrags[rec] >= 1
      ensures Gained(old(data), data, (rec, nfrags[rec] - 1), buffer, offset)
    {
      hide InStep, Gained, F.FreeList.Valid, OneAdded, Pages.Valid, Has, Data;
      ghost var s := Value();
      AbsentFacts(s, b, rec, rec, b);
      var p := if b in cache then cache[b] else EMPTY_PAGE;
      if FreeBytes(p.slots) < |buffer| + offset + ENTRY_SIZE {
        assert false;
      }
      var q := CachedPages.Add(p, rec, nfrags[rec] - 1, buffer, offset);
      StartsStep(s, b, p, q, rec, buffer, offset);
      ghost var u := Started(s.t, b, q, rec, Data(q, |p.slots|));
      live := live[rec := b];
      cache := cache[b := q];
      data := u.data;
      assert Value() == s.(t := u);
    }

    /** Start a fragment in the block found for it. */
    method StartFragment(rec: nat, buffer: seq<byte>, offset: nat, fidx: nat, evict: Option<nat>)
      requires ValidBut(0, rec) && 0 < rec < |live| && live[rec] == 0 && fidx < F.AREAS
      requires |buffer| + offset <= FRAGMENT_MAX && (evict.Some? ==> evict.value in cache)
      modifies this, free
      ensures Valid() && OthersKeep(old(Now()), Now(), rec, evict) && Extends(old(Written()), Written())
      ensures rec < |live| && live[rec] != 0 && nfrags[rec] == old(nfrags[rec]) >= 1
      ensures Gained(old(data), data, (rec, nfrags[rec] - 1), buffer, offset)
      ensures old(blockcount) == blockcount ==>
                F.BestFit(old(free.byBlock), live[rec], fidx, |buffer| + offset + ENTRY_SIZE)
      ensures old(blockcount) != blockcount ==> F.NoFit(old(free.byBlock), fidx, |buffer| + offset + ENTRY_SIZE)
    {
      hide InStep, Gained, F.FreeList.Valid, F.BestFit, F.NoFit;
      var b := FindRoom(rec, |buffer| + offset, fidx, evict);
      Place(b, rec, buffer, offset);
    }

    method WriteInPlace(rec: nat, buffer: seq<byte>, offset: nat)
      requires Valid() && 0 < rec < |live| && live[rec] != 0 && |buffer| + offset <= |LiveBytes(rec)|
      modifies `cache, `data
      ensures Valid() && nfrags[rec] >= 1
      ensures Step(old(data), Op.Write(rec, nfrags[rec] - 1, buffer, offset), data)
    {
      hide InStep, Step, F.FreeList.Valid, OneChanged, Pages.Valid, Has, PageMaps.Value, Data;
      ghost var s := Value();
      LiveFacts(s, 0, 0, rec);
      var b, frag := live[rec], nfrags[rec] - 1;
      var q;
      ghost var i;
      q, i := CachedPages.Overwrite(cache[b], rec, frag, buffer, offset);
      PatchStep(s, b, q, i, rec, frag, buffer, offset);
      ghost var u := Rewritten(s.t, b, q, i);
      cache := cache[b := q];
      data := u.data;
      assert Value() == s.(t := u);
      assert nfrags[rec] - 1 == frag && old(data) == s.t.data;
    }

    /** `BFrecord_frag_write` to the last fragment of a record: the first write starts it, later ones
        change its bytes in place. */
    method Write(rec: nat, buffer: seq<byte>, offset: nat, fidx: nat, evict: Option<nat>)
      requires Valid() && 0 < rec < |live| && fidx < F.AREAS && |buffer| + offset <= FRAGMENT_MAX
      requires live[rec] != 0 ==> |buffer| + offset <= |LiveBytes(rec)|
      requires evict.Some? ==> evict.value in cache
      modifies this, free
      ensures Valid() && OthersKeep(old(Now()), Now(), rec, evict) && Extends(old(Written()), Written())
      ensures rec < |live| && live[rec] != 0 && nfrags[rec] == old(nfrags[rec]) >= 1
      ensures Step(old(data), Op.Write(rec, nfrags[rec] - 1, buffer, offset), data)
    {
      assert LiveOk(Now(), rec);
      if live[rec] == 0 {
        StartFragment(rec, buffer, offset, fidx, evict);
        GainedStep(old(data), data, rec, nfrags[rec] - 1, buffer, offset);
      } else {
        WriteInPlace(rec, buffer, offset);
      }
    }

    /** Record the room of a block whose contents are to be `q`. */
    method NoteRoom(b: nat, q: Page, fidx: nat)
      requires Valid() && b in cache && Pages.Valid(q) && fidx < F.AREAS
      modifies free
      ensures free.Valid() && EntryFor(free.byBlock, b, FreeBytes(q.slots))
      ensures free.byBlock - {b} == old(free.byBlock) - {b}
    {
      FreeBound(q.slots);
      free.AddToFree(b, fidx, FreeBytes(q.slots), true);
    }

    /** `_BFrecord_delete` */
    method Delete(rec: nat, fidx: nat)
      requires Valid() && 0 < rec < |live| && live[rec] != 0 && fidx < F.AREAS
      modifies `cache, `live, `data, free
      ensures ValidBut(0, rec) && live == old(live)[rec := 0] && nfrags[rec] >= 1
      ensures data == old(data) - {(rec, nfrags[rec] - 1)}
      ensures var b := old(live)[rec]; b in old(cache) && b in cache && cache == old(cache)[b := cache[b]]
    {
      hide InStep, Step, F.FreeList.Valid, OneChanged, Pages.Valid, Has, PageMaps.Value, Data;
      ghost var s := Value();
      LiveFacts(s, 0, 0, rec);
      var b, frag := live[rec], nfrags[rec] - 1;
      var q;
      ghost var i;
      q, i := CachedPages.Delete(cache[b], rec, frag);
      NoteRoom(b, q, fidx);
      EndStep(s, b, q, i, free.byBlock);
      ghost var u := Ended(s.t, b, q, i);
      cache := cache[b := q];
      live := live[rec := 0];
      data := u.data;
      assert Value() == s.(t := u, entries := free.byBlock);
    }

    /** The bytes of a live fragment, filled up with zeros. */
    method Copied(rec: nat, newsize: nat) returns (buffer: seq<byte>)
      requires Valid() && 0 < rec < |live| && live[rec] != 0 && |LiveBytes(rec)| <= newsize
      ensures buffer == Resized(LiveBytes(rec), newsize) && |buffer| == newsize
      ensures nfrags[rec] >= 1 && (rec, nfrags[rec] - 1) in data && LiveBytes(rec) == data[(rec, nfrags[rec] - 1)]
    {
      hide InStep, F.FreeList.Valid, Pages.Valid, Has, PageMaps.Value;
      LiveFacts(Value(), 0, 0, rec);
      var bytes := CachedPages.Read(cache[live[rec]], rec, nfrags[rec] - 1, newsize, 0);
      buffer := bytes.value + seq(newsize - |bytes.value|, _ => 0);
    }

    method Relocate(rec: nat, newsize: nat, fidx: nat, evict: Option<nat>)
      requires Valid() && 0 < rec < |live| && live[rec] != 0 && fidx < F.AREAS
      requires |LiveBytes(rec)| <= newsize <= FRAGMENT_MAX
      requires evict.Some? ==> evict.value in cache
      modifies this, free
      ensures Valid() && OthersKeep(old(Now()), Now(), rec, evict) && Extends(old(Written()), Written())
      ensures rec < |live| && live[rec] != 0 && nfrags[rec] == old(nfrags[rec]) >= 1
      ensures Step(old(data), Op.Grow(rec, nfrags[rec] - 1, newsize), data)
    {
      hide InStep, Step, Gained, OthersKeep, Extends, Resized, F.FreeList.Valid, F.BestFit, F.NoFit, Pages.Valid, Has;
      hide PageMaps.Value;
      LiveFacts(Value(), 0, 0, rec);
      var buffer := Copied(rec, newsize);
      ghost var was, frag := Now(), nfrags[rec] - 1;
      Delete(rec, fidx);
      ghost var gone := Now();
      StartFragment(rec, buffer, 0, fidx, evict);
      MovedStep(was.data, gone.data, data, rec, frag, newsize);
      OthersAfter(was, gone, Now(), rec, evict);
    }

    method GrowInPlace(rec: nat, newsize: nat, fidx: nat)
      requires Valid() && 0 < rec < |live| && live[rec] != 0 && fidx < F.AREAS
      requires live[rec] in cache && newsize - |LiveBytes(rec)| <= FreeBytes(cache[live[rec]].slots)
      modifies `cache, `data, free
      ensures Valid() && nfrags[rec] >= 1
      ensures Step(old(data), Op.Grow(rec, nfrags[rec] - 1, newsize), data)
    {
      hide InStep, Step, F.FreeList.Valid, OneChanged, Pages.Valid, Has, PageMaps.Value, Data;
      ghost var s := Value();
      LiveFacts(s, 0, 0, rec);
      var b, frag := live[rec], nfrags[rec] - 1;
      var q;
      ghost var i;
      q, i := CachedPages.Resize(cache[b], rec, frag, newsize);
      NoteRoom(b, q, fidx);
      SizeStep(s, b, q, i, rec, frag, newsize, free.byBlock);
      ghost var u := Rewritten(s.t, b, q, i);
      cache := cache[b := q];
      data := u.data;
      assert Value() == s.(t := u, entries := free.byBlock);
      assert nfrags[rec] - 1 == frag && old(data) == s.t.data;
    }

    /** `BFrecord_frag_grow` of the last fragment of a record: in place if the block has room, else the
        fragment is deleted and written anew.  (The other way out in the code, moving some other record,
        is never taken: the smallest size seen so far starts out as -1.) */
    method Grow(rec: nat, newsize: nat, fidx: nat, evict: Option<nat>)
      requires Valid() && 0 < rec < |live| && live[rec] != 0 && fidx < F.AREAS && newsize <= FRAGMENT_MAX
      requires evict.Some? ==> evict.value in cache
      modifies this, free
      ensures Valid() && OthersKeep(old(Now()), Now(), rec, evict) && Extends(old(Written()), Written())
      ensures rec < |live| && live[rec] != 0 && nfrags[rec] == old(nfrags[rec]) >= 1
      ensures Step(old(data), Op.Grow(rec, nfrags[rec] - 1, newsize), data)
    {
      hide InStep, Step, F.FreeList.Valid, OneChanged, Pages.Valid, Has, PageMaps.Value, Data;
      LiveFacts(Value(), 0, 0, rec);
      var i, size := CachedPages.Measure(cache[live[rec]], rec, nfrags[rec] - 1);
      if FreeBytes(cache[live[rec]].slots) < newsize - size {
        Relocate(rec, newsize, fidx, evict);
      } else {
        GrowInPlace(rec, newsize, fidx);
      }
    }

    /** The size of a record's live fragment. */
    method LiveSize(rec: nat) returns (size: nat)
      requires Valid() && 0 < rec < |live| && live[rec] != 0
      ensures size == |LiveBytes(rec)| <= FRAGMENT_MAX
    {
      LiveFacts(Value(), 0, 0, rec);
      var i;
      i, size := CachedPages.Measure(cache[live[rec]], rec, nfrags[rec] - 1);
    }

    /** The caller notes how many bits of the live fragment are in use. */
    method SetBitSize(rec: nat, bits: nat)
      requires Valid() && 0 < rec < |live| && live[rec] != 0
      modifies `bitsize
      ensures Valid()
    {
      bitsize := bitsize[rec := bits];
    }

    /** `BFrecord_flush` of a fragment that the caller has filled completely. */
    method FlushFull(rec: nat)
      requires Valid() && 0 < rec < |live| && live[rec] != 0 && |LiveBytes(rec)| == FRAGMENT_MAX
      modifies this, free
      ensures Valid() && Extends(old(Written()), Written()) && data == old(data)
      ensures rec < |nfrags| && nfrags == old(nfrags)[rec := old(nfrags[rec]) + 1] && live == old(live)[rec := 0]
    {
      hide InStep, F.FreeList.Valid, Pages.Valid, Has, PageMaps.Value;
      ghost var s := Value();
      LiveFacts(s, 0, 0, rec);
      FullAlone(s, rec);
      WriteOut(live[rec], true, 0, 0);
      FullOut(s, Value(), rec);
    }

    /** Write out one of the cached blocks that are left. */
    method FlushOne(pending: map<nat, Page>, b: nat)
      requires b in pending && TablesOk(Tables(nfrags, live, pending, data)) && HistoryOk(Written(), nfrags, data)
      requires |nfrags| > 0 && |bitsize| == |nfrags| == |live|
      modifies `nfrags, `live, `bitsize, `log, `index, `disk, `blockout
      ensures TablesOk(Tables(nfrags, live, pending - {b}, data)) && HistoryOk(Written(), nfrags, data)
      ensures |bitsize| == |nfrags| == |live| == old(|nfrags|)
      ensures Extends(old(Written()), Written()) && nfrags[0] == old(nfrags[0])
      ensures forall r | 0 < r < |nfrags| ::
                || (nfrags[r] == old(nfrags[r]) && live[r] == old(live[r]) && bitsize[r] == old(bitsize[r]))
                || (nfrags[r] == old(nfrags[r]) + 1 && live[r] == 0 && bitsize[r] == 0 && old(live[r]) != 0)
    {
      ghost var t := Tables(nfrags, live, pending, data);
      RecsLive(t, b);
      hide TablesOk, HistoryOk;
      CacheBlockOut(pending[b], t, b);
      BlockOut(t, Tables(nfrags, live, pending - {b}, data), b);
    }

    /** Write every cached block out. */
    method FlushAll()
      requires Valid()
      modifies this
      ensures HistoryOk(Written(), nfrags, data) && Extends(old(Written()), Written()) && data == old(data)
      ensures |nfrags| == |live| == |bitsize| == old(|nfrags|) && nfrags[0] == old(nfrags[0])
      ensures forall r | 0 < r < |nfrags| :: live[r] == 0 && bitsize[r] == 0 && nfrags[r] >= 1
      ensures forall r | 0 < r < |nfrags| :: nfrags[r] == old(nfrags[r]) + if old(live[r]) != 0 then 1 else 0
    {
      assert |live| == |nfrags|;
      hide TablesOk, HistoryOk, F.FreeList.Valid;
      var pending := cache;
      while pending != map[]
        invariant TablesOk(Tables(nfrags, live, pending, data)) && HistoryOk(Written(), nfrags, data)
        invariant |live| == |nfrags| == old(|nfrags|) > 0 && |bitsize| == |nfrags| && Extends(old(Written()), Written())
        invariant data == old(data)
        invariant forall r | 0 < r < |nfrags| && bitsize[r] != 0 :: live[r] != 0
        invariant forall r | 0 < r < |nfrags| ::
                    nfrags[r] == old(nfrags[r]) + if old(live[r]) != 0 && live[r] == 0 then 1 else 0
        invariant forall r | 0 < r < |nfrags| :: live[r] != 0 ==> old(live[r]) != 0
        invariant nfrags[0] == old(nfrags[0])
        decreases |pending|
      {
        var b :| b in pending;
        FlushOne(pending, b);
        pending := pending - {b};
      }
      AllOut(Tables(nfrags, live, pending, data));
    }

    /** `BFclose`: every cached block is written out, and records whose new fragment is still empty do
        not count it.  Nothing is left for the pass that would log fragments of unwritten blocks. */
    method Close()
      requires Valid()
      modifies this
      ensures Complete(Written(), nfrags, data) && Extends(old(Written()), Written()) && data == old(data)
      ensures |nfrags| == old(|nfrags|)
      ensures forall r | 0 < r < |nfrags| :: nfrags[r] + (if old(live[r]) != 0 then 0 else 1) == old(nfrags[r])
    {
      FlushAll();
      ghost var h := Written();
      ghost var counts := nfrags;
      var rec := 1;
      while rec < |nfrags|
        invariant 1 <= rec <= |nfrags| == |counts| == |live| == |bitsize| && Written() == h && data == old(data)
        invariant forall r | 0 < r < |nfrags| :: live[r] == 0 && bitsize[r] == 0
        invariant forall r | 0 < r < |nfrags| :: nfrags[r] + (if r < rec then 1 else 0) == counts[r]
      {
        if bitsize[rec] == 0 {
          nfrags := nfrags[rec := nfrags[rec] - 1];
        }
        rec := rec + 1;
      }
      CountsDown(h, counts, nfrags, data);
      rec := 1;
      while rec < |nfrags| {
        if live[rec] != 0 {
          assert false;
        }
        rec := rec + 1;
      }
    }
  }
}
