/** The state of the indexer's block store as a value, and what its steps keep. */
module StoreStates {
  import opened Blocks
  import opened CachedPages
  import opened Collections
  import opened PageMaps
  import opened Pages
  import opened Records
  import F = FreeList

  /** The free list counts that many bytes as the room of a block. */
  ghost predicate EntryFor(byBlock: map<nat, F.Entry>, b: nat, room: int)
  {
    && (b in byBlock <==> room >= F.FREE_TOLERANCE)
    && (b in byBlock ==> byBlock[b].bytesfree == room)
  }

  ghost predicate RoomOk(byBlock: map<nat, F.Entry>, cache: map<nat, Page>, b: nat)
    requires b in cache
  {
    EntryFor(byBlock, b, FreeBytes(cache[b].slots))
  }

  /** The free list records, for every block but `x`, exactly the room that cached blocks have. */
  ghost predicate Matches(byBlock: map<nat, F.Entry>, cache: map<nat, Page>, x: nat)
  {
    && (forall b | b in byBlock && b != x :: b in cache)
    && (forall b | b in cache && b != x :: RoomOk(byBlock, cache, b))
  }

  datatype State = State(t: Tables, h: History, bitsize: seq<nat>, blockcount: nat, entries: map<nat, F.Entry>)

  /** The invariant while the free-list entry of block `x` and the bit size of record `y` are out of step;
      0 stands for none. */
  ghost predicate InStep(s: State, x: nat, y: nat)
  {
    && TablesOk(s.t) && HistoryOk(s.h, s.t.nfrags, s.t.data) && Matches(s.entries, s.t.cache, x)
    && |s.t.nfrags| > 0 && |s.bitsize| == |s.t.nfrags| && s.blockcount > 0 && 0 !in s.entries
    && (forall b | b in s.t.cache :: 0 < b < s.blockcount)
    && (forall r | 0 < r < |s.bitsize| && r != y && s.bitsize[r] != 0 :: s.t.live[r] != 0)
  }

  /** History only grows: entries stay, and written blocks are never changed. */
  ghost predicate Extends(h: History, h': History)
  {
    && h.log <= h'.log && h.blockout <= h'.blockout
    && (forall d | d in h.disk && d < h.blockout :: d in h'.disk && h'.disk[d] == h.disk[d])
  }

  /** A record other than the one written to keeps its live fragment where it is, unless its block had to
      leave the cache; then it has moved on to its next fragment. */
  ghost predicate OthersKeep(t: Tables, u: Tables, rec: nat, evict: Option<nat>)
  {
    && |u.nfrags| == |t.nfrags| && |u.live| == |t.live| == |t.nfrags|
    && (forall r | 0 < r < |t.live| && r != rec ::
          || (u.nfrags[r] == t.nfrags[r] && u.live[r] == t.live[r])
          || (u.nfrags[r] == t.nfrags[r] + 1 && u.live[r] == 0 && t.live[r] != 0 && evict == Some(t.live[r])))
  }

  /** What the invariant says of a record with a live fragment. */
  lemma LiveFacts(s: State, x: nat, y: nat, rec: nat)
    requires InStep(s, x, y) && 0 < rec < |s.t.live| && s.t.live[rec] != 0
    ensures |s.t.nfrags| == |s.t.live| == |s.bitsize| && s.t.nfrags[rec] >= 1 && s.t.live[rec] in s.t.cache
    ensures var (b, key) := (s.t.live[rec], (rec, s.t.nfrags[rec] - 1));
            && 0 < b < s.blockcount && Valid(s.t.cache[b]) && FreeBytes(s.t.cache[b].slots) >= 0
            && Has(s.t.cache[b].slots, key.0, key.1)
            && key in s.t.data && |s.t.data[key]| <= FRAGMENT_MAX
            && Value(s.t.cache[b], key.0, key.1) == Some(s.t.data[key])
            && (b != x ==> EntryFor(s.entries, b, FreeBytes(s.t.cache[b].slots)))
  {
    LiveData(s.t, rec);
    var p := s.t.cache[s.t.live[rec]];
    var i: nat :| i < |p.slots| && Is(p.slots[i], rec, s.t.nfrags[rec] - 1);
    ValueAt(p, i);
    SlotInRange(p, i);
    assert s.t.live[rec] != x ==> RoomOk(s.entries, s.t.cache, s.t.live[rec]);
  }

  /** What it says of a record without one, and a block that could take it. */
  lemma AbsentFacts(s: State, x: nat, y: nat, rec: nat, b: nat)
    requires InStep(s, x, y) && 0 < rec < |s.t.live| && s.t.live[rec] == 0
    ensures |s.t.nfrags| == |s.t.live| == |s.bitsize| && s.t.nfrags[rec] >= 1
    ensures (rec, s.t.nfrags[rec] - 1) !in s.t.data
    ensures var p := if b in s.t.cache then s.t.cache[b] else EMPTY_PAGE;
            Valid(p) && !Has(p.slots, rec, s.t.nfrags[rec] - 1)
  {
    assert LiveOk(s.t, rec);
    assert !Begun(s.t.nfrags, s.t.live, rec, s.t.nfrags[rec] - 1);
    EmptyValid();
    if b in s.t.cache {
      assert BlockOk(s.t, b);
      NotLive(s.t, rec, b);
    }
  }

  /** What it says of the next new block. */
  lemma NextFacts(s: State, y: nat)
    requires InStep(s, 0, y)
    ensures s.blockcount > 0 && s.blockcount !in s.t.cache && s.blockcount !in s.entries
  {
  }

  // ----- steps -----

  lemma NewStep(s: State)
    requires InStep(s, 0, 0)
    ensures InStep(s.(t := s.t.(nfrags := s.t.nfrags + [1], live := s.t.live + [0]), bitsize := s.bitsize + [0]), 0, 0)
  {
    NewKeeps(s.t);
    NewHistory(s.h, s.t.nfrags, s.t.data);
  }

  lemma CountStep(s: State, x: nat, y: nat)
    requires InStep(s, x, y)
    ensures InStep(s.(blockcount := s.blockcount + 1), x, y)
  {
  }

  /** A block has been written out, or all its records have moved on. */
  ghost predicate WrittenOut(s: State, s': State, victim: nat)
    requires victim in s.t.cache
  {
    && Advanced(s.t, s'.t, s.t.cache[victim].slots) && s'.t.cache == s.t.cache - {victim} && s'.t.data == s.t.data
    && HistoryOk(s'.h, s'.t.nfrags, s'.t.data) && Extends(s.h, s'.h)
    && |s'.bitsize| == |s.bitsize| && s'.blockcount == s.blockcount && s'.entries == s.entries - {victim}
    && (forall r | 0 <= r < |s.bitsize| ::
          s'.bitsize[r] == if RecIn(s.t.cache[victim].slots, r) then 0 else s.bitsize[r])
  }

  lemma OutStep(s: State, s': State, victim: nat, x: nat, y: nat)
    requires InStep(s, x, y) && victim in s.t.cache && victim != x && WrittenOut(s, s', victim)
    ensures InStep(s', x, y)
  {
    BlockOut(s.t, s'.t, victim);
    forall b | b in s'.t.cache && b != x ensures RoomOk(s'.entries, s'.t.cache, b) {
      assert RoomOk(s.entries, s.t.cache, b);
    }
  }

  lemma RecsLive(t: Tables, b: nat)
    requires TablesOk(t) && b in t.cache
    ensures forall r: nat | RecIn(t.cache[b].slots, r) :: 0 < r < |t.live| && t.live[r] == b && b != 0
  {
    assert BlockOk(t, b);
    forall r: nat | RecIn(t.cache[b].slots, r) ensures 0 < r < |t.live| && t.live[r] == b {
      var s :| 0 <= s < |t.cache[b].slots| && t.cache[b].slots[s].recnum == r;
      assert SlotOk(t, b, s);
    }
  }

  /** Records whose block is written out were live there. */
  lemma OutOthers(s: State, s': State, victim: nat, rec: nat)
    requires TablesOk(s.t) && victim in s.t.cache && WrittenOut(s, s', victim)
    requires 0 < rec < |s.t.live| && s.t.live[rec] == 0
    ensures OthersKeep(s.t, s'.t, rec, Some(victim))
    ensures s'.t.nfrags[rec] == s.t.nfrags[rec] && s'.t.live[rec] == 0
  {
    RecsLive(s.t, victim);
  }

  /** Only the free-list entry of one block has changed. */
  lemma EntryStep(s: State, b: nat, entries: map<nat, F.Entry>, y: nat)
    requires InStep(s, 0, y) && b > 0 && entries - {b} == s.entries - {b}
    ensures InStep(s.(entries := entries), b, y)
  {
    forall c | c in entries && c != b ensures c in s.t.cache && c != 0 {
      assert c in entries - {b};
      assert c in s.entries - {b};
    }
    forall c | c in s.t.cache && c != b ensures RoomOk(entries, s.t.cache, c) {
      assert RoomOk(s.entries, s.t.cache, c);
      assert c in entries <==> c in entries - {b};
      assert c in s.entries ==> (s.entries - {b})[c] == s.entries[c];
    }
  }

  /** The last fragment of record `rec` has changed with the contents of a cached block, the free-list entry
      of the block is as it should be, and so are the bit sizes but for record `z`. */
  lemma PageStep(s: State, u: Tables, b: nat, x: nat, y: nat, rec: nat, z: nat, entries: map<nat, F.Entry>)
    requires InStep(s, x, y) && (x == 0 || x == b) && TablesOk(u) && u.nfrags == s.t.nfrags
    requires rec < |u.nfrags| && u.nfrags[rec] >= 1
    requires u.data - {(rec, u.nfrags[rec] - 1)} == s.t.data - {(rec, u.nfrags[rec] - 1)}
    requires 0 < b < s.blockcount && b in u.cache && u.cache - {b} == s.t.cache - {b}
    requires entries - {b} == s.entries - {b} && RoomOk(entries, u.cache, b)
    requires forall r | 0 < r < |u.live| && r != z && s.bitsize[r] != 0 :: u.live[r] != 0
    ensures InStep(s.(t := u, entries := entries), 0, z)
  {
    DataStep(s.h, s.t.nfrags, s.t.data, u.data, rec);
    forall c | c in u.cache ensures 0 < c < s.blockcount && RoomOk(entries, u.cache, c) {
      if c != b {
        assert c in s.t.cache - {b} && (u.cache - {b})[c] == s.t.cache[c];
        assert RoomOk(s.entries, s.t.cache, c);
        assert c in entries <==> c in entries - {b};
        assert c in s.entries ==> (s.entries - {b})[c] == s.entries[c];
      }
    }
    forall c | c in entries ensures c != 0 && c in u.cache {
      if c != b {
        assert c in entries - {b};
        assert c in s.entries - {b};
        assert c in s.t.cache - {b};
      }
    }
  }

  lemma StartStep(s: State, b: nat, p: Page, q: Page, rec: nat)
    requires InStep(s, b, rec) && 0 < b < s.blockcount && 0 < rec < |s.t.live| && s.t.live[rec] == 0
    requires OneMore(s.t, b, p, q, rec) && EntryFor(s.entries, b, FreeBytes(q.slots))
    ensures InStep(s.(t := Started(s.t, b, q, rec, Data(q, |p.slots|))), 0, 0)
  {
    StartedKeeps(s.t, b, p, q, rec);
    PageStep(s, Started(s.t, b, q, rec, Data(q, |p.slots|)), b, b, rec, rec, 0, s.entries);
  }

  lemma RewriteStep(s: State, b: nat, q: Page, i: nat, entries: map<nat, F.Entry>)
    requires InStep(s, 0, 0) && b in s.t.cache && OneChanged(s.t.cache[b], q, i)
    requires entries - {b} == s.entries - {b} && EntryFor(entries, b, FreeBytes(q.slots))
    ensures InStep(s.(t := Rewritten(s.t, b, q, i), entries := entries), 0, 0)
  {
    assert BlockOk(s.t, b) && SlotOk(s.t, b, i);
    RewrittenKeeps(s.t, b, q, i);
    PageStep(s, Rewritten(s.t, b, q, i), b, 0, 0, q.slots[i].recnum, 0, entries);
  }

  lemma EndStep(s: State, b: nat, q: Page, i: nat, entries: map<nat, F.Entry>)
    requires InStep(s, 0, 0) && b in s.t.cache && i < |s.t.cache[b].slots| && OneGone(s.t.cache[b], q, i) && Valid(q)
    requires entries - {b} == s.entries - {b} && EntryFor(entries, b, FreeBytes(q.slots))
    ensures 0 < s.t.cache[b].slots[i].recnum < |s.t.live|
    ensures InStep(s.(t := Ended(s.t, b, q, i), entries := entries), 0, s.t.cache[b].slots[i].recnum)
  {
    assert BlockOk(s.t, b) && SlotOk(s.t, b, i);
    EndedKeeps(s.t, b, q, i);
    PageStep(s, Ended(s.t, b, q, i), b, 0, 0, s.t.cache[b].slots[i].recnum, s.t.cache[b].slots[i].recnum, entries);
  }

  /** A fragment of the largest size has its block to itself, and leaves no room in it. */
  lemma FullAlone(s: State, rec: nat)
    requires InStep(s, 0, 0) && 0 < rec < |s.t.live| && s.t.live[rec] != 0
    requires s.t.nfrags[rec] >= 1 && (rec, s.t.nfrags[rec] - 1) in s.t.data
    requires |s.t.data[(rec, s.t.nfrags[rec] - 1)]| == FRAGMENT_MAX
    ensures var b := s.t.live[rec];
            && b in s.t.cache && FreeBytes(s.t.cache[b].slots) == 0
            && forall r :: RecIn(s.t.cache[b].slots, r) <==> r == rec
  {
    LiveFacts(s, 0, 0, rec);
    var p := s.t.cache[s.t.live[rec]];
    var i: nat :| i < |p.slots| && Is(p.slots[i], rec, s.t.nfrags[rec] - 1);
    ValueAt(p, i);
    SlotInRange(p, i);
    assert |p.slots| == 1;
    assert p.slots[0].recnum == rec;
  }

  /** A full block is written out: its one record moves on, and nothing else changes. */
  lemma FullOut(s: State, s': State, rec: nat)
    requires InStep(s, 0, 0) && 0 < rec < |s.t.live| && s.t.live[rec] in s.t.cache && rec < |s.t.nfrags|
    requires forall r :: RecIn(s.t.cache[s.t.live[rec]].slots, r) <==> r == rec
    requires WrittenOut(s, s', s.t.live[rec])
    ensures s'.t.nfrags == s.t.nfrags[rec := s.t.nfrags[rec] + 1] && s'.t.live == s.t.live[rec := 0]
  {
  }

  lemma FreeBound(slots: seq<Slot>)
    requires LaidOut(slots)
    ensures FreeBytes(slots) < F.NSIZES
  {
  }

  /** With no block left, no fragment is live. */
  lemma AllOut(t: Tables)
    requires TablesOk(t) && t.cache == map[]
    ensures |t.nfrags| == |t.live| && forall r | 0 < r < |t.nfrags| :: t.live[r] == 0 && t.nfrags[r] >= 1
  {
    forall r | 0 < r < |t.nfrags| ensures t.live[r] == 0 && t.nfrags[r] >= 1 {
      assert LiveOk(t, r);
    }
  }

  lemma OthersAfter(t: Tables, u: Tables, v: Tables, rec: nat, evict: Option<nat>)
    requires |t.live| == |t.nfrags| && rec < |t.live| && u.nfrags == t.nfrags && u.live == t.live[rec := 0]
    requires OthersKeep(u, v, rec, evict)
    ensures OthersKeep(t, v, rec, evict)
  {
  }

  // ----- the bytes of a fragment -----

  /** A key has got bytes, all but the first `offset` of them those of the buffer. */
  ghost predicate Gained(data: Contents, data': Contents, key: (nat, nat), buffer: seq<byte>, offset: nat)
  {
    && key !in data && key in data' && data' - {key} == data
    && |data'[key]| == offset + |buffer| && data'[key][offset..] == buffer
  }

  lemma GainedStep(data: Contents, data': Contents, rec: nat, f: nat, buffer: seq<byte>, offset: nat)
    requires Gained(data, data', (rec, f), buffer, offset)
    ensures Step(data, Write(rec, f, buffer, offset), data')
  {
    assert data - {(rec, f)} == data;
  }

  /** Taking a fragment out and entering its bytes, cut off or filled up with zeros, elsewhere makes it grow. */
  lemma MovedStep(data: Contents, gone: Contents, data': Contents, rec: nat, f: nat, newsize: nat)
    requires (rec, f) in data && gone == data - {(rec, f)}
    requires Gained(gone, data', (rec, f), Resized(data[(rec, f)], newsize), 0)
    ensures Step(data, Grow(rec, f, newsize), data')
  {
    assert data'[(rec, f)][0..] == data'[(rec, f)];
  }

  /** A fragment started in a block: all but its first `offset` bytes are those of the buffer. */
  lemma StartsStep(s: State, b: nat, p: Page, q: Page, rec: nat, buffer: seq<byte>, offset: nat)
    requires InStep(s, b, rec) && 0 < b < s.blockcount && 0 < rec < |s.t.live| && s.t.live[rec] == 0
    requires p == if b in s.t.cache then s.t.cache[b] else EMPTY_PAGE
    requires s.t.nfrags[rec] >= 1 && OneAdded(p, q, rec, s.t.nfrags[rec] - 1)
    requires EntryFor(s.entries, b, FreeBytes(q.slots))
    requires var d := Data(q, |p.slots|); |d| == offset + |buffer| && d[offset..] == buffer
    ensures var u := Started(s.t, b, q, rec, Data(q, |p.slots|));
            InStep(s.(t := u), 0, 0) && Gained(s.t.data, u.data, (rec, s.t.nfrags[rec] - 1), buffer, offset)
  {
    AbsentFacts(s, b, rec, rec, b);
    StartStep(s, b, p, q, rec);
    var key := (rec, s.t.nfrags[rec] - 1);
    assert s.t.data[key := Data(q, |p.slots|)] - {key} == s.t.data;
  }

  lemma PatchedStep(data: Contents, rec: nat, f: nat, buffer: seq<byte>, offset: nat, bytes: seq<byte>)
    requires (rec, f) in data && offset + |buffer| <= |data[(rec, f)]|
    requires bytes == data[(rec, f)][..offset] + buffer + data[(rec, f)][offset + |buffer|..]
    ensures Step(data, Write(rec, f, buffer, offset), data[(rec, f) := bytes])
  {
    assert data[(rec, f) := bytes] - {(rec, f)} == data - {(rec, f)};
  }

  /** Other bytes in a part of a fragment. */
  lemma PatchStep(s: State, b: nat, q: Page, i: nat, rec: nat, f: nat, buffer: seq<byte>, offset: nat)
    requires InStep(s, 0, 0) && b in s.t.cache && OneChanged(s.t.cache[b], q, i) && q.slots == s.t.cache[b].slots
    requires Is(q.slots[i], rec, f)
    requires var d := Data(s.t.cache[b], i);
             offset + |buffer| <= |d| && Data(q, i) == d[..offset] + buffer + d[offset + |buffer|..]
    ensures var u := Rewritten(s.t, b, q, i);
            InStep(s.(t := u), 0, 0) && Step(s.t.data, Write(rec, f, buffer, offset), u.data)
  {
    var u := Rewritten(s.t, b, q, i);
    assert BlockOk(s.t, b) && SlotOk(s.t, b, i) && RoomOk(s.entries, s.t.cache, b);
    PatchedStep(s.t.data, rec, f, buffer, offset, Data(q, i));
    RewriteStep(s, b, q, i, s.entries);
  }

  /** A fragment of another size, with the bytes that fit. */
  lemma SizeStep(s: State, b: nat, q: Page, i: nat, rec: nat, f: nat, newsize: nat, entries: map<nat, F.Entry>)
    requires InStep(s, 0, 0) && b in s.t.cache && OneChanged(s.t.cache[b], q, i) && Is(q.slots[i], rec, f)
    requires entries - {b} == s.entries - {b} && EntryFor(entries, b, FreeBytes(q.slots))
    requires var d, e := Data(s.t.cache[b], i), Data(q, i);
             |e| == newsize && if newsize >= |d| then d <= e else e <= d
    ensures var u := Rewritten(s.t, b, q, i);
            InStep(s.(t := u, entries := entries), 0, 0) && Step(s.t.data, Grow(rec, f, newsize), u.data)
  {
    var u := Rewritten(s.t, b, q, i);
    assert BlockOk(s.t, b) && SlotOk(s.t, b, i);
    RewriteStep(s, b, q, i, entries);
    assert u.data - {(rec, f)} == s.t.data - {(rec, f)};
  }

  // ----- the finished index -----

  ghost predicate EntryFinal(h: History, nfrags: seq<nat>, data: Contents, i: nat)
    requires i < |h.log|
  {
    var e := h.log[i];
    && 0 < e.recno < |nfrags| && e.fragno < nfrags[e.recno]
    && (e.recno, e.fragno) in h.index && h.index[(e.recno, e.fragno)] == i
    && Stores(h, e.blkno, data, e.recno, e.fragno)
  }

  /** Every fragment of every record is logged exactly once, with a block on disk that holds its bytes. */
  ghost predicate Complete(h: History, nfrags: seq<nat>, data: Contents)
  {
    && (forall i {:trigger EntryFinal(h, nfrags, data, i)} | 0 <= i < |h.log| :: EntryFinal(h, nfrags, data, i))
    && (forall rec, f {:trigger FragLogged(h, rec, f)} | 0 < rec < |nfrags| && 0 <= f < nfrags[rec] ::
          FragLogged(h, rec, f))
  }

  lemma CountsDown(h: History, counts: seq<nat>, nfrags: seq<nat>, data: Contents)
    requires HistoryOk(h, counts, data) && |nfrags| == |counts|
    requires forall r | 0 < r < |counts| :: nfrags[r] + 1 == counts[r]
    ensures Complete(h, nfrags, data)
  {
    forall i | 0 <= i < |h.log| ensures EntryFinal(h, nfrags, data, i) { assert EntryOk(h, counts, data, i); }
    forall rec, f | 0 < rec < |nfrags| && 0 <= f < nfrags[rec] ensures FragLogged(h, rec, f) {}
  }

  lemma RecInStep(slots: seq<Slot>, k: nat)
    requires k < |slots|
    ensures forall r :: RecIn(slots[..k + 1], r) <==> RecIn(slots[..k], r) || slots[k].recnum == r
  {
    forall r ensures RecIn(slots[..k + 1], r) <==> RecIn(slots[..k], r) || slots[k].recnum == r {
      if RecIn(slots[..k], r) {
        var i :| 0 <= i < k && slots[..k][i].recnum == r;
        assert slots[..k + 1][i].recnum == r;
      }
      if slots[k].recnum == r { assert slots[..k + 1][k].recnum == r; }
      if RecIn(slots[..k + 1], r) {
        var i :| 0 <= i < k + 1 && slots[..k + 1][i].recnum == r;
        assert i < k ==> slots[..k][i].recnum == r;
      }
    }
  }
}
