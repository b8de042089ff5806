/** What the bytes of one storage block mean: records laid out downwards from the end of the block,
    found through a sorted permutation kept at its start. */
module Pages {
  import opened Collections
  import opened Pigeonhole

  const BLOCK_SIZE: nat := 2048
  const ENTRY_SIZE: nat := 12          // one slot description in the block header
  const FRAGMENT_MAX: nat := 2032      // BLOCK_SIZE - HeaderSize(1)

  type byte = x: nat | x < 256

  /** Bytes taken by the header of a block with `n` slots. */
  function HeaderSize(n: nat): nat { 12 * n + 4 }

  /** A record fragment: which one, and where its data begins.  It ends where its predecessor begins. */
  datatype Slot = Slot(recnum: nat, fragnum: nat, addr: nat)

  /** The slots in physical order, the slot numbers in key order, and the bytes of the block. */
  datatype Page = Page(slots: seq<Slot>, recindex: seq<nat>, bytes: seq<byte>)

  predicate Is(s: Slot, recno: nat, fragno: nat)
  {
    s.recnum == recno && s.fragnum == fragno
  }

  /** Keys are ordered by fragment, then by record. */
  predicate KeyLess(s: Slot, t: Slot)
  {
    s.fragnum < t.fragnum || (s.fragnum == t.fragnum && s.recnum < t.recnum)
  }

  /** Where the data of the slot before ends, that is, where slot `s` ends. */
  function Above(slots: seq<Slot>, s: nat): nat
    requires s <= |slots|
  {
    if s == 0 then BLOCK_SIZE else slots[s - 1].addr
  }

  /** The lowest address in use. */
  function Bottom(slots: seq<Slot>): nat
  {
    Above(slots, |slots|)
  }

  /** Slot `t`, when it comes after slot `s`, does not begin above it. */
  ghost predicate Under(slots: seq<Slot>, s: nat, t: nat)
  {
    s < t < |slots| ==> slots[t].addr <= slots[s].addr
  }

  /** Addresses descend and stay above the header. */
  ghost predicate LaidOut(slots: seq<Slot>)
  {
    && HeaderSize(|slots|) <= Bottom(slots) <= BLOCK_SIZE
    && (forall s | 0 <= s < |slots| :: Bottom(slots) <= slots[s].addr <= BLOCK_SIZE)
    && (forall s, t {:trigger Under(slots, s, t)} | 0 <= s < |slots| && 0 <= t < |slots| :: Under(slots, s, t))
  }

  ghost predicate Before(slots: seq<Slot>, recindex: seq<nat>, i: nat, j: nat)
  {
    i < j < |recindex| && recindex[i] < |slots| && recindex[j] < |slots| ==>
      KeyLess(slots[recindex[i]], slots[recindex[j]])
  }

  /** The slot numbers are listed in strictly ascending key order. */
  ghost predicate Sorted(slots: seq<Slot>, recindex: seq<nat>)
  {
    && |recindex| == |slots|
    && (forall i | 0 <= i < |recindex| :: recindex[i] < |slots|)
    && (forall i, j {:trigger Before(slots, recindex, i, j)} | 0 <= i < |recindex| && 0 <= j < |recindex| ::
          Before(slots, recindex, i, j))
  }

  ghost predicate Valid(p: Page)
  {
    |p.bytes| == BLOCK_SIZE && LaidOut(p.slots) && Sorted(p.slots, p.recindex)
  }

  /** Bytes left between the header and the data. */
  function FreeBytes(slots: seq<Slot>): int
  {
    Bottom(slots) - HeaderSize(|slots|)
  }

  function Data(p: Page, s: nat): seq<byte>
    requires s < |p.slots|
  {
    if p.slots[s].addr <= Above(p.slots, s) <= |p.bytes| then p.bytes[p.slots[s].addr..Above(p.slots, s)] else []
  }

  lemma SlotInRange(p: Page, s: nat)
    requires Valid(p) && s < |p.slots|
    ensures p.slots[s].addr <= Above(p.slots, s) <= BLOCK_SIZE
    ensures HeaderSize(|p.slots|) <= Bottom(p.slots) <= p.slots[s].addr
  {
    if s > 0 { assert Under(p.slots, s - 1, s); }
  }

  /** Of two slots, the later one lies wholly below the earlier one. */
  lemma SlotsApart(p: Page, s: nat, t: nat)
    requires Valid(p) && s < t < |p.slots|
    ensures Above(p.slots, t) <= p.slots[s].addr
  {
    assert Under(p.slots, s, t - 1);
  }

  predicate Has(slots: seq<Slot>, recno: nat, fragno: nat)
  {
    exists s | 0 <= s < |slots| :: Is(slots[s], recno, fragno)
  }

  // ----- the permutation -----

  /** Every slot is listed: a sorted list of as many slot numbers as there are slots is a permutation. */
  lemma Listed(slots: seq<Slot>, recindex: seq<nat>, s: nat) returns (i: nat)
    requires Sorted(slots, recindex) && s < |slots|
    ensures i < |recindex| && recindex[i] == s
  {
    if forall i | 0 <= i < |recindex| :: recindex[i] != s {
      forall i, j | 0 <= i < j < |recindex| ensures recindex[i] != recindex[j] {
        assert Before(slots, recindex, i, j);
      }
      Pigeons(recindex, |slots|, s);
    }
    i :| i < |recindex| && recindex[i] == s;
  }

  /** No two slots have the same key. */
  lemma KeysUnique(slots: seq<Slot>, recindex: seq<nat>, s: nat, t: nat)
    requires Sorted(slots, recindex) && s < |slots| && t < |slots| && s != t
    ensures !Is(slots[s], slots[t].recnum, slots[t].fragnum)
  {
    var i := Listed(slots, recindex, s);
    var j := Listed(slots, recindex, t);
    assert if i < j then Before(slots, recindex, i, j) else Before(slots, recindex, j, i);
  }

  /** One comparison of a binary search for a key rules out one side of the sorted slots. */
  lemma SearchStep(slots: seq<Slot>, recindex: seq<nat>, m: nat, key: Slot)
    requires Sorted(slots, recindex) && m < |recindex|
    ensures KeyLess(key, slots[recindex[m]]) ==>
              forall i | m <= i < |recindex| :: KeyLess(key, slots[recindex[i]])
    ensures KeyLess(slots[recindex[m]], key) ==>
              forall i | 0 <= i <= m :: KeyLess(slots[recindex[i]], key)
  {
    forall i | 0 <= i < |recindex|
      ensures m < i ==> KeyLess(slots[recindex[m]], slots[recindex[i]])
      ensures i < m ==> KeyLess(slots[recindex[i]], slots[recindex[m]])
    {
      assert Before(slots, recindex, m, i) && Before(slots, recindex, i, m);
    }
  }

  // ----- moving bytes -----

  /** `memmove` turns the bytes `b` into `c`. */
  ghost predicate Moved(b: seq<byte>, c: seq<byte>, dst: nat, src: nat, n: nat)
  {
    && |b| == |c| && dst + n <= |b| && src + n <= |b|
    && (forall k {:trigger c[k]} | 0 <= k < |b| :: c[k] == if dst <= k < dst + n then b[k - dst + src] else b[k])
  }

  /** Writing `data` at an address turns the bytes `b` into `c`. */
  ghost predicate Stored(b: seq<byte>, c: seq<byte>, at: nat, data: seq<byte>)
  {
    && |b| == |c| && at + |data| <= |b|
    && (forall k {:trigger c[k]} | 0 <= k < |b| :: c[k] == if at <= k < at + |data| then data[k - at] else b[k])
  }

  /** Bytes inside the moved range are at their new place, bytes outside the target are untouched. */
  lemma MovedSlice(b: seq<byte>, c: seq<byte>, dst: nat, src: nat, n: nat, lo: nat, hi: nat)
    requires Moved(b, c, dst, src, n) && lo <= hi <= |b|
    ensures dst <= lo && hi <= dst + n ==>
              0 <= lo - dst + src <= hi - dst + src <= |b| && c[lo..hi] == b[lo - dst + src..hi - dst + src]
    ensures hi <= dst || dst + n <= lo ==> c[lo..hi] == b[lo..hi]
  {
    if dst <= lo && hi <= dst + n {
      forall i | 0 <= i < hi - lo ensures c[lo..hi][i] == b[lo - dst + src..hi - dst + src][i] {
        assert c[lo + i] == b[lo + i - dst + src];
      }
    }
    if hi <= dst || dst + n <= lo {
      forall i | 0 <= i < hi - lo ensures c[lo..hi][i] == b[lo..hi][i] {
        assert c[lo + i] == b[lo + i];
      }
    }
  }

  lemma StoredSlice(b: seq<byte>, c: seq<byte>, at: nat, data: seq<byte>, lo: nat, hi: nat)
    requires Stored(b, c, at, data) && lo <= hi <= |b|
    ensures hi <= at || at + |data| <= lo ==> c[lo..hi] == b[lo..hi]
    ensures lo <= at && at + |data| <= hi ==>
              c[lo..hi] == b[lo..hi][..at - lo] + data + b[lo..hi][at + |data| - lo..]
  {
    if hi <= at || at + |data| <= lo {
      forall i | 0 <= i < hi - lo ensures c[lo..hi][i] == b[lo..hi][i] {
        assert c[lo + i] == b[lo + i];
      }
    }
    if lo <= at && at + |data| <= hi {
      var front, back := b[lo..hi][..at - lo], b[lo..hi][at + |data| - lo..];
      forall i | 0 <= i < hi - lo ensures c[lo..hi][i] == (front + data + back)[i] {
        assert c[lo + i] == if at <= lo + i < at + |data| then data[lo + i - at] else b[lo + i];
      }
    }
  }

  // ----- adding a record -----

  ghost predicate Opened(x: seq<nat>, y: seq<nat>, k: nat, n: nat)
  {
    && |y| == |x| + 1 && k <= |x|
    && (forall i {:trigger y[i]} | 0 <= i < |y| :: y[i] == if i < k then x[i] else if i == k then n else x[i - 1])
  }

  /** `k` is where a new key belongs among the sorted slots. */
  ghost predicate Splits(p: Page, recno: nat, fragno: nat, k: nat)
  {
    var key := Slot(recno, fragno, 0);
    && k <= |p.recindex|
    && (forall i | 0 <= i < k && i < |p.recindex| :: p.recindex[i] < |p.slots| && KeyLess(p.slots[p.recindex[i]], key))
    && (forall i | k <= i < |p.recindex| :: p.recindex[i] < |p.slots| && KeyLess(key, p.slots[p.recindex[i]]))
  }

  /** `q` is `p` with a new record whose first `offset` bytes are not written yet. */
  ghost predicate Added(p: Page, q: Page, recno: nat, fragno: nat, data: seq<byte>, offset: nat, k: nat)
  {
    var n := |p.slots|;
    && |q.slots| == n + 1 && (forall s | 0 <= s < n :: q.slots[s] == p.slots[s])
    && |data| + offset <= Bottom(p.slots) && q.slots[n] == Slot(recno, fragno, Bottom(p.slots) - |data| - offset)
    && Opened(p.recindex, q.recindex, k, n)
    && Stored(p.bytes, q.bytes, Bottom(p.slots) - |data|, data)
  }

  lemma AddedValid(p: Page, q: Page, recno: nat, fragno: nat, data: seq<byte>, offset: nat, k: nat)
    requires Valid(p) && Splits(p, recno, fragno, k) && |data| + offset + ENTRY_SIZE <= FreeBytes(p.slots)
    requires Added(p, q, recno, fragno, data, offset, k)
    ensures Valid(q) && FreeBytes(q.slots) == FreeBytes(p.slots) - |data| - offset - ENTRY_SIZE
  {
    var n := |p.slots|;
    forall i | 0 <= i < |q.recindex|
      ensures q.recindex[i] <= n
      ensures i == k ==> q.recindex[i] == n
      ensures i < k ==> q.recindex[i] == p.recindex[i] < n && KeyLess(q.slots[q.recindex[i]], q.slots[n])
      ensures i > k ==> q.recindex[i] == p.recindex[i - 1] < n && KeyLess(q.slots[n], q.slots[q.recindex[i]])
    {
    }
    forall i, j | 0 <= i < |q.recindex| && 0 <= j < |q.recindex| ensures Before(q.slots, q.recindex, i, j) {
      assert Before(p.slots, p.recindex, if i > k then i - 1 else i, if j > k then j - 1 else j);
    }
    forall s, t | 0 <= s < |q.slots| && 0 <= t < |q.slots| ensures Under(q.slots, s, t) {
      assert Under(p.slots, s, t);
    }
  }

  /** Adding a record leaves every other record's data alone and stores the new one. */
  lemma AddedData(p: Page, q: Page, recno: nat, fragno: nat, data: seq<byte>, offset: nat, k: nat)
    requires Valid(p) && |data| + offset + ENTRY_SIZE <= FreeBytes(p.slots)
    requires Added(p, q, recno, fragno, data, offset, k)
    ensures forall s | 0 <= s < |p.slots| :: Data(q, s) == Data(p, s)
    ensures var d := Data(q, |p.slots|); |d| == offset + |data| && d[offset..] == data
  {
    var n, at := |p.slots|, Bottom(p.slots) - |data|;
    forall s | 0 <= s < n ensures Data(q, s) == Data(p, s) {
      SlotInRange(p, s);
      StoredSlice(p.bytes, q.bytes, at, data, p.slots[s].addr, Above(p.slots, s));
    }
    StoredSlice(p.bytes, q.bytes, at, data, at - offset, at + |data|);
  }

  // ----- overwriting -----

  /** `q` is `p` with bytes of the record in slot `s` overwritten. */
  ghost predicate Overwritten(p: Page, q: Page, s: nat, data: seq<byte>, offset: nat)
  {
    && q.slots == p.slots && q.recindex == p.recindex && s < |p.slots|
    && Stored(p.bytes, q.bytes, p.slots[s].addr + offset, data)
  }

  /** Overwriting within a record changes that part of that record and nothing else. */
  lemma OverwrittenData(p: Page, q: Page, s: nat, data: seq<byte>, offset: nat)
    requires Valid(p) && Overwritten(p, q, s, data, offset) && p.slots[s].addr + offset + |data| <= Above(p.slots, s)
    ensures Valid(q)
    ensures forall t | 0 <= t < |p.slots| && t != s :: Data(q, t) == Data(p, t)
    ensures var d, e := Data(p, s), Data(q, s);
            |e| == |d| && offset + |data| <= |d| && e == d[..offset] + data + d[offset + |data|..]
  {
    SlotInRange(p, s);
    forall t | 0 <= t < |p.slots| && t != s ensures Data(q, t) == Data(p, t) {
      SlotInRange(p, t);
      if s < t { SlotsApart(p, s, t); } else { SlotsApart(p, t, s); }
      StoredSlice(p.bytes, q.bytes, p.slots[s].addr + offset, data, p.slots[t].addr, Above(p.slots, t));
    }
    StoredSlice(p.bytes, q.bytes, p.slots[s].addr + offset, data, p.slots[s].addr, Above(p.slots, s));
  }

  // ----- deleting a record -----

  /** Slot `s` is gone; the slots behind it have moved up by `distance`. */
  ghost predicate Closed(x: seq<Slot>, y: seq<Slot>, s: nat, distance: nat)
  {
    && s < |x| == |y| + 1
    && (forall t {:trigger y[t]} | 0 <= t < |y| ::
          && y[t].recnum == x[Skip(t, s)].recnum && y[t].fragnum == x[Skip(t, s)].fragnum
          && y[t].addr == x[Skip(t, s)].addr + if t < s then 0 else distance)
  }

  function Lowered(m: nat, s: nat): nat { if m > s then m - 1 else m }

  /** Position `k` of the permutation is gone, its slot numbers closing the gap. */
  ghost predicate Renumbered(x: seq<nat>, y: seq<nat>, k: nat)
  {
    && k < |x| == |y| + 1
    && (forall i {:trigger y[i]} | 0 <= i < |y| :: y[i] == Lowered(x[Skip(i, k)], x[k]))
  }

  /** `q` is `p` without the record at sorted position `k`. */
  ghost predicate Deleted(p: Page, q: Page, k: nat)
  {
    && k < |p.recindex| && p.recindex[k] < |p.slots| &&
    var s := p.recindex[k];
    var lo, hi := p.slots[s].addr, Above(p.slots, s);
    && Bottom(p.slots) <= lo <= hi
    && Closed(p.slots, q.slots, s, hi - lo)
    && Renumbered(p.recindex, q.recindex, k)
    && Moved(p.bytes, q.bytes, Bottom(p.slots) + (hi - lo), Bottom(p.slots), lo - Bottom(p.slots))
  }

  lemma DeletedSorted(p: Page, q: Page, k: nat)
    requires Valid(p) && Deleted(p, q, k)
    ensures Sorted(q.slots, q.recindex)
  {
    var s := p.recindex[k];
    forall i | 0 <= i < |q.recindex|
      ensures p.recindex[Skip(i, k)] != s && q.recindex[i] < |q.slots| && Skip(q.recindex[i], s) == p.recindex[Skip(i, k)]
    {
      assert Before(p.slots, p.recindex, Skip(i, k), k) && Before(p.slots, p.recindex, k, Skip(i, k));
    }
    forall i, j | 0 <= i < |q.recindex| && 0 <= j < |q.recindex| ensures Before(q.slots, q.recindex, i, j) {
      assert Before(p.slots, p.recindex, Skip(i, k), Skip(j, k));
    }
  }

  /** Where a slot of the new block lies, measured against the deleted one. */
  lemma DeletedAt(p: Page, q: Page, k: nat, t: nat)
    requires Valid(p) && Deleted(p, q, k) && t < |q.slots|
    ensures var s, lo, hi := p.recindex[k], q.slots[t].addr, Above(q.slots, t);
            var gap := Above(p.slots, s) - p.slots[s].addr;
            && lo <= hi <= BLOCK_SIZE && Bottom(p.slots) + gap <= lo
            && (t < s ==> lo == p.slots[t].addr && hi == Above(p.slots, t) && Above(p.slots, s) <= lo)
            && (t >= s ==> lo == p.slots[t + 1].addr + gap && hi == Above(p.slots, t + 1) + gap
                           && hi <= Above(p.slots, s))
  {
    var s := p.recindex[k];
    SlotInRange(p, s);
    SlotInRange(p, Skip(t, s));
    if t < s {
      SlotsApart(p, t, s);
      if t > 0 { assert q.slots[t - 1].addr == p.slots[t - 1].addr; }
    } else {
      SlotsApart(p, s, t + 1);
      if t > 0 { assert q.slots[t - 1].addr == p.slots[Skip(t - 1, s)].addr + if t - 1 < s then 0
                                                else Above(p.slots, s) - p.slots[s].addr; }
    }
  }

  lemma DeletedValid(p: Page, q: Page, k: nat)
    requires Valid(p) && Deleted(p, q, k)
    ensures Valid(q)
    ensures var s := p.recindex[k];
            FreeBytes(q.slots) == FreeBytes(p.slots) + (Above(p.slots, s) - p.slots[s].addr) + ENTRY_SIZE
  {
    hide Sorted, Renumbered;
    var s, n := p.recindex[k], |q.slots|;
    DeletedSorted(p, q, k);
    SlotInRange(p, s);
    if n > 0 { DeletedAt(p, q, k, n - 1); }
    forall t | 0 <= t < n ensures Bottom(q.slots) <= q.slots[t].addr <= BLOCK_SIZE {
      DeletedAt(p, q, k, t);
    }
    forall t, u | 0 <= t < n && 0 <= u < n ensures Under(q.slots, t, u) {
      DeletedAt(p, q, k, t);
      DeletedAt(p, q, k, u);
      assert Under(p.slots, Skip(t, s), Skip(u, s));
    }
  }

  lemma DeletedBy(p: Page, q: Page, k: nat, distance: nat, bottom: nat, n: nat)
    requires Valid(p) && k < |p.recindex| && p.recindex[k] < |p.slots|
    requires distance == Above(p.slots, p.recindex[k]) - p.slots[p.recindex[k]].addr
    requires bottom == Bottom(p.slots) && n == p.slots[p.recindex[k]].addr - bottom
    requires Closed(p.slots, q.slots, p.recindex[k], distance) && Renumbered(p.recindex, q.recindex, k)
    requires Moved(p.bytes, q.bytes, bottom + distance, bottom, n)
    ensures Deleted(p, q, k) && Valid(q)
  {
    DeletedValid(p, q, k);
  }

  ghost predicate Kept(p: Page, q: Page, t: nat, t': nat)
    requires t < |q.slots| && t' < |p.slots|
  {
    Is(q.slots[t], p.slots[t'].recnum, p.slots[t'].fragnum) && Data(q, t) == Data(p, t')
  }

  /** The slots of `q` are those of `p` but for slot `s`, with the same data. */
  ghost predicate OneGone(p: Page, q: Page, s: nat)
  {
    s < |p.slots| == |q.slots| + 1 && forall t | 0 <= t < |q.slots| :: Kept(p, q, t, Skip(t, s))
  }

  /** Deleting a record closes the gap and leaves every other record's data alone. */
  lemma DeletedData(p: Page, q: Page, k: nat)
    requires Valid(p) && Deleted(p, q, k)
    ensures OneGone(p, q, p.recindex[k])
  {
    var s := p.recindex[k];
    forall t | 0 <= t < |q.slots| ensures Kept(p, q, t, Skip(t, s)) {
      DeletedAt(p, q, k, t);
      SlotInRange(p, s);
      SlotInRange(p, Skip(t, s));
      MovedSlice(p.bytes, q.bytes, Bottom(p.slots) + (Above(p.slots, s) - p.slots[s].addr), Bottom(p.slots),
                 p.slots[s].addr - Bottom(p.slots), q.slots[t].addr, Above(q.slots, t));
    }
  }

  // ----- growing a record -----

  /** There is room for the increment, or the record is long enough for the decrement. */
  ghost predicate CanGrow(p: Page, s: nat, increment: int)
  {
    Valid(p) && s < |p.slots| && increment <= FreeBytes(p.slots) && p.slots[s].addr - increment <= Above(p.slots, s)
  }

  /** Slots from `s` on have moved down by `increment`. */
  ghost predicate Shifted(x: seq<Slot>, y: seq<Slot>, s: nat, increment: int)
  {
    && |y| == |x|
    && (forall t {:trigger y[t]} | 0 <= t < |y| ::
          && y[t].recnum == x[t].recnum && y[t].fragnum == x[t].fragnum
          && y[t].addr == x[t].addr - if t < s then 0 else increment)
  }

  /** `q` is `p` with a record given another size in place: it and everything below it have moved; when
      it shrinks, its last bytes are dropped. */
  ghost predicate Grown(p: Page, q: Page, s: nat, increment: int)
  {
    var bottom := Bottom(p.slots);
    var n := if s < |p.slots| then Above(p.slots, s) - bottom + (if increment < 0 then increment else 0) else -1;
    && Shifted(p.slots, q.slots, s, increment) && q.recindex == p.recindex
    && bottom >= increment && n >= 0 && Moved(p.bytes, q.bytes, bottom - increment, bottom, n)
  }

  /** Where a slot lies after the change. */
  lemma GrownAt(p: Page, q: Page, s: nat, increment: int, t: nat)
    requires CanGrow(p, s, increment) && Grown(p, q, s, increment) && t < |p.slots|
    ensures var lo, hi := q.slots[t].addr, Above(q.slots, t);
            && Bottom(p.slots) - increment <= lo <= hi <= BLOCK_SIZE
            && (t < s ==> lo == p.slots[t].addr && hi == Above(p.slots, t) && Above(p.slots, s) <= lo)
            && (t == s ==> lo == p.slots[t].addr - increment && hi == Above(p.slots, t))
            && (t > s ==> lo == p.slots[t].addr - increment && hi == Above(p.slots, t) - increment
                          && Above(p.slots, t) <= p.slots[s].addr)
  {
    SlotInRange(p, s);
    SlotInRange(p, t);
    if t < s { SlotsApart(p, t, s); }
    if t > s { SlotsApart(p, s, t); }
    if t > 0 { assert q.slots[t - 1].addr == p.slots[t - 1].addr - if t - 1 < s then 0 else increment; }
  }

  lemma GrownValid(p: Page, q: Page, s: nat, increment: int)
    requires CanGrow(p, s, increment) && Grown(p, q, s, increment)
    ensures Valid(q) && FreeBytes(q.slots) == FreeBytes(p.slots) - increment
  {
    forall i, j | 0 <= i < |q.recindex| && 0 <= j < |q.recindex| ensures Before(q.slots, q.recindex, i, j) {
      assert Before(p.slots, p.recindex, i, j);
    }
    forall t | 0 <= t < |q.slots| ensures Bottom(q.slots) <= q.slots[t].addr <= BLOCK_SIZE {
      GrownAt(p, q, s, increment, t);
    }
    forall t, u | 0 <= t < |q.slots| && 0 <= u < |q.slots| ensures Under(q.slots, t, u) {
      GrownAt(p, q, s, increment, t);
      GrownAt(p, q, s, increment, u);
      assert Under(p.slots, t, u);
    }
  }

  lemma GrownBy(p: Page, q: Page, s: nat, increment: int, dst: nat, bottom: nat, n: nat)
    requires CanGrow(p, s, increment) && bottom == Bottom(p.slots) && dst == bottom - increment
    requires n == Above(p.slots, s) - bottom + if increment < 0 then increment else 0
    requires Shifted(p.slots, q.slots, s, increment) && q.recindex == p.recindex
    requires Moved(p.bytes, q.bytes, dst, bottom, n)
    ensures Grown(p, q, s, increment) && Valid(q)
  {
    GrownValid(p, q, s, increment);
  }

  lemma RoomToShift(p: Page, s: nat, increment: int)
    requires CanGrow(p, s, increment)
    ensures Bottom(p.slots) - increment >= 0 && Bottom(p.slots) <= Above(p.slots, s) <= BLOCK_SIZE
    ensures forall t | s <= t < |p.slots| :: p.slots[t].addr >= increment
    ensures Above(p.slots, s) - Bottom(p.slots) + (if increment < 0 then increment else 0) >= 0
    ensures increment < 0 ==> Bottom(p.slots) - increment <= Above(p.slots, s)
  {
    SlotInRange(p, s);
  }

  lemma GrownOther(p: Page, q: Page, s: nat, increment: int, t: nat)
    requires CanGrow(p, s, increment) && Grown(p, q, s, increment) && t < |p.slots| && t != s
    ensures Data(q, t) == Data(p, t)
  {
    hide LaidOut, Sorted;
    GrownAt(p, q, s, increment, t);
    SlotInRange(p, t);
    SlotInRange(p, s);
    var bottom := Bottom(p.slots);
    MovedSlice(p.bytes, q.bytes, bottom - increment, bottom,
               Above(p.slots, s) - bottom + (if increment < 0 then increment else 0), q.slots[t].addr, Above(q.slots, t));
  }

  lemma GrownSelf(p: Page, q: Page, s: nat, increment: int, common: nat)
    requires CanGrow(p, s, increment) && Grown(p, q, s, increment)
    requires common == |Data(p, s)| + (if increment < 0 then increment else 0)
    ensures |Data(q, s)| == |Data(p, s)| + increment && Data(q, s)[..common] == Data(p, s)[..common]
  {
    hide LaidOut, Sorted;
    GrownAt(p, q, s, increment, s);
    SlotInRange(p, s);
    var bottom, addr := Bottom(p.slots), p.slots[s].addr;
    var lo, hi := addr - increment, addr - increment + common;
    MovedSlice(p.bytes, q.bytes, bottom - increment, bottom,
               Above(p.slots, s) - bottom + (if increment < 0 then increment else 0), lo, hi);
    assert Data(q, s) == q.bytes[lo..Above(q.slots, s)];
    assert q.bytes[lo..Above(q.slots, s)][..common] == q.bytes[lo..hi];
    assert Data(p, s)[..common] == p.bytes[addr..addr + common];
  }

  /** Giving a record another size keeps as much of its data as fits, from its start, and leaves every
      other record alone. */
  lemma GrownData(p: Page, q: Page, s: nat, increment: int)
    requires CanGrow(p, s, increment) && Grown(p, q, s, increment)
    ensures forall t | 0 <= t < |p.slots| && t != s :: Data(q, t) == Data(p, t)
    ensures |Data(q, s)| == |Data(p, s)| + increment
    ensures if increment >= 0 then Data(p, s) <= Data(q, s) else Data(q, s) <= Data(p, s)
  {
    forall t | 0 <= t < |p.slots| && t != s ensures Data(q, t) == Data(p, t) {
      GrownOther(p, q, s, increment, t);
    }
    GrownAt(p, q, s, increment, s);
    SlotInRange(p, s);
    GrownSelf(p, q, s, increment, |Data(p, s)| + if increment < 0 then increment else 0);
  }
}
