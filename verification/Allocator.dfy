/** The heap allocator over one contiguous arena: malloc, free and consolidation of fast chunks. */
module Allocator {
  import opened Collections
  import opened Words
  import opened HeapLayout
  import opened Bins

  const MAX_FAST: nat := 72                        // request2size(64)
  const NFASTBINS: nat := 10
  const PAGESIZE: nat := 4096
  const REQUEST_LIMIT: nat := 0x1_0000_0000 - 32   // -2 * MINSIZE as an unsigned 32-bit number
  const TRIM_THRESHOLD: nat := 131072
  const FASTBIN_CONSOLIDATION_THRESHOLD: nat := 65536

  function RequestToSize(bytes: nat): (nb: nat)
    ensures nb >= MINSIZE && nb % 8 == 0 && nb >= bytes + 4
  {
    if bytes + 11 < MINSIZE then MINSIZE else (bytes + 11) / 8 * 8
  }

  function FastIndex(size: nat): int { size / 8 - 2 }

  // ----- fast bins -----

  ghost predicate FastMember(fastbins: seq<seq<nat>>, fplace: map<nat, nat>, head: Heads, i: nat, k: nat)
    requires i < |fastbins| && k < |fastbins[i]|
  {
    var p := fastbins[i][k];
    p in fplace && fplace[p] == i && p in head && FastIndex(head[p].size) == i
  }

  ghost predicate FastBinOk(fastbins: seq<seq<nat>>, fplace: map<nat, nat>, head: Heads, i: nat)
    requires i < |fastbins|
  {
    && (forall k {:trigger FastMember(fastbins, fplace, head, i, k)} | 0 <= k < |fastbins[i]| ::
          FastMember(fastbins, fplace, head, i, k))
    && NoDup(fastbins[i])
  }

  ghost predicate FastPlaceOk(fastbins: seq<seq<nat>>, fplace: map<nat, nat>, p: nat)
  {
    p in fplace && fplace[p] <= FastIndex(MAX_FAST) && fplace[p] < |fastbins| && p in fastbins[fplace[p]]
  }

  /** Every fast chunk is in exactly one fast bin, the one for its size; the flag is clear only when
      there are none. */
  ghost predicate FastOk(fastbins: seq<seq<nat>>, fplace: map<nat, nat>, head: Heads, fastchunks: bool)
  {
    && |fastbins| == NFASTBINS
    && (forall i {:trigger FastBinOk(fastbins, fplace, head, i)} | 0 <= i < NFASTBINS ::
          FastBinOk(fastbins, fplace, head, i))
    && (forall p {:trigger FastPlaceOk(fastbins, fplace, p)} | p in fplace :: FastPlaceOk(fastbins, fplace, p))
    && (!fastchunks ==> fplace == map[])
  }

  lemma FastPlaces(fastbins: seq<seq<nat>>, fplace: map<nat, nat>, head: Heads, flag: bool)
    requires FastOk(fastbins, fplace, head, flag)
    ensures forall p | p in fplace :: 0 <= fplace[p] <= FastIndex(MAX_FAST) && fastbins[fplace[p]] != []
  {
    forall p | p in fplace ensures 0 <= fplace[p] <= FastIndex(MAX_FAST) && fastbins[fplace[p]] != [] {
      assert FastPlaceOk(fastbins, fplace, p);
    }
  }

  lemma FastPush(fastbins: seq<seq<nat>>, fplace: map<nat, nat>, head: Heads, flag: bool, p: nat)
    requires FastOk(fastbins, fplace, head, flag) && p in head && p !in fplace
    requires MINSIZE <= head[p].size <= MAX_FAST
    ensures var i := FastIndex(head[p].size);
            0 <= i < NFASTBINS && FastOk(fastbins[i := [p] + fastbins[i]], fplace[p := i], head, true)
  {
    var i := FastIndex(head[p].size);
    var b, pl := fastbins[i := [p] + fastbins[i]], fplace[p := i];
    forall j | 0 <= j < NFASTBINS ensures FastBinOk(b, pl, head, j) {
      assert FastBinOk(fastbins, fplace, head, j);
      forall k | 0 <= k < |fastbins[j]| ensures fastbins[j][k] in fplace && fastbins[j][k] != p {
        assert FastMember(fastbins, fplace, head, j, k);
      }
      forall k | 0 <= k < |b[j]| ensures FastMember(b, pl, head, j, k) {
        if j != i || k != 0 { assert FastMember(fastbins, fplace, head, j, if j == i then k - 1 else k); }
      }
    }
    forall q | q in pl ensures FastPlaceOk(b, pl, q) {
      if q == p { assert b[i][0] == p; } else { assert FastPlaceOk(fastbins, fplace, q); }
    }
  }

  lemma FastPop(fastbins: seq<seq<nat>>, fplace: map<nat, nat>, head: Heads, flag: bool, i: nat)
    requires FastOk(fastbins, fplace, head, flag) && i < NFASTBINS && fastbins[i] != []
    ensures var p := fastbins[i][0];
            && p in fplace && p in head && FastIndex(head[p].size) == i && flag
            && FastOk(fastbins[i := fastbins[i][1..]], fplace - {p}, head, flag)
  {
    var p := fastbins[i][0];
    assert FastBinOk(fastbins, fplace, head, i);
    assert FastMember(fastbins, fplace, head, i, 0);
    var b, pl := fastbins[i := fastbins[i][1..]], fplace - {p};
    forall j | 0 <= j < NFASTBINS ensures FastBinOk(b, pl, head, j) {
      assert FastBinOk(fastbins, fplace, head, j);
      forall k | 0 <= k < |b[j]| ensures FastMember(b, pl, head, j, k) {
        assert FastMember(fastbins, fplace, head, j, if j == i then k + 1 else k);
      }
    }
    forall q | q in pl ensures FastPlaceOk(b, pl, q) {
      assert FastPlaceOk(fastbins, fplace, q);
      if fplace[q] == i {
        var m :| 0 <= m < |fastbins[i]| && fastbins[i][m] == q;
        assert b[i][m - 1] == q;
      }
    }
  }

  lemma FastHeadKeeps(fastbins: seq<seq<nat>>, fplace: map<nat, nat>, head: Heads, head': Heads, flag: bool)
    requires FastOk(fastbins, fplace, head, flag)
    requires forall p | p in fplace && p in head :: p in head' && head'[p].size == head[p].size
    ensures FastOk(fastbins, fplace, head', flag)
  {
    forall i | 0 <= i < NFASTBINS ensures FastBinOk(fastbins, fplace, head', i) {
      assert FastBinOk(fastbins, fplace, head, i);
      forall k | 0 <= k < |fastbins[i]| ensures FastMember(fastbins, fplace, head', i, k) {
        assert FastMember(fastbins, fplace, head, i, k);
      }
    }
    forall p | p in fplace ensures FastPlaceOk(fastbins, fplace, p) {
      assert FastPlaceOk(fastbins, fplace, p);
    }
  }

  /** Sizes of some chunks are what they were. */
  ghost predicate SameSizes(head: Heads, head': Heads, ps: set<nat>)
  {
    forall p | p in ps && p in head :: p in head' && head'[p].size == head[p].size
  }

  /** Chunks newly put into bins are in the unsorted one. */
  ghost predicate NewUnsorted(place: map<nat, nat>, place': map<nat, nat>)
  {
    forall p | p in place' && place'[p] != UNSORTED :: p in place && place[p] == place'[p]
  }

  lemma BinHas(bins: seq<seq<nat>>, place: map<nat, nat>, head: Heads, i: nat, k: nat)
    requires BinsOk(bins, place, head) && i < NBINS && k < |bins[i]|
    ensures var p := bins[i][k];
            p in place && place[p] == i && p in head && (i == UNSORTED || i == BinIndex(head[p].size))
  {
    assert BinOk(bins, place, head, i);
    assert MemberOk(bins, place, head, i, k);
  }

  lemma EmptyStays(bins: seq<seq<nat>>, place: map<nat, nat>, head: Heads,
                   bins': seq<seq<nat>>, place': map<nat, nat>, head': Heads, i: nat)
    requires BinsOk(bins, place, head) && BinsOk(bins', place', head') && NewUnsorted(place, place')
    requires i < NBINS && i != UNSORTED && bins[i] == []
    ensures bins'[i] == []
  {
    if bins'[i] != [] { BinHas(bins', place', head', i, 0); }
    assert forall p | p in place && place[p] == i :: !PlaceOk(bins, place, p);
  }

  lemma ListsKeep(bins: seq<seq<nat>>, place: map<nat, nat>, fastbins: seq<seq<nat>>, fplace: map<nat, nat>,
                  flag: bool, head: Heads, head': Heads)
    requires BinsOk(bins, place, head) && FastOk(fastbins, fplace, head, flag)
    requires SameSizes(head, head', place.Keys) && SameSizes(head, head', fplace.Keys)
    ensures BinsOk(bins, place, head') && FastOk(fastbins, fplace, head', flag)
  {
    HeadKeeps(bins, place, head, head');
    FastHeadKeeps(fastbins, fplace, head, head', flag);
  }

  /** Start freeing a chunk that is not free. */
  lemma OpenHole(a: Arena, p: nat)
    requires a.Settled() && p in a.starts && p !in a.free
    ensures a.(hole := p).Valid()
  {
    var b := a.(hole := p);
    Known(a, p);
    forall x | x in a.starts ensures UnaryOk(b, x) && b.Aligned(x) {
      Known(a, x);
      assert a.Aligned(x);
    }
    forall x, y | x in a.starts && y in a.starts ensures b.Apart(x, y) { assert a.Apart(x, y); }
  }

  lemma SmallMap(bins: seq<seq<nat>>, binmap: seq<nat>, i: nat, list: seq<nat>)
    requires MapOk(bins, binmap) && i < 2
    ensures MapOk(bins[i := list], binmap)
  {
    var b := bins[i := list];
    forall j | 2 <= j < NBINS ensures BitSet(b, binmap, j) {
      assert BitSet(bins, binmap, j);
    }
  }

  lemma RemoveMap(bins: seq<seq<nat>>, binmap: seq<nat>, i: nat, k: nat)
    requires MapOk(bins, binmap) && i < NBINS && k < |bins[i]|
    ensures MapOk(bins[i := RemoveAt(bins[i], k)], binmap)
  {
    var b := bins[i := RemoveAt(bins[i], k)];
    forall j | 2 <= j < NBINS ensures BitSet(b, binmap, j) {
      assert BitSet(bins, binmap, j);
    }
  }

  /** Taking a chunk off its list and making the remainder the whole unsorted list. */
  lemma SplitLists(bins: seq<seq<nat>>, place: map<nat, nat>, binmap: seq<nat>, head: Heads, head': Heads,
                   i: nat, k: nat, remainder: nat)
    requires BinsOk(bins, place, head) && MapOk(bins, binmap) && i < NBINS && k < |bins[i]|
    requires if i == UNSORTED then |bins[i]| == 1 else bins[UNSORTED] == []
    requires remainder !in place && remainder in head'
    requires SameSizes(head, head', place.Keys - {bins[i][k]})
    ensures var b := bins[i := RemoveAt(bins[i], k)][UNSORTED := [remainder]];
            BinsOk(b, (place - {bins[i][k]})[remainder := UNSORTED], head') && MapOk(b, binmap)
  {
    RemoveKeeps(bins, place, head, i, k);
    RemoveMap(bins, binmap, i, k);
    var b, pl := bins[i := RemoveAt(bins[i], k)], place - {bins[i][k]};
    HeadKeeps(b, pl, head, head');
    InsertKeeps(b, pl, head', UNSORTED, 0, remainder);
    assert InsertAt(b[UNSORTED], 0, remainder) == [remainder];
    SmallMap(b, binmap, UNSORTED, [remainder]);
  }

  lemma SplitState(a: Arena, bins: seq<seq<nat>>, place: map<nat, nat>, binmap: seq<nat>,
                   fastbins: seq<seq<nat>>, fplace: map<nat, nat>, flag: bool, i: nat, k: nat, nb: nat,
                   c: Arena, bins': seq<seq<nat>>, place': map<nat, nat>)
    requires a.Settled() && BinsOk(bins, place, a.head) && MapOk(bins, binmap) && a.free == place.Keys
    requires FastOk(fastbins, fplace, a.head, flag) && fplace.Keys <= a.starts && fplace.Keys !! place.Keys
    requires a.top !in fplace && a.hole !in fplace
    requires i < NBINS && k < |bins[i]| && bins[i][k] in a.head
    requires nb % 8 == 0 && MINSIZE <= nb && nb + MINSIZE <= a.head[bins[i][k]].size
    requires if i == UNSORTED then |bins[i]| == 1 else bins[UNSORTED] == []
    requires c == SplitOff(a, bins[i][k], nb)
    requires bins' == bins[i := RemoveAt(bins[i], k)][UNSORTED := [bins[i][k] + nb]]
    requires place' == (place - {bins[i][k]})[bins[i][k] + nb := UNSORTED]
    ensures c.Settled() && BinsOk(bins', place', c.head) && MapOk(bins', binmap)
    ensures FastOk(fastbins, fplace, c.head, flag)
    ensures place'.Keys == c.free && fplace.Keys <= c.starts && fplace.Keys !! place'.Keys
    ensures c.top !in fplace && c.hole !in fplace
    ensures var used := a.starts - {a.top, a.hole} - place.Keys - fplace.Keys;
            && bins[i][k] !in used && SameSizes(a.head, c.head, used)
            && c.starts - {c.top, c.hole} - place'.Keys - fplace.Keys == used + {bins[i][k]}
  {
    var p := bins[i][k];
    RemoveKeeps(bins, place, a.head, i, k);
    SplitFree(a, p, nb);
    SplitIsNew(a, p, nb);
    SplitLists(bins, place, binmap, a.head, c.head, i, k, p + nb);
    FastHeadKeeps(fastbins, fplace, a.head, c.head, flag);
  }

  // ----- best fit -----

  /** Where malloc found the chunk it returned. */
  datatype Route = FastHit | Remainder | BestFit | FromTop | Extended | NoMemory

  /** `p` is a smallest free chunk among those that are large enough. */
  ghost predicate BestFits(head: Heads, free: set<nat>, nb: nat, p: nat)
  {
    && p in free && p in head && head[p].size >= nb
    && (forall q | q in free && q in head && head[q].size >= nb :: head[p].size <= head[q].size)
  }

  ghost predicate NoneFits(head: Heads, free: set<nat>, nb: nat)
  {
    forall q | q in free && q in head :: head[q].size < nb
  }

  /** What the route says about the chunk returned: the free chunks are searched for a best fit, with
      the remainder of the last split as the one exception, and memory beyond them is touched only when
      none of them is large enough. */
  ghost predicate Fitting(head: Heads, free: set<nat>, lastRemainder: nat, nb: nat, p: nat, route: Route)
  {
    match route
    case BestFit => BestFits(head, free, nb, p)
    case Remainder => p in free && p == lastRemainder && nb < MIN_LARGE_SIZE && p in head && head[p].size > nb + MINSIZE
    case FromTop => NoneFits(head, free, nb)
    case Extended => NoneFits(head, free, nb)
    case _ => false
  }

  /** The top chunk is too small as well. */
  ghost predicate Exhausted(a: Arena, nb: nat)
  {
    a.top in a.head && a.head[a.top].size < nb + MINSIZE
  }

  /** No chunk of the bin is large enough. */
  ghost predicate Misses(bins: seq<seq<nat>>, head: Heads, nb: nat, i: nat)
  {
    i < |bins| && forall k | 0 <= k < |bins[i]| :: bins[i][k] in head && head[bins[i][k]].size < nb
  }

  lemma BinnedSizes(a: Arena)
    requires a.Settled()
    ensures forall q | q in a.free :: q in a.head && a.head[q].prevInuse
    ensures forall q | q in a.free :: a.head[q].size >= MINSIZE && a.head[q].size % 8 == 0
  {
    forall q | q in a.free
      ensures q in a.head && a.head[q].prevInuse && a.head[q].size >= MINSIZE && a.head[q].size % 8 == 0
    {
      assert a.FreeOk(q) && a.TileOk(q) && a.Aligned(q);
    }
  }

  lemma SmallBinUnique(x: nat, y: nat)
    requires x % 8 == 0 && y % 8 == 0 && x != y && MINSIZE <= x
    ensures y < MIN_LARGE_SIZE ==> BinIndex(x) != BinIndex(y)
  {
    if y < MIN_LARGE_SIZE && BinIndex(x) == BinIndex(y) { SmallBinExact(y, x); }
  }

  /** A chunk that fits, at the place where the search finds it, is a best fit: bins below hold only
      smaller chunks, bins above only larger ones, and its own bin is sorted or uniform. */
  lemma BestInBin(bins: seq<seq<nat>>, place: map<nat, nat>, head: Heads, nb: nat, i: nat, k: nat)
    requires BinsOk(bins, place, head) && 2 <= i < NBINS && k < |bins[i]| && bins[UNSORTED] == []
    requires forall q | q in place && q in head :: head[q].size % 8 == 0
    requires bins[i][k] in head && head[bins[i][k]].size >= nb
    requires forall m | k < m < |bins[i]| :: bins[i][m] in head && head[bins[i][m]].size < nb
    requires forall j | BinIndex(nb) <= j < i :: Misses(bins, head, nb, j)
    ensures BestFits(head, place.Keys, nb, bins[i][k])
  {
    var p := bins[i][k];
    BinHas(bins, place, head, i, k);
    assert BinOk(bins, place, head, i);
    forall q | q in place && q in head && head[q].size >= nb ensures head[p].size <= head[q].size {
      assert PlaceOk(bins, place, q);
      var j := place[q];
      var m :| 0 <= m < |bins[j]| && bins[j][m] == q;
      BinHas(bins, place, head, j, m);
      BinIndexMonotone(nb, head[q].size);
      assert j < i ==> Misses(bins, head, nb, j);
      if i < j && head[q].size < head[p].size { BinIndexMonotone(head[q].size, head[p].size); }
      if i == j && i < NSMALLBINS {
        LargeBounds(head[p].size);
        SmallBinExact(head[p].size, head[q].size);
      }
    }
  }

  lemma HigherIsLarger(bins: seq<seq<nat>>, place: map<nat, nat>, head: Heads, nb: nat, i: nat, k: nat)
    requires BinsOk(bins, place, head) && BinIndex(nb) < i < NBINS && k < |bins[i]| && i != UNSORTED
    ensures bins[i][k] in head && head[bins[i][k]].size > nb
  {
    BinHas(bins, place, head, i, k);
    if head[bins[i][k]].size <= nb { BinIndexMonotone(head[bins[i][k]].size, nb); }
  }

  lemma NoneInBins(bins: seq<seq<nat>>, place: map<nat, nat>, head: Heads, nb: nat)
    requires BinsOk(bins, place, head) && bins[UNSORTED] == []
    requires Misses(bins, head, nb, BinIndex(nb)) && forall j | BinIndex(nb) < j < NBINS :: bins[j] == []
    ensures NoneFits(head, place.Keys, nb)
  {
    forall q | q in place.Keys && q in head ensures head[q].size < nb {
      assert PlaceOk(bins, place, q);
      var j := place[q];
      var m :| 0 <= m < |bins[j]| && bins[j][m] == q;
      BinHas(bins, place, head, j, m);
      if head[q].size >= nb { BinIndexMonotone(nb, head[q].size); }
    }
  }

  /** A `size` field as memory holds it. */
  function SizeField(h: Head): nat
  {
    h.size + if h.prevInuse then 1 else 0
  }

  /** When the rest of a map word is below the bit of bin `b`, the bins from `b` to the end of that
      word's range are empty. */
  lemma NoMoreBits(bins: seq<seq<nat>>, binmap: seq<nat>, b: nat)
    requires MapOk(bins, binmap) && 2 <= b < NBINS && Pow2(b % 32) > binmap[b / 32]
    ensures forall j | b <= j < NBINS && j / 32 == b / 32 :: bins[j] == []
  {
    forall j | b <= j < NBINS && j / 32 == b / 32 ensures bins[j] == [] {
      assert BitSet(bins, binmap, j);
      if Bit(binmap[j / 32], j % 32) {
        BitIsLarge(binmap[j / 32], j % 32);
        Pow2Grows(b % 32, j % 32);
      }
    }
  }

  /** Shifting the probe bit past a clear bit of a word that has a higher one keeps it in the word. */
  lemma ShiftStays(w: nat, k: nat)
    requires w < WORD_LIMIT && k < 32 && Pow2(k) <= w && And(w, Pow2(k)) == 0
    ensures k + 1 < 32 && Pow2(k + 1) <= w && Pow2(k) * 2 % WORD_LIMIT == Pow2(k + 1)
  {
    AndPow2(w, k);
    var j := LargeHasBit(w, k);
    BitIsLarge(w, j);
    Pow2Grows(k + 1, j);
    WordIsPow2();
    if k + 1 >= 32 { Pow2Grows(32, k + 1); }
    assert Pow2(k + 1) == 2 * Pow2(k);
  }

  lemma ShiftWraps(i: nat)
    ensures Pow2(i % 32) * 2 % WORD_LIMIT == if (i + 1) % 32 == 0 then 0 else Pow2((i + 1) % 32)
  {
    WordIsPow2();
    var k := i % 32;
    assert Pow2(k + 1) == 2 * Pow2(k);
    if k < 31 {
      Pow2Grows(k + 1, 32);
    }
  }

  lemma ClearMap(bins: seq<seq<nat>>, binmap: seq<nat>, i: nat)
    requires MapOk(bins, binmap) && 2 <= i < NBINS && bins[i] == []
    ensures MapOk(bins, binmap[i / 32 := Clear(binmap[i / 32], i % 32)])
  {
    var m := binmap[i / 32 := Clear(binmap[i / 32], i % 32)];
    ClearBelow(binmap[i / 32], i % 32);
    forall j | 2 <= j < NBINS ensures BitSet(bins, m, j) {
      assert BitSet(bins, binmap, j);
      BitClear(binmap[i / 32], i % 32, j % 32);
    }
  }

  lemma MarkMap(bins: seq<seq<nat>>, binmap: seq<nat>, i: nat, list: seq<nat>)
    requires MapOk(bins, binmap) && 2 <= i < NBINS
    ensures MapOk(bins[i := list], binmap[i / 32 := Or(binmap[i / 32], Pow2(i % 32))])
  {
    var b, m := bins[i := list], binmap[i / 32 := Or(binmap[i / 32], Pow2(i % 32))];
    WordIsPow2();
    Pow2Grows(i % 32, 32);
    OrBelow(binmap[i / 32], Pow2(i % 32), 32);
    forall j | 2 <= j < NBINS ensures BitSet(b, m, j) {
      assert BitSet(bins, binmap, j);
      BitOr(binmap[i / 32], Pow2(i % 32), j % 32);
      BitPow2(i % 32, j % 32);
    }
  }

  class MallocState {
    var head: Heads
    var foot: map<nat, nat>
    var top: nat
    var bins: seq<seq<nat>>
    var binmap: seq<nat>
    var fastbins: seq<seq<nat>>
    var fastchunks: bool
    var lastRemainder: nat
    ghost var starts: set<nat>
    ghost var place: map<nat, nat>
    ghost var fplace: map<nat, nat>

    /** The arena while `hole` is being freed. */
    ghost function ArenaWith(hole: nat): Arena
      reads this
    {
      Arena(starts, head, foot, top, place.Keys, hole)
    }

    ghost function ArenaNow(): Arena
      reads this
    {
      ArenaWith(top)
    }

    /** The chunks handed out: those that are neither top, nor binned, nor fast, nor being freed. */
    ghost function UsedWith(hole: nat): set<nat>
      reads this
    {
      starts - {top, hole} - place.Keys - fplace.Keys
    }

    ghost function Used(): set<nat>
      reads this
    {
      UsedWith(top)
    }

    ghost predicate ValidWith(hole: nat)
      reads this
    {
      && ArenaWith(hole).Valid()
      && BinsOk(bins, place, head)
      && MapOk(bins, binmap)
      && FastOk(fastbins, fplace, head, fastchunks)
      && fplace.Keys <= starts && top !in fplace && hole !in fplace && fplace.Keys !! place.Keys
    }

    ghost predicate Valid()
      reads this
    {
      ValidWith(top)
    }

    /** A fresh arena holding nothing but the top chunk. */
    constructor (size: nat)
      requires size % 8 == 0 && size >= MINSIZE
      ensures Valid() && Used() == {} && place == map[] && fplace == map[]
    {
      head := map[0 := Head(size, true)];
      foot := map[];
      top := 0;
      bins := seq(NBINS, _ => []);
      binmap := [0, 0, 0, 0];
      fastbins := seq(NFASTBINS, _ => []);
      fastchunks := false;
      lastRemainder := 0;
      starts := {0};
      place := map[];
      fplace := map[];
      new;
      forall i | 0 <= i < NBINS ensures BinOk(bins, place, head, i) { assert bins[i] == []; }
      forall i | 2 <= i < NBINS ensures BitSet(bins, binmap, i) { assert bins[i] == []; }
      forall i | 0 <= i < NFASTBINS ensures FastBinOk(fastbins, fplace, head, i) { assert fastbins[i] == []; }
      var a := ArenaNow();
      assert a.TileOk(0) && a.Aligned(0) && a.Apart(0, 0) && a.BitOk(0) && a.FootOk(0);
    }

    // ----- taking chunks out of bins -----

    /** Position of a binned chunk: what the links of a doubly linked list give `unlink` for free. */
    method Locate(p: nat) returns (i: nat, k: nat)
      requires BinsOk(bins, place, head) && p in place
      ensures i < NBINS && k < |bins[i]| && bins[i][k] == p
    {
      assert PlaceOk(bins, place, p);
      i := 0;
      while p !in bins[i]
        invariant i <= place[p]
        decreases place[p] - i
      {
        i := i + 1;
      }
      k := 0;
      while bins[i][k] != p
        invariant k < |bins[i]| && p !in bins[i][..k]
        decreases |bins[i]| - k
      {
        assert bins[i][..k + 1] == bins[i][..k] + [bins[i][k]];
        k := k + 1;
      }
    }

    /** `unlink` */
    method Unlink(p: nat)
      requires BinsOk(bins, place, head) && MapOk(bins, binmap) && p in place
      modifies `bins, `place
      ensures BinsOk(bins, place, head) && MapOk(bins, binmap)
      ensures place == old(place) - {p}
    {
      var i, k := Locate(p);
      RemoveKeeps(bins, place, head, i, k);
      RemoveMap(bins, binmap, i, k);
      bins := bins[i := RemoveAt(bins[i], k)];
      place := place - {p};
    }

    /** Put a chunk at the front of the unsorted list. */
    method AddUnsorted(p: nat)
      requires BinsOk(bins, place, head) && MapOk(bins, binmap) && p !in place && p in head
      modifies `bins, `place
      ensures BinsOk(bins, place, head) && MapOk(bins, binmap)
      ensures place == old(place)[p := UNSORTED] && bins[UNSORTED] == [p] + old(bins[UNSORTED])
    {
      InsertKeeps(bins, place, head, UNSORTED, 0, p);
      var list := [p] + bins[UNSORTED];
      assert list == InsertAt(bins[UNSORTED], 0, p);
      SmallMap(bins, binmap, UNSORTED, list);
      bins := bins[UNSORTED := list];
      place := place[p := UNSORTED];
    }

    // ----- freeing -----

    /** Consolidate backward: when the chunk before the one being freed is free, take it off its list
        and merge.  The result is the address at which the chunk being freed now begins. */
    method ConsolidateBackward(p: nat) returns (q: nat)
      requires ValidWith(p) && p != top
      modifies `head, `bins, `place, `starts
      ensures ValidWith(q) && q != top && q in head && head[q].prevInuse
      ensures UsedWith(q) == old(UsedWith(p)) && SameSizes(old(head), head, UsedWith(q))
      ensures place.Keys <= old(place.Keys) && (forall x | x in place :: place[x] == old(place[x]))
    {
      ghost var a := ArenaWith(p);
      Known(a, p);
      if head[p].prevInuse {
        return p;
      }
      MergeBack(a, p);
      var prevsize := foot[p];
      q := p - prevsize;
      Known(a, q);
      Unlink(q);
      ghost var h := head;
      head := head[q := Head(prevsize + head[p].size, head[q].prevInuse)];
      starts := starts - {p};
      assert ArenaWith(q) == MergedBack(a, p);
      ListsKeep(bins, place, fastbins, fplace, fastchunks, h, head);
    }

    /** Consolidate forward: absorb the chunk behind when its in-use bit, kept one chunk further on, is
        clear. */
    method ConsolidateForward(p: nat)
      requires ValidWith(p) && p != top && p in head && head[p].prevInuse && Next(head, p) != top
      modifies `head, `bins, `place, `starts
      ensures ValidWith(p) && p != top && p in head && head[p].prevInuse
      ensures Next(head, p) != top && Next(head, p) !in place
      ensures UsedWith(p) == old(UsedWith(p)) && SameSizes(old(head), head, UsedWith(p))
      ensures place.Keys <= old(place.Keys) && (forall x | x in place :: place[x] == old(place[x]))
    {
      ghost var a := ArenaWith(p);
      Known(a, p);
      var next := Next(head, p);
      Known(a, next);
      Known(a, Next(head, next));
      var nextinuse := head[Next(head, next)].prevInuse;
      if !nextinuse {
        MergeForward(a, p);
        Unlink(next);
        ghost var h := head;
        head := head[p := Head(head[p].size + head[next].size, head[p].prevInuse)];
        starts := starts - {next};
        assert ArenaWith(p) == MergedForward(a, p);
        ListsKeep(bins, place, fastbins, fplace, fastchunks, h, head);
      }
    }

    /** Put the chunk being freed, merged with its neighbours, into the unsorted list. */
    method PlaceUnsorted(p: nat)
      requires ValidWith(p) && p != top && p in head && head[p].prevInuse
      requires Next(head, p) != top && Next(head, p) !in place
      modifies `head, `foot, `bins, `place
      ensures Valid() && Used() == old(UsedWith(p)) && SameSizes(old(head), head, Used())
      ensures place == old(place)[p := UNSORTED]
    {
      ghost var a := ArenaWith(p);
      Known(a, p);
      CloseFree(a, p);
      AddUnsorted(p);
      var next, size := Next(head, p), head[p].size;
      ghost var h := head;
      head := head[next := Head(head[next].size, false)];
      foot := foot[next := size];
      assert ArenaNow() == ClosedFree(a, p);
      ListsKeep(bins, place, fastbins, fplace, fastchunks, h, head);
    }

    /** Merge the chunk being freed into the top chunk behind it. */
    method MergeTop(p: nat)
      requires ValidWith(p) && p != top && p in head && head[p].prevInuse && Next(head, p) == top
      modifies `head, `top, `starts
      ensures Valid() && Used() == old(UsedWith(p)) && SameSizes(old(head), head, Used())
    {
      ghost var a := ArenaWith(p);
      CloseTop(a, p);
      ghost var h := head;
      head := head[p := Head(head[p].size + head[top].size, true)];
      starts := starts - {top};
      top := p;
      assert ArenaNow() == ClosedTop(a, p);
      ListsKeep(bins, place, fastbins, fplace, fastchunks, h, head);
    }

    /** The common part of `free` and of `malloc_consolidate`: merge a chunk with its free neighbours
        and put it into the unsorted list, or merge it into top.  Returns the merged size. */
    method Coalesce(p0: nat) returns (size: nat)
      requires ValidWith(p0) && p0 != top
      modifies `head, `foot, `top, `bins, `place, `starts
      ensures Valid() && Used() == old(UsedWith(p0)) && SameSizes(old(head), head, Used())
      ensures NewUnsorted(old(place), place)
    {
      var p := ConsolidateBackward(p0);
      Known(ArenaWith(p), p);
      if Next(head, p) != top {
        ConsolidateForward(p);
        size := head[p].size;
        PlaceUnsorted(p);
      } else {
        Known(ArenaWith(p), top);
        size := head[p].size + head[top].size;
        MergeTop(p);
      }
    }

    /** Free every chunk of one fast bin. */
    method ConsolidateBin(i: nat)
      requires Valid() && i < NFASTBINS
      modifies `head, `foot, `top, `bins, `place, `starts, `fastbins, `fplace
      ensures Valid() && Used() == old(Used()) && SameSizes(old(head), head, Used())
      ensures fastbins == old(fastbins)[i := []] && NewUnsorted(old(place), place)
    {
      hide Arena.Valid, BinsOk, MapOk;
      while fastbins[i] != []
        invariant Valid() && Used() == old(Used()) && SameSizes(old(head), head, Used())
        invariant fastbins == old(fastbins)[i := fastbins[i]] && NewUnsorted(old(place), place)
        decreases |fastbins[i]|
      {
        FastPop(fastbins, fplace, head, fastchunks, i);
        var p := fastbins[i][0];
        OpenHole(ArenaNow(), p);
        fastbins := fastbins[i := fastbins[i][1..]];
        fplace := fplace - {p};
        assert ValidWith(p) && UsedWith(p) == old(Used());
        var size := Coalesce(p);
      }
    }

    /** `malloc_consolidate`: tear down every fast bin. */
    method Consolidate()
      requires Valid()
      modifies `head, `foot, `top, `bins, `place, `starts, `fastbins, `fplace, `fastchunks
      ensures Valid() && Used() == old(Used()) && SameSizes(old(head), head, Used())
      ensures !fastchunks && fplace == map[] && NewUnsorted(old(place), place)
    {
      for i := 0 to FastIndex(MAX_FAST) + 1
        invariant Valid() && Used() == old(Used()) && SameSizes(old(head), head, Used())
        invariant forall j | 0 <= j < i :: fastbins[j] == []
        invariant NewUnsorted(old(place), place)
      {
        ConsolidateBin(i);
      }
      FastPlaces(fastbins, fplace, head, fastchunks);
      assert fplace.Keys == {};
      fastchunks := false;
    }

    // ----- allocation -----

    /** Hand out a whole binned chunk. */
    method TakeFrom(i: nat, k: nat) returns (p: nat)
      requires Valid() && i < NBINS && k < |bins[i]|
      modifies `head, `bins, `place
      ensures Valid() && p == old(bins[i][k]) && p !in old(Used()) && Used() == old(Used()) + {p}
      ensures SameSizes(old(head), head, Used()) && p in old(head)
    {
      RemoveKeeps(bins, place, head, i, k);
      RemoveMap(bins, binmap, i, k);
      p := bins[i][k];
      ghost var a := ArenaNow();
      TakeWhole(a, p);
      var next := Next(head, p);
      bins := bins[i := RemoveAt(bins[i], k)];
      place := place - {p};
      ghost var h := head;
      head := head[next := Head(head[next].size, true)];
      assert ArenaNow() == Taken(a, p);
      ListsKeep(bins, place, fastbins, fplace, fastchunks, h, head);
    }

    /** Hand out the low `nb` bytes of a binned chunk.  The remainder becomes the whole unsorted list,
        so that list must hold nothing but, at most, the chunk being split. */
    method SplitFrom(i: nat, k: nat, nb: nat) returns (p: nat, remainder: nat)
      requires Valid() && i < NBINS && k < |bins[i]| && bins[i][k] in head
      requires nb % 8 == 0 && MINSIZE <= nb && nb + MINSIZE <= head[bins[i][k]].size
      requires if i == UNSORTED then |bins[i]| == 1 else bins[UNSORTED] == []
      modifies `head, `foot, `bins, `place, `starts
      ensures Valid() && p == old(bins[i][k]) && p !in old(Used()) && Used() == old(Used()) + {p}
      ensures SameSizes(old(head), head, old(Used())) && p in head && head[p].size == nb
      ensures remainder == p + nb
    {
      p := bins[i][k];
      ghost var a, b, l := ArenaNow(), bins, place;
      var next, rest := Next(head, p), head[p].size - nb;
      remainder := p + nb;
      head := head[p := Head(nb, true)][remainder := Head(rest, true)];
      foot := foot[next := rest];
      bins := bins[i := RemoveAt(bins[i], k)][UNSORTED := [remainder]];
      place := (place - {p})[remainder := UNSORTED];
      starts := starts + {remainder};
      assert place.Keys == l.Keys - {p} + {remainder};
      SplitState(a, b, l, binmap, fastbins, fplace, fastchunks, i, k, nb, ArenaNow(), bins, place);
    }

    /** Hand out the low `nb` bytes of the top chunk. */
    method TakeTop(nb: nat) returns (p: nat)
      requires Valid() && top in head && nb % 8 == 0 && MINSIZE <= nb && nb + MINSIZE <= head[top].size
      modifies `head, `top, `starts
      ensures Valid() && p !in old(Used()) && Used() == old(Used()) + {p}
      ensures SameSizes(old(head), head, old(Used())) && p in head && head[p].size == nb
      ensures p == old(top) && top == p + nb && top in head && head[top].size == old(head[top].size) - nb
    {
      ghost var a := ArenaNow();
      SplitTop(a, nb);
      p := top;
      var remainder, rest := top + nb, head[top].size - nb;
      ghost var h := head;
      head := head[p := Head(nb, true)][remainder := Head(rest, true)];
      starts := starts + {remainder};
      top := remainder;
      assert ArenaNow() == SplitOffTop(a, nb);
      ListsKeep(bins, place, fastbins, fplace, fastchunks, h, head);
    }

    /** Grow the top chunk by what the system grants, contiguously. */
    method GrowTop(size: nat)
      requires Valid() && top in head && size % 8 == 0
      modifies `head
      ensures Valid() && SameSizes(old(head), head, Used())
      ensures top in head && head[top].size == old(head[top].size) + size
    {
      ghost var a := ArenaNow();
      assert a.Aligned(top) && a.TileOk(top);
      ResizeTop(a, head[top].size + size);
      ghost var h := head;
      head := head[top := Head(head[top].size + size, true)];
      assert ArenaNow() == Resized(a, h[top].size + size);
      ListsKeep(bins, place, fastbins, fplace, fastchunks, h, head);
    }

    // ----- searching the bins -----

    /** Skip map words without set bits, starting behind word `block`. */
    method NextBlock(block: nat) returns (b: nat)
      requires MapOk(bins, binmap) && block < BINMAPSIZE
      ensures block < b <= BINMAPSIZE
      ensures forall j | 32 * (block + 1) <= j < 32 * b :: bins[j] == []
      ensures b < BINMAPSIZE ==> binmap[b] != 0
    {
      b := block + 1;
      while b < BINMAPSIZE && binmap[b] == 0
        invariant block < b <= BINMAPSIZE
        invariant forall j | 32 * (block + 1) <= j < 32 * b :: bins[j] == []
      {
        NoMoreBits(bins, binmap, 32 * b);
        b := b + 1;
      }
    }

    /** The next bit that is set in the map word of bin `start`; one is set behind `probe`, the bit of that
        bin. */
    method NextBit(start: nat, probe: nat) returns (i: nat, bit: nat)
      requires MapOk(bins, binmap) && 2 <= start < NBINS && probe == Pow2(start % 32) && probe <= binmap[start / 32]
      ensures start <= i < NBINS && i / 32 == start / 32 && bit == Pow2(i % 32)
      ensures forall j | start <= j < i :: bins[j] == []
    {
      i, bit := start, probe;
      while And(binmap[start / 32], bit) == 0
        invariant start <= i < NBINS && i / 32 == start / 32 && bit == Pow2(i % 32) && bit <= binmap[start / 32]
        invariant forall j | start <= j < i :: bins[j] == []
        decreases NBINS - i
      {
        ShiftStays(binmap[start / 32], i % 32);
        AndPow2(binmap[start / 32], i % 32);
        assert BitSet(bins, binmap, i);
        i := i + 1;
        bit := bit * 2 % WORD_LIMIT;
      }
    }

    /** The first bin from `idx` on that is not empty, or NBINS.  The bin map leads the search; bits of
        bins that turn out empty are cleared on the way. */
    method FindBin(idx: nat) returns (i: nat)
      requires MapOk(bins, binmap) && 2 <= idx < NBINS
      modifies `binmap
      ensures MapOk(bins, binmap) && idx <= i <= NBINS
      ensures forall j | idx <= j < i :: bins[j] == []
      ensures i < NBINS ==> bins[i] != []
    {
      assert |bins| == NBINS && |binmap| == BINMAPSIZE;
      hide MapOk;
      i := idx;
      var block := i / 32;
      var bit := Pow2(i % 32);
      while true
        invariant MapOk(bins, binmap) && idx <= i <= NBINS && block < BINMAPSIZE
        invariant if bit == 0 then i == 32 * (block + 1) else i / 32 == block && bit == Pow2(i % 32)
        invariant forall j | idx <= j < i :: bins[j] == []
        decreases NBINS - i
      {
        if bit > binmap[block] || bit == 0 {
          if bit != 0 { NoMoreBits(bins, binmap, i); }
          block := NextBlock(block);
          i := 32 * block;
          bit := 1;
          if block >= BINMAPSIZE {
            return NBINS;
          }
        }
        i, bit := NextBit(i, bit);
        if bins[i] != [] {
          return i;
        }
        ClearMap(bins, binmap, i);
        binmap := binmap[block := Clear(binmap[block], i % 32)];
        ShiftWraps(i);
        i := i + 1;
        bit := bit * 2 % WORD_LIMIT;
      }
    }

    /** Where a chunk of a given size belongs in a large bin.  The code compares whole `size` fields,
        with the in-use bit; it is set in all of them. */
    method SortedPosition(i: nat, size: nat) returns (k: nat)
      requires BinsOk(bins, place, head) && NSMALLBINS <= i < NBINS
      requires forall q | q in place && q in head :: head[q].prevInuse
      ensures k <= |bins[i]|
      ensures forall m | 0 <= m < |bins[i]| :: bins[i][m] in head &&
                if m < k then head[bins[i][m]].size >= size else head[bins[i][m]].size <= size
    {
      assert BinOk(bins, place, head, i);
      forall m | 0 <= m < |bins[i]| ensures bins[i][m] in place && bins[i][m] in head {
        assert MemberOk(bins, place, head, i, m);
      }
      var n := |bins[i]|;
      if n == 0 {
        return 0;
      }
      if size + 1 <= SizeField(head[bins[i][n - 1]]) {
        return n;
      }
      k := 0;
      while size + 1 < SizeField(head[bins[i][k]])
        invariant k < n
        invariant forall m | 0 <= m < k :: head[bins[i][m]].size >= size
        decreases n - k
      {
        k := k + 1;
      }
    }

    /** Move the last unsorted chunk into the bin for its size and mark that bin. */
    method BinLast()
      requires BinsOk(bins, place, head) && MapOk(bins, binmap) && bins[UNSORTED] != []
      requires forall q | q in place && q in head :: head[q].prevInuse && head[q].size >= MINSIZE
      modifies `bins, `binmap, `place
      ensures BinsOk(bins, place, head) && MapOk(bins, binmap) && place.Keys == old(place.Keys)
      ensures bins[UNSORTED] == old(bins[UNSORTED][..|bins[UNSORTED]| - 1])
      ensures var p := old(bins[UNSORTED][|bins[UNSORTED]| - 1]);
              && p in head && 2 <= BinIndex(head[p].size) <= 126
              && (forall i | 2 <= i < NBINS && i != BinIndex(head[p].size) :: bins[i] == old(bins[i]))
    {
      var last := |bins[UNSORTED]| - 1;
      var p := bins[UNSORTED][last];
      RemoveKeeps(bins, place, head, UNSORTED, last);
      RemoveMap(bins, binmap, UNSORTED, last);
      BinHas(bins, place, head, UNSORTED, last);
      ghost var oldplace := place;
      bins := bins[UNSORTED := RemoveAt(bins[UNSORTED], last)];
      place := place - {p};
      assert bins[UNSORTED] == old(bins[UNSORTED][..last]);
      var size := head[p].size;
      var i := BinIndex(size);
      LargeBounds(size);
      var k := 0;
      if size >= MIN_LARGE_SIZE {
        k := SortedPosition(i, size);
      }
      InsertKeeps(bins, place, head, i, k, p);
      MarkMap(bins, binmap, i, InsertAt(bins[i], k, p));
      bins := bins[i := InsertAt(bins[i], k, p)];
      binmap := binmap[i / 32 := Or(binmap[i / 32], Pow2(i % 32))];
      place := place[p := i];
      assert place.Keys == oldplace.Keys;
    }

    // ----- malloc -----

    /** What a granted request of `nb` bytes does: it hands out one chunk that was not in use, of at
        least that size and less than MINSIZE more, and changes no other chunk in use. */
    twostate predicate Granted(p: nat, nb: nat)
      reads this
    {
      && Valid() && p !in old(Used()) && Used() == old(Used()) + {p}
      && SameSizes(old(head), head, old(Used()))
      && p in head && nb <= head[p].size < nb + MINSIZE
    }

    /** Hand out the chunk at position `k` of bin `i`, splitting it if the rest makes a chunk. */
    method Carve(i: nat, k: nat, nb: nat) returns (p: nat, split: bool)
      requires Valid() && 2 <= i < NBINS && k < |bins[i]| && bins[UNSORTED] == []
      requires nb % 8 == 0 && MINSIZE <= nb && bins[i][k] in head && nb <= head[bins[i][k]].size
      modifies `head, `foot, `bins, `place, `starts
      ensures Granted(p, nb) && p == old(bins[i][k])
      ensures split <==> old(head[bins[i][k]].size) - nb >= MINSIZE
    {
      split := head[bins[i][k]].size - nb >= MINSIZE;
      if split {
        var remainder;
        p, remainder := SplitFrom(i, k, nb);
      } else {
        p := TakeFrom(i, k);
      }
    }

    ghost predicate ExactBinEmpty(nb: nat)
      reads this
    {
      nb < MIN_LARGE_SIZE ==> |bins| == NBINS && bins[BinIndex(nb)] == []
    }

    lemma UnsortedKnown(k: nat)
      requires Valid() && k < |bins[UNSORTED]|
      ensures var p := bins[UNSORTED][k];
              p in place && p in head && head[p].size >= MINSIZE && head[p].size % 8 == 0
    {
      BinHas(bins, place, head, UNSORTED, k);
      BinnedSizes(ArenaNow());
    }

    /** Bin the last unsorted chunk, which does not have the requested size. */
    method BinOther(nb: nat)
      requires Valid() && nb % 8 == 0 && MINSIZE <= nb && ExactBinEmpty(nb) && bins[UNSORTED] != []
      requires var p := bins[UNSORTED][|bins[UNSORTED]| - 1]; p in head && head[p].size != nb
      modifies `bins, `binmap, `place
      ensures Valid() && place.Keys == old(place.Keys) && ExactBinEmpty(nb)
      ensures |bins[UNSORTED]| == old(|bins[UNSORTED]|) - 1
    {
      BinnedSizes(ArenaNow());
      ghost var size := head[bins[UNSORTED][|bins[UNSORTED]| - 1]].size;
      UnsortedKnown(|bins[UNSORTED]| - 1);
      SmallBinUnique(size, nb);
      LargeBounds(nb);
      BinLast();
      assert ArenaNow() == old(ArenaNow());
    }

    /** Go through the unsorted list, binning what is there, unless a chunk fits exactly, or the only
        one left is the remainder of the last split and the request is small. */
    method SortUnsorted(nb: nat) returns (p: Option<nat>, route: Route)
      requires Valid() && nb % 8 == 0 && MINSIZE <= nb && ExactBinEmpty(nb)
      modifies `head, `foot, `bins, `binmap, `place, `starts, `lastRemainder
      ensures p.Some? ==> Granted(p.value, nb)
      ensures p.Some? ==> Fitting(old(head), old(place.Keys), old(lastRemainder), nb, p.value, route)
      ensures p.Some? ==> route == BestFit || route == Remainder
      ensures p.None? ==> Valid() && ArenaNow() == old(ArenaNow()) && bins[UNSORTED] == []
      ensures p.None? ==> ExactBinEmpty(nb) && lastRemainder == old(lastRemainder)
    {
      assert |bins| == NBINS;
      hide Arena.Valid, BinsOk, MapOk, FastOk;
      while bins[UNSORTED] != []
        invariant Valid() && ArenaNow() == old(ArenaNow()) && lastRemainder == old(lastRemainder)
        invariant ExactBinEmpty(nb)
        decreases |bins[UNSORTED]|
      {
        var last := |bins[UNSORTED]| - 1;
        var victim := bins[UNSORTED][last];
        UnsortedKnown(last);
        var size := head[victim].size;
        if nb < MIN_LARGE_SIZE && last == 0 && victim == lastRemainder && size > nb + MINSIZE {
          var chunk, remainder := SplitFrom(UNSORTED, 0, nb);
          lastRemainder := remainder;
          return Some(chunk), Remainder;
        }
        if size == nb {
          var chunk := TakeFrom(UNSORTED, last);
          return Some(chunk), BestFit;
        }
        BinOther(nb);
      }
      return None, NoMemory;
    }

    /** The last chunk of a large bin that fits, if any does: the bin is searched from its small end,
        after a look at its largest chunk. */
    method LastFitting(idx: nat, nb: nat) returns (k: Option<nat>)
      requires BinsOk(bins, place, head) && NSMALLBINS <= idx < NBINS && nb % 8 == 0
      requires forall q | q in place && q in head :: head[q].prevInuse && head[q].size % 8 == 0
      ensures k.Some? ==> k.value < |bins[idx]| && bins[idx][k.value] in head && head[bins[idx][k.value]].size >= nb
      ensures k.Some? ==> forall m | k.value < m < |bins[idx]| ::
                bins[idx][m] in head && head[bins[idx][m]].size < nb
      ensures k.None? ==> Misses(bins, head, nb, idx)
    {
      assert BinOk(bins, place, head, idx);
      var n := |bins[idx]|;
      forall m | 0 <= m < n ensures bins[idx][m] in place && bins[idx][m] in head {
        assert MemberOk(bins, place, head, idx, m);
      }
      if n == 0 || SizeField(head[bins[idx][0]]) < nb {
        return None;
      }
      var j := n - 1;
      while head[bins[idx][j]].size < nb
        invariant 0 <= j < n
        invariant forall m | j < m < n :: head[bins[idx][m]].size < nb
        decreases j
      {
        j := j - 1;
      }
      return Some(j);
    }

    /** The scan of the one large bin whose sizes lie around the request: the smallest that fits. */
    method ScanLarge(nb: nat) returns (p: Option<nat>)
      requires Valid() && nb % 8 == 0 && MIN_LARGE_SIZE <= nb && bins[UNSORTED] == []
      modifies `head, `foot, `bins, `place, `starts
      ensures p.Some? ==> Granted(p.value, nb) && BestFits(old(head), old(place.Keys), nb, p.value)
      ensures p.None? ==> Valid() && head == old(head) && foot == old(foot) && bins == old(bins)
      ensures p.None? ==> place == old(place) && starts == old(starts) && Misses(bins, head, nb, BinIndex(nb))
    {
      LargeBounds(nb);
      BinnedSizes(ArenaNow());
      var idx := BinIndex(nb);
      var k := LastFitting(idx, nb);
      match k
      case None =>
        return None;
      case Some(k) =>
        BestInBin(bins, place, head, nb, idx, k);
        var chunk, split := Carve(idx, k, nb);
        return Some(chunk);
    }

    /** The best-fit search in the bins above the one for the request. */
    method ScanBins(nb: nat) returns (p: Option<nat>)
      requires Valid() && nb % 8 == 0 && MINSIZE <= nb && bins[UNSORTED] == []
      requires Misses(bins, head, nb, BinIndex(nb))
      modifies `head, `foot, `bins, `binmap, `place, `starts, `lastRemainder
      ensures p.Some? ==> Granted(p.value, nb) && BestFits(old(head), old(place.Keys), nb, p.value)
      ensures p.None? ==> Valid() && head == old(head) && foot == old(foot) && bins == old(bins)
      ensures p.None? ==> place == old(place) && starts == old(starts) && NoneFits(head, place.Keys, nb)
      ensures p.None? ==> lastRemainder == old(lastRemainder)
    {
      LargeBounds(nb);
      BinnedSizes(ArenaNow());
      var i := FindBin(BinIndex(nb) + 1);
      if i == NBINS {
        NoneInBins(bins, place, head, nb);
        return None;
      }
      var k := |bins[i]| - 1;
      HigherIsLarger(bins, place, head, nb, i, k);
      BestInBin(bins, place, head, nb, i, k);
      var chunk, split := Carve(i, k, nb);
      if split && nb < MIN_LARGE_SIZE {
        lastRemainder := chunk + nb;
      }
      return Some(chunk);
    }

    /** The arena a search saw: the one at entry, or the one after all fast chunks were consolidated. */
    twostate predicate Seen(seen: Arena)
      reads this
    {
      seen == old(ArenaNow()) ||
      (old(fastchunks) && seen.Settled() && seen.starts - {seen.top} - seen.free == old(Used())
       && SameSizes(old(head), seen.head, old(Used())))
    }

    /** One round of the search: sort the unsorted list, then look for a best fit. */
    method Search(nb: nat) returns (p: Option<nat>, route: Route)
      requires Valid() && nb % 8 == 0 && MINSIZE <= nb && ExactBinEmpty(nb)
      modifies `head, `foot, `bins, `binmap, `place, `starts, `lastRemainder
      ensures p.Some? ==> Granted(p.value, nb)
      ensures p.Some? ==> Fitting(old(head), old(place.Keys), old(lastRemainder), nb, p.value, route)
      ensures p.Some? ==> route == BestFit || route == Remainder
      ensures p.None? ==> Valid() && ArenaNow() == old(ArenaNow()) && ExactBinEmpty(nb)
      ensures p.None? ==> NoneFits(head, place.Keys, nb) && lastRemainder == old(lastRemainder)
    {
      hide Arena.Valid, BinsOk, MapOk, FastOk;
      p, route := SortUnsorted(nb);
      if p.Some? {
        return;
      }
      LargeBounds(nb);
      if nb >= MIN_LARGE_SIZE {
        p := ScanLarge(nb);
        if p.Some? {
          return p, BestFit;
        }
      }
      p := ScanBins(nb);
      route := BestFit;
    }

    /** A chunk from the fast bin of exactly the requested size, if it has one. */
    method PopFast(nb: nat) returns (p: Option<nat>)
      requires Valid() && nb % 8 == 0 && MINSIZE <= nb <= MAX_FAST
      modifies `fastbins, `fplace
      ensures p.Some? ==> Granted(p.value, nb) && head[p.value].size == nb && p.value in old(fplace)
      ensures p.None? ==> Valid() && fastbins == old(fastbins) && fplace == old(fplace)
    {
      var i := FastIndex(nb);
      if fastbins[i] == [] {
        return None;
      }
      FastPop(fastbins, fplace, head, fastchunks, i);
      var victim := fastbins[i][0];
      assert ArenaNow().Aligned(victim);
      assert FastBinOk(fastbins, fplace, head, i);
      assert FastMember(fastbins, fplace, head, i, 0);
      fastbins := fastbins[i := fastbins[i][1..]];
      fplace := fplace - {victim};
      return Some(victim);
    }

    /** A chunk from the small bin of exactly the requested size, if it has one. */
    method TakeSmall(nb: nat) returns (p: Option<nat>)
      requires Valid() && nb % 8 == 0 && MINSIZE <= nb < MIN_LARGE_SIZE
      modifies `head, `bins, `place
      ensures p.Some? ==> Granted(p.value, nb) && BestFits(old(head), old(place.Keys), nb, p.value)
      ensures p.None? ==> Valid() && ExactBinEmpty(nb)
      ensures p.None? ==> head == old(head) && bins == old(bins) && place == old(place)
    {
      LargeBounds(nb);
      var idx := BinIndex(nb);
      if bins[idx] == [] {
        return None;
      }
      var k := |bins[idx]| - 1;
      BinHas(bins, place, head, idx, k);
      BinnedSizes(ArenaNow());
      SmallBinExact(nb, head[bins[idx][k]].size);
      var victim := TakeFrom(idx, k);
      return Some(victim);
    }

    /** `sYSMALLOc` for an arena that the system extends contiguously, if it grants the memory. */
    method Extend(nb: nat, granted: bool) returns (p: Option<nat>)
      requires Valid() && nb % 8 == 0 && MINSIZE <= nb && top in head && head[top].size < nb + MINSIZE
      modifies `head, `top, `starts
      ensures p.Some? <==> granted
      ensures p.Some? ==> Granted(p.value, nb) && p.value == old(top) && top == old(top) + nb
      ensures p.Some? ==> top in head && MINSIZE <= head[top].size < MINSIZE + PAGESIZE
      ensures p.None? ==> Valid() && ArenaNow() == old(ArenaNow())
    {
      if !granted {
        return None;
      }
      assert ArenaNow().Aligned(top);
      var size := (nb + MINSIZE - head[top].size + PAGESIZE - 1) / PAGESIZE * PAGESIZE;
      GrowTop(size);
      var chunk := TakeTop(nb);
      return Some(chunk);
    }

    /** Split the top chunk if it is large enough.  Otherwise, unless there are fast chunks that could
        be consolidated first, ask the system for more. */
    method UseTop(nb: nat, granted: bool) returns (p: Option<nat>, route: Route)
      requires Valid() && nb % 8 == 0 && MINSIZE <= nb
      modifies `head, `top, `starts
      ensures p.Some? ==> Granted(p.value, nb)
      ensures p.Some? ==> route == FromTop || (route == Extended && Exhausted(old(ArenaNow()), nb))
      ensures p.None? ==> Valid() && ArenaNow() == old(ArenaNow()) && (fastchunks || !granted) && route != FastHit
    {
      Known(ArenaNow(), top);
      if head[top].size >= nb + MINSIZE {
        var chunk := TakeTop(nb);
        return Some(chunk), FromTop;
      }
      if fastchunks {
        return None, NoMemory;
      }
      p := Extend(nb, granted);
      route := Extended;
    }

    /** One round of the main loop: the free chunks, then top. */
    method Round(nb: nat, granted: bool) returns (p: Option<nat>, route: Route)
      requires Valid() && nb % 8 == 0 && MINSIZE <= nb && ExactBinEmpty(nb)
      modifies `head, `foot, `top, `bins, `binmap, `place, `starts, `lastRemainder
      ensures route != FastHit
      ensures p.Some? ==> Granted(p.value, nb)
      ensures p.Some? ==> Fitting(old(head), old(place.Keys), old(lastRemainder), nb, p.value, route)
      ensures p.Some? && route == Extended ==> Exhausted(old(ArenaNow()), nb)
      ensures p.None? ==> Valid() && ArenaNow() == old(ArenaNow()) && ExactBinEmpty(nb) && (fastchunks || !granted)
      ensures p.None? ==> lastRemainder == old(lastRemainder)
    {
      p, route := Search(nb);
      if p.None? {
        p, route := UseTop(nb, granted);
      }
    }

    /** Consolidation puts nothing into the bin of an exactly fitting small chunk. */
    method ConsolidateFor(nb: nat)
      requires Valid() && MINSIZE <= nb && ExactBinEmpty(nb)
      modifies `head, `foot, `top, `bins, `place, `starts, `fastbins, `fplace, `fastchunks
      ensures Valid() && Used() == old(Used()) && SameSizes(old(head), head, Used()) && ExactBinEmpty(nb)
      ensures !fastchunks && ArenaNow().starts - {top} - place.Keys == old(Used())
    {
      Consolidate();
      LargeBounds(nb);
      if nb < MIN_LARGE_SIZE {
        EmptyStays(old(bins), old(place), old(head), bins, place, head, BinIndex(nb));
      }
    }

    /** The main loop of `malloc`, reached when no exactly fitting small chunk is at hand. */
    method Serve(nb: nat, granted: bool) returns (p: Option<nat>, route: Route, ghost seen: Arena)
      requires Valid() && nb % 8 == 0 && MINSIZE <= nb && ExactBinEmpty(nb)
      requires nb >= MIN_LARGE_SIZE ==> !fastchunks
      modifies `head, `foot, `top, `bins, `binmap, `place, `starts, `fastbins, `fplace, `fastchunks, `lastRemainder
      ensures p.Some? ==> Granted(p.value, nb)
      ensures p.None? ==> Valid() && Used() == old(Used()) && SameSizes(old(head), head, Used())
      ensures p.Some? || !granted
      ensures Seen(seen) && route != FastHit
      ensures p.Some? ==> Fitting(seen.head, seen.free, old(lastRemainder), nb, p.value, route)
      ensures p.Some? && route == Extended ==> Exhausted(seen, nb)
    {
      hide Arena.Valid, BinsOk, MapOk, FastOk;
      seen := ArenaNow();
      while true
        invariant Valid() && Used() == old(Used()) && SameSizes(old(head), head, Used()) && ExactBinEmpty(nb)
        invariant seen == ArenaNow() && Seen(seen) && lastRemainder == old(lastRemainder)
        decreases fastchunks
      {
        p, route := Round(nb, granted);
        if p.Some? || !fastchunks {
          return;
        }
        ConsolidateFor(nb);
        seen := ArenaNow();
      }
    }

    /** The part of `malloc` behind the fast bins. */
    method MallocBinned(nb: nat, granted: bool) returns (p: Option<nat>, route: Route, ghost seen: Arena)
      requires Valid() && nb % 8 == 0 && MINSIZE <= nb
      modifies `head, `foot, `top, `bins, `binmap, `place, `starts, `fastbins, `fplace, `fastchunks, `lastRemainder
      ensures p.Some? ==> Granted(p.value, nb)
      ensures p.None? ==> Valid() && Used() == old(Used()) && SameSizes(old(head), head, Used())
      ensures p.Some? || !granted
      ensures Seen(seen) && route != FastHit
      ensures p.Some? ==> Fitting(seen.head, seen.free, old(lastRemainder), nb, p.value, route)
      ensures p.Some? && route == Extended ==> Exhausted(seen, nb)
    {
      hide Arena.Valid, BinsOk, MapOk, FastOk;
      seen := ArenaNow();
      if nb < MIN_LARGE_SIZE {
        p := TakeSmall(nb);
        if p.Some? {
          return p, BestFit, seen;
        }
      } else if fastchunks {
        Consolidate();
      }
      p, route, seen := Serve(nb, granted);
    }

    /** `malloc`.  `granted` says whether the system would extend the arena.  The ghost result is the
        arena that the search saw: the old one, or the one with all fast chunks consolidated. */
    method Malloc(bytes: nat, granted: bool) returns (p: Option<nat>, route: Route, ghost seen: Arena)
      requires Valid()
      modifies this
      ensures p.Some? ==> Granted(p.value, RequestToSize(bytes))
      ensures p.None? ==> Valid() && Used() == old(Used()) && SameSizes(old(head), head, Used())
      ensures p.None? ==> bytes >= REQUEST_LIMIT || !granted
      ensures p.Some? ==> bytes < REQUEST_LIMIT
      ensures Seen(seen)
      ensures p.Some? && route != FastHit ==>
              Fitting(seen.head, seen.free, old(lastRemainder), RequestToSize(bytes), p.value, route)
      ensures p.Some? && route == Extended ==> Exhausted(seen, RequestToSize(bytes))
      ensures route == FastHit && p.Some? ==> p.value in old(fplace) && head[p.value].size == RequestToSize(bytes)
    {
      seen := ArenaNow();
      if bytes >= REQUEST_LIMIT {
        return None, NoMemory, seen;
      }
      var nb := RequestToSize(bytes);
      if nb <= MAX_FAST {
        p := PopFast(nb);
        if p.Some? {
          return p, FastHit, seen;
        }
      }
      p, route, seen := MallocBinned(nb, granted);
    }

    /** Put a small chunk at the front of the fast bin for its size. */
    method FreeFast(p: nat)
      requires Valid() && p in Used() && p in head && head[p].size <= MAX_FAST
      modifies `fastbins, `fplace, `fastchunks
      ensures Valid() && Used() == old(Used()) - {p} && fastchunks && p in fplace && fplace - {p} == old(fplace)
    {
      Known(ArenaNow(), p);
      FastPush(fastbins, fplace, head, fastchunks, p);
      var i := FastIndex(head[p].size);
      fastchunks := true;
      fastbins := fastbins[i := [p] + fastbins[i]];
      fplace := fplace[p := i];
    }

    /** Where a chunk just freed has gone: a small one to its fast bin, and nothing else has changed; a
        larger one, merged with its neighbours, to the unsorted list or to top. */
    twostate predicate Freed(p: nat)
      reads this
    {
      && p in old(head)
      && (old(head)[p].size <= MAX_FAST ==>
            p in fplace && fplace - {p} == old(fplace) && head == old(head) && place == old(place) && top == old(top))
      && (old(head)[p].size > MAX_FAST ==>
            (fplace == old(fplace) || fplace == map[]) && NewUnsorted(old(place), place))
    }

    /** `sYSTRIm`: give whole pages of top back, as many as leave it a minimal chunk. */
    method Trim(released: bool)
      requires Valid() && top in head
      modifies `head
      ensures Valid() && SameSizes(old(head), head, Used())
      ensures top in head && head == old(head)[top := head[top]] && (released || head == old(head))
      ensures exists pages: nat :: head[top].size + pages * PAGESIZE == old(head[top].size)
      ensures released ==> MINSIZE <= head[top].size <= MINSIZE + PAGESIZE
    {
      var size := head[top].size;
      var pages := (size - MINSIZE + PAGESIZE - 1) / PAGESIZE;
      assert ArenaNow().TileOk(top) && ArenaNow().Aligned(top) && head[top].prevInuse;
      assert head[top].size + 0 * PAGESIZE == size;
      if released && pages > 1 {
        var extra := (pages - 1) * PAGESIZE;
        ghost var a := ArenaNow();
        ResizeTop(a, size - extra);
        ghost var h := head;
        head := head[top := Head(size - extra, true)];
        assert ArenaNow() == Resized(a, size - extra);
        ListsKeep(bins, place, fastbins, fplace, fastchunks, h, head);
        assert head[top].size + (pages - 1) * PAGESIZE == size;
      }
    }

    method FreeChunk(p: nat, released: bool)
      requires Valid() && p in Used()
      modifies this
      ensures Valid() && Used() == old(Used()) - {p} && SameSizes(old(head), head, Used()) && Freed(p)
    {
      hide BinsOk, MapOk, FastOk;
      Known(ArenaNow(), p);
      var size := head[p].size;
      if size <= MAX_FAST {
        FreeFast(p);
      } else {
        OpenHole(ArenaNow(), p);
        size := Coalesce(p);
        if size >= FASTBIN_CONSOLIDATION_THRESHOLD {
          if fastchunks { Consolidate(); }
          if head[top].size >= TRIM_THRESHOLD { Trim(released); }
        }
      }
    }

    /** `free`; null has no effect.  `released` says whether the system takes back the excess of a large top chunk. */
    method Free(mem: Option<nat>, released: bool)
      requires Valid() && (mem.Some? ==> mem.value in Used())
      modifies this
      ensures mem.None? ==> Valid() && ArenaNow() == old(ArenaNow()) && Used() == old(Used()) && fplace == old(fplace)
      ensures mem.Some? ==> Valid() && Used() == old(Used()) - {mem.value} && SameSizes(old(head), head, Used())
      ensures mem.Some? ==> Freed(mem.value)
    {
      if mem.Some? {
        FreeChunk(mem.value, released);
      }
    }
  }

  // ----- whole runs -----

  /** One step of a client: a request, with whether the system would grant memory, or a release. */
  datatype Request = Allocate(bytes: nat, granted: bool) | Release(mem: Option<nat>, released: bool)

  /** The blocks given to the client, with the sizes asked for, do not overlap: each ends before the size
      field of the next one. */
  ghost predicate BlocksApart(live: map<nat, nat>)
  {
    forall p, q | p in live && q in live && p < q :: p + 8 + live[p] <= q + 4
  }

  lemma LiveApart(m: MallocState, live: map<nat, nat>)
    requires m.Valid() && live.Keys == m.Used()
    requires forall p | p in live :: p in m.head && m.head[p].size >= live[p] + 4
    ensures BlocksApart(live)
  {
    forall p, q | p in live && q in live && p < q ensures p + 8 + live[p] <= q + 4 {
      ChunkTells(m.ArenaNow(), p, q);
    }
  }

  /** What a step does to the client's blocks.  An allocation fails only when it asks for too much or the
      system refuses memory; else it adds one new block.  A release of a live block removes just that one;
      releasing null has no effect, and a client releases nothing else. */
  ghost predicate ClientStep(live: map<nat, nat>, request: Request, answer: Option<nat>, live': map<nat, nat>)
  {
    match request
    case Allocate(bytes, granted) =>
      if answer.Some? then
        bytes < REQUEST_LIMIT && answer.value !in live && live' == live[answer.value := bytes]
      else
        (bytes >= REQUEST_LIMIT || !granted) && live' == live
    case Release(mem, _) =>
      answer.None? && live' == if mem.Some? then live - {mem.value} else live
  }

  /** The client's requests, one after the other. */
  ghost predicate ClientRun(requests: seq<Request>, answers: seq<Option<nat>>, lives: seq<map<nat, nat>>)
  {
    && |answers| == |requests| && |lives| == |requests| + 1 && lives[0] == map[]
    && (forall i {:trigger answers[i]} | 0 <= i < |answers| ::
          ClientStep(lives[i], requests[i], answers[i], lives[i + 1]))
  }

  /** One step of a client. */
  method Perform(m: MallocState, request: Request, live: map<nat, nat>)
    returns (answer: Option<nat>, live': map<nat, nat>)
    requires m.Valid() && live.Keys == m.Used()
    requires forall p | p in live :: p in m.head && m.head[p].size >= live[p] + 4
    modifies m
    ensures m.Valid() && live'.Keys == m.Used() && ClientStep(live, request, answer, live')
    ensures forall p | p in live' :: p in m.head && m.head[p].size >= live'[p] + 4
  {
    answer, live' := None, live;
    match request
    case Allocate(bytes, granted) =>
      var route;
      ghost var seen;
      answer, route, seen := m.Malloc(bytes, granted);
      if answer.Some? {
        live' := live[answer.value := bytes];
      }
    case Release(mem, released) =>
      if mem.None? || mem.value in live {
        m.Free(mem, released);
      }
      if mem.Some? {
        live' := live - {mem.value};
      }
  }

  /** Any run of a client: every request is answered as it should be, at every moment the live blocks do not
      overlap, and in the end the heap is in order and has exactly the live blocks in use. */
  method RunClient(m: MallocState, requests: seq<Request>)
    returns (answers: seq<Option<nat>>, ghost lives: seq<map<nat, nat>>)
    requires m.Valid() && m.Used() == {}
    modifies m
    ensures ClientRun(requests, answers, lives)
    ensures forall i | 0 <= i < |lives| :: BlocksApart(lives[i])
    ensures m.Valid() && m.Used() == lives[|requests|].Keys
  {
    answers, lives := [], [map[]];
    var live: map<nat, nat> := map[];
    for i := 0 to |requests|
      invariant m.Valid() && live.Keys == m.Used() && |lives| == i + 1 && lives[i] == live
      invariant ClientRun(requests[..i], answers, lives)
      invariant forall j | 0 <= j < |lives| :: BlocksApart(lives[j])
      invariant forall p | p in live :: p in m.head && m.head[p].size >= live[p] + 4
    {
      var answer;
      answer, live := Perform(m, requests[i], live);
      LiveApart(m, live);
      answers, lives := answers + [answer], lives + [live];
    }
    assert requests[..|requests|] == requests;
  }
}
