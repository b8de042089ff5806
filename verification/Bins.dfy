/** The allocator's bins: size classes, ordered lists of free chunks, and the bin map. */
module Bins {
  import opened Collections
  import opened Words
  import opened HeapLayout

  const NBINS: nat := 128
  const NSMALLBINS: nat := 64
  const MIN_LARGE_SIZE: nat := 512
  const UNSORTED: nat := 1

  function LargeBinIndex(sz: nat): nat
  {
    if sz / 64 <= 32 then 56 + sz / 64
    else if sz / 512 <= 20 then 91 + sz / 512
    else if sz / 4096 <= 10 then 110 + sz / 4096
    else if sz / 32768 <= 4 then 119 + sz / 32768
    else if sz / 262144 <= 2 then 124 + sz / 262144
    else 126
  }

  function BinIndex(sz: nat): nat
  {
    if sz < MIN_LARGE_SIZE then sz / 8 else LargeBinIndex(sz)
  }

  lemma LargeBounds(sz: nat)
    ensures sz >= MIN_LARGE_SIZE ==> NSMALLBINS <= LargeBinIndex(sz) <= 126
    ensures sz < MIN_LARGE_SIZE ==> sz / 8 < NSMALLBINS
    ensures sz >= MINSIZE ==> 2 <= BinIndex(sz) <= 126
    ensures sz / 64 > 32 ==> sz / 512 >= 4
    ensures sz / 512 > 20 ==> sz / 4096 >= 2
    ensures sz / 4096 > 10 ==> sz / 32768 >= 1
  {
  }

  /** Larger chunks never go into lower bins, so a chunk in a higher bin is larger. */
  lemma BinIndexMonotone(x: nat, y: nat)
    requires x <= y
    ensures BinIndex(x) <= BinIndex(y)
  {
    assert x / 64 <= y / 64 && x / 512 <= y / 512 && x / 4096 <= y / 4096;
    assert x / 32768 <= y / 32768 && x / 262144 <= y / 262144 && x / 8 <= y / 8;
    LargeBounds(x);
    LargeBounds(y);
  }

  /** A small bin holds chunks of one size. */
  lemma SmallBinExact(x: nat, y: nat)
    requires x % 8 == 0 && y % 8 == 0 && x < MIN_LARGE_SIZE && BinIndex(x) == BinIndex(y)
    ensures x == y
  {
    LargeBounds(x);
    LargeBounds(y);
  }

  // ----- the lists -----

  /** Sizes never increase from the front of the list to its back. */
  ghost predicate Descending(s: seq<nat>, head: Heads)
  {
    && (forall i | 0 <= i < |s| :: s[i] in head)
    && (forall i, j | 0 <= i < j < |s| :: head[s[i]].size >= head[s[j]].size)
  }

  /** The chunk at position `k` of bin `i` belongs there. */
  ghost predicate MemberOk(bins: seq<seq<nat>>, place: map<nat, nat>, head: Heads, i: nat, k: nat)
    requires i < |bins| && k < |bins[i]|
  {
    var p := bins[i][k];
    p in place && place[p] == i && p in head && (i == UNSORTED || i == BinIndex(head[p].size))
  }

  /** Bin `i` lists each of its chunks once; a large bin lists them by size. */
  ghost predicate BinOk(bins: seq<seq<nat>>, place: map<nat, nat>, head: Heads, i: nat)
    requires i < |bins|
  {
    && (forall k {:trigger MemberOk(bins, place, head, i, k)} | 0 <= k < |bins[i]| :: MemberOk(bins, place, head, i, k))
    && NoDup(bins[i])
    && (i >= NSMALLBINS ==> Descending(bins[i], head))
    && (i == 0 ==> bins[i] == [])
  }

  ghost predicate PlaceOk(bins: seq<seq<nat>>, place: map<nat, nat>, p: nat)
  {
    p in place && place[p] < |bins| && p in bins[place[p]]
  }

  /** Every free chunk is in exactly one bin, the unsorted one or the one for its size. */
  ghost predicate BinsOk(bins: seq<seq<nat>>, place: map<nat, nat>, head: Heads)
  {
    && |bins| == NBINS
    && (forall i {:trigger BinOk(bins, place, head, i)} | 0 <= i < NBINS :: BinOk(bins, place, head, i))
    && (forall p {:trigger PlaceOk(bins, place, p)} | p in place :: PlaceOk(bins, place, p))
  }

  lemma RemoveKeeps(bins: seq<seq<nat>>, place: map<nat, nat>, head: Heads, i: nat, k: nat)
    requires BinsOk(bins, place, head) && i < NBINS && k < |bins[i]|
    ensures bins[i][k] in place && place[bins[i][k]] == i
    ensures BinsOk(bins[i := RemoveAt(bins[i], k)], place - {bins[i][k]}, head)
  {
    var p := bins[i][k];
    assert BinOk(bins, place, head, i);
    assert MemberOk(bins, place, head, i, k);
    var b, pl := bins[i := RemoveAt(bins[i], k)], place - {p};
    forall j | 0 <= j < NBINS ensures BinOk(b, pl, head, j) {
      assert BinOk(bins, place, head, j);
      forall m | 0 <= m < |b[j]| ensures MemberOk(b, pl, head, j, m) {
        assert MemberOk(bins, place, head, j, if j == i && m >= k then m + 1 else m);
      }
    }
    forall q | q in pl ensures PlaceOk(b, pl, q) {
      assert PlaceOk(bins, place, q);
      if place[q] == i {
        var m :| 0 <= m < |bins[i]| && bins[i][m] == q;
        assert b[i][if m > k then m - 1 else m] == q;
      }
    }
  }

  lemma InsertKeepsBin(bins: seq<seq<nat>>, place: map<nat, nat>, head: Heads, i: nat, k: nat, p: nat, j: nat)
    requires BinsOk(bins, place, head) && 0 < i < NBINS && k <= |bins[i]| && p !in place && p in head && j < NBINS
    requires i == UNSORTED || i == BinIndex(head[p].size)
    requires i >= NSMALLBINS ==>
      forall m | 0 <= m < |bins[i]| :: bins[i][m] in head &&
        if m < k then head[bins[i][m]].size >= head[p].size else head[bins[i][m]].size <= head[p].size
    ensures BinOk(bins[i := InsertAt(bins[i], k, p)], place[p := i], head, j)
  {
    assert BinOk(bins, place, head, j);
    var b, pl := bins[i := InsertAt(bins[i], k, p)], place[p := i];
    forall m | 0 <= m < |bins[j]| ensures bins[j][m] in place && bins[j][m] != p {
      assert MemberOk(bins, place, head, j, m);
    }
    forall m | 0 <= m < |b[j]| ensures MemberOk(b, pl, head, j, m) {
      if j != i || m != k {
        assert MemberOk(bins, place, head, j, if j == i && m > k then m - 1 else m);
      }
    }
  }

  lemma InsertKeeps(bins: seq<seq<nat>>, place: map<nat, nat>, head: Heads, i: nat, k: nat, p: nat)
    requires BinsOk(bins, place, head) && 0 < i < NBINS && k <= |bins[i]| && p !in place && p in head
    requires i == UNSORTED || i == BinIndex(head[p].size)
    requires i >= NSMALLBINS ==>
      forall m | 0 <= m < |bins[i]| :: bins[i][m] in head &&
        if m < k then head[bins[i][m]].size >= head[p].size else head[bins[i][m]].size <= head[p].size
    ensures BinsOk(bins[i := InsertAt(bins[i], k, p)], place[p := i], head)
  {
    var b, pl := bins[i := InsertAt(bins[i], k, p)], place[p := i];
    forall j | 0 <= j < NBINS ensures BinOk(b, pl, head, j) {
      InsertKeepsBin(bins, place, head, i, k, p, j);
    }
    forall q | q in pl ensures PlaceOk(b, pl, q) {
      if q == p {
        assert b[i][k] == p;
      } else {
        assert PlaceOk(bins, place, q);
        if place[q] == i {
          var m :| 0 <= m < |bins[i]| && bins[i][m] == q;
          assert b[i][if m >= k then m + 1 else m] == q;
        }
      }
    }
  }

  /** Headers of chunks outside the bins may change freely. */
  lemma HeadKeeps(bins: seq<seq<nat>>, place: map<nat, nat>, head: Heads, head': Heads)
    requires BinsOk(bins, place, head)
    requires forall p | p in place && p in head :: p in head' && head'[p].size == head[p].size
    ensures BinsOk(bins, place, head')
  {
    forall i | 0 <= i < NBINS ensures BinOk(bins, place, head', i) {
      assert BinOk(bins, place, head, i);
      forall k | 0 <= k < |bins[i]|
        ensures MemberOk(bins, place, head', i, k)
        ensures bins[i][k] in head && bins[i][k] in head' && head'[bins[i][k]].size == head[bins[i][k]].size
      {
        assert MemberOk(bins, place, head, i, k);
      }
    }
    forall p | p in place ensures PlaceOk(bins, place, p) {
      assert PlaceOk(bins, place, p);
    }
  }

  // ----- the bin map -----

  const BINMAPSIZE: nat := 4

  ghost predicate BitSet(bins: seq<seq<nat>>, binmap: seq<nat>, i: nat)
    requires i < |bins| && i / 32 < |binmap|
  {
    bins[i] != [] ==> Bit(binmap[i / 32], i % 32)
  }

  /** A bin whose bit is clear is empty. */
  ghost predicate MapOk(bins: seq<seq<nat>>, binmap: seq<nat>)
  {
    && |bins| == NBINS && |binmap| == BINMAPSIZE
    && (forall b | 0 <= b < BINMAPSIZE :: binmap[b] < WORD_LIMIT)
    && (forall i {:trigger BitSet(bins, binmap, i)} | 2 <= i < NBINS :: BitSet(bins, binmap, i))
  }
}
