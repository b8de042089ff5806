/** Boundary tags: how the chunks of one contiguous arena lie in memory.

    Addresses are relative to the arena's base.  `starts` is the set of addresses at which a chunk
    really begins; the header map may hold stale headers elsewhere, as memory does. */
module HeapLayout {

  /** A `size` field: the chunk size and the PREV_INUSE bit. */
  datatype Head = Head(size: nat, prevInuse: bool)

  const MINSIZE: nat := 16

  type Heads = map<nat, Head>

  /** The address just behind the chunk at `p`. */
  function Next(head: Heads, p: nat): nat
    requires p in head
  {
    p + head[p].size
  }

  /** The memory of the arena and what its words are meant to say: where chunks begin, which of them
      are consolidated free chunks, and which chunk, if any, is just being freed, so that the in-use
      bit behind it is not settled (`hole`; `top` stands for none). */
  datatype Arena = Arena(starts: set<nat>, head: Heads, foot: map<nat, nat>, top: nat, free: set<nat>, hole: nat)
  {
    ghost predicate Aligned(p: nat)
    {
      p in head && p % 8 == 0 && head[p].size % 8 == 0
    }

    /** A chunk has the minimum size, and what lies behind it, unless it is top, is a chunk. */
    ghost predicate TileOk(p: nat)
    {
      && p in head && head[p].size >= MINSIZE && p <= top
      && (p != top ==> Next(head, p) in starts && Next(head, p) <= top)
    }

    ghost predicate Apart(p: nat, q: nat)
    {
      p in head && (p < q ==> Next(head, p) <= q)
    }

    /** Chunks are aligned, lie end to end from the base to the top chunk and do not overlap. */
    ghost predicate Tiles()
    {
      && 0 in starts && top in starts
      && (forall p {:trigger TileOk(p)} | p in starts :: TileOk(p))
      && (forall p {:trigger Aligned(p)} | p in starts :: Aligned(p))
      && (forall p, q {:trigger Apart(p, q)} | p in starts && q in starts :: Apart(p, q))
    }

    /** The in-use bit behind a chunk is set exactly when the chunk is not a consolidated free one. */
    ghost predicate BitOk(p: nat)
    {
      p != top && p != hole ==>
        p in head && Next(head, p) in head && head[Next(head, p)].prevInuse == (p !in free)
    }

    /** A free chunk: its predecessor is in use, its successor is neither free nor top, and its size is
        repeated at its end. */
    ghost predicate FreeOk(p: nat)
    {
      p in starts && p != top && p in head && head[p].prevInuse &&
      var n := Next(head, p);
      n != top && n !in free && n in foot && foot[n] == head[p].size
    }

    /** A clear bit means that the chunk just before is free and starts where the footer says. */
    ghost predicate FootOk(q: nat)
    {
      q in head && hole in head &&
      (!head[q].prevInuse && (hole == top || q != Next(head, hole)) ==>
         q in foot && foot[q] <= q && q - foot[q] in free && q - foot[q] in head &&
         head[q - foot[q]].size == foot[q])
    }

    ghost predicate Marked()
    {
      && free <= starts && hole in starts && hole !in free && top in head
      && 0 in head && head[0].prevInuse && head[top].prevInuse
      && (forall p {:trigger BitOk(p)} | p in starts :: BitOk(p))
      && (forall p {:trigger FreeOk(p)} | p in free :: FreeOk(p))
      && (forall q {:trigger FootOk(q)} | q in starts :: FootOk(q))
    }

    ghost predicate Valid()
    {
      Tiles() && Marked()
    }

    /** No chunk is being freed. */
    ghost predicate Settled()
    {
      Valid() && hole == top
    }
  }

  ghost predicate UnaryOk(a: Arena, x: nat)
  {
    a.TileOk(x) && a.BitOk(x) && a.FootOk(x) && (x in a.free ==> a.FreeOk(x))
  }

  /** What is known of a chunk of a valid arena. */
  lemma Known(a: Arena, x: nat)
    requires a.Valid() && x in a.starts
    ensures UnaryOk(a, x)
  {
    assert a.TileOk(x) && a.BitOk(x) && a.FootOk(x);
    assert x in a.free ==> a.FreeOk(x);
  }

  /** What an observer can rely on at any chunk of a settled arena: the in-use bit behind it tells
      whether it is free; a free chunk is fully coalesced, does not border top and repeats its size at
      its end; and other chunks lie wholly before or behind it. */
  lemma ChunkTells(a: Arena, p: nat, q: nat)
    requires a.Settled() && p in a.starts && p != a.top && q in a.starts
    ensures p in a.head && Next(a.head, p) in a.starts && Next(a.head, p) in a.head
    ensures a.head[Next(a.head, p)].prevInuse <==> p !in a.free
    ensures p in a.free ==> Next(a.head, p) != a.top && Next(a.head, p) !in a.free && a.head[p].prevInuse
    ensures p in a.free ==> Next(a.head, p) in a.foot && a.foot[Next(a.head, p)] == a.head[p].size
    ensures p < q ==> Next(a.head, p) <= q
    ensures q < p ==> q in a.head && Next(a.head, q) <= p
  {
    Known(a, p);
    Known(a, q);
    Known(a, Next(a.head, p));
    assert a.Apart(p, q) && a.Apart(q, p);
  }

  lemma MergedApart(a: Arena, h: Heads, p: nat, n: nat, x: nat, y: nat)
    requires a.Tiles() && p in a.starts && p in a.head && n == Next(a.head, p) && n in a.starts && n in a.head
    requires h == a.head[p := Head(a.head[p].size + a.head[n].size, a.head[p].prevInuse)]
    requires x in a.starts && y in a.starts && x != n && y != n
    ensures x in h && (x < y ==> Next(h, x) <= y)
  {
    assert a.TileOk(x) && a.Apart(x, y) && a.Apart(n, y);
  }

  /** The arena after the low `nb` bytes of a free chunk have been handed out. */
  function SplitOff(a: Arena, p: nat, nb: nat): Arena
    requires p in a.head && nb <= a.head[p].size
  {
    var r, rest := p + nb, a.head[p].size - nb;
    a.(starts := a.starts + {r}, head := a.head[p := Head(nb, true)][r := Head(rest, true)],
       foot := a.foot[Next(a.head, p) := rest], free := a.free - {p} + {r})
  }

  /** What a split needs: room for an aligned chunk of `nb` bytes and a remainder. */
  ghost predicate CanSplit(a: Arena, p: nat, nb: nat)
  {
    && a.Settled() && p in a.free && p in a.head
    && nb % 8 == 0 && MINSIZE <= nb && nb + MINSIZE <= a.head[p].size
  }

  lemma SplitIsNew(a: Arena, p: nat, nb: nat)
    requires CanSplit(a, p, nb)
    ensures p + nb !in a.starts && p in a.starts && Next(a.head, p) in a.starts && p != a.top
    ensures p % 8 == 0
  {
    Known(a, p);
    assert a.Aligned(p);
    assert p + nb in a.starts ==> a.Apart(p, p + nb);
  }

  lemma SplitApart(a: Arena, p: nat, nb: nat, x: nat, y: nat)
    requires CanSplit(a, p, nb) && x in SplitOff(a, p, nb).starts && y in SplitOff(a, p, nb).starts
    ensures SplitOff(a, p, nb).Apart(x, y)
  {
    SplitIsNew(a, p, nb);
    var r := p + nb;
    if x == r {
      if y != r { assert a.Apart(p, y); }
    } else if y == r {
      assert a.TileOk(x) && a.Apart(x, p) && a.Apart(p, x);
    } else {
      assert a.TileOk(x) && a.Apart(x, y);
    }
  }

  /** The arena after `p`, the chunk being freed, has been merged into the free chunk before it. */
  function MergedBack(a: Arena, p: nat): Arena
    requires p in a.head && p in a.foot && a.foot[p] <= p && p - a.foot[p] in a.head
  {
    var q := p - a.foot[p];
    a.(starts := a.starts - {p}, head := a.head[q := Head(a.head[q].size + a.head[p].size, a.head[q].prevInuse)],
       free := a.free - {q}, hole := q)
  }

  /** The chunk before the one being freed is free when the in-use bit is clear: merge both. */
  lemma MergeBack(a: Arena, p: nat)
    requires a.Valid() && a.hole == p && p in a.head && p != a.top && !a.head[p].prevInuse
    ensures p in a.foot && a.foot[p] <= p && p - a.foot[p] in a.free
    ensures p - a.foot[p] in a.head
    ensures var b, q := MergedBack(a, p), p - a.foot[p];
            b.Valid() && b.head[q].prevInuse && q != b.top && Next(b.head, q) == Next(a.head, p)
  {
    Known(a, p);
    var q := p - a.foot[p];
    Known(a, q);
    var b := MergedBack(a, p);
    forall x | x in b.starts ensures b.Aligned(x) {
      assert a.Aligned(x) && a.Aligned(p);
    }
    forall x | x in b.starts ensures UnaryOk(b, x) {
      Known(a, x);
      assert a.Apart(x, p) && a.Apart(p, x);
    }
    forall x, y | x in b.starts && y in b.starts ensures b.Apart(x, y) {
      MergedApart(a, b.head, q, p, x, y);
    }
  }

  /** The arena after `p`, the chunk being freed, has absorbed the free chunk behind it. */
  function MergedForward(a: Arena, p: nat): Arena
    requires p in a.head && Next(a.head, p) in a.head
  {
    var n := Next(a.head, p);
    a.(starts := a.starts - {n}, head := a.head[p := Head(a.head[p].size + a.head[n].size, a.head[p].prevInuse)],
       free := a.free - {n})
  }

  lemma MergedUnary(a: Arena, p: nat, x: nat)
    requires a.Valid() && a.hole == p && p in a.head && p != a.top && a.head[p].prevInuse && Next(a.head, p) in a.free
    requires Next(a.head, p) in a.head && x in MergedForward(a, p).starts
    ensures UnaryOk(MergedForward(a, p), x)
  {
    var n := Next(a.head, p);
    Known(a, p);
    Known(a, n);
    Known(a, x);
    assert a.Apart(x, n) && a.Apart(n, x) && a.Apart(x, p) && a.Apart(p, x);
  }

  /** The chunk behind the one being freed is free: absorb it. */
  lemma MergeForward(a: Arena, p: nat)
    requires a.Valid() && a.hole == p && p in a.head && p != a.top && a.head[p].prevInuse && Next(a.head, p) in a.free
    ensures Next(a.head, p) in a.head
    ensures var b, n := MergedForward(a, p), Next(a.head, p);
            && b.Valid() && b.head[p].prevInuse
            && Next(b.head, p) == Next(a.head, n) && Next(b.head, p) != b.top && Next(b.head, p) !in b.free
  {
    Known(a, p);
    var n := Next(a.head, p);
    Known(a, n);
    var b := MergedForward(a, p);
    forall x | x in b.starts ensures b.Aligned(x) {
      assert a.Aligned(x) && a.Aligned(n);
    }
    forall x | x in b.starts ensures UnaryOk(b, x) {
      MergedUnary(a, p, x);
    }
    forall x, y | x in b.starts && y in b.starts ensures b.Apart(x, y) {
      MergedApart(a, b.head, p, n, x, y);
    }
  }

  /** The arena after `p`, the chunk being freed, has become a free chunk. */
  function ClosedFree(a: Arena, p: nat): Arena
    requires p in a.head && Next(a.head, p) in a.head
  {
    var n := Next(a.head, p);
    a.(head := a.head[n := Head(a.head[n].size, false)], foot := a.foot[n := a.head[p].size],
       free := a.free + {p}, hole := a.top)
  }

  /** Mark the chunk being freed as a free chunk. */
  lemma CloseFree(a: Arena, p: nat)
    requires a.Valid() && a.hole == p && p in a.head && p != a.top && a.head[p].prevInuse
    requires Next(a.head, p) != a.top && Next(a.head, p) !in a.free
    ensures Next(a.head, p) in a.head
    ensures ClosedFree(a, p).Settled()
  {
    Known(a, p);
    var n := Next(a.head, p);
    Known(a, n);
    Known(a, a.top);
    var b := ClosedFree(a, p);
    forall x | x in b.starts ensures b.Aligned(x) {
      assert a.Aligned(x);
    }
    forall x | x in b.starts ensures UnaryOk(b, x) {
      Known(a, x);
      assert a.Apart(x, p) && a.Apart(p, x) && a.Apart(x, n);
    }
    forall x, y | x in b.starts && y in b.starts ensures b.Apart(x, y) {
      assert a.Apart(x, y);
    }
  }

  /** The arena after `p`, the chunk being freed, has been merged with the top chunk behind it. */
  function ClosedTop(a: Arena, p: nat): Arena
    requires p in a.head && a.top in a.head
  {
    a.(starts := a.starts - {a.top}, head := a.head[p := Head(a.head[p].size + a.head[a.top].size, true)],
       top := p, hole := p)
  }

  /** The chunk being freed borders top: let top begin there. */
  lemma CloseTop(a: Arena, p: nat)
    requires a.Valid() && a.hole == p && p in a.head && p != a.top && a.head[p].prevInuse && Next(a.head, p) == a.top
    ensures a.top in a.head && ClosedTop(a, p).Settled()
  {
    Known(a, p);
    Known(a, a.top);
    var b := ClosedTop(a, p);
    forall x | x in b.starts ensures b.Aligned(x) {
      assert a.Aligned(x) && a.Aligned(a.top);
    }
    forall x | x in b.starts ensures UnaryOk(b, x) {
      Known(a, x);
      assert a.Apart(x, p) && a.Apart(p, x) && a.Apart(x, a.top);
    }
    forall x, y | x in b.starts && y in b.starts ensures b.Apart(x, y) {
      assert a.Apart(x, y) && a.Apart(p, x) && a.Apart(p, y);
      Known(a, x); Known(a, y);
    }
  }

  /** The arena after a whole free chunk has been handed out. */
  function Taken(a: Arena, p: nat): Arena
    requires p in a.head && Next(a.head, p) in a.head
  {
    var n := Next(a.head, p);
    a.(head := a.head[n := Head(a.head[n].size, true)], free := a.free - {p})
  }

  /** Hand out a whole free chunk. */
  lemma TakeWhole(a: Arena, p: nat)
    requires a.Settled() && p in a.free
    ensures p in a.head && Next(a.head, p) in a.starts && Next(a.head, p) in a.head
    ensures Taken(a, p).Settled()
  {
    assert a.FreeOk(p);
    Known(a, p);
    var n := Next(a.head, p);
    Known(a, n);
    var b := Taken(a, p);
    forall x | x in b.starts ensures b.Aligned(x) {
      assert a.Aligned(x);
    }
    forall x | x in b.starts ensures UnaryOk(b, x) {
      Known(a, x);
      assert a.Apart(x, p) && a.Apart(p, x) && a.Apart(x, n);
    }
    forall x, y | x in b.starts && y in b.starts ensures b.Apart(x, y) {
      assert a.Apart(x, y);
    }
  }

  lemma SplitFreeAt(a: Arena, p: nat, nb: nat, x: nat)
    requires CanSplit(a, p, nb) && x in SplitOff(a, p, nb).starts
    ensures UnaryOk(SplitOff(a, p, nb), x) && SplitOff(a, p, nb).Aligned(x)
  {
    SplitIsNew(a, p, nb);
    var r := p + nb;
    Known(a, p);
    Known(a, Next(a.head, p));
    assert a.FreeOk(p);
    if x != r {
      Known(a, x);
      assert a.Aligned(x) && a.Apart(x, p) && a.Apart(p, x) && a.Apart(x, Next(a.head, p));
    } else {
      assert a.Aligned(p);
    }
  }

  /** Hand out the low part of a free chunk; the rest stays free. */
  lemma SplitFree(a: Arena, p: nat, nb: nat)
    requires CanSplit(a, p, nb)
    ensures p + nb !in a.starts && SplitOff(a, p, nb).Settled()
  {
    SplitIsNew(a, p, nb);
    var b := SplitOff(a, p, nb);
    forall x | x in b.starts ensures UnaryOk(b, x) && b.Aligned(x) {
      SplitFreeAt(a, p, nb, x);
    }
    forall x, y | x in b.starts && y in b.starts ensures b.Apart(x, y) {
      SplitApart(a, p, nb, x, y);
    }
  }

  /** The arena after the low `nb` bytes of the top chunk have been handed out. */
  function SplitOffTop(a: Arena, nb: nat): Arena
    requires a.top in a.head && nb <= a.head[a.top].size
  {
    var r := a.top + nb;
    a.(starts := a.starts + {r}, head := a.head[a.top := Head(nb, true)][r := Head(a.head[a.top].size - nb, true)],
       top := r, hole := r)
  }

  /** Hand out the low part of the top chunk. */
  lemma SplitTop(a: Arena, nb: nat)
    requires a.Settled() && a.top in a.head
    requires nb % 8 == 0 && MINSIZE <= nb && nb + MINSIZE <= a.head[a.top].size
    ensures a.top + nb !in a.starts && SplitOffTop(a, nb).Settled()
  {
    Known(a, a.top);
    var r := a.top + nb;
    assert r in a.starts ==> a.TileOk(r);
    var b := SplitOffTop(a, nb);
    forall x | x in b.starts ensures b.Aligned(x) {
      if x != r { assert a.Aligned(x); } else { assert a.Aligned(a.top); }
    }
    forall x | x in b.starts ensures UnaryOk(b, x) {
      if x != r {
        Known(a, x);
        assert a.Apart(x, a.top);
      }
    }
    forall x, y | x in b.starts && y in b.starts ensures b.Apart(x, y) {
      if x in a.starts && y in a.starts { assert a.Apart(x, y); }
      if x in a.starts { assert a.Apart(x, a.top); Known(a, x); }
      if y in a.starts { Known(a, y); }
    }
  }

  function Resized(a: Arena, size: nat): Arena
  {
    a.(head := a.head[a.top := Head(size, true)])
  }

  /** Give the top chunk another size. */
  lemma ResizeTop(a: Arena, size: nat)
    requires a.Settled() && size % 8 == 0 && size >= MINSIZE
    ensures Resized(a, size).Settled()
  {
    Known(a, a.top);
    var b := Resized(a, size);
    forall x | x in b.starts ensures b.Aligned(x) {
      assert a.Aligned(x);
    }
    forall x | x in b.starts ensures UnaryOk(b, x) {
      Known(a, x);
    }
    forall x, y | x in b.starts && y in b.starts ensures b.Apart(x, y) {
      assert a.Apart(x, y); Known(a, x); Known(a, y);
    }
  }

  /** The chunk addresses met by walking from `p` to the top chunk, header by header. */
  ghost function Walk(a: Arena, p: nat): seq<nat>
    requires a.Tiles() && p in a.starts
    decreases a.top - p
  {
    assert a.TileOk(p);
    if p == a.top then [p] else [p] + Walk(a, Next(a.head, p))
  }

  /** The chunks tile the arena: walking from the base meets every chunk, once, in address order, each
      beginning where the one before it ends, and arrives at top. */
  lemma {:induction false} WalkTiles(a: Arena, p: nat)
    requires a.Tiles() && p in a.starts
    ensures var w := Walk(a, p);
            && w[0] == p && w[|w| - 1] == a.top
            && (forall i | 0 <= i < |w| :: w[i] in a.starts && w[i] in a.head)
            && (forall i | 0 <= i < |w| - 1 :: w[i + 1] == Next(a.head, w[i]) && w[i] < w[i + 1])
            && (forall q | q in a.starts && q >= p :: q in w)
    decreases a.top - p
  {
    assert a.TileOk(p);
    if p != a.top {
      var n := Next(a.head, p);
      WalkTiles(a, n);
      var w := Walk(a, p);
      forall q | q in a.starts && q >= p ensures q in w {
        assert a.Apart(p, q);
        if q != p { assert q in Walk(a, n); }
      }
    } else {
      forall q | q in a.starts && q >= p ensures q == p { assert a.TileOk(q); }
    }
  }
}
