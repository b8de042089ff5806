/** Free space of cached blocks, found by block number or, for best fit, by size. */
module FreeList {
  import opened Collections
  import opened Pages

  const AREAS: nat := 8
  const FREE_TOLERANCE: nat := 13                                 // ENTRY_SIZE + 1
  const NSIZES: nat := 2046                                       // FRAGMENT_MAX + ENTRY_SIZE + 2

  datatype Entry = Entry(bytesfree: nat, fidx: nat)

  type Sizes = seq<seq<seq<nat>>>

  predicate Shape(bySize: Sizes)
  {
    |bySize| == AREAS && forall f | 0 <= f < AREAS :: |bySize[f]| == NSIZES
  }

  /** Exactly the blocks with that area and number of free bytes are on the list, each once. */
  ghost predicate ListOk(bySize: Sizes, byBlock: map<nat, Entry>, f: nat, n: nat)
    requires Shape(bySize) && f < AREAS && n < NSIZES
  {
    && (forall b :: b in bySize[f][n] <==> b in byBlock && byBlock[b] == Entry(n, f))
    && NoDup(bySize[f][n])
  }

  ghost predicate EntryOk(e: Entry)
  {
    e.fidx < AREAS && FREE_TOLERANCE <= e.bytesfree < NSIZES
  }

  /** Both views hold the same entries. */
  ghost predicate Agree(bySize: Sizes, byBlock: map<nat, Entry>)
  {
    && Shape(bySize)
    && (forall b | b in byBlock :: b > 0 && EntryOk(byBlock[b]))
    && (forall f, n {:trigger ListOk(bySize, byBlock, f, n)} | 0 <= f < AREAS && 0 <= n < NSIZES ::
          ListOk(bySize, byBlock, f, n))
  }

  function Put(bySize: Sizes, f: nat, n: nat, list: seq<nat>): (r: Sizes)
    requires Shape(bySize) && f < AREAS && n < NSIZES
    ensures Shape(r)
    ensures forall f', n' | 0 <= f' < AREAS && 0 <= n' < NSIZES ::
              r[f'][n'] == if f' == f && n' == n then list else bySize[f'][n']
  {
    bySize[f := bySize[f][n := list]]
  }

  lemma RemoveAgrees(bySize: Sizes, byBlock: map<nat, Entry>, b: nat)
    requires Agree(bySize, byBlock) && b in byBlock
    ensures var e := byBlock[b];
            EntryOk(e) && Agree(Put(bySize, e.fidx, e.bytesfree, Without(bySize[e.fidx][e.bytesfree], b)), byBlock - {b})
  {
    var e := byBlock[b];
    var s, m := Put(bySize, e.fidx, e.bytesfree, Without(bySize[e.fidx][e.bytesfree], b)), byBlock - {b};
    forall f, n | 0 <= f < AREAS && 0 <= n < NSIZES ensures ListOk(s, m, f, n) {
      assert ListOk(bySize, byBlock, f, n);
    }
  }

  lemma AddAgrees(bySize: Sizes, byBlock: map<nat, Entry>, b: nat, e: Entry)
    requires Agree(bySize, byBlock) && b !in byBlock && b > 0 && EntryOk(e)
    ensures Agree(Put(bySize, e.fidx, e.bytesfree, [b] + bySize[e.fidx][e.bytesfree]), byBlock[b := e])
  {
    var s, m := Put(bySize, e.fidx, e.bytesfree, [b] + bySize[e.fidx][e.bytesfree]), byBlock[b := e];
    forall f, n | 0 <= f < AREAS && 0 <= n < NSIZES ensures ListOk(s, m, f, n) {
      assert ListOk(bySize, byBlock, f, n);
    }
  }

  /** The best fit among the blocks of one area: enough room, and no block with enough has less. */
  ghost predicate BestFit(byBlock: map<nat, Entry>, b: nat, fidx: nat, wanted: nat)
  {
    && b in byBlock && byBlock[b].fidx == fidx && byBlock[b].bytesfree >= wanted
    && (forall c | c in byBlock && byBlock[c].fidx == fidx && byBlock[c].bytesfree >= wanted ::
          byBlock[b].bytesfree <= byBlock[c].bytesfree)
  }

  ghost predicate NoFit(byBlock: map<nat, Entry>, fidx: nat, wanted: nat)
  {
    forall c | c in byBlock && byBlock[c].fidx == fidx :: byBlock[c].bytesfree < wanted
  }

  class FreeList {
    var byBlock: map<nat, Entry>
    var bySize: Sizes

    ghost predicate Valid()
      reads this
    {
      Agree(bySize, byBlock)
    }

    /** `freelist_init` */
    constructor ()
      ensures Valid() && byBlock == map[]
    {
      byBlock := map[];
      bySize := seq(AREAS, _ => seq(NSIZES, _ => []));
      new;
      forall f, n | 0 <= f < AREAS && 0 <= n < NSIZES ensures ListOk(bySize, byBlock, f, n) {}
    }

    /** Take an entry off its list and out of the table. */
    method Remove(b: nat)
      requires Valid() && b in byBlock
      modifies this
      ensures Valid() && byBlock == old(byBlock) - {b}
    {
      RemoveAgrees(bySize, byBlock, b);
      var e := byBlock[b];
      bySize := Put(bySize, e.fidx, e.bytesfree, Without(bySize[e.fidx][e.bytesfree], b));
      byBlock := byBlock - {b};
    }

    method Enter(b: nat, e: Entry)
      requires Valid() && b !in byBlock && b > 0 && EntryOk(e)
      modifies this
      ensures Valid() && byBlock == old(byBlock)[b := e]
    {
      AddAgrees(bySize, byBlock, b, e);
      bySize := Put(bySize, e.fidx, e.bytesfree, [b] + bySize[e.fidx][e.bytesfree]);
      byBlock := byBlock[b := e];
    }

    /** `freelist_del` */
    method Drop(b: nat)
      requires Valid()
      modifies this
      ensures Valid() && byBlock == old(byBlock) - {b}
    {
      if b in byBlock {
        Remove(b);
      }
    }

    /** `addtofree`: record how much room a block has.  With `upd`, an entry for the block may exist; it
        then keeps its area. */
    method AddToFree(b: nat, fidx: nat, bytesfree: nat, upd: bool)
      requires Valid() && b > 0 && fidx < AREAS && (upd || b !in byBlock)
      modifies this
      ensures Valid()
      ensures bytesfree < FREE_TOLERANCE ==> byBlock == old(byBlock) - {b}
      ensures bytesfree >= NSIZES ==> byBlock == old(byBlock)
      ensures FREE_TOLERANCE <= bytesfree < NSIZES ==>
                byBlock == old(byBlock)[b := Entry(bytesfree, if b in old(byBlock) then old(byBlock)[b].fidx else fidx)]
    {
      if bytesfree < FREE_TOLERANCE {
        if !upd {
          return;
        }
        Drop(b);
        return;
      }
      if bytesfree >= NSIZES {
        return;
      }
      if upd && b in byBlock {
        var area := byBlock[b].fidx;
        Remove(b);
        Enter(b, Entry(bytesfree, area));
      } else {
        Enter(b, Entry(bytesfree, fidx));
      }
    }

    /** `freeblock_get`: a block of the area with room for a record of the given size and its slot, or 0.
        The room taken is deducted. */
    method Get(sizewanted: nat, fidx: nat) returns (b: nat)
      requires Valid()
      modifies this
      ensures Valid()
      ensures fidx >= AREAS || sizewanted + ENTRY_SIZE >= NSIZES ==> b == 0
      ensures b == 0 ==> byBlock == old(byBlock)
      ensures b == 0 && fidx < AREAS ==> NoFit(byBlock, fidx, sizewanted + ENTRY_SIZE)
      ensures b > 0 ==> BestFit(old(byBlock), b, fidx, sizewanted + ENTRY_SIZE)
      ensures b > 0 ==>
        var left := old(byBlock)[b].bytesfree - (sizewanted + ENTRY_SIZE);
        byBlock == if left < FREE_TOLERANCE then old(byBlock) - {b} else old(byBlock)[b := Entry(left, fidx)]
    {
      var realwanted := sizewanted + ENTRY_SIZE;
      if fidx >= AREAS || realwanted >= NSIZES {
        return 0;
      }
      var n := realwanted;
      while n < NSIZES && bySize[fidx][n] == []
        invariant realwanted <= n <= NSIZES
        invariant forall k | realwanted <= k < n :: bySize[fidx][k] == []
      {
        n := n + 1;
      }
      forall c | c in byBlock && byBlock[c].fidx == fidx && byBlock[c].bytesfree >= realwanted
        ensures n <= byBlock[c].bytesfree < NSIZES
      {
        assert ListOk(bySize, byBlock, fidx, byBlock[c].bytesfree);
      }
      if n == NSIZES {
        return 0;
      }
      b := bySize[fidx][n][0];
      assert ListOk(bySize, byBlock, fidx, n);
      Remove(b);
      if n - realwanted >= FREE_TOLERANCE {
        Enter(b, Entry(n - realwanted, fidx));
      }
    }
  }
}
