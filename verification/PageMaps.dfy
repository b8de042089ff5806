/** A block as a map from (record, fragment) to bytes, and what its operations do to that map. */
module PageMaps {
  import opened Collections
  import opened Pages

  /** What the block holds for a key. */
  ghost function Value(p: Page, recno: nat, fragno: nat): Option<seq<byte>>
    requires Valid(p)
  {
    if s: nat :| s < |p.slots| && Is(p.slots[s], recno, fragno) then
      SlotInRange(p, s);
      Some(Data(p, s))
    else None
  }

  /** Keys are unique, so any slot with the key tells the value. */
  lemma ValueAt(p: Page, s: nat)
    requires Valid(p) && s < |p.slots|
    ensures p.slots[s].addr <= Above(p.slots, s) <= |p.bytes|
    ensures Value(p, p.slots[s].recnum, p.slots[s].fragnum) == Some(Data(p, s))
  {
    SlotInRange(p, s);
    forall t: nat | t < |p.slots| && t != s ensures !Is(p.slots[t], p.slots[s].recnum, p.slots[s].fragnum) {
      KeysUnique(p.slots, p.recindex, t, s);
    }
  }

  lemma DataPart(p: Page, s: nat, offset: nat, n: nat)
    requires Valid(p) && s < |p.slots| && p.slots[s].addr + offset + n <= Above(p.slots, s)
    ensures p.slots[s].addr + offset + n <= |p.bytes| && offset + n <= |Data(p, s)|
    ensures p.bytes[p.slots[s].addr + offset..p.slots[s].addr + offset + n] == Data(p, s)[offset..offset + n]
  {
    SlotInRange(p, s);
  }

  lemma ValueNone(p: Page, recno: nat, fragno: nat)
    requires Valid(p) && !Has(p.slots, recno, fragno)
    ensures Value(p, recno, fragno) == None
  {
  }

  /** Two blocks hold the same for a key when they have it in slots with the same data. */
  lemma SameValue(p: Page, s: nat, q: Page, t: nat)
    requires Valid(p) && Valid(q) && s < |p.slots| && t < |q.slots| && Data(p, s) == Data(q, t)
    requires Is(q.slots[t], p.slots[s].recnum, p.slots[s].fragnum)
    ensures Value(p, p.slots[s].recnum, p.slots[s].fragnum) == Value(q, p.slots[s].recnum, p.slots[s].fragnum)
  {
    ValueAt(p, s);
    ValueAt(q, t);
  }

  lemma AddedOther(p: Page, q: Page, r: nat, f: nat)
    requires Valid(p) && Valid(q) && |q.slots| == |p.slots| + 1 && !Is(q.slots[|p.slots|], r, f)
    requires forall s | 0 <= s < |p.slots| :: q.slots[s] == p.slots[s] && Data(q, s) == Data(p, s)
    ensures Value(q, r, f) == Value(p, r, f)
  {
    if s: nat :| s < |p.slots| && Is(p.slots[s], r, f) {
      assert q.slots[s] == p.slots[s] && Data(q, s) == Data(p, s);
      SameValue(p, s, q, s);
    } else {
      forall s | 0 <= s < |q.slots| ensures !Is(q.slots[s], r, f) {
        assert s < |p.slots| ==> q.slots[s] == p.slots[s];
      }
      ValueNone(p, r, f);
      ValueNone(q, r, f);
    }
  }

  /** Adding a record adds its key to the map. */
  lemma AddedMap(p: Page, q: Page, recno: nat, fragno: nat, data: seq<byte>, offset: nat, k: nat)
    requires Valid(p) && Splits(p, recno, fragno, k) && |data| + offset + ENTRY_SIZE <= FreeBytes(p.slots)
    requires Added(p, q, recno, fragno, data, offset, k)
    ensures Valid(q) && Value(p, recno, fragno).None?
    ensures var v := Value(q, recno, fragno); v.Some? && |v.value| == offset + |data| && v.value[offset..] == data
    ensures forall r, f | r != recno || f != fragno :: Value(q, r, f) == Value(p, r, f)
  {
    AddedValid(p, q, recno, fragno, data, offset, k);
    AddedData(p, q, recno, fragno, data, offset, k);
    var n := |p.slots|;
    ValueAt(q, n);
    forall s | 0 <= s < n ensures !Is(p.slots[s], recno, fragno) {
      KeysUnique(q.slots, q.recindex, s, n);
      assert q.slots[s] == p.slots[s];
    }
    forall r, f | r != recno || f != fragno ensures Value(q, r, f) == Value(p, r, f) {
      AddedOther(p, q, r, f);
    }
  }

  lemma DeletedOther(p: Page, q: Page, s: nat, r: nat, f: nat)
    requires Valid(p) && Valid(q) && OneGone(p, q, s) && !Is(p.slots[s], r, f)
    ensures Value(q, r, f) == Value(p, r, f)
  {
    if t: nat :| t < |p.slots| && Is(p.slots[t], r, f) {
      var t' := if t < s then t else t - 1;
      assert Kept(p, q, t', Skip(t', s));
      SameValue(p, t, q, t');
    } else {
      forall t | 0 <= t < |q.slots| ensures !Is(q.slots[t], r, f) {
        assert Kept(p, q, t, Skip(t, s));
      }
      ValueNone(p, r, f);
      ValueNone(q, r, f);
    }
  }

  /** Deleting a record removes its key from the map. */
  lemma DeletedMap(p: Page, q: Page, k: nat)
    requires Valid(p) && Deleted(p, q, k)
    ensures Valid(q)
    ensures var gone := p.slots[p.recindex[k]];
            && Value(p, gone.recnum, gone.fragnum).Some? && Value(q, gone.recnum, gone.fragnum).None?
            && (forall r, f | !Is(gone, r, f) :: Value(q, r, f) == Value(p, r, f))
  {
    DeletedValid(p, q, k);
    DeletedData(p, q, k);
    var s := p.recindex[k];
    ValueAt(p, s);
    forall t | 0 <= t < |q.slots| ensures !Is(q.slots[t], p.slots[s].recnum, p.slots[s].fragnum) {
      assert Kept(p, q, t, Skip(t, s));
      KeysUnique(p.slots, p.recindex, Skip(t, s), s);
    }
    forall r, f | !Is(p.slots[s], r, f) ensures Value(q, r, f) == Value(p, r, f) {
      DeletedOther(p, q, s, r, f);
    }
  }

  /** Slots keep their keys and, but for one, their data. */
  ghost predicate OneChanged(p: Page, q: Page, s: nat)
  {
    && Valid(p) && Valid(q) && s < |p.slots| == |q.slots|
    && (forall t | 0 <= t < |p.slots| :: Is(q.slots[t], p.slots[t].recnum, p.slots[t].fragnum))
    && (forall t | 0 <= t < |p.slots| && t != s :: Data(q, t) == Data(p, t))
  }

  lemma OneChangedOther(p: Page, q: Page, s: nat, r: nat, f: nat)
    requires OneChanged(p, q, s) && !Is(p.slots[s], r, f)
    ensures Value(q, r, f) == Value(p, r, f)
  {
    if t: nat :| t < |p.slots| && Is(p.slots[t], r, f) {
      SameValue(p, t, q, t);
    } else {
      forall t | 0 <= t < |q.slots| ensures !Is(q.slots[t], r, f) {
        assert !Is(p.slots[t], r, f);
      }
      ValueNone(p, r, f);
      ValueNone(q, r, f);
    }
  }

  /** Overwriting part of a record changes that part of its value. */
  lemma OverwrittenMap(p: Page, q: Page, s: nat, data: seq<byte>, offset: nat)
    requires Valid(p) && Overwritten(p, q, s, data, offset) && p.slots[s].addr + offset + |data| <= Above(p.slots, s)
    ensures Valid(q)
    ensures var v, w := Value(p, p.slots[s].recnum, p.slots[s].fragnum), Value(q, p.slots[s].recnum, p.slots[s].fragnum);
            && v.Some? && w.Some? && offset + |data| <= |v.value|
            && w.value == v.value[..offset] + data + v.value[offset + |data|..]
    ensures forall r, f | !Is(p.slots[s], r, f) :: Value(q, r, f) == Value(p, r, f)
  {
    OverwrittenData(p, q, s, data, offset);
    ValueAt(p, s);
    ValueAt(q, s);
    forall r, f | !Is(p.slots[s], r, f) ensures Value(q, r, f) == Value(p, r, f) {
      OneChangedOther(p, q, s, r, f);
    }
  }

  /** Growing or shrinking a record keeps the common prefix of its value. */
  lemma GrownMap(p: Page, q: Page, s: nat, increment: int)
    requires CanGrow(p, s, increment) && Grown(p, q, s, increment)
    ensures Valid(q)
    ensures var v, w := Value(p, p.slots[s].recnum, p.slots[s].fragnum), Value(q, p.slots[s].recnum, p.slots[s].fragnum);
            && v.Some? && w.Some? && |w.value| == |v.value| + increment
            && (if increment >= 0 then v.value <= w.value else w.value <= v.value)
    ensures forall r, f | !Is(p.slots[s], r, f) :: Value(q, r, f) == Value(p, r, f)
  {
    GrownValid(p, q, s, increment);
    GrownData(p, q, s, increment);
    ValueAt(p, s);
    assert Is(q.slots[s], p.slots[s].recnum, p.slots[s].fragnum);
    ValueAt(q, s);
    forall r, f | !Is(p.slots[s], r, f) ensures Value(q, r, f) == Value(p, r, f) {
      OneChangedOther(p, q, s, r, f);
    }
  }

  // ----- runs -----

  type Contents = map<(nat, nat), seq<byte>>

  /** The block holds exactly what the map says. */
  ghost predicate Holds(p: Page, m: Contents)
    requires Valid(p)
  {
    forall r: nat, f: nat {:trigger Value(p, r, f)} ::
      Value(p, r, f) == if (r, f) in m then Some(m[(r, f)]) else None
  }

  /** What one operation on a block may do to the map. */
  datatype Op =
    | Write(recno: nat, fragno: nat, data: seq<byte>, offset: nat)
    | Grow(recno: nat, fragno: nat, newsize: nat)
    | Delete(recno: nat, fragno: nat)

  /** The specification of the operations: a new record reads back what was written; an overwritten one
      keeps its other bytes; a grown one keeps its old bytes, a shrunk one those that fit; no other
      record changes. */
  ghost predicate Step(m: Contents, op: Op, m': Contents)
  {
    var key := (op.recno, op.fragno);
    && m' - {key} == m - {key}
    && match op
       case Write(_, _, data, offset) =>
         && key in m' && |m'[key]| >= offset + |data| && m'[key][offset..offset + |data|] == data
         && (key !in m ==> |m'[key]| == offset + |data|)
         && (key in m ==> offset + |data| <= |m[key]| == |m'[key]| && m'[key][..offset] == m[key][..offset]
                          && m'[key][offset + |data|..] == m[key][offset + |data|..])
       case Grow(_, _, newsize) =>
         && key in m && key in m' && |m'[key]| == newsize
         && (if newsize >= |m[key]| then m[key] <= m'[key] else m'[key] <= m[key])
       case Delete(_, _) =>
         key in m && key !in m'
  }

  /** The operation can be done in a block with that much room. */
  ghost predicate CanDo(m: Contents, op: Op, room: int)
  {
    var key := (op.recno, op.fragno);
    match op
    case Write(_, _, data, offset) =>
      if key in m then offset + |data| <= |m[key]| else |data| + offset + ENTRY_SIZE <= room
    case Grow(_, _, newsize) => key in m && newsize - |m[key]| <= room
    case Delete(_, _) => key in m
  }

  /** The room it takes. */
  ghost function Cost(m: Contents, op: Op): int
  {
    var key := (op.recno, op.fragno);
    match op
    case Write(_, _, data, offset) => if key in m then 0 else |data| + offset + ENTRY_SIZE
    case Grow(_, _, newsize) => if key in m then newsize - |m[key]| else 0
    case Delete(_, _) => if key in m then -|m[key]| - ENTRY_SIZE else 0
  }

  /** When only one key's value changed, the new map follows from the old one. */
  lemma HoldsUpdate(p: Page, q: Page, m: Contents, r: nat, f: nat) returns (m': Contents)
    requires Valid(p) && Valid(q) && Holds(p, m)
    requires forall r', f' | r' != r || f' != f :: Value(q, r', f') == Value(p, r', f')
    ensures Holds(q, m') && m' - {(r, f)} == m - {(r, f)}
    ensures (r, f) in m' <==> Value(q, r, f).Some?
    ensures Value(q, r, f).Some? ==> m'[(r, f)] == Value(q, r, f).value
  {
    m' := if Value(q, r, f).Some? then m[(r, f) := Value(q, r, f).value] else m - {(r, f)};
    assert m' - {(r, f)} == m - {(r, f)};
    forall r': nat, f': nat
      ensures Value(q, r', f') == if (r', f') in m' then Some(m'[(r', f')]) else None
    {
      if r' != r || f' != f { assert Value(q, r', f') == Value(p, r', f'); }
    }
  }
}
