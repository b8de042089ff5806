/** What the indexer does to one cached block: from the contents before to the contents after. */
module CachedPages {
  import opened Blocks
  import opened Collections
  import opened PageMaps
  import opened Pages

  const EMPTY_PAGE: Page := Page([], [], seq(BLOCK_SIZE, _ => 0))

  lemma EmptyValid()
    ensures Valid(EMPTY_PAGE) && FreeBytes(EMPTY_PAGE.slots) == BLOCK_SIZE - HeaderSize(0)
  {
  }

  /** `q` is `p` with one more slot, and all other data as they were. */
  ghost predicate OneAdded(p: Page, q: Page, recno: nat, fragno: nat)
  {
    && Valid(p) && Valid(q) && |q.slots| == |p.slots| + 1 && Is(q.slots[|p.slots|], recno, fragno)
    && (forall s | 0 <= s < |p.slots| :: q.slots[s] == p.slots[s] && Data(q, s) == Data(p, s))
  }

  method Add(p: Page, recno: nat, fragno: nat, buffer: seq<byte>, offset: nat) returns (q: Page)
    requires Valid(p) && !Has(p.slots, recno, fragno) && |buffer| + offset + ENTRY_SIZE <= FreeBytes(p.slots)
    ensures OneAdded(p, q, recno, fragno)
    ensures FreeBytes(q.slots) == FreeBytes(p.slots) - |buffer| - offset - ENTRY_SIZE
    ensures var d := Data(q, |p.slots|); |d| == offset + |buffer| && d[offset..] == buffer
  {
    var b := new Block.CopyOf(p);
    ghost var k := b.Add(recno, fragno, buffer, offset);
    q := b.Copy();
    AddedValid(p, q, recno, fragno, buffer, offset, k);
    AddedData(p, q, recno, fragno, buffer, offset, k);
  }

  method Overwrite(p: Page, recno: nat, fragno: nat, buffer: seq<byte>, offset: nat) returns (q: Page, ghost s: nat)
    requires Valid(p) && Has(p.slots, recno, fragno)
    requires var v := Value(p, recno, fragno); v.Some? ==> offset + |buffer| <= |v.value|
    ensures Valid(q) && s < |p.slots| == |q.slots|
    ensures OneChanged(p, q, s) && Is(q.slots[s], recno, fragno) && q.slots == p.slots
    ensures var d := Data(p, s);
            offset + |buffer| <= |d| && Data(q, s) == d[..offset] + buffer + d[offset + |buffer|..]
  {
    var b := new Block.CopyOf(p);
    forall t: nat | t < |p.slots| && Is(p.slots[t], recno, fragno)
      ensures p.slots[t].addr + offset + |buffer| <= Above(p.slots, t) <= BLOCK_SIZE
    {
      SlotInRange(p, t);
      ValueAt(p, t);
    }
    var slot := b.Overwrite(recno, fragno, buffer, offset);
    s := slot.value;
    q := b.Copy();
    OverwrittenData(p, q, s, buffer, offset);
  }

  method Delete(p: Page, recno: nat, fragno: nat) returns (q: Page, ghost s: nat)
    requires Valid(p) && Has(p.slots, recno, fragno)
    ensures Valid(q) && OneGone(p, q, s) && Is(p.slots[s], recno, fragno)
    ensures FreeBytes(q.slots) == FreeBytes(p.slots) + |Data(p, s)| + ENTRY_SIZE
  {
    var b := new Block.CopyOf(p);
    var position := b.Delete(recno, fragno);
    q := b.Copy();
    s := p.recindex[position.value];
    SlotInRange(p, s);
    DeletedValid(p, q, position.value);
    DeletedData(p, q, position.value);
  }

  /** The slot of a record that is there, and its size. */
  method Measure(p: Page, recno: nat, fragno: nat) returns (s: nat, size: nat)
    requires Valid(p) && Has(p.slots, recno, fragno)
    ensures s < |p.slots| && Is(p.slots[s], recno, fragno) && size == |Data(p, s)|
    ensures Value(p, recno, fragno) == Some(Data(p, s))
  {
    var b := new Block.CopyOf(p);
    var position := b.Find(recno, fragno);
    s := p.recindex[position.value];
    ValueAt(p, s);
    size := Above(p.slots, s) - p.slots[s].addr;
  }

  /** The bytes of a record from an offset on, as many as there are. */
  method Read(p: Page, recno: nat, fragno: nat, numbytes: nat, offset: nat) returns (data: Option<seq<byte>>)
    requires Valid(p)
    requires var v := Value(p, recno, fragno); v.Some? ==> offset <= |v.value|
    ensures var v := Value(p, recno, fragno);
            && (v.None? ==> data.None?)
            && (v.Some? ==> data == Some(if numbytes > |v.value| - offset then v.value[offset..]
                                         else v.value[offset..offset + numbytes]))
  {
    var b := new Block.CopyOf(p);
    data := b.Read(recno, fragno, numbytes, offset);
  }

  method Resize(p: Page, recno: nat, fragno: nat, newsize: nat) returns (q: Page, ghost s: nat)
    requires Valid(p) && Has(p.slots, recno, fragno)
    requires var v := Value(p, recno, fragno); v.Some? ==> newsize - |v.value| <= FreeBytes(p.slots)
    ensures Valid(q) && s < |p.slots| == |q.slots|
    ensures OneChanged(p, q, s) && Is(q.slots[s], recno, fragno)
    ensures FreeBytes(q.slots) == FreeBytes(p.slots) - (newsize - |Data(p, s)|)
    ensures |Data(q, s)| == newsize
    ensures if newsize >= |Data(p, s)| then Data(p, s) <= Data(q, s) else Data(q, s) <= Data(p, s)
  {
    hide Has, Value, LaidOut, Sorted;
    var slot, size := Measure(p, recno, fragno);
    SlotInRange(p, slot);
    var b := new Block.CopyOf(p);
    b.Resize(slot, newsize - size);
    q := b.Copy();
    s := slot;
    GrownValid(p, q, slot, newsize - size);
    GrownData(p, q, slot, newsize - size);
  }
}
