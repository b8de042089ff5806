/** A cached block, changed in place. */
module Blocks {
  import opened Collections
  import opened Pages
  import opened PageMaps

  class Block {
    var slots: seq<Slot>
    var recindex: seq<nat>
    const bytes: array<byte>

    /** The block as a value. */
    ghost function Contents(): Page
      reads this, bytes
    {
      Page(slots, recindex, bytes[..])
    }

    ghost predicate Valid()
      reads this, bytes
    {
      Pages.Valid(Contents())
    }

    /** A block that is being created: all zero. */
    constructor ()
      ensures Valid() && fresh(bytes)
      ensures Contents() == Page([], [], seq(BLOCK_SIZE, _ => 0))
    {
      slots, recindex := [], [];
      bytes := new byte[BLOCK_SIZE](_ => 0);
      new;
      assert bytes[..] == seq(BLOCK_SIZE, _ => 0);
    }
    /** A block with the contents of another one, such as one read from disk. */
    constructor CopyOf(p: Page)
      requires Pages.Valid(p)
      ensures fresh(bytes) && Contents() == p
    {
      slots, recindex := p.slots, p.recindex;
      bytes := new byte[BLOCK_SIZE](i requires 0 <= i < |p.bytes| => p.bytes[i]);
      new;
      assert bytes[..] == p.bytes;
    }

    method Copy() returns (p: Page)
      ensures p == Contents()
    {
      p := Page(slots, recindex, bytes[..]);
    }

    /** The binary search for a record among the sorted slots. */
    method Find(recno: nat, fragno: nat) returns (position: Option<nat>)
      requires Valid()
      ensures position.Some? ==> position.value < |recindex| && recindex[position.value] < |slots|
                                 && Is(slots[recindex[position.value]], recno, fragno)
      ensures position.None? <==> !Has(slots, recno, fragno)
    {
      ghost var key := Slot(recno, fragno, 0);
      var lo, hi: int := 0, |slots| - 1;
      while hi >= lo
        invariant 0 <= lo <= hi + 1 <= |slots|
        invariant forall i | 0 <= i < |slots| && (i < lo || hi < i) :: !Is(slots[recindex[i]], recno, fragno)
        decreases hi - lo
      {
        var mi := (hi + lo) / 2;
        var mirec := slots[recindex[mi]];
        if Is(mirec, recno, fragno) {
          return Some(mi);
        }
        SearchStep(slots, recindex, mi, key);
        if fragno < mirec.fragnum || (fragno == mirec.fragnum && recno < mirec.recnum) {
          hi := mi - 1;
        } else {
          lo := mi + 1;
        }
      }
      forall s | 0 <= s < |slots| ensures !Is(slots[s], recno, fragno) {
        var i := Listed(slots, recindex, s);
      }
      position := None;
    }

    /** The binary search for the place of a new record. */
    method Place(recno: nat, fragno: nat) returns (position: nat)
      requires Valid() && !Has(slots, recno, fragno)
      ensures Splits(Contents(), recno, fragno, position)
    {
      ghost var key := Slot(recno, fragno, 0);
      if slots == [] {
        return 0;
      }
      var lo, hi := 0, |slots| - 1;
      while hi > lo
        invariant 0 <= lo <= hi < |slots|
        invariant forall i | 0 <= i < lo :: KeyLess(slots[recindex[i]], key)
        invariant forall i | hi < i < |slots| :: KeyLess(key, slots[recindex[i]])
        decreases hi - lo
      {
        var mi := (hi + lo) / 2;
        var prec := slots[recindex[mi]];
        assert !Is(prec, recno, fragno);
        SearchStep(slots, recindex, mi, key);
        if prec.fragnum < fragno || (prec.fragnum == fragno && prec.recnum < recno) {
          lo := mi + 1;
        } else {
          hi := mi;
        }
      }
      var prec := slots[recindex[lo]];
      assert !Is(prec, recno, fragno);
      if prec.fragnum > fragno || (prec.fragnum == fragno && prec.recnum > recno) {
        position := lo;
      } else {
        position := lo + 1;
      }
    }

    /** `BFrecord_frag_read`: the bytes of a record from an offset on, as many as there are. */
    method Read(recno: nat, fragno: nat, numbytes: nat, offset: nat) returns (data: Option<seq<byte>>)
      requires Valid()
      requires var v := Value(Contents(), recno, fragno); v.Some? ==> offset <= |v.value|
      ensures var v := Value(Contents(), recno, fragno);
              && (v.None? ==> data.None?)
              && (v.Some? ==> data == Some(if numbytes > |v.value| - offset then v.value[offset..]
                                           else v.value[offset..offset + numbytes]))
    {
      var position := Find(recno, fragno);
      match position
      case None =>
        ValueNone(Contents(), recno, fragno);
        return None;
      case Some(i) =>
        var s := recindex[i];
        ValueAt(Contents(), s);
        var addr := slots[s].addr;
        var available := (if s == 0 then BLOCK_SIZE else slots[s - 1].addr) - (addr + offset);
        var n := if numbytes > available then available else numbytes;
        SlotInRange(Contents(), s);
        DataPart(Contents(), s, offset, n);
        return Some(bytes[addr + offset..addr + offset + n]);
    }

    /** Make room at a position of the permutation for a new slot number. */
    method OpenIndex(position: nat, n: nat)
      requires position <= n == |recindex|
      modifies `recindex
      ensures Opened(old(recindex), recindex, position, n)
    {
      recindex := recindex + [n];
      var i := n;
      while i > position
        invariant position <= i <= n && |recindex| == n + 1
        invariant forall j | 0 <= j < i :: recindex[j] == old(recindex[j])
        invariant forall j {:trigger recindex[j]} | i < j <= n :: recindex[j] == old(recindex[j - 1])
      {
        recindex := recindex[i := recindex[i - 1]];
        i := i - 1;
      }
      recindex := recindex[position := n];
    }

    method StoreBytes(at: nat, buffer: seq<byte>)
      requires at + |buffer| <= bytes.Length
      modifies bytes
      ensures Stored(old(bytes[..]), bytes[..], at, buffer)
    {
      forall k | 0 <= k < |buffer| {
        bytes[at + k] := buffer[k];
      }
    }

    /** Add a record for which the caller has found room, leaving its first `offset` bytes alone. */
    method Add(recno: nat, fragno: nat, buffer: seq<byte>, offset: nat) returns (ghost k: nat)
      requires Valid() && !Has(slots, recno, fragno)
      requires |buffer| + offset + ENTRY_SIZE <= FreeBytes(slots)
      modifies this, bytes
      ensures Valid()
      ensures Splits(old(Contents()), recno, fragno, k)
      ensures Added(old(Contents()), Contents(), recno, fragno, buffer, offset, k)
    {
      ghost var p := Contents();
      var position := Place(recno, fragno);
      var n := |slots|;
      var lastoffset := if n != 0 then slots[n - 1].addr else BLOCK_SIZE;
      var blockoffset := lastoffset - |buffer|;
      slots := slots + [Slot(recno, fragno, blockoffset - offset)];
      OpenIndex(position, n);
      StoreBytes(blockoffset, buffer);
      AddedValid(p, Contents(), recno, fragno, buffer, offset, position);
      k := position;
    }

    /** Overwrite bytes from an offset into a record on; the result is its slot, if it is here.  Nothing checks
        that they stay within the record, only that they stay within the block is asked for here. */
    method Overwrite(recno: nat, fragno: nat, buffer: seq<byte>, offset: nat) returns (slot: Option<nat>)
      requires Valid()
      requires forall s | 0 <= s < |slots| && Is(slots[s], recno, fragno) ::
                 slots[s].addr + offset + |buffer| <= BLOCK_SIZE
      modifies bytes
      ensures Valid()
      ensures slot.None? <==> !Has(slots, recno, fragno)
      ensures slot.None? ==> Contents() == old(Contents())
      ensures slot.Some? ==> slot.value < |slots| && Is(slots[slot.value], recno, fragno)
      ensures slot.Some? ==> Overwritten(old(Contents()), Contents(), slot.value, buffer, offset)
    {
      var position := Find(recno, fragno);
      if position.None? {
        return None;
      }
      var s := recindex[position.value];
      StoreBytes(slots[s].addr + offset, buffer);
      return Some(s);
    }

    /** `memmove` within the block. */
    method MoveBytes(dst: nat, src: nat, n: nat)
      requires dst + n <= bytes.Length && src + n <= bytes.Length
      modifies bytes
      ensures Moved(old(bytes[..]), bytes[..], dst, src, n)
    {
      forall k | 0 <= k < n {
        bytes[dst + k] := bytes[src + k];
      }
    }

    /** Move the slots behind `s` down by one and their addresses up by `distance`. */
    method CloseSlots(s: nat, distance: nat)
      requires s < |slots|
      modifies `slots
      ensures Closed(old(slots), slots, s, distance)
    {
      var i := s + 1;
      while i < |slots|
        invariant s < i <= |slots| == |old(slots)|
        invariant forall t | 0 <= t < s || i <= t < |slots| :: slots[t] == old(slots[t])
        invariant forall t {:trigger slots[t]} | s <= t < i - 1 ::
                    slots[t] == old(slots[t + 1]).(addr := old(slots[t + 1]).addr + distance)
      {
        slots := slots[i - 1 := Slot(slots[i].recnum, slots[i].fragnum, slots[i].addr + distance)];
        i := i + 1;
      }
      slots := slots[..|slots| - 1];
    }

    /** Drop position `k`, which lists slot `s`, and renumber the slots behind that one. */
    method CloseIndex(k: nat, s: nat)
      requires k < |recindex| && recindex[k] == s
      modifies `recindex
      ensures Renumbered(old(recindex), recindex, k)
    {
      var i := 0;
      while i < |recindex|
        invariant 0 <= i <= |recindex| == |old(recindex)|
        invariant forall j | 0 <= j < i && j < k :: recindex[j] == Lowered(old(recindex[j]), s)
        invariant forall j {:trigger recindex[j]} | k <= j < i - 1 :: recindex[j] == Lowered(old(recindex[j + 1]), s)
        invariant forall j | i <= j < |recindex| :: recindex[j] == old(recindex[j])
      {
        if i != k {
          var mapvalue := recindex[i];
          if mapvalue > s {
            mapvalue := mapvalue - 1;
          }
          recindex := recindex[(if i > k then i - 1 else i) := mapvalue];
        }
        i := i + 1;
      }
      recindex := recindex[..|recindex| - 1];
    }

    method DeleteAt(k: nat)
      requires Valid() && k < |recindex|
      modifies this, bytes
      ensures Valid() && Deleted(old(Contents()), Contents(), k)
    {
      ghost var p := Contents();
      var s := recindex[k];
      SlotInRange(p, s);
      var addr := slots[s].addr;
      var distance := (if s != 0 then slots[s - 1].addr else BLOCK_SIZE) - addr;
      var bottom := slots[|slots| - 1].addr;
      MoveBytes(bottom + distance, bottom, addr - bottom);
      CloseSlots(s, distance);
      CloseIndex(k, s);
      DeletedBy(p, Contents(), k, distance, bottom, addr - bottom);
    }

    /** `_BFrecord_delete`: close the gap the record leaves, in the data and in both tables.  The result
        is its position among the sorted slots, if it was here. */
    method Delete(recno: nat, fragno: nat) returns (position: Option<nat>)
      requires Valid()
      modifies this, bytes
      ensures Valid()
      ensures position.None? <==> !Has(old(slots), recno, fragno)
      ensures position.None? ==> Contents() == old(Contents())
      ensures position.Some? ==> Deleted(old(Contents()), Contents(), position.value)
                                 && Is(old(slots[recindex[position.value]]), recno, fragno)
    {
      position := Find(recno, fragno);
      if position.Some? {
        DeleteAt(position.value);
      }
    }

    method ShiftSlots(s: nat, increment: int)
      requires s < |slots|
      requires forall t | s <= t < |slots| :: slots[t].addr >= increment
      modifies `slots
      ensures Shifted(old(slots), slots, s, increment)
    {
      var i := s;
      while i < |slots|
        invariant s <= i <= |slots| == |old(slots)|
        invariant forall t | 0 <= t < s || i <= t < |slots| :: slots[t] == old(slots[t])
        invariant forall t | s <= t < i :: slots[t] == old(slots[t]).(addr := old(slots[t]).addr - increment)
      {
        slots := slots[i := slots[i].(addr := slots[i].addr - increment)];
        i := i + 1;
      }
    }

    /** Give the record in slot `s` another size in place, for which there is room. */
    method Resize(s: nat, increment: int)
      requires Valid() && CanGrow(Contents(), s, increment)
      modifies `slots, bytes
      ensures Valid() && Grown(old(Contents()), Contents(), s, increment)
    {
      ghost var p := Contents();
      RoomToShift(p, s, increment);
      var lastoffset := if s != 0 then slots[s - 1].addr else BLOCK_SIZE;
      var bottom := slots[|slots| - 1].addr;
      var n := lastoffset - bottom + if increment < 0 then increment else 0;
      MoveBytes(bottom - increment, bottom, n);
      ShiftSlots(s, increment);
      GrownBy(p, Contents(), s, increment, bottom - increment, bottom, n);
    }
  }

  /** What an operation does to a block that holds `m`: if it can be done, it takes its cost in room and
      changes the map as specified; if not, nothing happens. */
  ghost predicate Performed(m: Contents, op: Op, room: int, done: bool, m': Contents, room': int)
  {
    && (done <==> CanDo(m, op, room))
    && (if done then Step(m, op, m') && room' == room - Cost(m, op) else m' == m && room' == room)
  }

  method ApplyDelete(b: Block, recno: nat, fragno: nat, ghost m: Contents) returns (done: bool, ghost m': Contents)
    requires b.Valid() && Holds(b.Contents(), m)
    modifies b, b.bytes
    ensures b.Valid() && Holds(b.Contents(), m')
    ensures Performed(m, Delete(recno, fragno), old(FreeBytes(b.slots)), done, m', FreeBytes(b.slots))
  {
    ghost var p := b.Contents();
    var position := b.Delete(recno, fragno);
    done, m' := position.Some?, m;
    if done {
      ValueAt(p, p.recindex[position.value]);
      DeletedMap(p, b.Contents(), position.value);
      DeletedValid(p, b.Contents(), position.value);
      m' := HoldsUpdate(p, b.Contents(), m, recno, fragno);
    } else {
      ValueNone(p, recno, fragno);
    }
  }

  method ApplyOverwrite(b: Block, s: nat, data: seq<byte>, offset: nat, ghost m: Contents)
    returns (done: bool, ghost m': Contents)
    requires b.Valid() && Holds(b.Contents(), m) && s < |b.slots|
    modifies b, b.bytes
    ensures b.Valid() && Holds(b.Contents(), m')
    ensures Performed(m, Write(old(b.slots[s]).recnum, old(b.slots[s]).fragnum, data, offset),
                      old(FreeBytes(b.slots)), done, m', FreeBytes(b.slots))
  {
    m' := m;
    ghost var p := b.Contents();
    var recno, fragno := b.slots[s].recnum, b.slots[s].fragnum;
    SlotInRange(p, s);
    ValueAt(p, s);
    done := b.slots[s].addr + offset + |data| <= Above(b.slots, s);
    if done {
      forall t: nat | t < |p.slots| && t != s ensures !Is(p.slots[t], recno, fragno) {
        KeysUnique(p.slots, p.recindex, t, s);
      }
      SlotInRange(p, s);
      var slot := b.Overwrite(recno, fragno, data, offset);
      if slot.None? {
        assert false;
      }
      OverwrittenMap(p, b.Contents(), s, data, offset);
      m' := HoldsUpdate(p, b.Contents(), m, recno, fragno);
    }
  }

  method ApplyWrite(b: Block, recno: nat, fragno: nat, data: seq<byte>, offset: nat, ghost m: Contents)
    returns (done: bool, ghost m': Contents)
    requires b.Valid() && Holds(b.Contents(), m)
    modifies b, b.bytes
    ensures b.Valid() && Holds(b.Contents(), m')
    ensures Performed(m, Write(recno, fragno, data, offset), old(FreeBytes(b.slots)), done, m', FreeBytes(b.slots))
  {
    m' := m;
    ghost var p := b.Contents();
    var position := b.Find(recno, fragno);
    if position.None? {
      ValueNone(p, recno, fragno);
      done := |data| + offset + ENTRY_SIZE <= FreeBytes(b.slots);
      if done {
        ghost var k := b.Add(recno, fragno, data, offset);
        AddedMap(p, b.Contents(), recno, fragno, data, offset, k);
        AddedValid(p, b.Contents(), recno, fragno, data, offset, k);
        m' := HoldsUpdate(p, b.Contents(), m, recno, fragno);
      }
    } else {
      done, m' := ApplyOverwrite(b, b.recindex[position.value], data, offset, m);
    }
  }

  method ApplyGrow(b: Block, recno: nat, fragno: nat, newsize: nat, ghost m: Contents)
    returns (done: bool, ghost m': Contents)
    requires b.Valid() && Holds(b.Contents(), m)
    modifies b, b.bytes
    ensures b.Valid() && Holds(b.Contents(), m')
    ensures Performed(m, Grow(recno, fragno, newsize), old(FreeBytes(b.slots)), done, m', FreeBytes(b.slots))
  {
    m' := m;
    done := false;
    ghost var p := b.Contents();
    var position := b.Find(recno, fragno);
    if position.Some? {
      var s := b.recindex[position.value];
      SlotInRange(p, s);
      ValueAt(p, s);
      var oldsize := Above(b.slots, s) - b.slots[s].addr;
      var increment := newsize - oldsize;
      done := increment <= FreeBytes(b.slots);
      if done {
        b.Resize(s, increment);
        GrownMap(p, b.Contents(), s, increment);
        GrownValid(p, b.Contents(), s, increment);
        m' := HoldsUpdate(p, b.Contents(), m, recno, fragno);
      }
    } else {
      ValueNone(p, recno, fragno);
    }
  }

  /** One operation on a block. */
  method Apply(b: Block, op: Op, ghost m: Contents) returns (done: bool, ghost m': Contents)
    requires b.Valid() && Holds(b.Contents(), m)
    modifies b, b.bytes
    ensures b.Valid() && Holds(b.Contents(), m')
    ensures Performed(m, op, old(FreeBytes(b.slots)), done, m', FreeBytes(b.slots))
  {
    match op
    case Write(recno, fragno, data, offset) =>
      done, m' := ApplyWrite(b, recno, fragno, data, offset, m);
    case Grow(recno, fragno, newsize) =>
      done, m' := ApplyGrow(b, recno, fragno, newsize, m);
    case Delete(recno, fragno) =>
      done, m' := ApplyDelete(b, recno, fragno, m);
  }

  /** A record's bytes in a record of another size: as many as fit, then zeros. */
  function Resized(data: seq<byte>, size: nat): seq<byte>
  {
    if size <= |data| then data[..size] else data + seq(size - |data|, _ => 0)
  }

  /** The other way a record grows, when its block has no room for the increment: its bytes are copied
      out, filled up with zeros, and written to another block.  Both blocks keep to their maps, and the
      bytes that the record had are those it still has. */
  method Relocate(b: Block, c: Block, recno: nat, fragno: nat, newsize: nat, ghost m: Contents, ghost n: Contents)
    returns (ghost m': Contents, ghost n': Contents)
    requires b != c && b.bytes != c.bytes && b.Valid() && c.Valid()
    requires Holds(b.Contents(), m) && Holds(c.Contents(), n)
    requires (recno, fragno) in m && (recno, fragno) !in n && newsize + ENTRY_SIZE <= FreeBytes(c.slots)
    modifies b, b.bytes, c, c.bytes
    ensures b.Valid() && c.Valid() && Holds(b.Contents(), m') && Holds(c.Contents(), n')
    ensures Step(m, Delete(recno, fragno), m') && n' - {(recno, fragno)} == n - {(recno, fragno)}
    ensures (recno, fragno) in n'
    ensures n'[(recno, fragno)] == Resized(m[(recno, fragno)], newsize)
    ensures FreeBytes(b.slots) == old(FreeBytes(b.slots)) + |m[(recno, fragno)]| + ENTRY_SIZE
    ensures FreeBytes(c.slots) == old(FreeBytes(c.slots)) - newsize - ENTRY_SIZE
  {
    assert Value(b.Contents(), recno, fragno) == Some(m[(recno, fragno)]);
    var data := b.Read(recno, fragno, newsize, 0);
    var buffer := data.value + seq(newsize - |data.value|, _ => 0);
    assert buffer == Resized(m[(recno, fragno)], newsize);
    var gone, stored;
    gone, m' := ApplyDelete(b, recno, fragno, m);
    stored, n' := ApplyWrite(c, recno, fragno, buffer, 0, n);
    assert n'[(recno, fragno)][0..0 + |buffer|] == n'[(recno, fragno)];
  }
}
