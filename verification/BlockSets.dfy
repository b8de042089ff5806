/** Many blocks together hold one map from (record, fragment) to bytes. */
module BlockSets {
  import opened Collections
  import opened Pages
  import opened PageMaps
  import opened Blocks

  type Key = (nat, nat)

  /** What a collection of blocks holds: the bytes of every fragment, the block where each is, and the room
      left in each block. */
  datatype Whole = Whole(data: Contents, home: map<Key, nat>, room: seq<int>)

  ghost predicate Keyed(w: Whole)
  {
    w.home.Keys == w.data.Keys && forall key | key in w.home :: w.home[key] < |w.room|
  }

  /** The part of the map that one block holds. */
  ghost function Part(data: Contents, home: map<Key, nat>, i: nat): Contents
  {
    data - (set key | key in data && (key in home ==> home[key] != i))
  }

  /** The map after a change in block `i` of the value of one key. */
  ghost function Patched(w: Whole, key: Key, i: nat, part: Contents, room: int): Whole
    requires i < |w.room|
  {
    if key in part then Whole(w.data[key := part[key]], w.home[key := i], w.room[i := room])
    else Whole(w.data - {key}, w.home - {key}, w.room[i := room])
  }

  lemma PatchedParts(w: Whole, key: Key, i: nat, part: Contents, room: int)
    requires Keyed(w) && i < |w.room| && (key in w.home ==> w.home[key] == i)
    requires part - {key} == Part(w.data, w.home, i) - {key}
    ensures var w' := Patched(w, key, i, part, room);
            && Keyed(w') && Part(w'.data, w'.home, i) == part
            && forall j: nat | j != i :: Part(w'.data, w'.home, j) == Part(w.data, w.home, j)
  {
    var w' := Patched(w, key, i, part, room);
    var was, now := Part(w.data, w.home, i), Part(w'.data, w'.home, i);
    forall k ensures k in now <==> k in part
             ensures k in now ==> now[k] == part[k]
    {
      if k != key {
        assert k in part <==> k in part - {key};
        assert k in was <==> k in was - {key};
        assert k in was ==> (was - {key})[k] == was[k] == w.data[k];
      }
    }
    assert now == part;
    forall j: nat | j != i ensures Part(w'.data, w'.home, j) == Part(w.data, w.home, j) {
      assert Part(w'.data, w'.home, j) == Part(w.data, w.home, j);
    }
  }

  // ----- what an operation does to the whole map -----

  /** A fragment that grows stays in its block if there is room for the increment. */
  ghost predicate InPlace(w: Whole, key: Key, newsize: nat)
    requires Keyed(w) && key in w.data
  {
    newsize - |w.data[key]| <= w.room[w.home[key]]
  }

  ghost predicate RoomFor(w: Whole, size: nat, target: nat)
  {
    target < |w.room| && size + ENTRY_SIZE <= w.room[target]
  }

  /** An operation can be done: `target` is the block for a fragment that is new or has to move. */
  ghost predicate CanServe(w: Whole, op: Op, target: nat)
    requires Keyed(w)
  {
    var key := (op.recno, op.fragno);
    match op
    case Write(_, _, data, offset) =>
      if key in w.data then offset + |data| <= |w.data[key]| else RoomFor(w, |data| + offset, target)
    case Grow(_, _, newsize) => key in w.data && (InPlace(w, key, newsize) || RoomFor(w, newsize, target))
    case Delete(_, _) => key in w.data
  }

  /** Where the fragments are afterwards. */
  ghost function HomeAfter(w: Whole, op: Op, target: nat): map<Key, nat>
    requires Keyed(w)
  {
    var key := (op.recno, op.fragno);
    match op
    case Write(_, _, _, _) => if key in w.data then w.home else w.home[key := target]
    case Grow(_, _, newsize) => if key in w.data && !InPlace(w, key, newsize) then w.home[key := target] else w.home
    case Delete(_, _) => w.home - {key}
  }

  /** The room afterwards: a fragment takes its size and a slot from the block it is in. */
  ghost function RoomAfter(w: Whole, op: Op, target: nat): seq<int>
    requires Keyed(w) && CanServe(w, op, target)
  {
    var key := (op.recno, op.fragno);
    if key !in w.data then w.room[target := w.room[target] - (|op.data| + op.offset + ENTRY_SIZE)] else
      var b, size := w.home[key], |w.data[key]|;
      var without := w.room[b := w.room[b] + size + ENTRY_SIZE];
      match op
      case Write(_, _, _, _) => w.room
      case Grow(_, _, newsize) =>
        if InPlace(w, key, newsize) then w.room[b := w.room[b] - (newsize - size)]
        else without[target := without[target] - newsize - ENTRY_SIZE]
      case Delete(_, _) => without
  }

  /** One operation on the whole collection: it is done exactly if there is room, then changes the one map
      as specified, and otherwise nothing. */
  ghost predicate Served(w: Whole, op: Op, target: nat, done: bool, w': Whole)
  {
    && Keyed(w) && Keyed(w')
    && (done <==> CanServe(w, op, target))
    && (done ==> Step(w.data, op, w'.data) && w'.home == HomeAfter(w, op, target) && w'.room == RoomAfter(w, op, target))
    && (done && op.Grow? && !InPlace(w, (op.recno, op.fragno), op.newsize) ==>
          w'.data[(op.recno, op.fragno)] == Resized(w.data[(op.recno, op.fragno)], op.newsize))
    && (!done ==> w' == w)
  }

  /** The operation does not have to move its fragment to another block. */
  ghost predicate Stays(w: Whole, op: Op)
    requires Keyed(w)
  {
    op.Grow? && (op.recno, op.fragno) in w.data ==> InPlace(w, (op.recno, op.fragno), op.newsize)
  }

  /** What is done to the part in block `i`, for a fragment that is there or nowhere, is done to the whole. */
  lemma ServedInBlock(w: Whole, op: Op, i: nat, target: nat, done: bool, part: Contents, room: int) returns (w': Whole)
    requires Keyed(w) && i < |w.room|
    requires var key := (op.recno, op.fragno); if key in w.home then w.home[key] == i else i == target
    requires Performed(Part(w.data, w.home, i), op, w.room[i], done, part, room)
    ensures done ==> Stays(w, op)
    ensures Stays(w, op) ==> Served(w, op, target, done, w')
    ensures !done ==> w' == w
    ensures |w'.room| == |w.room| && Part(w'.data, w'.home, i) == part && w'.room[i] == room
    ensures forall j: nat | j != i :: Part(w'.data, w'.home, j) == Part(w.data, w.home, j)
    ensures forall j: nat | j < |w.room| && j != i :: w'.room[j] == w.room[j]
  {
    var key := (op.recno, op.fragno);
    var was := Part(w.data, w.home, i);
    assert key in was <==> key in w.data;
    if done {
      w' := Patched(w, key, i, part, room);
      PatchedParts(w, key, i, part, room);
      assert w'.data - {key} == w.data - {key};
      assert w'.home == HomeAfter(w, op, target);
      assert w'.room == RoomAfter(w, op, target);
    } else {
      w' := w;
    }
  }

  /** A fragment moved from block `i` to block `j`. */
  lemma ServedMove(w: Whole, key: Key, newsize: nat, i: nat, j: nat, from: Contents, to: Contents) returns (w': Whole)
    requires Keyed(w) && key in w.data && w.home[key] == i != j && !InPlace(w, key, newsize)
    requires RoomFor(w, newsize, j)
    requires Step(Part(w.data, w.home, i), Delete(key.0, key.1), from)
    requires to - {key} == Part(w.data, w.home, j) - {key} && key in to
    requires to[key] == Resized(w.data[key], newsize)
    ensures Served(w, Grow(key.0, key.1, newsize), j, true, w')
    ensures |w'.room| == |w.room| && Part(w'.data, w'.home, i) == from && Part(w'.data, w'.home, j) == to
    ensures forall k: nat | k != i && k != j :: Part(w'.data, w'.home, k) == Part(w.data, w.home, k)
    ensures w'.room == w.room[i := w.room[i] + |w.data[key]| + ENTRY_SIZE][j := w.room[j] - newsize - ENTRY_SIZE]
  {
    var gone := Patched(w, key, i, from, w.room[i] + |w.data[key]| + ENTRY_SIZE);
    PatchedParts(w, key, i, from, w.room[i] + |w.data[key]| + ENTRY_SIZE);
    w' := Patched(gone, key, j, to, w.room[j] - newsize - ENTRY_SIZE);
    PatchedParts(gone, key, j, to, w.room[j] - newsize - ENTRY_SIZE);
    assert w'.data - {key} == w.data - {key};
    assert w'.home == w.home[key := j];
  }

  // ----- a collection of blocks -----

  ghost predicate Apart(blocks: seq<Block>)
  {
    forall i, j | 0 <= i < j < |blocks| :: blocks[i] != blocks[j] && blocks[i].bytes != blocks[j].bytes
  }

  ghost predicate BlockHolds(b: Block, part: Contents, room: int)
    reads b, b.bytes
  {
    b.Valid() && Holds(b.Contents(), part) && FreeBytes(b.slots) == room
  }

  /** Each block holds its part of the map. */
  ghost predicate Hold(blocks: seq<Block>, w: Whole)
    reads blocks, set b | b in blocks :: b.bytes
  {
    && Keyed(w) && |blocks| == |w.room|
    && forall i | 0 <= i < |blocks| :: BlockHolds(blocks[i], Part(w.data, w.home, i), w.room[i])
  }

  /** Every fragment is read back from the block where it is, and is in no other. */
  lemma ReadBack(blocks: seq<Block>, w: Whole, key: Key, i: nat)
    requires Hold(blocks, w) && i < |blocks|
    ensures blocks[i].Valid()
    ensures Value(blocks[i].Contents(), key.0, key.1) ==
            if key in w.data && w.home[key] == i then Some(w.data[key]) else None
  {
    assert BlockHolds(blocks[i], Part(w.data, w.home, i), w.room[i]);
    assert key in Part(w.data, w.home, i) <==> key in w.data && w.home[key] == i;
  }

  /** An operation on the block where its fragment is, or is to be. */
  method ServeIn(blocks: seq<Block>, i: nat, op: Op, ghost target: nat, ghost w: Whole)
    returns (done: bool, ghost w': Whole)
    requires Apart(blocks) && Hold(blocks, w) && i < |blocks|
    requires var key := (op.recno, op.fragno); if key in w.home then w.home[key] == i else i == target
    modifies blocks[i], blocks[i].bytes
    ensures Hold(blocks, w')
    ensures done ==> Stays(w, op)
    ensures Stays(w, op) ==> Served(w, op, target, done, w')
    ensures !done ==> w' == w
  {
    ghost var part;
    assert BlockHolds(blocks[i], Part(w.data, w.home, i), w.room[i]);
    done, part := Apply(blocks[i], op, Part(w.data, w.home, i));
    w' := ServedInBlock(w, op, i, target, done, part, FreeBytes(blocks[i].slots));
    forall j | 0 <= j < |blocks| ensures BlockHolds(blocks[j], Part(w'.data, w'.home, j), w'.room[j]) {
      if j != i {
        assert old(BlockHolds(blocks[j], Part(w.data, w.home, j), w.room[j]));
      }
    }
  }

  /** Growing a fragment by moving it to a block with room. */
  method MoveOut(blocks: seq<Block>, key: Key, newsize: nat, i: nat, j: nat, ghost w: Whole) returns (ghost w': Whole)
    requires Apart(blocks) && Hold(blocks, w) && i < |blocks| && j < |blocks| && i != j
    requires key in w.data && w.home[key] == i && !InPlace(w, key, newsize) && RoomFor(w, newsize, j)
    modifies blocks[i], blocks[i].bytes, blocks[j], blocks[j].bytes
    ensures Hold(blocks, w') && Served(w, Grow(key.0, key.1, newsize), j, true, w')
  {
    ghost var from, to;
    ghost var m, n := Part(w.data, w.home, i), Part(w.data, w.home, j);
    assert BlockHolds(blocks[i], m, w.room[i]) && BlockHolds(blocks[j], n, w.room[j]);
    from, to := Relocate(blocks[i], blocks[j], key.0, key.1, newsize, m, n);
    w' := ServedMove(w, key, newsize, i, j, from, to);
    forall k | 0 <= k < |blocks| ensures BlockHolds(blocks[k], Part(w'.data, w'.home, k), w'.room[k]) {
      if k != i && k != j {
        assert old(BlockHolds(blocks[k], Part(w.data, w.home, k), w.room[k]));
      }
    }
  }

  /** One operation.  The table `home` says where each fragment is; one that is new, or that does not fit
      where it is any more, goes to block `target`. */
  method Serve(blocks: seq<Block>, home: map<Key, nat>, op: Op, target: nat, ghost w: Whole)
    returns (done: bool, home': map<Key, nat>, ghost w': Whole)
    requires Apart(blocks) && Hold(blocks, w) && home == w.home
    modifies blocks, set b | b in blocks :: b.bytes
    ensures Hold(blocks, w') && home' == w'.home
    ensures Served(w, op, target, done, w')
  {
    var key := (op.recno, op.fragno);
    home', w', done := home, w, false;
    if key in home {
      done, w' := ServeIn(blocks, home[key], op, target, w);
      if op.Delete? {
        home' := home - {key};
      }
      if !done && op.Grow? && target < |blocks| {
        assert BlockHolds(blocks[target], Part(w.data, w.home, target), w.room[target]);
        if op.newsize + ENTRY_SIZE <= FreeBytes(blocks[target].slots) {
          w' := MoveOut(blocks, key, op.newsize, home[key], target, w);
          home', done := home[key := target], true;
        }
      }
    } else if op.Write? && target < |blocks| {
      done, w' := ServeIn(blocks, target, op, target, w);
      if done {
        home' := home[key := target];
      }
    }
  }

  // ----- runs -----

  /** What is asked of the collection: an operation, and the block for a fragment that needs one. */
  datatype Request = Request(op: Op, target: nat)

  ghost function Empty(n: nat): Whole { Whole(map[], map[], seq(n, _ => BLOCK_SIZE - HeaderSize(0))) }

  method NewBlocks(n: nat) returns (blocks: seq<Block>)
    ensures |blocks| == n && Apart(blocks) && (forall b | b in blocks :: fresh(b) && fresh(b.bytes))
    ensures Hold(blocks, Empty(n))
  {
    blocks := [];
    for k := 0 to n
      invariant |blocks| == k && Apart(blocks) && forall b | b in blocks :: fresh(b) && fresh(b.bytes)
      invariant Hold(blocks, Empty(k))
    {
      var b := new Block();
      ghost var was := blocks;
      assert forall i | 0 <= i < k :: BlockHolds(blocks[i], Part(map[], map[], i), Empty(k).room[i]);
      blocks := blocks + [b];
      forall i | 0 <= i < k + 1 ensures BlockHolds(blocks[i], Part(map[], map[], i), Empty(k + 1).room[i]) {
        if i == k {
          forall r: nat, f: nat ensures Value(b.Contents(), r, f) == None {
            ValueNone(b.Contents(), r, f);
          }
        }
      }
    }
  }

  /** Any run of writes, growth in place or by moving, and deletions on any number of blocks refines one map
      from (record, fragment) to bytes, step by step.  Whether a step is done, where each fragment is and
      what room each block has left follow from the map and the places alone. */
  method RunBlocks(n: nat, requests: seq<Request>)
    returns (blocks: seq<Block>, done: seq<bool>, ghost states: seq<Whole>)
    ensures |blocks| == n && Apart(blocks)
    ensures |done| == |requests| && |states| == |requests| + 1 && states[0] == Empty(n)
    ensures forall k {:trigger done[k]} | 0 <= k < |requests| ::
              Served(states[k], requests[k].op, requests[k].target, done[k], states[k + 1])
    ensures Hold(blocks, states[|requests|])
  {
    blocks := NewBlocks(n);
    var home: map<Key, nat> := map[];
    done, states := [], [Empty(n)];
    for k := 0 to |requests|
      invariant |blocks| == n && Apart(blocks) && forall b | b in blocks :: fresh(b) && fresh(b.bytes)
      invariant |done| == k && |states| == k + 1 && states[0] == Empty(n)
      invariant forall j {:trigger done[j]} | 0 <= j < k ::
                  Served(states[j], requests[j].op, requests[j].target, done[j], states[j + 1])
      invariant Hold(blocks, states[k]) && home == states[k].home
    {
      var ok;
      ghost var w;
      ok, home, w := Serve(blocks, home, requests[k].op, requests[k].target, states[k]);
      done, states := done + [ok], states + [w];
    }
  }
}
