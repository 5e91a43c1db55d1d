/** The byte queue: entries with a length header in a growable arena, with reuse of deleted entries. */
module Queues {
  import opened Bytes
  import opened Regions
  import opened FreeLists
  import opened Arena

  /** What reading an index of the arena does: an error, a window onto the arena, or a slice out of range. */
  datatype Peeked = Refused | Window(start: int, size: int) | Panics

  // ---------------------------------------------------------------- what Push does, on values

  /** The free list has no block that it would hand out for n bytes. */
  ghost predicate NoneFits(idle: Regions, n: int) {
    forall s :: s in idle ==> idle[s] == 4096 || idle[s] < n
  }

  ghost predicate CanWrap(q: State, n: int) {
    q.head <= q.tail && n <= q.head - LEFT_MARGIN - MINIMUM_EMPTY_BLOB
  }

  /** n more bytes need a larger arena. */
  ghost predicate MustGrow(q: State, n: int) {
    NoneFits(IdleIn(q.tiles), n) && !RoomAtTail(q, n) && !CanWrap(q, n)
  }

  ghost predicate Refuses(q: State, n: int, maxCapacity: int) {
    MustGrow(q, n) && maxCapacity > 0 && |q.bytes| + n >= maxCapacity
  }

  /** The capacity after growing for n more bytes: doubled, within the limit if there is one. */
  function Grown(capacity: int, n: int, maxCapacity: int): int {
    var c := 2 * if capacity < n then capacity + n else capacity;
    if c > maxCapacity && maxCapacity > 0 then maxCapacity else c
  }

  /** The capacity after n more bytes are accepted. */
  ghost function CapacityAfter(q: State, n: int, maxCapacity: int): int {
    if MustGrow(q, n) then Grown(|q.bytes|, n, maxCapacity) else |q.bytes|
  }

  /** Growing a wrapped queue turns it round. */
  ghost predicate Rotates(q: State, n: int) {
    MustGrow(q, n) && q.tail < q.head
  }

  /** The entries in the arena before the new one is added. */
  ghost function Base(q: State, n: int): map<int, seq<byte>> {
    if Rotates(q, n) && q.tail + HEADER <= q.head then LiveIn(q.tiles)[q.tail := Zeros(q.head - q.tail - HEADER)]
    else LiveIn(q.tiles)
  }

  /** The place at which the new entry is written. */
  ghost predicate Placed(q: State, n: int, index: int, q': State) {
    if !NoneFits(IdleIn(q.tiles), n) then
      && Taken(IdleIn(q.tiles), index, n, IdleIn(q'.tiles))
      && q'.head == q.head && q'.tail == q.tail
    else
      && IdleIn(q'.tiles) == IdleIn(q.tiles)
      && q'.tail == index + n
      && if RoomAtTail(q, n) then index == q.tail && q'.head == q.head
         else if CanWrap(q, n) then index == LEFT_MARGIN && q'.head == q.head
         else index == q.right && q'.head == if q.head <= q.tail then q.head else LEFT_MARGIN
  }

  /** Exactly one entry is added, at an address no other entry has. */
  ghost predicate Pushed(q: State, data: seq<byte>, index: int, q': State) {
    var n := HEADER + |data|;
    && index !in Base(q, n)
    && LiveIn(q'.tiles) == Base(q, n)[index := data]
    && LostIn(q'.tiles) == LostIn(q.tiles)
    && Placed(q, n, index, q')
  }

  /** Without deletions, a push appends to the queue, after turning it round if it has to grow while wrapped. */
  ghost predicate Queued(q: State, data: seq<byte>, q': State) {
    AllLive(q.tiles) ==>
      && AllLive(q'.tiles)
      && Ring(q') ==
         (if Rotates(q, HEADER + |data|) && q.tail + HEADER <= q.head then Rotated(q) else Ring(q)) + [data]
  }

  /** The branches of a push, in bytes: an unwrapped queue needs room up to the end of the arena, or else 36 bytes to
      spare between the left margin and the head; a wrapped one needs 36 bytes to spare before the head. */
  lemma PushBranches(q: State, data: seq<byte>, maxCapacity: int)
    ensures MustGrow(q, HEADER + |data|) <==>
      && (forall s :: s in IdleIn(q.tiles) ==> IdleIn(q.tiles)[s] == 4096 || IdleIn(q.tiles)[s] < 4 + |data|)
      && if q.head <= q.tail then |q.bytes| < q.tail + 4 + |data| && q.head < 1 + 4 + |data| + 36
         else q.head < q.tail + 4 + |data| + 36
    ensures Refuses(q, HEADER + |data|, maxCapacity) <==>
      MustGrow(q, HEADER + |data|) && 0 < maxCapacity <= |q.bytes| + 4 + |data|
  {
  }

  /** Where a push that finds no free block writes, in bytes. */
  lemma PushAddress(q: State, data: seq<byte>, index: int, q': State)
    requires Layout(q) && Pushed(q, data, index, q') && NoneFits(IdleIn(q.tiles), HEADER + |data|)
    ensures index ==
      if q.head <= q.tail then (if q.tail + 4 + |data| <= |q.bytes| || q.head < 1 + 4 + |data| + 36 then q.tail else 1)
      else (if q.tail + 4 + |data| + 36 <= q.head then q.tail else q.right)
    ensures q'.tail == index + 4 + |data|
    ensures q'.head == if q.tail < q.head < q.tail + 4 + |data| + 36 then 1 else q.head
  {
    hide NoneFits; hide Base; hide LiveIn; hide IdleIn; hide LostIn;
  }

  class BytesQueue {
    var arena: array<byte>
    var capacity: int
    const maxCapacity: int
    var head: int
    var tail: int
    var count: int
    var rightMargin: int
    const freelist: FreeList
    ghost var tiles: Tiles

    ghost function St(): State
      reads this, arena
    {
      State(arena[..], head, tail, rightMargin, tiles)
    }

    ghost function Entries(): map<int, seq<byte>>
      reads this
    {
      LiveIn(tiles)
    }

    ghost function Repr(): set<object>
      reads this, freelist
    {
      {this, arena, freelist} + freelist.at.Keys
    }

    ghost predicate Valid()
      reads this, arena, freelist, freelist.at.Keys
    {
      && arena.Length == capacity && Sound(St())
      && freelist.Valid() && freelist.Free() == IdleIn(tiles)
      && count == |LiveIn(tiles)|
    }

    constructor (initialCapacity: nat, maxCapacity: int)
      ensures Valid() && fresh(Repr())
      ensures this.maxCapacity == maxCapacity && capacity == initialCapacity
      ensures tiles == map[] && head == LEFT_MARGIN && tail == LEFT_MARGIN
    {
      hide Sound; hide FreeList.Valid; hide FreeList.Free; hide LiveIn; hide IdleIn;
      arena := new byte[initialCapacity](_ => 0);
      capacity := initialCapacity;
      this.maxCapacity := maxCapacity;
      tail := LEFT_MARGIN;
      head := LEFT_MARGIN;
      rightMargin := LEFT_MARGIN;
      count := 0;
      freelist := new FreeList();
      tiles := map[];
      new;
      EmptySound(arena[..]);
    }

    function AvailableSpaceAfterTail(): int
      reads this
    {
      if tail >= head then capacity - tail else head - tail - MINIMUM_EMPTY_BLOB
    }

    function AvailableSpaceBeforeHead(): int
      reads this
    {
      if tail >= head then head - LEFT_MARGIN - MINIMUM_EMPTY_BLOB else head - tail - MINIMUM_EMPTY_BLOB
    }

    method Copy(data: seq<byte>)
      requires 0 <= tail && tail + |data| <= arena.Length
      modifies this`tail, arena
      ensures tail == old(tail) + |data|
      ensures arena[..] == Overwrite(old(arena[..]), old(tail), data)
    {
      var n := CopyInto(arena, tail, data);
      assert data[..n] == data;
      tail := tail + n;
    }

    /** Writes the length header and the data at the tail. */
    method CopyEntry(data: seq<byte>)
      requires 0 <= tail && tail + HEADER + |data| <= arena.Length
      modifies this`tail, arena
      ensures tail == old(tail) + HEADER + |data|
      ensures arena[..] == Overwrite(old(arena[..]), old(tail), Encode(data))
    {
      OverwriteTwice(arena[..], tail, Put(|data|, HEADER), data);
      Copy(Put(|data|, HEADER));
      Copy(data);
    }

    method PushAtTail(data: seq<byte>)
      requires Valid() && |data| < TWO_32 && RoomAtTail(St(), HEADER + |data|)
      modifies this`tail, this`rightMargin, this`count, this`tiles, arena
      ensures Valid()
      ensures St() == Appended(old(St()), data)
    {
      hide Sound; hide RoomAtTail; hide Encode; hide Overwrite; hide IdleIn; hide FreeList.Valid; hide FreeList.Free;
      ghost var q := St();
      AppendTail(q, data);
      TailNonNegative(q);
      CopyEntry(data);
      if tail > head {
        rightMargin := tail;
      }
      count := count + 1;
      tiles := tiles[q.tail := Live(data)];
    }

    /** Writes an entry over the free bytes at idx, which the free list has just handed out. */
    method PushIntoFree(idx: int, data: seq<byte>)
      requires arena.Length == capacity && Sound(St()) && freelist.Valid() && count == |LiveIn(tiles)|
      requires |data| < TWO_32 && Taken(IdleIn(tiles), idx, HEADER + |data|, freelist.Free())
      modifies this`tail, this`count, this`tiles, arena
      ensures Valid()
      ensures Pushed(old(St()), data, idx, St()) && Queued(old(St()), data, St())
    {
      hide Sound; hide RoomAtTail; hide Encode; hide Overwrite; hide FreeList.Valid; hide FreeList.Free;
      hide Placed; hide Base; hide Queued; hide IdleIn; hide LiveIn; hide LostIn; hide FilledTiles; hide Pushed;
      hide Carve;
      ghost var q := St();
      PushedIntoFree(q, idx, data, freelist.Free());
      var tmpTail := tail;
      tail := idx;
      CopyEntry(data);
      count := count + 1;
      tail := tmpTail;
      tiles := FilledTiles(tiles, idx, data);
    }

    /** Moves the bytes up to the right margin to a new arena. */
    method MoveArena(newCapacity: int)
      requires Valid() && capacity <= newCapacity
      modifies this`arena, this`capacity
      ensures Valid() && fresh(arena) && capacity == newCapacity
      ensures St() == old(St()).(bytes := arena[..])
    {
      hide Tiling; hide Stored; hide FreeList.Valid; hide FreeList.Free; hide IdleIn; hide LiveIn;
      ghost var q := St();
      capacity := newCapacity;
      var oldArray := arena;
      arena := new byte[capacity](_ => 0);
      if LEFT_MARGIN != rightMargin {
        var n := CopyInto(arena, 0, oldArray[..rightMargin]);
        assert forall i :: 0 <= i < rightMargin ==> arena[..][i] == q.bytes[i];
        assert arena[LEFT_MARGIN..rightMargin] == q.bytes[LEFT_MARGIN..rightMargin];
      }
      Enlarge(q, arena[..]);
    }

    /** Fills the gap of a wrapped queue with an entry of zeros. */
    method FillGap()
      requires Valid() && tail < head && head - tail < TWO_32
      modifies this`head, this`tail, this`count, this`rightMargin, this`tiles, arena
      ensures Valid()
      ensures old(tail) + HEADER <= old(head) <= old(arena.Length) && St() == Bridged(old(St()))
    {
      hide Tiling; hide Stored; hide Encode; hide Overwrite; hide FreeList.Valid; hide FreeList.Free; hide IdleIn;
      ghost var q := St();
      Bridge(q);
      var emptyBlobLen := head - tail - HEADER;
      CopyEntry(Zeros(emptyBlobLen));
      rightMargin := if tail > head then tail else rightMargin;
      count := count + 1;
      head := LEFT_MARGIN;
      tail := rightMargin;
      tiles := tiles[q.tail := Live(Zeros(emptyBlobLen))];
    }

    method AllocateAdditionalMemory(minimum: int)
      requires Valid() && minimum >= HEADER && head - tail < TWO_32
      requires maxCapacity > 0 ==> capacity + minimum < maxCapacity
      modifies this
      ensures Valid() && fresh(arena)
      ensures old(capacity) < capacity == Grown(old(capacity), minimum, maxCapacity)
      ensures
        var n := minimum;
        var doubled := if n <= old(capacity) then old(capacity) + old(capacity) else 2 * (old(capacity) + n);
        capacity == if 0 < maxCapacity < doubled then maxCapacity else doubled
      ensures head <= tail && tail + minimum <= capacity
      ensures var q := old(St()).(bytes := St().bytes);
        if q.head <= q.tail then St() == q
        else
          && q.tail + HEADER <= q.head
          && head == LEFT_MARGIN && tail == rightMargin == q.right
          && tiles == q.tiles[q.tail := Live(Zeros(q.head - q.tail - HEADER))]
    {
      hide Tiling; hide Stored; hide FreeList.Valid; hide FreeList.Free; hide IdleIn; hide LiveIn;
      var c := capacity;
      if c < minimum {
        c := c + minimum;
      }
      c := c * 2;
      if c > maxCapacity && maxCapacity > 0 {
        c := maxCapacity;
      }
      MoveArena(c);
      if tail < head {
        FillGap();
      }
    }

    /** Makes room for n bytes at the tail, when no free block takes them. */
    method MakeRoom(n: int) returns (ok: bool)
      requires Valid() && n >= HEADER && head - tail < TWO_32 && NoneFits(IdleIn(tiles), n)
      modifies this
      ensures Valid() && (arena == old(arena) || fresh(arena))
      ensures ok <==> !Refuses(old(St()), n, maxCapacity)
      ensures if ok then Readied(old(St()), n, St()) && RoomAtTail(St(), n) else St() == old(St())
      ensures capacity == if ok then CapacityAfter(old(St()), n, maxCapacity) else old(capacity)
      ensures capacity != old(capacity) <==> ok && MustGrow(old(St()), n)
      ensures capacity != old(capacity) ==>
        var doubled := if n <= old(capacity) then old(capacity) + old(capacity) else 2 * (old(capacity) + n);
        capacity == if 0 < maxCapacity < doubled then maxCapacity else doubled
    {
      hide Tiling; hide Stored; hide FreeList.Valid; hide FreeList.Free; hide IdleIn; hide LiveIn; hide Grown;
      ghost var q := St();
      if AvailableSpaceAfterTail() < n {
        if AvailableSpaceBeforeHead() >= n {
          WrapTail(q);
          tail := LEFT_MARGIN;
        } else if capacity + n >= maxCapacity && maxCapacity > 0 {
          return false;
        } else {
          AllocateAdditionalMemory(n);
        }
      }
      return true;
    }

    method Push(data: seq<byte>) returns (index: int, ok: bool)
      requires Valid() && |data| < TWO_32 && head - tail < TWO_32
      modifies Repr()
      ensures Valid() && fresh(Repr() - old(Repr()))
      ensures ok <==> !Refuses(old(St()), HEADER + |data|, maxCapacity)
      ensures !ok ==> index == -1 && St() == old(St())
      ensures ok ==> Pushed(old(St()), data, index, St()) && Queued(old(St()), data, St())
      ensures capacity == if ok then CapacityAfter(old(St()), HEADER + |data|, maxCapacity) else old(capacity)
      ensures capacity != old(capacity) <==> ok && MustGrow(old(St()), HEADER + |data|)
      ensures capacity != old(capacity) ==>
        var n := HEADER + |data|;
        var doubled := if n <= old(capacity) then old(capacity) + old(capacity) else 2 * (old(capacity) + n);
        capacity == if 0 < maxCapacity < doubled then maxCapacity else doubled
    {
      hide Tiling; hide Stored; hide FreeList.Valid; hide FreeList.Free; hide IdleIn; hide LiveIn;
      hide Pushed; hide Queued; hide Appended; hide Taken; hide Grown; hide Readied; hide RoomAtTail; hide CanWrap;
      ghost var q, n := St(), HEADER + |data|;
      IdleNonNegative(q);
      var idx := freelist.Find(|data| + HEADER);
      if -1 != idx {
        PushIntoFree(idx, data);
        return idx, true;
      }
      assert NoneFits(IdleIn(tiles), n);
      ok := MakeRoom(|data| + HEADER);
      if !ok {
        return -1, false;
      }
      PushedAppend(q, St(), data);
      index := tail;
      PushAtTail(data);
      return index, true;
    }

    function Peek(index: int): (r: Peeked)
      reads this, arena
    {
      if count == 0 || index <= 0 || index + HEADER >= arena.Length then Refused
      else
        var blockSize := Bytes.Get(arena[index..index + HEADER]);
        if index + HEADER + blockSize <= arena.Length then Window(index + HEADER, blockSize) else Panics
    }

    /** An entry is read back whole, unless it is empty and ends at the very end of the arena. */
    lemma PeekEntry(index: int)
      requires Valid() && index in Entries()
      ensures count > 0 && 0 < index && index + HEADER + |Entries()[index]| <= arena.Length
      ensures Peek(index) ==
        if index + HEADER < arena.Length then Window(index + HEADER, |Entries()[index]|) else Refused
      ensures arena[index + HEADER..index + HEADER + |Entries()[index]|] == Entries()[index]
      ensures index + HEADER == arena.Length ==> Entries()[index] == []
    {
      hide Tiling; hide FreeList.Valid; hide FreeList.Free; hide IdleIn;
      var data := Entries()[index];
      TileBounds(St(), index);
      HeldEntry(arena[..], index, data);
      assert arena[..][index..index + HEADER] == arena[index..index + HEADER];
      assert |Entries()| > 0;
    }

    method Get(index: int) returns (r: Peeked)
      ensures r == Peek(index)
      ensures r == Refused <==> count == 0 || index <= 0 || arena.Length <= index + 4
      ensures Valid() && index in Entries() && index + HEADER < arena.Length ==>
        && r.Window? && 0 <= r.start <= r.start + r.size <= arena.Length
        && arena[r.start..r.start + r.size] == Entries()[index]
    {
      hide Sound; hide FreeList.Valid; hide FreeList.Free; hide LiveIn; hide IdleIn;
      if Valid() && index in Entries() {
        PeekEntry(index);
      }
      r := Peek(index);
    }

    /** Writes src into the entry at index, from its byte k on, through a window onto the arena. */
    method WriteWithin(index: int, k: int, src: seq<byte>)
      requires Valid() && index in Entries() && 0 <= k && k + |src| <= |Entries()[index]|
      modifies this`tiles, arena
      ensures Valid()
      ensures Entries() == old(Entries())[index := Overwrite(old(Entries()[index]), k, src)]
      ensures tiles == old(tiles)[index := Live(Entries()[index])]
      ensures IdleIn(tiles) == IdleIn(old(tiles)) && LostIn(tiles) == LostIn(old(tiles))
    {
      hide Sound; hide FreeList.Valid; hide FreeList.Free; hide IdleIn; hide LostIn; hide LiveIn; hide Holds;
      hide Overwrite; hide BytesQueue.Peek;
      PatchEntry(St(), index, k, src);
      PeekEntry(index);
      LiveTile(tiles, index);
      CopyOver(arena, index + HEADER + k, src);
      tiles := tiles[index := Live(Overwrite(tiles[index].data, k, src))];
    }

    method Pop() returns (data: seq<byte>, ok: bool)
      requires Valid() && (count == 0 || head in Entries())
      modifies this
      ensures Valid()
      ensures ok <==> old(count) > 0 && old(head) + HEADER < old(arena.Length)
      ensures !ok ==> data == [] && St() == old(St())
      ensures ok ==> old(head) in old(Entries()) && data == old(Entries())[old(head)] && St() == Popped(old(St()))
      ensures ok && AllLive(old(tiles)) ==> AllLive(tiles) && Ring(old(St())) == [data] + Ring(St())
      ensures ok ==> count == old(count) - 1 && Entries() == old(Entries()) - {old(head)} && arena[..] == old(arena[..])
      ensures ok ==>
        var next := old(head) + 4 + |data|;
        if next != old(rightMargin) then
          head == next && tail == old(tail) && rightMargin == old(rightMargin)
        else head == 1 && tail == rightMargin == if old(tail) == old(rightMargin) then 1 else old(tail)
      ensures arena == old(arena) && capacity == old(capacity)
    {
      hide Sound; hide FreeList.Valid; hide FreeList.Free; hide IdleIn; hide Ring; hide AllLive; hide Bytes.Get;
      hide LiveIn;
      ghost var q := St();
      if count > 0 {
        PeekEntry(head);
      }
      var w := Peek(head);
      if w.Window? {
        data := arena[w.start..w.start + w.size];
        PopFront(q);
        LiveTile(tiles, head);
        if AllLive(tiles) {
          RingPop(q);
        }
        tiles := tiles - {head};
        head := head + HEADER + w.size;
        count := count - 1;
        if head == rightMargin {
          head := LEFT_MARGIN;
          if tail == rightMargin {
            tail := LEFT_MARGIN;
          }
          rightMargin := tail;
        }
        return data, true;
      }
      return [], false;
    }

    method Delete(index: int) returns (ok: bool)
      requires Valid() && (index in Entries() || Peek(index).Refused?)
      modifies this`count, this`tiles, freelist
      ensures Valid() && fresh(freelist.at.Keys - old(freelist.at.Keys))
      ensures ok <==> index in old(Entries()) && index + HEADER < arena.Length
      ensures !ok ==> St() == old(St())
      ensures ok ==> St() == old(St()).(tiles := DeletedTiles(old(tiles), index))
      ensures ok ==> Entries() == old(Entries()) - {index} && count == old(count) - 1
      ensures ok ==> freelist.Free() == Release(old(freelist.Free()), index, 4 + |old(Entries())[index]|)
    {
      hide Sound; hide FreeList.Valid; hide FreeList.Free; hide IdleIn; hide Release; hide Forgotten; hide Bytes.Get;
      hide Clear;
      hide DeletedTiles; hide LiveIn;
      if index in Entries() {
        PeekEntry(index);
      }
      var w := Peek(index);
      if w.Window? {
        DeleteEntry(St(), index);
        DeleteViews(St(), index);
        LiveTile(tiles, index);
        freelist.Add(index, w.size + HEADER);
        count := count - 1;
        tiles := DeletedTiles(tiles, index);
        return true;
      }
      return false;
    }

    method Reset()
      requires Valid()
      modifies this`head, this`tail, this`rightMargin, this`count, this`tiles
      ensures Valid() <==> freelist.Free() == map[]
      ensures head == tail == rightMargin == LEFT_MARGIN && count == 0 && tiles == map[]
    {
      hide Sound; hide FreeList.Valid; hide FreeList.Free; hide IdleIn; hide LiveIn;
      tail := LEFT_MARGIN;
      head := LEFT_MARGIN;
      rightMargin := LEFT_MARGIN;
      count := 0;
      tiles := map[];
      EmptySound(arena[..]);
    }
  }

  /** q1 is q made ready for an entry of n bytes at its tail. */
  ghost predicate Readied(q: State, n: int, q1: State) {
    && NoneFits(IdleIn(q.tiles), n)
    && if RoomAtTail(q, n) then q1 == q
       else if CanWrap(q, n) then q1 == q.(tail := LEFT_MARGIN)
       else if q.head <= q.tail then q1 == q.(bytes := q1.bytes)
       else
         && q.tail + HEADER <= q.head && q1.head == LEFT_MARGIN && q1.tail == q1.right == q.right
         && q1.tiles == q.tiles[q.tail := Live(Zeros(q.head - q.tail - HEADER))]
  }

  lemma ReadiedViews(q: State, n: int, q1: State)
    requires Sound(q) && Readied(q, n, q1) && q.head - q.tail < TWO_32
    ensures LiveIn(q1.tiles) == Base(q, n)
    ensures IdleIn(q1.tiles) == IdleIn(q.tiles) && LostIn(q1.tiles) == LostIn(q.tiles)
  {
    hide Tiling; hide Stored; hide NoneFits;
    if Rotates(q, n) {
      Bridge(q);
      assert q1.tiles == Bridged(q).tiles;
    }
  }

  lemma ReadiedRing(q: State, n: int, q1: State)
    requires Sound(q) && Readied(q, n, q1) && AllLive(q.tiles) && q.head - q.tail < TWO_32
    ensures AllLive(q1.tiles)
    ensures Ring(q1) == if Rotates(q, n) && q.tail + HEADER <= q.head then Rotated(q) else Ring(q)
  {
    hide Tiling; hide Stored; hide NoneFits; hide Walk;
    if Rotates(q, n) {
      RingBridge(q);
      assert Ring(q1) == Ring(Bridged(q));
    } else if !RoomAtTail(q, n) && CanWrap(q, n) {
      assert Walk(q.tiles, LEFT_MARGIN, LEFT_MARGIN) == [] by { WalkEmpty(q.tiles, LEFT_MARGIN); }
      assert Ring(q1) == Walk(q.tiles, q.head, q.right) + [];
    }
  }

  lemma PushedAppend(q: State, q1: State, data: seq<byte>)
    requires Sound(q) && Sound(q1) && |data| < TWO_32 && q.head - q.tail < TWO_32
    requires Readied(q, HEADER + |data|, q1) && RoomAtTail(q1, HEADER + |data|)
    ensures 0 <= q1.tail && q1.tail + HEADER + |data| <= |q1.bytes|
    ensures Pushed(q, data, q1.tail, Appended(q1, data)) && Queued(q, data, Appended(q1, data))
  {
    hide Tiling; hide Stored; hide NoneFits; hide Ring; hide LiveIn; hide IdleIn; hide LostIn; hide Rotated;
    hide AllLive;
    hide Base; hide Rotates;
    ReadiedViews(q, HEADER + |data|, q1);
    AppendTail(q1, data);
    LiveInTiles(q1.tiles, q1.tail);
    if AllLive(q.tiles) {
      ReadiedRing(q, HEADER + |data|, q1);
      RingAppend(q1, data);
    }
  }

  lemma LiveTile(tiles: Tiles, k: int)
    requires k in LiveIn(tiles)
    ensures k in tiles && tiles[k] == Live(LiveIn(tiles)[k])
    ensures |LiveIn(tiles) - {k}| == |LiveIn(tiles)| - 1
  {
  }

  /** CopyInto when there is room. */
  method CopyOver(dst: array<byte>, at: int, src: seq<byte>)
    requires 0 <= at && at + |src| <= dst.Length
    modifies dst
    ensures dst[..] == Overwrite(old(dst[..]), at, src)
  {
    var n := CopyInto(dst, at, src);
    assert src[..n] == src;
  }

  lemma LiveInTiles(tiles: Tiles, k: int)
    ensures k in LiveIn(tiles) ==> k in tiles
  {
  }

  lemma PushedIntoFree(q: State, idx: int, data: seq<byte>, idle: Regions)
    requires Sound(q) && |data| < TWO_32
    requires Taken(IdleIn(q.tiles), idx, HEADER + |data|, idle)
    ensures idx in q.tiles && 0 <= idx && idx + HEADER + |data| <= |q.bytes|
    ensures Sound(Filled(q, idx, data))
    ensures Pushed(q, data, idx, Filled(q, idx, data)) && Queued(q, data, Filled(q, idx, data))
    ensures IdleIn(FilledTiles(q.tiles, idx, data)) == idle
    ensures |LiveIn(FilledTiles(q.tiles, idx, data))| == |LiveIn(q.tiles)| + 1
  {
    hide Disjoint; hide Covers; hide Holds;
    FillIdle(q, idx, data);
    FilledViews(q.tiles, idx, data);
  }

  lemma HeldEntry(bytes: seq<byte>, s: int, data: seq<byte>)
    requires Holds(bytes, s, data)
    ensures Bytes.Get(bytes[s..s + HEADER]) == |data|
    ensures bytes[s + HEADER..s + HEADER + |data|] == data
  {
    hide Put; hide Bytes.Get; hide Power256;
    var e := s + HEADER + |data|;
    var block := bytes[s..e];
    assert bytes[s..s + HEADER] == block[..HEADER] == Put(|data|, HEADER);
    assert bytes[s + HEADER..e] == block[HEADER..] == data;
    GetPut(|data|, HEADER);
    Powers();
  }

  lemma DeleteViews(q: State, i: int)
    requires Sound(q) && i in LiveIn(q.tiles)
    ensures var n := HEADER + |LiveIn(q.tiles)[i]|;
      && n > 0 && Clear(IdleIn(q.tiles), i, n)
      && IdleIn(DeletedTiles(q.tiles, i)) == Release(IdleIn(q.tiles), i, n)
      && LiveIn(DeletedTiles(q.tiles, i)) == LiveIn(q.tiles) - {i}
      && LostIn(DeletedTiles(q.tiles, i)) == LostIn(q.tiles) + Forgotten(IdleIn(q.tiles), i, n)
      && |LiveIn(DeletedTiles(q.tiles, i))| == |LiveIn(q.tiles)| - 1
  {
    hide Disjoint; hide Covers; hide Stored; hide DeletedTiles; hide Release; hide Forgotten;
    DeletedExtents(q.tiles, i);
    DeletedViews(q.tiles, i);
  }

  lemma IdleNonNegative(q: State)
    requires Sound(q)
    ensures forall s :: s in IdleIn(q.tiles) ==> s >= 0
  {
    forall s | s in IdleIn(q.tiles) ensures s >= 0 {
      TileBounds(q, s);
    }
  }

  lemma EmptySound(bytes: seq<byte>)
    ensures Sound(State(bytes, LEFT_MARGIN, LEFT_MARGIN, LEFT_MARGIN, map[]))
    ensures IdleIn(map[]) == map[] && LiveIn(map[]) == map[]
  {
  }

  lemma TailNonNegative(q: State)
    requires Sound(q)
    ensures 0 < q.tail && 0 < q.head && 0 < q.right
  {
  }

  lemma OverwriteTwice(s: seq<byte>, k: int, a: seq<byte>, b: seq<byte>)
    requires 0 <= k && k + |a| + |b| <= |s|
    ensures Overwrite(Overwrite(s, k, a), k + |a|, b) == Overwrite(s, k, a + b)
  {
  }
}
