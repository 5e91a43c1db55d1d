/** Inputs at which the queue and the shard do what their callers may not expect. */
module Departures {
  import opened Options
  import opened Bytes
  import opened Regions
  import opened FreeLists
  import opened Arena
  import opened Encoding
  import opened Queues
  import opened Ttl
  import opened Shards

  /** Pushing to a new queue puts the entry at the left margin. */
  method First(capacity: nat, a: seq<byte>) returns (queue: BytesQueue, index: int)
    requires |a| < TWO_32
    ensures queue.Valid() && fresh(queue.Repr()) && queue.maxCapacity == 0 && queue.head == LEFT_MARGIN
    ensures index == LEFT_MARGIN && queue.Entries() == map[index := a] && IdleIn(queue.tiles) == map[]
    ensures LEFT_MARGIN + HEADER + |a| <= capacity ==> queue.capacity == capacity
  {
    hide BytesQueue.Valid; hide LiveIn; hide IdleIn; hide Pushed; hide Queued; hide Refuses; hide CapacityAfter;
    queue := new BytesQueue(capacity, 0);
    ghost var q := queue.St();
    NewLayout(queue);
    NotRefused(q, HEADER + |a|);
    var ok;
    index, ok := queue.Push(a);
    FirstPlace(q, a, index, queue.St());
  }

  lemma NewLayout(queue: BytesQueue)
    requires queue.Valid()
    ensures Layout(queue.St()) && |queue.St().bytes| == queue.capacity
  {
    hide Tiling; hide Stored; hide FreeList.Valid; hide FreeList.Free;
  }

  lemma NotRefused(q: State, n: int)
    ensures !Refuses(q, n, 0)
  {
  }

  lemma FirstPlace(q: State, a: seq<byte>, index: int, q': State)
    requires Layout(q) && q.tiles == map[] && q.head == LEFT_MARGIN && q.tail == LEFT_MARGIN && Pushed(q, a, index, q')
    ensures q'.head == LEFT_MARGIN == index && LiveIn(q'.tiles) == map[index := a] && IdleIn(q'.tiles) == map[]
    ensures LEFT_MARGIN + HEADER + |a| <= |q.bytes| ==> CapacityAfter(q, HEADER + |a|, 0) == |q.bytes|
  {
    assert LiveIn(q.tiles) == map[] && IdleIn(q.tiles) == map[];
  }

  /** Deleting the only entry of a queue leaves exactly its block free. */
  lemma OnlyFree(q: State, index: int, a: seq<byte>)
    requires Sound(q) && LiveIn(q.tiles) == map[index := a] && IdleIn(q.tiles) == map[]
    ensures index in q.tiles && IdleIn(DeletedTiles(q.tiles, index)) == map[index := HEADER + |a|]
  {
    hide Sound; hide DeletedTiles; hide LiveIn; hide IdleIn; hide LostIn;
    LiveInTiles(q.tiles, index);
    DeleteViews(q, index);
  }

  lemma QueueSound(queue: BytesQueue)
    requires queue.Valid()
    ensures Sound(queue.St())
  {
    hide Sound; hide FreeList.Valid; hide FreeList.Free;
  }

  /** Pushes an entry to a new queue and deletes it. */
  method PushDelete(capacity: nat, a: seq<byte>) returns (queue: BytesQueue, index: int)
    requires 0 < |a| < TWO_32
    ensures queue.Valid() && fresh(queue.Repr()) && queue.maxCapacity == 0 && queue.head == LEFT_MARGIN
    ensures index == LEFT_MARGIN && queue.Entries() == map[] && IdleIn(queue.tiles) == map[index := HEADER + |a|]
  {
    hide BytesQueue.Valid; hide BytesQueue.Peek; hide DeletedTiles; hide LiveIn; hide IdleIn; hide Release;
    hide FreeList.Valid; hide FreeList.Free;
    queue, index := First(capacity, a);
    queue.PeekEntry(index);
    QueueSound(queue);
    OnlyFree(queue.St(), index, a);
    var ok := queue.Delete(index);
  }

  /** A freed block is taken by the next entry of the same size, unless it has 4096 bytes. */
  method Reuse(capacity: nat, a: seq<byte>, b: seq<byte>) returns (first: int, second: int)
    requires 0 < |a| == |b| < TWO_32
    ensures first == second <==> HEADER + |a| != 4096
  {
    hide Tiling; hide Stored; hide FreeList.Valid; hide FreeList.Free; hide LiveIn; hide IdleIn; hide Pushed;
    hide Queued;
    hide MustGrow;
    var queue;
    queue, first := PushDelete(capacity, a);
    ghost var q := queue.St();
    var ok;
    second, ok := queue.Push(b);
    SecondPlace(q, b, second, queue.St());
  }

  lemma SecondPlace(q: State, b: seq<byte>, index: int, q': State)
    requires Sound(q) && q.head == LEFT_MARGIN && IdleIn(q.tiles) == map[LEFT_MARGIN := HEADER + |b|]
    requires Pushed(q, b, index, q')
    ensures index == LEFT_MARGIN <==> HEADER + |b| != 4096
  {
    hide Tiling; hide Stored; hide LiveIn; hide LostIn;
    var idle, n := IdleIn(q.tiles), HEADER + |b|;
    assert LEFT_MARGIN in idle && idle[LEFT_MARGIN] == n;
    assert LEFT_MARGIN in q.tiles;
    TileBounds(q, LEFT_MARGIN);
    if n == 4096 {
      assert NoneFits(idle, n);
    }
  }

  /** An empty entry in an arena of 5 bytes can be pushed, but neither read nor deleted. */
  method EmptyAtEnd() returns (read: Peeked, deleted: bool)
    ensures read == Refused && !deleted
  {
    hide Sound; hide FreeList.Valid; hide FreeList.Free; hide LiveIn; hide IdleIn; hide DeletedTiles;
    var queue, index := First(5, []);
    queue.PeekEntry(index);
    read := queue.Get(index);
    deleted := queue.Delete(index);
  }

  /** A queue is not sound after a push, a deletion and a reset. */
  method ResetQueue(a: seq<byte>) returns (queue: BytesQueue)
    requires 0 < |a| < TWO_32
    ensures !queue.Valid()
  {
    hide Sound; hide FreeList.Valid; hide FreeList.Free; hide LiveIn; hide IdleIn;
    var index;
    queue, index := PushDelete(100, a);
    queue.Reset();
  }

  /** A shard is not valid after a set, a deletion of the key and a reset. */
  method ResetShard(key: Key, value: seq<byte>, hasher: Key -> u64) returns (shard: Shard)
    requires BlockSize(key, value) + LEFT_MARGIN <= TWO_32
    ensures !shard.Valid()
  {
    hide Shard.Valid; hide HasRoom; hide Vacated; hide Refuses; hide FreeList.Free; hide TableAfterSet;
    hide RemoveSpec;
    shard := new Shard(1000, 0, 0, hasher, 0);
    Roomy(shard.entries.tiles, shard.hashmap, hasher(key), BlockSize(key, value));
    var _, stored := shard.Set(key, hasher(key), value, NO_EXPIRY, 0);
    FreedBlock(shard, hasher(key));
    var found := shard.Del(key, hasher(key), 0);
    SameFree(shard);
    shard.Reset(0);
  }

  lemma Roomy(tiles: Tiles, hashmap: map<u64, int>, h: u64, n: int)
    requires LEFT_MARGIN + n <= TWO_32
    ensures HasRoom(Vacated(tiles, hashmap, h), LEFT_MARGIN, n)
  {
    hide Vacated;
  }

  /** Once the entry under h is deleted, something is free. */
  lemma FreedBlock(shard: Shard, h: u64)
    requires shard.Valid() && h in shard.model
    ensures IdleIn(Vacated(shard.entries.tiles, shard.hashmap, h)) != map[]
  {
    hide BytesQueue.Valid; hide Blob; hide ReadHash; hide DeletedTiles; hide LiveIn; hide IdleIn; hide LostIn;
    hide Sound;
    hide Shard.Valid;
    HashmapKeys(shard);
    shard.Lookup(h);
    shard.CanDiscard(h);
    ShardSound(shard);
    LiveInTiles(shard.entries.tiles, shard.hashmap[h]);
    DeleteViews(shard.entries.St(), shard.hashmap[h]);
    ReleasedSome(IdleIn(shard.entries.tiles), shard.hashmap[h], HEADER + |shard.entries.Entries()[shard.hashmap[h]]|);
  }

  lemma ReleasedSome(m: Regions, i: int, n: int)
    ensures Release(m, i, n) != map[]
  {
    assert Joined(m, i, n).start in Release(m, i, n);
  }

  lemma ShardSound(shard: Shard)
    requires shard.Valid()
    ensures Sound(shard.entries.St())
  {
    hide Sound; hide Linked; hide FreeList.Valid; hide FreeList.Free;
  }

  lemma SameFree(shard: Shard)
    requires shard.Valid()
    ensures shard.entries.freelist.Valid() && shard.entries.freelist.Free() == IdleIn(shard.entries.tiles)
  {
    hide Sound; hide Linked; hide FreeList.Valid; hide FreeList.Free; hide IdleIn;
  }

  /** A shard that may take 10 bytes refuses its first set, stays locked, and returns zero. */
  method RefuseSet(key: Key, value: seq<byte>, expiry: u64, hasher: Key -> u64) returns (shard: Shard, timestamp: u64)
    requires BlockSize(key, value) + LEFT_MARGIN <= TWO_32
    ensures timestamp == 0 && shard.locked && shard.hashmap == map[]
  {
    hide Shard.Valid; hide LiveIn; hide Refuses; hide NoneFits; hide Vacated;
    shard := new Shard(0, 10, 0, hasher, 0);
    ghost var n := BlockSize(key, value);
    NothingFits(shard, hasher(key), n);
    var stored;
    timestamp, stored := shard.Set(key, hasher(key), value, expiry, 0);
  }

  lemma NothingFits(shard: Shard, h: u64, n: int)
    requires shard.Valid() && shard.entries.tiles == map[] && shard.hashmap == map[]
    requires shard.entries.tail == LEFT_MARGIN && shard.entries.capacity == 0 && n >= 10
    ensures Vacated(shard.entries.tiles, shard.hashmap, h) == map[]
    ensures Refuses(shard.entries.St().(tiles := map[]), n, 10)
  {
    hide Sound; hide FreeList.Valid; hide FreeList.Free; hide Linked;
  }
}
