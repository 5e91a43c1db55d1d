/** The iterator over the entries of a cache that does not change meanwhile. */
module Iterators {
  import opened Options
  import opened Bytes
  import opened Bits
  import opened FreeLists
  import opened Encoding
  import opened Queues
  import opened Ttl
  import opened Shards
  import opened BigCaches

  // ---------------------------------------------------------------- positions, on values

  /** A block of the cache: its shard and its address there. */
  datatype Place = Place(shard: nat, index: int)

  /** The blocks of every shard, by address. */
  type Blocks = seq<map<int, seq<byte>>>

  ghost predicate Occupied(blocks: Blocks, p: Place) {
    p.shard < |blocks| && p.index in blocks[p.shard]
  }

  /** elements lists the blocks of a shard, each once. */
  ghost predicate Lists(elements: seq<int>, shard: map<int, seq<byte>>) {
    NoDuplicates(elements) && forall x :: x in elements <==> x in shard
  }

  /** Where an iterator stands. */
  datatype Cursor = Cursor(shard: nat, index: int, elements: seq<int>, valid: bool) {
    /** The last step found nothing. */
    predicate Done() { !valid && 0 <= index }

    /** The blocks of earlier shards, and the elements up to the index. */
    ghost predicate Visited(p: Place) {
      || Done() || p.shard < shard
      || (p.shard == shard && exists j :: 0 <= j <= index && j < |elements| && elements[j] == p.index)
    }

    ghost predicate Stands(blocks: Blocks) {
      && shard < |blocks| && -1 <= index && (valid ==> 0 <= index < |elements|)
      && if Done() then |elements| <= index && NothingBetween(blocks, shard, |blocks|)
         else Lists(elements, blocks[shard])
    }

    function Here(): Place
      requires valid && 0 <= index < |elements|
    {
      Place(shard, elements[index])
    }
  }

  /** The shards strictly between a and b are empty. */
  ghost predicate NothingBetween(blocks: Blocks, a: int, b: int) {
    forall p :: Occupied(blocks, p) && a < p.shard ==> b <= p.shard
  }

  /** c' stands at a block that c has not visited, and has visited nothing else besides. */
  ghost predicate OneMore(blocks: Blocks, c: Cursor, c': Cursor) {
    && c'.valid && c'.Stands(blocks)
    && Occupied(blocks, c'.Here()) && !c.Visited(c'.Here())
    && (c.shard < c'.shard || (c.shard == c'.shard && |c'.elements| - c'.index < |c.elements| - c.index))
    && forall q :: Occupied(blocks, q) ==> (c'.Visited(q) <==> c.Visited(q) || q == c'.Here())
  }

  ghost predicate Finished(blocks: Blocks, c: Cursor, c': Cursor) {
    c'.Done() && c'.Stands(blocks) && forall q :: Occupied(blocks, q) ==> c.Visited(q)
  }

  /** Once a step has found nothing, no later step finds anything. */
  lemma DoneForever(blocks: Blocks, c: Cursor, c': Cursor)
    requires OneMore(blocks, c, c')
    ensures !c.Done()
  {
  }

  lemma StepInShard(blocks: Blocks, c: Cursor)
    requires c.Stands(blocks) && c.index + 1 < |c.elements|
    ensures OneMore(blocks, c, c.(index := c.index + 1, valid := true))
  {
    var c' := c.(index := c.index + 1, valid := true);
    assert c'.Here().index in c.elements;
    forall q | Occupied(blocks, q) ensures c'.Visited(q) <==> c.Visited(q) || q == c'.Here() {
      if c.Visited(q) && q.shard == c.shard {
        var j :| 0 <= j <= c.index && j < |c.elements| && c.elements[j] == q.index;
        assert c'.elements[j] == q.index;
      }
      if q == c'.Here() {
        assert c'.elements[c'.index] == q.index;
      }
    }
  }

  lemma StepToShard(blocks: Blocks, c: Cursor, i: nat, elements: seq<int>)
    requires c.Stands(blocks) && |c.elements| <= c.index + 1 && c.shard < i < |blocks|
    requires NothingBetween(blocks, c.shard, i) && Lists(elements, blocks[i]) && elements != []
    ensures OneMore(blocks, c, Cursor(i, 0, elements, true))
  {
    var c' := Cursor(i, 0, elements, true);
    assert elements[0] in elements;
    assert Occupied(blocks, c'.Here());
    forall q | Occupied(blocks, q) ensures c'.Visited(q) <==> c.Visited(q) || q == c'.Here() {
      PassedShard(blocks, c, q);
      if q == c'.Here() {
        assert c'.elements[0] == q.index;
      }
    }
  }

  /** At the end of its elements, a cursor has visited all of its shard. */
  lemma PassedShard(blocks: Blocks, c: Cursor, q: Place)
    requires c.Stands(blocks) && |c.elements| <= c.index + 1 && Occupied(blocks, q)
    ensures q.shard <= c.shard ==> c.Visited(q)
  {
    if q.shard == c.shard && !c.Done() {
      assert q.index in c.elements;
    }
  }

  lemma StepToEnd(blocks: Blocks, c: Cursor, elements: seq<int>)
    requires c.Stands(blocks) && |c.elements| <= c.index + 1
    requires NothingBetween(blocks, c.shard, |blocks|) && |elements| <= c.index + 1
    ensures Finished(blocks, c, Cursor(c.shard, c.index + 1, elements, false))
  {
    forall q | Occupied(blocks, q) ensures c.Visited(q) {
      PassedShard(blocks, c, q);
    }
  }

  lemma NothingMore(blocks: Blocks, a: int, i: nat)
    requires NothingBetween(blocks, a, i) && a < i < |blocks| && forall x :: x !in blocks[i]
    ensures NothingBetween(blocks, a, i + 1)
  {
  }

  // ---------------------------------------------------------------- the iterator

  ghost function BlocksOf(cache: BigCache): (b: Blocks)
    reads cache, cache.Repr
    requires cache.Separate()
    ensures |b| == |cache.shards|
  {
    seq(|cache.shards|,
        i requires 0 <= i < |cache.shards| reads cache, cache.Repr requires cache.Separate() =>
          cache.shards[i].entries.Entries())
  }

  class EntryInfoIterator {
    const cache: BigCache
    var currentShard: nat
    var currentIndex: int
    var elements: seq<int>
    var elementsCount: int
    var valid: bool

    function At(): Cursor
      reads this
    {
      Cursor(currentShard, currentIndex, elements, valid)
    }

    ghost predicate Valid(now: nat)
      reads this, cache, cache.Repr
    {
      && this !in cache.Repr && cache.Separate() && cache.Valid(now)
      && elementsCount == |elements| && At().Stands(BlocksOf(cache))
    }

    constructor (cache: BigCache, ghost now: nat)
      requires cache.Valid(now)
      ensures this.cache == cache && Valid(now)
      ensures !valid && !At().Done() && forall p :: Occupied(BlocksOf(cache), p) ==> !At().Visited(p)
    {
      hide ShardOk; hide IsPower; hide Shard.Valid;
      PowerPositive(|cache.shards|);
      ShardValid(cache, 0, now);
      this.cache := cache;
      currentShard := 0;
      currentIndex := -1;
      valid := false;
      var keys := cache.shards[0].CopyKeys();
      elements := keys;
      elementsCount := |keys|;
    }

    method CopyShard(i: int, ghost now: nat) returns (keys: seq<int>)
      requires cache.Separate() && cache.Valid(now) && 0 <= i < |cache.shards|
      ensures Lists(keys, BlocksOf(cache)[i]) && (keys == [] ==> forall x :: x !in BlocksOf(cache)[i])
    {
      hide BigCache.Valid; hide BigCache.Separate; hide Shard.Valid; hide BlocksOf;
      ShardValid(cache, i, now);
      keys := cache.shards[i].CopyKeys();
      Listing(keys, BlocksOf(cache)[i]);
    }

    /** Moves to a block not visited before; when there is none, all are, and no later step finds one. */
    method SetNext(ghost now: nat) returns (ok: bool)
      requires Valid(now)
      modifies this
      ensures Valid(now) && ok == valid && (old(At()).Done() ==> !ok)
      ensures if ok then OneMore(BlocksOf(cache), old(At()), At()) else Finished(BlocksOf(cache), old(At()), At())
    {
      hide BigCache.Valid; hide BigCache.Separate; hide Shard.Valid; hide OneMore; hide Finished; hide Cursor.Stands;
      hide NothingBetween;
      hide BlocksOf; hide Lists;
      ghost var c, blocks := At(), BlocksOf(cache);
      valid := false;
      currentIndex := currentIndex + 1;
      if elementsCount > currentIndex {
        valid := true;
        StepInShard(blocks, c);
        assert At() == c.(index := c.index + 1, valid := true);
        Standing(blocks, c, At());
        DoneForever(blocks, c, At());
        return true;
      }
      NothingAtOnce(blocks, c);
      var i := currentShard + 1;
      while i < |cache.shards|
        invariant currentShard < i <= |cache.shards|
        invariant cache.Separate() && cache.Valid(now) && BlocksOf(cache) == blocks
        invariant currentShard == c.shard && currentIndex == c.index + 1 && !valid
        invariant elementsCount == |elements| <= currentIndex && NothingBetween(blocks, c.shard, i)
      {
        elements := CopyShard(i, now);
        elementsCount := |elements|;
        if elementsCount > 0 {
          currentIndex := 0;
          currentShard := i;
          valid := true;
          StepToShard(blocks, c, i, elements);
          Standing(blocks, c, At());
          DoneForever(blocks, c, At());
          return true;
        }
        NothingMore(blocks, c.shard, i);
        i := i + 1;
      }
      StepToEnd(blocks, c, elements);
      Standing(blocks, c, At());
      return false;
    }

    /** The entry at the current position, under the hash that names its block. */
    method Value(ghost now: nat) returns (r: Info)
      requires Valid(now)
      ensures !valid ==> r == NoInfo
      ensures valid ==> Describes(cache, At().Here(), r)
    {
      hide BigCache.Valid; hide BigCache.Separate; hide Shard.Valid; hide Cursor.Stands; hide BlocksOf;
      hide Describes;
      hide ReadKey; hide ReadEntry; hide ReadTimestamp; hide ReadHash; hide BytesQueue.Peek; hide Blob; hide HashAt;
      hide BigCache.Lookup;
      if !valid {
        return NoInfo;
      }
      HereOccupied(BlocksOf(cache), At());
      ghost var p := At().Here();
      PlaceHash(cache, p, now);
      ghost var h := HashAt(BlocksOf(cache), p);
      cache.shards[currentShard].Lookup(h);
      BlobReads(h, cache.shards[currentShard].model[h]);
      DescribesBy(cache, p, now);
      var w := cache.shards[currentShard].entries.Get(elements[currentIndex]);
      var entry := cache.shards[currentShard].entries.arena[w.start..w.start + w.size];
      match ReadKey(entry)
      case Panic => return Unreadable;
      case Ok(key) =>
        return Info(EntryInfo(ReadTimestamp(entry), ReadHash(entry), key, ReadEntry(entry)));
    }
  }

  datatype EntryInfo = EntryInfo(timestamp: u64, hash: u64, key: Key, value: seq<byte>)

  datatype Info = NoInfo | Info(info: EntryInfo) | Unreadable

  ghost function HashAt(blocks: Blocks, p: Place): u64
    requires Occupied(blocks, p)
  {
    var blob := blocks[p.shard][p.index];
    if HEADERS_SIZE <= |blob| then ReadHash(blob) else 0
  }

  /** What is read from the entry under h: a key is cut to its length modulo 2^16, the rest of it is taken for a part
      of the value, and a cut length over MAX_KEY cannot be read. */
  function InfoOf(h: u64, e: Entry): Info {
    var cut := |e.key| % TWO_16;
    if cut > MAX_KEY then Unreadable
    else Info(EntryInfo(e.timestamp, h, e.key[..cut], e.key[cut..] + e.value))
  }

  /** r is what is read from the entry that the cache holds under the hash of block p. */
  ghost predicate Describes(cache: BigCache, p: Place, r: Info)
    reads cache, cache.Repr
    requires cache.Separate()
  {
    && Occupied(BlocksOf(cache), p) && |cache.shards| > 0
    && var h := HashAt(BlocksOf(cache), p);
       cache.Lookup(h).Some? && r == InfoOf(h, cache.Lookup(h).value)
  }

  /** A key that can be read back is given as it is. */
  lemma DescribesShort(cache: BigCache, p: Place, r: Info)
    requires cache.Separate() && Describes(cache, p, r)
    ensures var h := HashAt(BlocksOf(cache), p);
      var e := cache.Lookup(h).value;
      |e.key| <= 65517 ==> r == Info(EntryInfo(e.timestamp, h, e.key, e.value))
  {
    hide BigCache.Separate; hide BigCache.Lookup; hide BlocksOf; hide HashAt;
    var e := cache.Lookup(HashAt(BlocksOf(cache), p)).value;
    if |e.key| <= 65517 {
      assert e.key[..|e.key|] == e.key && e.key[|e.key|..] + e.value == e.value;
    }
  }

  lemma BlobReads(h: u64, e: Entry)
    ensures var b := Blob(h, e);
      && HEADERS_SIZE <= |b| && HEADERS_SIZE + KeyLength(b) <= |b| && ReadHash(b) == h
      && InfoOf(h, e) ==
         match ReadKey(b)
         case Panic => Unreadable
         case Ok(key) => Info(EntryInfo(ReadTimestamp(b), h, key, ReadEntry(b)))
  {
    hide Wrap;
    WrapFields(e.timestamp, h, e.key, e.value);
    Reading(e.timestamp, h, e.key, e.value);
  }

  lemma DescribesBy(cache: BigCache, p: Place, now: nat)
    requires cache.Valid(now) && Occupied(BlocksOf(cache), p)
    ensures |cache.shards| > 0 && p.shard < |cache.shards|
    ensures var h := HashAt(BlocksOf(cache), p);
      && h in cache.shards[p.shard].model
      && Describes(cache, p, InfoOf(h, cache.shards[p.shard].model[h]))
  {
    hide BigCache.Valid; hide HashAt; hide BlocksOf; hide Blob;
    PlaceHash(cache, p, now);
  }

  lemma HereOccupied(blocks: Blocks, c: Cursor)
    requires c.Stands(blocks) && c.valid
    ensures 0 <= c.index < |c.elements| && Occupied(blocks, c.Here())
  {
    assert c.elements[c.index] in c.elements;
  }

  /** A block is named by one hash, under which its shard, which is the home of the hash, holds its entry. */
  lemma PlaceHash(cache: BigCache, p: Place, now: nat)
    requires cache.Valid(now) && Occupied(BlocksOf(cache), p)
    ensures p.shard < |cache.shards|
    ensures var shard, h := cache.shards[p.shard], HashAt(BlocksOf(cache), p);
      && shard.Valid() && h in shard.model && h in shard.hashmap && shard.hashmap[h] == p.index
      && BlocksOf(cache)[p.shard][p.index] == Blob(h, shard.model[h])
      && Home(h, |cache.shards|) == p.shard && cache.Lookup(h) == Some(shard.model[h])
  {
    hide BytesQueue.Valid; hide Blob; hide ReadHash; hide Home; hide TableCurrent;
    ShardValid(cache, p.shard, now);
    var shard := cache.shards[p.shard];
    assert ShardOk(shard, p.shard, |cache.shards|, cache.hash, cache.maxShardSize, now);
  }

  lemma Listing(elements: seq<int>, shard: map<int, seq<byte>>)
    requires NoDuplicates(elements) && forall x :: x in elements <==> x in shard
    ensures Lists(elements, shard)
    ensures elements == [] ==> forall x :: x !in shard
  {
  }

  lemma Standing(blocks: Blocks, c: Cursor, c': Cursor)
    requires OneMore(blocks, c, c') || Finished(blocks, c, c')
    ensures c'.Stands(blocks)
  {
  }

  lemma NothingAtOnce(blocks: Blocks, c: Cursor)
    requires c.Stands(blocks)
    ensures c.shard < |blocks| && -1 <= c.index && NothingBetween(blocks, c.shard, c.shard + 1)
    ensures c.valid ==> c.index < |c.elements|
    ensures c.Done() ==> |c.elements| <= c.index
  {
  }

  lemma ShardValid(cache: BigCache, i: int, now: nat)
    requires cache.Valid(now) && 0 <= i < |cache.shards|
    ensures cache.shards[i].Valid() && BlocksOf(cache)[i] == cache.shards[i].entries.Entries()
  {
    assert ShardOk(cache.shards[i], i, |cache.shards|, cache.hash, cache.maxShardSize, now);
  }

  // ---------------------------------------------------------------- a whole iteration

  /** seen are the hashes of the blocks that the cursor has visited. */
  ghost predicate Gathered(blocks: Blocks, c: Cursor, seen: set<u64>) {
    forall p :: Occupied(blocks, p) ==> (c.Visited(p) <==> HashAt(blocks, p) in seen)
  }

  lemma GatherOne(cache: BigCache, c: Cursor, c': Cursor, seen: set<u64>, now: nat)
    requires cache.Valid(now) && OneMore(BlocksOf(cache), c, c') && Gathered(BlocksOf(cache), c, seen)
    ensures var h := HashAt(BlocksOf(cache), c'.Here());
      h !in seen && Gathered(BlocksOf(cache), c', seen + {h})
  {
    hide BlocksOf; hide HashAt; hide Lists; hide NothingBetween; hide Cursor.Visited; hide ShardOk; hide IsPower;
    var blocks := BlocksOf(cache);
    var p := c'.Here();
    forall q | Occupied(blocks, q) ensures c'.Visited(q) <==> HashAt(blocks, q) in seen + {HashAt(blocks, p)} {
      SameHash(cache, p, q, now);
    }
  }

  /** Different blocks are named by different hashes. */
  lemma SameHash(cache: BigCache, p: Place, q: Place, now: nat)
    requires cache.Valid(now) && Occupied(BlocksOf(cache), p) && Occupied(BlocksOf(cache), q)
    ensures HashAt(BlocksOf(cache), p) == HashAt(BlocksOf(cache), q) <==> p == q
  {
    hide ShardOk; hide BlocksOf; hide HashAt; hide Blob; hide Home; hide IsPower; hide Shard.Valid;
    hide BigCache.Lookup;
    PlaceHash(cache, p, now);
    PlaceHash(cache, q, now);
  }

  lemma GatherAll(cache: BigCache, c: Cursor, c': Cursor, seen: set<u64>, now: nat)
    requires cache.Valid(now) && Finished(BlocksOf(cache), c, c') && Gathered(BlocksOf(cache), c, seen)
    ensures forall h: u64 :: cache.Lookup(h).Some? ==> h in seen
  {
    hide ShardOk; hide IsPower; hide BlocksOf; hide HashAt; hide Blob; hide Cursor.Stands; hide Cursor.Visited;
    forall h: u64 | cache.Lookup(h).Some? ensures h in seen {
      var p := BlockOf(cache, h, now);
      assert Occupied(BlocksOf(cache), p);
    }
  }

  /** The block of a hash that the cache holds. */
  lemma BlockOf(cache: BigCache, h: u64, now: nat) returns (p: Place)
    requires cache.Valid(now) && |cache.shards| > 0 && cache.Lookup(h).Some?
    ensures Occupied(BlocksOf(cache), p) && HashAt(BlocksOf(cache), p) == h
  {
    hide ShardOk; hide IsPower; hide Blob; hide Home; hide Shard.Valid;
    var i := Home(h, |cache.shards|);
    ShardValid(cache, i, now);
    var shard := cache.shards[i];
    ShardEntry(shard, h);
    p := Place(i, shard.hashmap[h]);
    BlobReads(h, shard.model[h]);
  }

  lemma ShardEntry(shard: Shard, h: u64)
    requires shard.Valid() && h in shard.model
    ensures h in shard.hashmap && shard.hashmap[h] in shard.entries.Entries()
    ensures shard.entries.Entries()[shard.hashmap[h]] == Blob(h, shard.model[h])
  {
    hide Shard.Valid; hide Blob;
    HashmapKeys(shard);
    shard.Lookup(h);
  }

  /** infos are what is read from the entries at places. */
  ghost predicate Describing(cache: BigCache, places: seq<Place>, infos: seq<Info>)
    reads cache, cache.Repr
    requires cache.Separate()
  {
    |infos| == |places| && forall i :: 0 <= i < |infos| ==> Describes(cache, places[i], infos[i])
  }

  /** places are the blocks that the cursor has visited, each once. */
  ghost predicate Passed(blocks: Blocks, c: Cursor, places: seq<Place>) {
    && NoDuplicates(places) && (forall p :: p in places ==> Occupied(blocks, p))
    && forall p :: Occupied(blocks, p) ==> (c.Visited(p) <==> p in places)
  }

  lemma PassOne(blocks: Blocks, c: Cursor, c': Cursor, places: seq<Place>)
    requires OneMore(blocks, c, c') && Passed(blocks, c, places)
    ensures c'.valid && 0 <= c'.index < |c'.elements| && Passed(blocks, c', places + [c'.Here()])
  {
    hide Cursor.Visited; hide Cursor.Stands; hide Occupied;
    assert c'.valid && 0 <= c'.index < |c'.elements| by { Standing(blocks, c, c'); StandsValid(blocks, c'); }
    var p, places' := c'.Here(), places + [c'.Here()];
    forall q ensures q in places' <==> q in places || q == p {
    }
  }

  lemma StandsValid(blocks: Blocks, c: Cursor)
    requires c.Stands(blocks) && c.valid
    ensures 0 <= c.index < |c.elements|
  {
  }

  /** At the end, the places are all blocks. */
  lemma PassAll(blocks: Blocks, c: Cursor, c': Cursor, places: seq<Place>)
    requires Finished(blocks, c, c') && Passed(blocks, c, places)
    ensures NoDuplicates(places) && forall p :: p in places <==> Occupied(blocks, p)
  {
    hide Cursor.Visited; hide Cursor.Stands; hide Occupied;
  }

  /** hashes lists the set seen, each once. */
  ghost predicate Enumerates(hashes: seq<u64>, seen: set<u64>) {
    NoDuplicates(hashes) && |hashes| == |seen| && forall h: u64 :: h in hashes <==> h in seen
  }

  lemma SeeOne(hashes: seq<u64>, seen: set<u64>, h: u64)
    requires Enumerates(hashes, seen) && h !in seen
    ensures Enumerates(hashes + [h], seen + {h})
  {
    var hashes' := hashes + [h];
    forall g: u64 ensures g in hashes' <==> g in seen + {h} {
      assert g in hashes' <==> g in hashes || g == h;
    }
  }

  /** Once everything is visited, what was seen is what the cache holds. */
  lemma SeeAll(cache: BigCache, c: Cursor, c': Cursor, hashes: seq<u64>, seen: set<u64>, now: nat)
    requires cache.Valid(now) && |cache.shards| > 0 && Holding(cache, hashes) && Enumerates(hashes, seen)
    requires Finished(BlocksOf(cache), c, c') && Gathered(BlocksOf(cache), c, seen)
    ensures seen == cache.Hashes() && forall h: u64 :: h in hashes <==> cache.Lookup(h).Some?
  {
    hide ShardOk; hide IsPower; hide BigCache.Lookup; hide BigCache.Hashes; hide BlocksOf; hide Finished;
    hide Gathered;
    cache.HashesLookup(now);
    GatherAll(cache, c, c', seen, now);
    forall h: u64 ensures h in seen <==> h in cache.Hashes() {
      assert h in seen <==> h in hashes;
    }
  }

  /** Every one of the hashes is held. */
  ghost predicate Holding(cache: BigCache, hashes: seq<u64>)
    reads cache, cache.Repr
    requires cache.Separate() && |cache.shards| > 0
  {
    forall h :: h in hashes ==> cache.Lookup(h).Some?
  }

  lemma GatherNone(cache: BigCache, c: Cursor)
    requires cache.Separate() && |cache.shards| > 0
    requires forall p :: Occupied(BlocksOf(cache), p) ==> !c.Visited(p)
    ensures Gathered(BlocksOf(cache), c, {}) && Enumerates([], {}) && Holding(cache, [])
    ensures Passed(BlocksOf(cache), c, []) && Describing(cache, [], [])
  {
    hide BlocksOf; hide HashAt; hide Cursor.Visited; hide BigCache.Separate; hide Describes;
  }

  /** Standing at a block, its hash is held, and the iterator has moved on. */
  lemma Progress(cache: BigCache, c: Cursor, c': Cursor, hashes: seq<u64>, now: nat) returns (h: u64)
    requires cache.Separate() && cache.Valid(now) && |cache.shards| > 0 && Holding(cache, hashes)
    requires OneMore(BlocksOf(cache), c, c')
    ensures c'.valid && 0 <= c'.index < |c'.elements|
    ensures Occupied(BlocksOf(cache), c'.Here()) && h == HashAt(BlocksOf(cache), c'.Here())
    ensures Holding(cache, hashes + [h])
    ensures c'.shard < |cache.shards|
    ensures c.shard < c'.shard || (c.shard == c'.shard && |c'.elements| - c'.index < |c.elements| - c.index)
  {
    hide BlocksOf; hide HashAt; hide Cursor.Visited; hide BigCache.Separate; hide BigCache.Lookup;
    hide BigCache.Valid;
    hide Blob; hide Shard.Valid; hide Home;
    h := HashAt(BlocksOf(cache), c'.Here());
    PlaceHash(cache, c'.Here(), now);
  }

  /** What an iteration that stands at c has gone through. */
  ghost predicate Along(cache: BigCache, c: Cursor, places: seq<Place>, hashes: seq<u64>)
    reads cache, cache.Repr
    requires cache.Separate() && |cache.shards| > 0
  {
    && Passed(BlocksOf(cache), c, places) && |places| == |hashes| && Holding(cache, hashes)
    && exists seen :: Gathered(BlocksOf(cache), c, seen) && Enumerates(hashes, seen)
  }

  lemma StartAlong(cache: BigCache, c: Cursor)
    requires cache.Separate() && |cache.shards| > 0
    requires forall p :: Occupied(BlocksOf(cache), p) ==> !c.Visited(p)
    ensures Along(cache, c, [], []) && Describing(cache, [], [])
  {
    hide BlocksOf; hide Gathered; hide Enumerates; hide Passed; hide BigCache.Separate; hide Cursor.Visited;
    hide Holding;
    GatherNone(cache, c);
  }

  lemma StepAlong(cache: BigCache, c: Cursor, c': Cursor, places: seq<Place>, hashes: seq<u64>, now: nat)
    returns (h: u64)
    requires cache.Separate() && cache.Valid(now) && |cache.shards| > 0
    requires Along(cache, c, places, hashes) && OneMore(BlocksOf(cache), c, c')
    ensures c'.valid && 0 <= c'.index < |c'.elements| && Along(cache, c', places + [c'.Here()], hashes + [h])
    ensures c'.shard < |cache.shards|
    ensures c.shard < c'.shard || (c.shard == c'.shard && |c'.elements| - c'.index < |c.elements| - c.index)
  {
    hide BigCache.Valid; hide BigCache.Separate; hide BlocksOf; hide OneMore; hide Gathered; hide HashAt; hide Passed;
    hide Enumerates; hide Holding;
    var seen :| Gathered(BlocksOf(cache), c, seen) && Enumerates(hashes, seen);
    GatherOne(cache, c, c', seen, now);
    h := Progress(cache, c, c', hashes, now);
    SeeOne(hashes, seen, h);
    PassOne(BlocksOf(cache), c, c', places);
  }

  lemma EndAlong(cache: BigCache, c: Cursor, c': Cursor, places: seq<Place>, hashes: seq<u64>, now: nat)
    requires cache.Separate() && cache.Valid(now) && |cache.shards| > 0
    requires Along(cache, c, places, hashes) && Finished(BlocksOf(cache), c, c')
    ensures |places| == |cache.Hashes()| && NoDuplicates(places)
    ensures forall p :: p in places <==> Occupied(BlocksOf(cache), p)
  {
    hide BigCache.Valid; hide BigCache.Separate; hide BlocksOf; hide Finished; hide Gathered; hide HashAt;
    hide Passed;
    hide Holding; hide BigCache.Hashes; hide Occupied;
    var seen :| Gathered(BlocksOf(cache), c, seen) && Enumerates(hashes, seen);
    SeeAll(cache, c, c', hashes, seen, now);
    PassAll(BlocksOf(cache), c, c', places);
  }

  lemma DescribeOne(cache: BigCache, p: Place, r: Info, places: seq<Place>, infos: seq<Info>)
    requires cache.Separate() && Describing(cache, places, infos) && Describes(cache, p, r)
    ensures Describing(cache, places + [p], infos + [r])
  {
    hide Describes; hide BigCache.Separate;
  }

  /** Stepping through a whole cache visits every live block exactly once, as many as Len counts. */
  method Visit(cache: BigCache, ghost now: nat) returns (places: seq<Place>)
    requires cache.Valid(now)
    ensures |places| == |cache.Hashes()| && NoDuplicates(places)
    ensures forall p :: p in places <==> Occupied(BlocksOf(cache), p)
  {
    hide BigCache.Valid; hide BigCache.Separate; hide BlocksOf; hide OneMore; hide Finished; hide Along;
    hide Occupied;
    hide Cursor.Stands; hide BigCache.Hashes; hide Cursor.Visited; hide Describing;
    cache.ValidSeparate(now);
    var it := new EntryInfoIterator(cache, now);
    places := [];
    ghost var hashes := [];
    StartAlong(cache, it.At());
    while true
      invariant it.cache == cache && fresh(it) && it.Valid(now) && cache.Separate() && cache.Valid(now)
      invariant Along(cache, it.At(), places, hashes)
      decreases |cache.shards| - it.currentShard, |it.elements| - it.currentIndex
    {
      ghost var c := it.At();
      var ok := it.SetNext(now);
      if !ok {
        EndAlong(cache, c, it.At(), places, hashes, now);
        break;
      }
      ghost var h := StepAlong(cache, c, it.At(), places, hashes, now);
      places := places + [it.At().Here()];
      hashes := hashes + [h];
    }
  }

  /** A whole iteration yields, for every live block exactly once, what is read from the entry that it names. */
  method Collect(cache: BigCache, ghost now: nat) returns (places: seq<Place>, infos: seq<Info>)
    requires cache.Valid(now)
    ensures |places| == |cache.Hashes()| && NoDuplicates(places) && Describing(cache, places, infos)
    ensures forall p :: p in places <==> Occupied(BlocksOf(cache), p)
  {
    hide BigCache.Valid; hide BigCache.Separate; hide BlocksOf; hide OneMore; hide Finished; hide Along;
    hide Occupied;
    hide Cursor.Stands; hide BigCache.Hashes; hide Cursor.Visited; hide Describing; hide Describes;
    cache.ValidSeparate(now);
    var it := new EntryInfoIterator(cache, now);
    places, infos := [], [];
    ghost var hashes := [];
    StartAlong(cache, it.At());
    while true
      invariant it.cache == cache && fresh(it) && it.Valid(now) && cache.Separate() && cache.Valid(now)
      invariant Along(cache, it.At(), places, hashes) && Describing(cache, places, infos)
      decreases |cache.shards| - it.currentShard, |it.elements| - it.currentIndex
    {
      ghost var c := it.At();
      var ok := it.SetNext(now);
      if !ok {
        EndAlong(cache, c, it.At(), places, hashes, now);
        break;
      }
      ghost var h := StepAlong(cache, c, it.At(), places, hashes, now);
      var r := it.Value(now);
      DescribeOne(cache, it.At().Here(), r, places, infos);
      places, infos, hashes := places + [it.At().Here()], infos + [r], hashes + [h];
    }
  }
}
