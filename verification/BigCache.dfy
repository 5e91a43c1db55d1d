/** The cache: shards chosen by the low bits of the hash of a key. */
module BigCaches {
  import opened Options
  import opened Bytes
  import opened Bits
  import opened Arena
  import opened Queues
  import opened Ttl
  import opened Shards

  /** For a power of two, masking the hash is taking its remainder. */
  lemma MaskIsRemainder(hash: nat, shards: nat)
    requires IsPower(shards)
    ensures shards > 0 && And(hash, shards - 1) == Home(hash, shards) == hash % shards
  {
    var k: nat :| shards == Power2(k);
    AndMask(hash, k);
  }

  /** The shard, of n, that a hash belongs to. */
  function Home(hash: nat, n: nat): (i: nat)
    requires n > 0
    ensures i < n
  {
    hash % n
  }

  /** The limit, in bytes, of each of n shards, for a limit of the cache in megabytes. */
  function MaximumShardSize(hardMaxCacheSize: int, n: nat): int
    requires n > 0 || hardMaxCacheSize <= 0
  {
    if hardMaxCacheSize > 0 then hardMaxCacheSize * 1024 * 1024 / n else 0
  }

  /** The limits of the shards use up the limit of the cache, but for less than a byte each. */
  lemma ShardLimits(hardMaxCacheSize: int, n: nat)
    requires n > 0
    ensures var limit := MaximumShardSize(hardMaxCacheSize, n);
      if hardMaxCacheSize > 0 then n * limit <= hardMaxCacheSize * 1048576 < n * (limit + 1) else limit == 0
  {
    if hardMaxCacheSize > 0 {
      var total := hardMaxCacheSize * 1048576;
      assert total == n * (total / n) + total % n;
    }
  }

  /** Shard i of n holds only hashes that belong to it, and has the limit of every shard. */
  ghost predicate ShardOk(shard: Shard, i: int, n: nat, hash: Key -> u64, limit: int, now: nat)
    reads shard, shard.ttlTable, shard.entries, shard.entries.arena
    reads shard.entries.freelist, shard.entries.freelist.at.Keys
    requires n > 0
  {
    && shard.Current(now) && shard.hasher == hash && shard.entries.maxCapacity == limit
    && (forall h :: h in shard.model ==> Home(h, n) == i)
  }

  class BigCache {
    const shards: seq<Shard>
    const shardMask: nat
    const hash: Key -> u64
    const maxShardSize: int
    ghost var Repr: set<object>

    /** The shards are separate objects, and nothing is shared between them. */
    ghost predicate Separate()
      reads this, Repr
    {
      && this in Repr
      && (forall i :: 0 <= i < |shards| ==>
        && shards[i] in Repr && shards[i].entries in Repr && shards[i].entries.freelist in Repr
        && shards[i].Repr() <= Repr && this !in shards[i].Repr())
      && (forall i, j :: 0 <= i < |shards| && 0 <= j < |shards| && i != j ==> shards[i].Repr() !! shards[j].Repr())
    }

    ghost predicate Valid(now: nat)
      reads this, Repr
    {
      && Separate() && IsPower(|shards|) && shardMask == |shards| - 1
      && forall i :: 0 <= i < |shards| ==> ShardOk(shards[i], i, |shards|, hash, maxShardSize, now)
    }

    /** What the cache holds under a hash: the cache is the union of its shards. */
    ghost function Lookup(h: u64): Option<Entry>
      reads this, Repr
      requires Separate() && |shards| > 0
    {
      At(shards[Home(h, |shards|)].model, h)
    }

    /** The end of the arena in the shard that a hash belongs to. */
    function TailFor(h: u64): int
      reads this, Repr
      requires Separate() && |shards| > 0
    {
      shards[Home(h, |shards|)].entries.tail
    }

    ghost predicate TailsWithin(n: int)
      reads this, Repr
      requires Separate()
    {
      forall i :: 0 <= i < |shards| ==> shards[i].entries.tail <= n
    }

    /** The hashes held by the first n shards. */
    ghost function HashesBelow(n: int): set<u64>
      reads this, Repr
      requires Separate() && n <= |shards|
    {
      set i, h | 0 <= i < n && h in shards[i].model :: h
    }

    ghost function Hashes(): set<u64>
      reads this, Repr
      requires Separate()
    {
      HashesBelow(|shards|)
    }

    method Len(ghost now: nat) returns (len: nat)
      requires Valid(now)
      ensures len == |Hashes()|
    {
      hide BigCache.Valid; hide BigCache.Separate; hide HashesBelow; hide Shard.Valid;
      len := 0;
      ValidSeparate(now);
      NoHashes();
      var i := 0;
      while i < |shards|
        invariant 0 <= i <= |shards| && Separate() && Valid(now) && len == |HashesBelow(i)|
      {
        MoreHashes(i, now);
        var n := shards[i].Len();
        len := len + n;
        i := i + 1;
      }
    }

    lemma ValidSeparate(now: nat)
      requires Valid(now)
      ensures Separate() && |shards| > 0
    {
      hide ShardOk;
      PowerPositive(|shards|);
    }

    lemma NoHashes()
      requires Separate()
      ensures |HashesBelow(0)| == 0
    {
    }

    lemma MoreHashes(i: int, now: nat)
      requires Valid(now) && 0 <= i < |shards|
      ensures shards[i].Valid() && |HashesBelow(i + 1)| == |HashesBelow(i)| + |shards[i].model|
    {
      hide Shard.Valid; hide IsPower; hide Home; hide TableCurrent;
      var below, here := HashesBelow(i), shards[i].model.Keys;
      forall h | h in below ensures Home(h, |shards|) < i {
        var j :| 0 <= j < i && h in shards[j].model;
        assert ShardOk(shards[j], j, |shards|, hash, maxShardSize, now);
      }
      assert ShardOk(shards[i], i, |shards|, hash, maxShardSize, now);
      assert below !! here;
      assert HashesBelow(i + 1) == below + here;
      assert |below + here| == |below| + |here|;
    }

    lemma HashesLookup(now: nat)
      requires Valid(now)
      ensures |shards| > 0 && forall h: u64 :: h in Hashes() <==> Lookup(h).Some?
    {
      hide Shard.Current; hide Home;
      PowerPositive(|shards|);
      forall h: u64 ensures h in Hashes() <==> Lookup(h).Some? {
        if h in Hashes() {
          var i :| 0 <= i < |shards| && h in shards[i].model;
          assert ShardOk(shards[i], i, |shards|, hash, maxShardSize, now);
        }
      }
    }

    /** Made by New. */
    constructor (shards: seq<Shard>, hash: Key -> u64, maxShardSize: int, ghost repr: set<object>)
      ensures this.shards == shards && this.hash == hash && this.maxShardSize == maxShardSize && Repr == repr + {this}
      ensures shardMask == if |shards| == 0 then TWO_64 - 1 else |shards| - 1
    {
      this.shards := shards;
      shardMask := if |shards| == 0 then TWO_64 - 1 else |shards| - 1;
      this.hash := hash;
      this.maxShardSize := maxShardSize;
      Repr := repr + {this};
    }

    /** A cache is made exactly for the numbers that the power-of-two test accepts, which are the powers of two and
        zero; for zero it has no shards, and with a limit the division by their number crashes. */
    static method New(n: nat, initialCapacity: nat, hardMaxCacheSize: int, bufferSize: nat, hash: Key -> u64, now: nat)
      returns (cache: BigCache?, crashed: bool)
      requires Seconds(now) <= MAX_SECONDS
      ensures cache == null <==> (n > 0 && !IsPower(n)) || crashed
      ensures crashed <==> n == 0 && hardMaxCacheSize > 0
      ensures cache != null ==> fresh(cache) && fresh(cache.Repr) && |cache.shards| == n && cache.hash == hash
      ensures cache != null ==> cache.maxShardSize == MaximumShardSize(hardMaxCacheSize, n)
      ensures cache != null && hardMaxCacheSize > 0 ==>
        n * cache.maxShardSize <= hardMaxCacheSize * 1048576 < n * (cache.maxShardSize + 1)
      ensures IsPower(n) ==>
        && cache.Valid(now) && cache.TailsWithin(LEFT_MARGIN) && |cache.shards| > 0
        && forall h: u64 :: cache.Lookup(h) == None
    {
      hide Shard.Valid; hide IsPower; hide TableCurrent; hide And; hide MaximumShardSize;
      PowerOfTwoTest(n);
      if IsPower(n) {
        PowerPositive(n);
      }
      if !IsPowerOfTwo(n) {
        return null, false;
      }
      if n == 0 && hardMaxCacheSize > 0 {
        return null, true;
      }
      var limit := MaximumShardSize(hardMaxCacheSize, n);
      var shards: seq<Shard> := [];
      ghost var repr: set<object> := {};
      var i := 0;
      while i < n
        invariant 0 <= i <= n && |shards| == i && fresh(repr)
        invariant forall j :: 0 <= j < i ==> shards[j].Repr() <= repr && EmptyShard(shards[j], hash, limit, now)
        invariant forall j, k :: 0 <= j < k < i ==> shards[j].Repr() !! shards[k].Repr()
      {
        var shard := new Shard(initialCapacity, limit, bufferSize, hash, now);
        EmptyCurrent(shard.ttlTable.Value(), now, hash);
        shards := shards + [shard];
        repr := repr + shard.Repr();
        i := i + 1;
      }
      cache := new BigCache(shards, hash, limit, repr);
      crashed := false;
      forall j | 0 <= j < |cache.shards|
        ensures cache.shards[j] == shards[j] && EmptyShard(shards[j], hash, limit, now)
      {
      }
      if n > 0 {
        ShardLimits(hardMaxCacheSize, n);
      }
    }

    method Get(key: Key, ghost now: nat) returns (r: Reply)
      requires Valid(now)
      ensures |shards| > 0 && r == ReplyTo(Lookup(hash(key)), key)
    {
      hide Shard.Valid; hide ReplyTo; hide IsPower;
      var hashedKey := hash(key);
      MaskIsRemainder(hashedKey, |shards|);
      var index := And(hashedKey, shardMask);
      assert ShardOk(shards[index], index, |shards|, hash, maxShardSize, now);
      r := shards[index].Get(key, hashedKey);
    }

    /** There is room, in its shard, for what a change stores. */
    ghost predicate RoomFor(c: Change)
      reads this, Repr
      requires Separate() && |shards| > 0
    {
      c.Store? ==> shards[Home(hash(c.key), |shards|)].RoomFor(c)
    }

    /** A change to shard k alone. */
    method ChangeShard(k: int, c: Change, now: nat) returns (ok: bool)
      requires Valid(now) && 0 <= k < |shards| && (!c.Ticks? ==> Home(hash(c.key), |shards|) == k)
      requires RoomFor(c) && (c.Store? ==> c.expiry <= Horizon(now))
      modifies Repr
      ensures Separate() && fresh(Repr - old(Repr))
      ensures forall i :: 0 <= i < |shards| && i != k ==>
        && ShardOk(shards[i], i, |shards|, hash, maxShardSize, now)
        && shards[i].model == old(shards[i].model) && shards[i].entries.tail == old(shards[i].entries.tail)
      ensures shards[k].entries.tail <= old(shards[k].entries.tail) + Growth(c)
      ensures ok || !c.Store? ==>
        && shards[k].Current(now)
        && forall h: u64 :: Becomes(c, h, At(old(shards[k].model), h), At(shards[k].model, h), now, hash)
      ensures c.Store? && !ok ==>
        shards[k].locked && 0 < maxShardSize < old(shards[k].entries.tail) + 2 * Growth(c)
      ensures c.Erase? ==> (ok <==> hash(c.key) in old(shards[k].model))
    {
      hide Home; hide Shard.Current; hide IsPower; hide HasRoom; hide Vacated; hide Growth; hide Becomes; hide At;
      var shard := shards[k];
      assert ShardOk(shard, k, |shards|, hash, maxShardSize, now);
      ok := shard.Apply(c, now);
      Repr := Repr + shard.Repr();
      forall i | 0 <= i < |shards| && i != k
        ensures shards[i].Repr() == old(shards[i].Repr()) && ShardOk(shards[i], i, |shards|, hash, maxShardSize, now)
        ensures shards[i].model == old(shards[i].model) && shards[i].entries.tail == old(shards[i].entries.tail)
      {
        assert old(shards[i].Repr()) !! old(shard.Repr());
        assert old(ShardOk(shards[i], i, |shards|, hash, maxShardSize, now));
      }
      assert Separate();
    }

    /** A change to shard k, which leaves the others alone; after a store that is refused the shard is locked. */
    method Apply(k: int, c: Change, now: nat, ghost bound: nat) returns (ok: bool)
      requires Valid(now) && 0 <= k < |shards| && (!c.Ticks? ==> Home(hash(c.key), |shards|) == k)
      requires RoomFor(c) && (c.Store? ==> c.expiry <= Horizon(now)) && TailsWithin(bound)
      modifies Repr
      ensures fresh(Repr - old(Repr))
      ensures ok || !c.Store? ==>
        && Valid(now) && TailsWithin(bound + Growth(c))
        && forall h: u64 :: if Home(h, |shards|) == k then Becomes(c, h, old(Lookup(h)), Lookup(h), now, hash)
                            else Lookup(h) == old(Lookup(h))
      ensures c.Store? && !ok ==> shards[k].locked && 0 < maxShardSize < bound + 2 * Growth(c)
      ensures c.Erase? ==> (ok <==> old(Lookup(hash(c.key))).Some?)
    {
      hide Home; hide Shard.Current; hide IsPower; hide HasRoom; hide Vacated; hide Growth; hide Aged;
      ghost var before := shards[k].model;
      assert ShardOk(shards[k], k, |shards|, hash, maxShardSize, now);
      ok := ChangeShard(k, c, now);
      if ok || !c.Store? {
        forall h: u64 | h in shards[k].model ensures Home(h, |shards|) == k {
          BecomesFrom(c, h, At(before, h), At(shards[k].model, h), now, hash);
        }
      }
    }

    method Set(key: Key, entry: seq<byte>, expiry: u64, now: nat, ghost bound: nat)
      returns (timestamp: u64, stored: bool)
      requires Valid(now) && expiry <= Horizon(now)
      requires |shards| > 0 && TailsWithin(bound) && RoomFor(Store(key, entry, expiry))
      modifies Repr
      ensures fresh(Repr - old(Repr)) && |shards| > 0
      ensures stored ==>
        && Valid(now) && TailsWithin(bound + BlockSize(key, entry)) && timestamp == expiry
        && forall h: u64 :: Lookup(h) == if h == hash(key) then Some(Entry(expiry, key, entry)) else old(Lookup(h))
      ensures !stored ==> timestamp == 0 && 0 < maxShardSize < bound + 2 * BlockSize(key, entry)
      ensures !stored ==> shards[Home(hash(key), |shards|)].locked
    {
      hide ShardOk; hide And; hide IsPower; hide BigCache.Lookup; hide TailsWithin; hide Home; hide BigCache.RoomFor;
      MaskIsRemainder(hash(key), |shards|);
      stored := Apply(And(hash(key), shardMask), Store(key, entry, expiry), now, bound);
      timestamp := if stored then expiry else 0;
    }

    method Delete(key: Key, now: nat, ghost bound: nat) returns (found: bool)
      requires Valid(now) && TailsWithin(bound)
      modifies Repr
      ensures Valid(now) && fresh(Repr - old(Repr)) && TailsWithin(bound)
      ensures |shards| > 0 && (found <==> old(Lookup(hash(key))).Some?)
      ensures forall h: u64 :: Lookup(h) == if h == hash(key) then None else old(Lookup(h))
    {
      hide ShardOk; hide And; hide IsPower; hide BigCache.Lookup; hide TailsWithin; hide Home;
      MaskIsRemainder(hash(key), |shards|);
      found := Apply(And(hash(key), shardMask), Erase(key), now, bound);
    }

    lemma Later(now: nat, later: nat)
      requires Valid(now) && now <= later && Seconds(later) <= MAX_SECONDS
      ensures Valid(later)
    {
      hide Shard.Valid; hide TableCurrent; hide IsPower;
      forall i | 0 <= i < |shards| ensures ShardOk(shards[i], i, |shards|, hash, maxShardSize, later) {
        assert ShardOk(shards[i], i, |shards|, hash, maxShardSize, now);
        LaterCurrent(shards[i].model, shards[i].ttlTable.Value(), now, later, hash);
      }
    }

    /** Time passes until now, and every shard evicts what is due. */
    method Tick(ghost before: nat, now: nat, ghost bound: nat)
      requires Valid(before) && TailsWithin(bound) && before <= now && Seconds(now) <= MAX_SECONDS
      modifies Repr
      ensures Valid(now) && fresh(Repr - old(Repr)) && TailsWithin(bound)
      ensures |shards| > 0 && forall h: u64 :: Aged(old(Lookup(h)), Lookup(h), now)
    {
      hide ShardOk; hide IsPower; hide Aged; hide TailsWithin;
      Later(before, now);
      PowerPositive(|shards|);
      var i := 0;
      while i < |shards|
        invariant 0 <= i <= |shards|
        invariant Valid(now) && fresh(Repr - old(Repr)) && TailsWithin(bound)
        invariant forall h: u64 ::
          if Home(h, |shards|) < i then Aged(old(Lookup(h)), Lookup(h), now) else Lookup(h) == old(Lookup(h))
      {
        var _ := Apply(i, Ticks, now, bound);
        i := i + 1;
      }
    }
  }

  /** A shard as it is made. */
  ghost predicate EmptyShard(shard: Shard, hash: Key -> u64, limit: int, now: nat)
    reads shard, shard.ttlTable, shard.entries, shard.entries.arena
    reads shard.entries.freelist, shard.entries.freelist.at.Keys
  {
    && shard.Current(now) && shard.model == map[] && shard.hasher == hash
    && shard.entries.maxCapacity == limit && shard.entries.tail == LEFT_MARGIN
  }

  /** An entry that is there after a change was there before, or is the one stored. */
  lemma BecomesFrom(c: Change, h: u64, before: Option<Entry>, after: Option<Entry>, now: nat, hasher: Key -> u64)
    requires Becomes(c, h, before, after, now, hasher) && after.Some?
    ensures before.Some? || (c.Store? && h == hasher(c.key))
  {
  }

  lemma EmptyCurrent(s: Table, now: nat, hash: Key -> u64)
    requires s.tree == map[] && Seconds(now) <= MAX_SECONDS
    ensures TableCurrent(map[], s, now, hash)
  {
  }

  lemma PowerPositive(n: nat)
    requires IsPower(n)
    ensures n > 0
  {
  }
}
