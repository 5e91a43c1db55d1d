/** One shard of the cache: a hash index over a byte queue, with an expiry table. */
module Shards {
  import opened Options
  import opened Bytes
  import opened Regions
  import opened FreeLists
  import opened Arena
  import opened Queues
  import opened Encoding
  import opened Ttl

  // ---------------------------------------------------------------- the shard as a map

  datatype Entry = Entry(timestamp: u64, key: Key, value: seq<byte>)

  type Model = map<u64, Entry>

  datatype Reply = Found(value: seq<byte>) | NotFound | Panicked

  /** What is returned for key when e is stored under its hash: the value, if it is stored for that key.
      A key longer than MAX_KEY was cut when it was stored. */
  function ReplyTo(e: Option<Entry>, key: Key): Reply {
    match e
    case None => NotFound
    case Some(Entry(_, stored, value)) =>
      var cut := |stored| % TWO_16;
      if |stored| <= MAX_KEY then (if stored == key then Found(value) else NotFound)
      else if cut > MAX_KEY then Panicked
      else if stored[..cut] == key then Found(stored[cut..] + value)
      else NotFound
  }

  /** For keys that can be read back, the value is returned exactly when it was stored for that key. */
  lemma ReplyFound(e: Option<Entry>, key: Key)
    requires e.Some? ==> |e.value.key| <= 65517
    ensures ReplyTo(e, key) == if e.Some? && e.value.key == key then Found(e.value.value) else NotFound
  {
  }

  function At(model: Model, hash: u64): Option<Entry> {
    if hash in model then Some(model[hash]) else None
  }

  function Answer(model: Model, key: Key, hash: u64): Reply {
    ReplyTo(At(model, hash), key)
  }

  /** The entries that are left after the keys that expire at timestamp are evicted. */
  ghost function Evicted(model: Model, timestamp: u64, keys: set<Key>, hasher: Key -> u64): Model {
    map h | h in model && !(model[h].timestamp == timestamp && exists k :: k in keys && hasher(k) == h) :: model[h]
  }

  // ---------------------------------------------------------------- the index and the blocks

  function Blob(hash: u64, e: Entry): seq<byte> {
    Wrap(e.timestamp, hash, e.key, e.value)
  }

  /** The index is a bijection from the hashes to the entries of the queue, and each entry stores the
      hash that names it. */
  ghost predicate Linked(hashmap: map<u64, int>, model: Model, ents: map<int, seq<byte>>) {
    && hashmap.Keys == model.Keys && |hashmap| == |ents|
    && (forall h :: h in hashmap ==> hashmap[h] in ents && ents[hashmap[h]] == Blob(h, model[h]))
    && (forall i :: i in ents ==>
      HEADERS_SIZE <= |ents[i]| && ReadHash(ents[i]) in hashmap && hashmap[ReadHash(ents[i])] == i)
  }

  lemma SameKeys(hashmap: map<u64, int>, model: Model, ents: map<int, seq<byte>>)
    requires Linked(hashmap, model, ents)
    ensures hashmap.Keys == model.Keys && |model| == |hashmap| == |ents|
    ensures forall h :: h in hashmap ==> hashmap[h] in ents && ents[hashmap[h]] == Blob(h, model[h])
  {
    assert |model| == |model.Keys| == |hashmap.Keys| == |hashmap|;
  }

  lemma Unlink(hashmap: map<u64, int>, model: Model, ents: map<int, seq<byte>>, h: u64)
    requires Linked(hashmap, model, ents) && h in hashmap
    ensures Linked(hashmap - {h}, model - {h}, ents - {hashmap[h]})
  {
    hide Wrap; hide ReadHash; hide Blob;
    var i := hashmap[h];
    var hashmap', model', ents' := hashmap - {h}, model - {h}, ents - {i};
    assert |hashmap'| == |hashmap| - 1 && |ents'| == |ents| - 1;
    forall g | g in hashmap' ensures hashmap'[g] in ents' && ents'[hashmap'[g]] == Blob(g, model'[g]) {
      OwnBlocks(hashmap, model, ents, g, h);
    }
  }

  lemma OwnBlocks(hashmap: map<u64, int>, model: Model, ents: map<int, seq<byte>>, g: u64, h: u64)
    requires Linked(hashmap, model, ents) && g in hashmap && h in hashmap
    ensures hashmap[g] == hashmap[h] ==> g == h
  {
    hide Wrap; hide ReadHash; hide Blob;
    BlobHash(g, model[g]);
    BlobHash(h, model[h]);
  }

  lemma EmptyLinked()
    ensures Linked(map[], map[], map[])
  {
  }

  /** Different hashes name different blocks. */
  lemma Injective(hashmap: map<u64, int>, model: Model, ents: map<int, seq<byte>>)
    requires Linked(hashmap, model, ents)
    ensures forall h, g :: h in hashmap && g in hashmap && h != g ==> hashmap[h] != hashmap[g]
    ensures forall h :: h in hashmap ==> hashmap[h] in ents
    ensures forall i :: i in ents ==> exists h :: h in hashmap && hashmap[h] == i
  {
    hide Wrap; hide ReadHash;
    forall h, g | h in hashmap && g in hashmap && h != g ensures hashmap[h] != hashmap[g] {
      OwnBlocks(hashmap, model, ents, h, g);
    }
  }

  lemma BlobHash(h: u64, e: Entry)
    ensures HEADERS_SIZE <= |Blob(h, e)| && ReadHash(Blob(h, e)) == h && ReadTimestamp(Blob(h, e)) == e.timestamp
  {
    WrapFields(e.timestamp, h, e.key, e.value);
  }

  lemma Link(hashmap: map<u64, int>, model: Model, ents: map<int, seq<byte>>, h: u64, e: Entry, idx: int)
    requires Linked(hashmap, model, ents) && h !in hashmap && idx !in ents
    ensures Linked(hashmap[h := idx], model[h := e], ents[idx := Blob(h, e)])
  {
    hide Wrap; hide ReadHash;
    BlobHash(h, e);
  }

  /** Storing an entry under a hash that no other entry has, at an address that fits in 32 bits. */
  lemma Relink(hashmap: map<u64, int>, model: Model, ents: map<int, seq<byte>>, h: u64, e: Entry, idx: int)
    requires Linked(hashmap - {h}, model - {h}, ents) && idx !in ents && 0 <= idx < TWO_32
    ensures Linked(hashmap[h := idx % TWO_32], model[h := e], ents[idx := Blob(h, e)])
  {
    hide Linked; hide Blob;
    Link(hashmap - {h}, model - {h}, ents, h, e, idx);
    assert hashmap[h := idx] == (hashmap - {h})[h := idx] && model[h := e] == (model - {h})[h := e];
  }

  /** Reading a stored entry gives the answer of the map. */
  lemma AnswerByReading(model: Model, key: Key, h: u64)
    requires h in model
    ensures var w := Blob(h, model[h]);
      && HEADERS_SIZE + KeyLength(w) <= |w|
      && Answer(model, key, h) ==
         match ReadKey(w)
         case Panic => Panicked
         case Ok(k) => if k == key then Found(ReadEntry(w)) else NotFound
  {
    hide Wrap;
    var e := model[h];
    Reading(e.timestamp, h, e.key, e.value);
    RoundTrip(e.timestamp, h, e.key, e.value);
  }

  /** Deleting entry i does not depend on what its bytes are. */
  lemma SameDeletion(tiles: Tiles, i: int, tiles': Tiles)
    requires i in tiles && tiles[i].Live? && i in tiles' && tiles'[i].Live? && |tiles[i].data| == |tiles'[i].data|
    requires tiles' == tiles[i := tiles'[i]]
    ensures DeletedTiles(tiles', i) == DeletedTiles(tiles, i)
  {
    assert IdleIn(tiles') == IdleIn(tiles);
  }

  /** The tiles once the entry that hash names is deleted. */
  ghost function Vacated(tiles: Tiles, hashmap: map<u64, int>, hash: u64): Tiles {
    if hash in hashmap && hashmap[hash] in tiles then DeletedTiles(tiles, hashmap[hash]) else tiles
  }

  // ---------------------------------------------------------------- the shard

  class Shard {
    var hashmap: map<u64, int>
    const entries: BytesQueue
    var entryBuffer: array<byte>
    const ttlTable: TtlManager
    const hasher: Key -> u64
    var locked: bool
    ghost var model: Model

    ghost function Repr(): set<object>
      reads this, entries, entries.freelist
    {
      {this, entryBuffer, ttlTable} + entries.Repr()
    }

    /** The queue has never been popped, and its addresses fit in 32 bits. */
    ghost predicate Intact()
      reads this`entryBuffer, entries, entries.arena, entries.freelist, entries.freelist.at.Keys
    {
      && entries.Valid() && entries.head == LEFT_MARGIN && entries.tail <= TWO_32
      && entryBuffer != entries.arena
    }

    ghost predicate Valid()
      reads this, entries, entries.arena, entries.freelist, entries.freelist.at.Keys
    {
      !locked && Intact() && Linked(hashmap, model, entries.Entries())
    }

    /** Besides, every entry that is to expire is in the expiry table, whose timer is set. */
    ghost predicate Current(now: nat)
      reads this, ttlTable, entries, entries.arena, entries.freelist, entries.freelist.at.Keys
    {
      Valid() && TableCurrent(model, ttlTable.Value(), now, hasher)
    }

    constructor (initialCapacity: nat, maxCapacity: int, bufferSize: nat, hasher: Key -> u64, now: nat)
      ensures Valid() && fresh(Repr())
      ensures model == map[] && this.hasher == hasher && entries.maxCapacity == maxCapacity
      ensures ttlTable.Value().tree == map[] && entries.tail == LEFT_MARGIN && hashmap == map[]
      ensures entries.capacity == initialCapacity && entries.tiles == map[]
    {
      hide Sound; hide LiveIn; hide IdleIn; hide FreeList.Valid; hide FreeList.Free; hide BytesQueue.Valid;
      hide Linked;
      hashmap := map[];
      entries := new BytesQueue(initialCapacity, maxCapacity);
      entryBuffer := new byte[bufferSize](_ => 0);
      ttlTable := new TtlManager(now);
      this.hasher := hasher;
      locked := false;
      model := map[];
      new;
      EmptySound([]);
      EmptyLinked();
    }

    /** The entry named by a hash is in the queue and is read back whole. */
    lemma Lookup(h: u64)
      requires Valid() && h in hashmap
      ensures h in model && hashmap[h] in entries.Entries() && entries.Entries()[hashmap[h]] == Blob(h, model[h])
      ensures var i, n := hashmap[h], |Blob(h, model[h])|;
        && 0 < i && HEADERS_SIZE <= n && i + HEADER + n <= entries.arena.Length
        && entries.Peek(i) == Window(i + HEADER, n)
        && entries.arena[i + HEADER..i + HEADER + n] == Blob(h, model[h])
    {
      hide Wrap; hide ReadHash; hide BytesQueue.Valid; hide BytesQueue.Peek;
      BlobHash(h, model[h]);
      entries.PeekEntry(hashmap[h]);
    }

    method Get(key: Key, hashedKey: u64) returns (r: Reply)
      requires Valid()
      ensures r == Answer(model, key, hashedKey)
    {
      hide Linked; hide Intact; hide Blob; hide ReadKey; hide ReadEntry; hide BytesQueue.Peek; hide Answer;
      var itemIndex := if hashedKey in hashmap then hashmap[hashedKey] else 0;
      if hashedKey in hashmap {
        Lookup(hashedKey);
        AnswerByReading(model, key, hashedKey);
      } else {
        Missing(key, hashedKey);
      }
      if itemIndex == 0 {
        return NotFound;
      }
      var w := entries.Get(itemIndex);
      var wrappedEntry := entries.arena[w.start..w.start + w.size];
      match ReadKey(wrappedEntry)
      case Panic => return Panicked;
      case Ok(entryKey) =>
        if key != entryKey {
          return NotFound;
        }
        return Found(ReadEntry(wrappedEntry));
    }

    lemma Missing(key: Key, h: u64)
      requires Valid() && h !in hashmap
      ensures h !in model && Answer(model, key, h) == NotFound
    {
    }

    method Len() returns (n: nat)
      requires Valid()
      ensures n == |model| == entries.count
    {
      hide BytesQueue.Valid;
      n := |hashmap|;
      SameKeys(hashmap, model, entries.Entries());
      EntryCount();
    }

    lemma EntryCount()
      requires Valid()
      ensures entries.count == |entries.Entries()|
    {
    }

    /** Clears the stored hash of the entry at index and gives its bytes back to the queue. */
    method Discard(index: int)
      requires Intact() && index in entries.Entries() && HEADERS_SIZE <= |entries.Entries()[index]|
      modifies entries, entries.arena, entries.freelist
      ensures Intact() && entries.arena == old(entries.arena) && entries.tail == old(entries.tail)
      ensures fresh(entries.Repr() - old(entries.Repr()))
      ensures entries.Entries() == old(entries.Entries()) - {index}
      ensures index in old(entries.tiles) && entries.tiles == DeletedTiles(old(entries.tiles), index)
      ensures entries.head == old(entries.head) && entries.rightMargin == old(entries.rightMargin)
      ensures 0 <= index && index + HEADER + TIMESTAMP_SIZE <= entries.arena.Length
      ensures entries.arena[index + HEADER..index + HEADER + TIMESTAMP_SIZE]
        == old(entries.Entries()[index])[..TIMESTAMP_SIZE]
    {
      hide BytesQueue.Valid; hide BytesQueue.Peek; hide DeletedTiles; hide Put; hide LiveIn; hide Release;
      hide FreeList.Valid; hide FreeList.Free;
      ghost var was := entries.Entries()[index];
      ghost var tiles := entries.tiles;
      LiveTile(tiles, index);
      entries.WriteWithin(index, TIMESTAMP_SIZE, Put(0, HASH_SIZE));
      entries.PeekEntry(index);
      ghost var now := entries.Entries()[index];
      assert now[..TIMESTAMP_SIZE] == was[..TIMESTAMP_SIZE];
      ghost var start := index + HEADER;
      assert entries.arena[start..start + |now|][..TIMESTAMP_SIZE] == entries.arena[start..start + TIMESTAMP_SIZE];
      LiveTile(entries.tiles, index);
      SameDeletion(tiles, index, entries.tiles);
      var ok := entries.Delete(index);
    }

    /** Reads the expiry of the entry that hash names. */
    method StoredTimestamp(hashedKey: u64) returns (timestamp: u64)
      requires Valid() && hashedKey in hashmap
      ensures hashedKey in model && timestamp == model[hashedKey].timestamp
    {
      hide Intact; hide BytesQueue.Peek; hide Blob; hide Linked; hide ReadTimestamp; hide LiveIn;
      Lookup(hashedKey);
      BlobHash(hashedKey, model[hashedKey]);
      var w := entries.Get(hashmap[hashedKey]);
      var wrappedEntry := entries.arena[w.start..w.start + w.size];
      timestamp := ReadTimestamp(wrappedEntry);
    }

    /** The entry that hash names can be discarded, and is then out of the index. */
    lemma CanDiscard(h: u64)
      requires Valid() && h in hashmap
      ensures h in model && 0 < hashmap[h] && hashmap[h] in entries.Entries()
      ensures HEADERS_SIZE <= |entries.Entries()[hashmap[h]]|
      ensures Linked(hashmap - {h}, model - {h}, entries.Entries() - {hashmap[h]})
    {
      hide Intact; hide BytesQueue.Peek; hide Blob; hide Linked; hide LiveIn;
      Lookup(h);
      Unlink(hashmap, model, entries.Entries(), h);
    }

    lemma CannotDiscard(h: u64)
      requires Valid() && h !in hashmap
      ensures h !in model && hashmap - {h} == hashmap && model - {h} == model
    {
      hide Intact; hide Linked;
      SameKeys(hashmap, model, entries.Entries());
    }

    /** The first half of set: the entry that hash names, if any, is taken out, but stays in the index. */
    method DropPrevious(key: Key, hashedKey: u64, now: nat)
      requires Valid() && Seconds(now) < TWO_64
      modifies entries, entries.arena, entries.freelist, ttlTable
      ensures Intact() && fresh(entries.Repr() - old(entries.Repr()))
      ensures entries.arena == old(entries.arena) && entries.tail == old(entries.tail)
      ensures Linked(hashmap - {hashedKey}, model - {hashedKey}, entries.Entries())
      ensures entries.tiles == Vacated(old(entries.tiles), hashmap, hashedKey)
      ensures entries.head == old(entries.head) && entries.rightMargin == old(entries.rightMargin)
      ensures hashedKey in hashmap ==> hashmap[hashedKey] !in entries.Entries()
      ensures ttlTable.Value() == TableAfterDrop(old(ttlTable.Value()), model, key, hashedKey, now)
      ensures forall t: u64, k: Key :: Records(ttlTable.Value(), t, k) <==>
        old(Records(ttlTable.Value(), t, k)) && !(hashedKey in model && t == model[hashedKey].timestamp && k == key)
    {
      hide Intact; hide DeletedTiles; hide Linked; hide RemoveSpec; hide LiveIn; hide BytesQueue.Entries; hide Records;
      DropRecords(ttlTable.Value(), model, key, hashedKey, now);
      var previousIndex := if hashedKey in hashmap then hashmap[hashedKey] else 0;
      if hashedKey in hashmap {
        CanDiscard(hashedKey);
      } else {
        CannotDiscard(hashedKey);
      }
      if previousIndex != 0 {
        var timestamp := StoredTimestamp(hashedKey);
        ttlTable.Remove(timestamp, key, now);
        Discard(previousIndex);
      }
    }

    /** Pushes an entry to the queue, which has never been popped. */
    method PushFlat(w: seq<byte>) returns (index: int, ok: bool)
      requires Intact() && HasRoom(entries.tiles, entries.tail, HEADER + |w|)
      modifies entries.Repr()
      ensures Intact() && fresh(entries.Repr() - old(entries.Repr()))
      ensures entries.tail <= old(entries.tail) + HEADER + |w|
      ensures ok <==> !Refuses(old(entries.St()), HEADER + |w|, entries.maxCapacity)
      ensures ok ==> 0 <= index < TWO_32 && index !in old(entries.Entries())
      ensures ok ==> entries.Entries() == old(entries.Entries())[index := w]
      ensures !ok ==> entries.St() == old(entries.St())
    {
      hide BytesQueue.Valid; hide Refuses; hide Pushed; hide Queued; hide LiveIn; hide Sound;
      ghost var q := entries.St();
      QueueSound();
      RoomBounds(q, HEADER + |w|);
      index, ok := entries.Push(w);
      QueueSound();
      if ok {
        PushedFlat(q, w, index, entries.St());
      }
    }

    /** The second half of set: the entry is wrapped and pushed, and the index points to it. */
    method StoreNew(key: Key, hashedKey: u64, entry: seq<byte>, expiry: u64) returns (stored: bool)
      requires Intact() && Linked(hashmap - {hashedKey}, model - {hashedKey}, entries.Entries())
      requires HasRoom(entries.tiles, entries.tail, BlockSize(key, entry))
      modifies this`hashmap, this`entryBuffer, this`model, entryBuffer, entries.Repr()
      ensures Intact() && fresh(Repr() - old(Repr())) && entries.tail <= old(entries.tail) + BlockSize(key, entry)
      ensures stored <==> !Refuses(old(entries.St()), BlockSize(key, entry), entries.maxCapacity)
      ensures stored ==> Linked(hashmap, model, entries.Entries())
      ensures stored ==> model == old(model)[hashedKey := Entry(expiry, key, entry)]
      ensures !stored ==> hashmap == old(hashmap) && model == old(model) && entries.St() == old(entries.St())
    {
      hide BytesQueue.Valid; hide Linked; hide Wrap; hide Refuses; hide LiveIn; hide BytesQueue.Entries;
      ghost var e := Entry(expiry, key, entry);
      var buffer, n := WrapEntry(expiry, hashedKey, key, entry, entryBuffer);
      entryBuffer := buffer;
      ghost var ents := entries.Entries();
      var index, ok := PushFlat(entryBuffer[..n]);
      if ok {
        Relink(hashmap, model, ents, hashedKey, e, index);
        hashmap := hashmap[hashedKey := index % TWO_32];
        model := model[hashedKey := e];
      }
      return ok;
    }

    lemma QueueSound()
      requires entries.Valid()
      ensures Sound(entries.St())
      ensures entries.head == LEFT_MARGIN ==> LEFT_MARGIN <= entries.tail
    {
    }

    lemma IntactEnds()
      requires Intact()
      ensures entries.head <= entries.tail && entries.tail == entries.St().tail && entries.head == entries.St().head
    {
      hide BytesQueue.Valid; hide Sound;
      QueueSound();
    }

    method Set(key: Key, hashedKey: u64, entry: seq<byte>, expiry: u64, now: nat) returns (timestamp: u64, stored: bool)
      requires Valid() && Seconds(now) < TWO_64
      requires HasRoom(Vacated(entries.tiles, hashmap, hashedKey), entries.tail, BlockSize(key, entry))
      modifies Repr()
      ensures fresh(Repr() - old(Repr())) && entries.tail <= old(entries.tail) + BlockSize(key, entry)
      ensures stored ==> Valid() && model == old(model)[hashedKey := Entry(expiry, key, entry)] && timestamp == expiry
      ensures stored ==>
        ttlTable.Value() == TableAfterSet(old(ttlTable.Value()), old(model), key, hashedKey, expiry, now)
      ensures stored ==> forall t: u64, k: Key :: Records(ttlTable.Value(), t, k) <==>
        || (expiry != 0 && t == expiry && k == key)
        || (old(Records(ttlTable.Value(), t, k))
            && !(hashedKey in old(model) && t == old(model)[hashedKey].timestamp && k == key))
      ensures var q := old(entries.St()).(tiles := Vacated(old(entries.tiles), old(hashmap), hashedKey));
        stored <==> !Refuses(q, BlockSize(key, entry), entries.maxCapacity)
      ensures !stored ==> 0 < entries.maxCapacity < old(entries.tail) + 2 * BlockSize(key, entry)
      ensures !stored ==> timestamp == 0 && locked && hashmap == old(hashmap)
      ensures !stored && hashedKey in hashmap ==> hashmap[hashedKey] !in entries.Entries()
      ensures !stored ==> ttlTable.Value() == TableAfterDrop(old(ttlTable.Value()), old(model), key, hashedKey, now)
    {
      hide Linked; hide Vacated; hide PutSpec; hide TableAfterDrop; hide Refuses; hide Intact; hide LiveIn;
      hide Records;
      ghost var q, s, m := entries.St(), ttlTable.Value(), model;
      DropPrevious(key, hashedKey, now);
      RefusesAlike(q.(tiles := entries.tiles), entries.St(), BlockSize(key, entry), entries.maxCapacity);
      IntactEnds();
      RefusedBound(entries.St(), BlockSize(key, entry), entries.maxCapacity);
      stored := StoreNew(key, hashedKey, entry, expiry);
      if stored {
        if expiry != NO_EXPIRY {
          ttlTable.Put(expiry, key, now);
        }
        SetRecords(s, m, key, hashedKey, expiry, now);
        return expiry, true;
      }
      // The original returns here without giving the lock back.
      locked := true;
      return 0, false;
    }

    method Del(key: Key, hashedKey: u64, now: nat) returns (found: bool)
      requires Valid() && Seconds(now) < TWO_64
      modifies Repr()
      ensures Valid() && fresh(Repr() - old(Repr())) && entries.tail == old(entries.tail)
      ensures found <==> hashedKey in old(model)
      ensures model == old(model) - {hashedKey}
      ensures entries.tiles == Vacated(old(entries.tiles), old(hashmap), hashedKey)
      ensures ttlTable.Value() ==
        if found then RemoveSpec(old(ttlTable.Value()), old(model)[hashedKey].timestamp, key, now)
        else old(ttlTable.Value())
    {
      hide Intact; hide BytesQueue.Peek; hide DeletedTiles; hide Blob; hide Linked; hide ReadTimestamp;
      hide RemoveSpec; hide LiveIn; hide BytesQueue.Entries;
      var itemIndex := if hashedKey in hashmap then hashmap[hashedKey] else 0;
      if hashedKey in hashmap {
        CanDiscard(hashedKey);
        Lookup(hashedKey);
      } else {
        CannotDiscard(hashedKey);
      }
      if itemIndex == 0 {
        return false;
      }
      ghost var blob := Blob(hashedKey, model[hashedKey]);
      BlobHash(hashedKey, model[hashedKey]);
      var w := entries.Get(itemIndex);
      hashmap := hashmap - {hashedKey};
      model := model - {hashedKey};
      Discard(itemIndex);
      var wrappedEntry := entries.arena[w.start..w.start + w.size];
      TimestampPrefix(entries.arena[..], w.start, w.size, blob);
      var timestamp := ReadTimestamp(wrappedEntry);
      ttlTable.Remove(timestamp, key, now);
      return true;
    }

    /** Evicts the entry that the hash of v names, if it expires at timestamp. */
    method EvictKey(timestamp: u64, v: Key)
      requires Valid()
      modifies this`hashmap, this`model, entries, entries.arena, entries.freelist
      ensures Valid() && fresh(Repr() - old(Repr())) && entries.tail == old(entries.tail)
      ensures entries.arena == old(entries.arena)
      ensures model == Evicted(old(model), timestamp, {v}, hasher)
    {
      hide Intact; hide DeletedTiles; hide Linked; hide LiveIn; hide Evicted; hide BytesQueue.Entries;
      var keyHash := hasher(v);
      EvictOne(model, timestamp, v, hasher);
      var itemIndex := if keyHash in hashmap then hashmap[keyHash] else 0;
      if keyHash in hashmap {
        CanDiscard(keyHash);
      } else {
        CannotDiscard(keyHash);
      }
      if itemIndex == 0 {
        return;
      }
      var storedTimestamp := StoredTimestamp(keyHash);
      if storedTimestamp == timestamp {
        hashmap := hashmap - {keyHash};
        model := model - {keyHash};
        Discard(itemIndex);
      }
    }

    method EvictDel(timestamp: u64, keys: set<Key>)
      requires Valid()
      modifies this`hashmap, this`model, entries, entries.arena, entries.freelist
      ensures Valid() && fresh(Repr() - old(Repr())) && entries.tail == old(entries.tail)
      ensures entries.arena == old(entries.arena)
      ensures model == Evicted(old(model), timestamp, keys, hasher)
    {
      hide Shard.Valid; hide Evicted;
      var rest := keys;
      ghost var done: set<Key> := {};
      EvictNone(model, timestamp, hasher);
      while rest != {}
        invariant Valid() && fresh(Repr() - old(Repr())) && entries.tail == old(entries.tail)
        invariant entryBuffer == old(entryBuffer) && entries.arena == old(entries.arena)
        invariant done + rest == keys && model == Evicted(old(model), timestamp, done, hasher)
        decreases |rest|
      {
        var v :| v in rest;
        EvictMore(old(model), timestamp, done, v, hasher);
        EvictKey(timestamp, v);
        rest := rest - {v};
        done := done + {v};
      }
      assert done == keys;
    }

    /** Takes the first timestamp out of the tree and evicts its keys. */
    method EvictHead()
      requires Valid() && ttlTable.timeTree != map[]
      modifies this`hashmap, this`model, entries, entries.arena, entries.freelist, ttlTable`timeTree
      ensures Valid() && fresh(Repr() - old(Repr()))
      ensures entries.tail == old(entries.tail) && entries.arena == old(entries.arena)
      ensures ttlTable.timeTree == old(ttlTable.timeTree) - {Head(old(ttlTable.timeTree))}
      ensures Shed(old(model), old(ttlTable.timeTree), model, ttlTable.timeTree, hasher)
    {
      hide Shard.Valid; hide Evicted; hide Shed; hide Head;
      ghost var tree, m := ttlTable.timeTree, model;
      var key := Head(ttlTable.timeTree);
      var value := ttlTable.timeTree[key];
      ttlTable.timeTree := ttlTable.timeTree - {key};
      assert Valid();
      EvictDel(key, value);
      ShedOne(m, tree, key, hasher);
    }

    /** Evicts the timestamps equal to the current second, then arms the timer for the next one. */
    method Drain(now: nat)
      requires Valid() && Timely(ttlTable.Value(), now) && ttlTable.armed.None? && !ttlTable.fired
      modifies this`hashmap, this`model, entries, entries.arena, entries.freelist, ttlTable
      ensures Valid() && fresh(Repr() - old(Repr()))
      ensures entries.tail == old(entries.tail) && entries.arena == old(entries.arena)
      ensures Drained(old(model), old(ttlTable.Value()), model, ttlTable.Value(), now, hasher)
    {
      hide Shard.Valid; hide Shed; hide Draining; hide Drained; hide Timely; hide Armed; hide Head;
      ghost var m, s := model, ttlTable.Value();
      DrainStart(m, s, now, hasher);
      while true
        invariant Valid() && fresh(Repr() - old(Repr()))
        invariant entries.tail == old(entries.tail) && entries.arena == old(entries.arena)
        invariant Draining(m, s, model, ttlTable.Value(), now, hasher)
        invariant entryBuffer == old(entryBuffer)
        decreases |ttlTable.timeTree|
      {
        ghost var m1, s1 := model, ttlTable.Value();
        DrainStep(m, s, m1, s1, now, hasher);
        if |ttlTable.timeTree| < 1 {
          break;
        }
        var key := Head(ttlTable.timeTree);
        var interval := (key - Seconds(now)) % TWO_64;
        if 0 == interval {
          EvictHead();
          DrainMore(m, s, m1, s1, model, ttlTable.Value(), now, hasher);
        } else {
          ttlTable.ResetTimer(key, now);
          break;
        }
      }
    }

    /** One tick of the timer: the first timestamp is evicted, due or not, then the ones equal to the current second. */
    method Fire(now: nat)
      requires Valid() && Timely(ttlTable.Value(), now)
      modifies this`hashmap, this`model, entries, entries.arena, entries.freelist, ttlTable
      ensures Valid() && fresh(Repr() - old(Repr()))
      ensures entries.tail == old(entries.tail) && entries.arena == old(entries.arena)
      ensures Fired(old(model), old(ttlTable.Value()), model, ttlTable.Value(), now, hasher)
    {
      hide Shard.Valid; hide Shed; hide Drained; hide Fired; hide Timely; hide Head;
      ghost var m, s := model, ttlTable.Value();
      ttlTable.armed := None;
      ttlTable.fired := false;
      StillTimely(s, now, ttlTable.Value());
      if |ttlTable.timeTree| < 1 {
        FiredEmpty(m, s, now, hasher);
        return;
      }
      EvictHead();
      ghost var m1, s1 := model, ttlTable.Value();
      StillTimely(s, now, s1);
      Drain(now);
      DrainedAfterHead(m, s, m1, s1, model, ttlTable.Value(), now, hasher);
    }

    /** The eviction goroutine with the clock held at now: it takes ticks until the timer is not due. */
    method Eviction(now: nat) returns (fires: nat)
      requires Valid() && Timely(ttlTable.Value(), now) && Ready(ttlTable.Value(), now)
      modifies this`hashmap, this`model, entries, entries.arena, entries.freelist, ttlTable
      ensures Valid() && fresh(Repr() - old(Repr()))
      ensures entries.tail == old(entries.tail) && entries.arena == old(entries.arena)
      ensures CaughtUp(old(model), old(ttlTable.Value()), fires, model, ttlTable.Value(), now, hasher)
    {
      hide Shard.Valid; hide Shed; hide Wait; hide Timely; hide Ready; hide Ticking; hide Fired; hide CaughtUp;
      hide Due;
      fires := 0;
      ghost var m, s := model, ttlTable.Value();
      TickStart(m, s, now, hasher);
      while Pending(ttlTable.Value(), now)
        invariant Valid() && fresh(Repr() - old(Repr()))
        invariant entries.tail == old(entries.tail) && entries.arena == old(entries.arena)
        invariant Ticking(m, s, fires, model, ttlTable.Value(), now, hasher)
        invariant entryBuffer == old(entryBuffer)
        decreases |ttlTable.timeTree|, Pending(ttlTable.Value(), now)
      {
        ghost var m1, s1 := model, ttlTable.Value();
        TickDue(m, s, fires, m1, s1, now, hasher);
        Fire(now);
        TickMore(m, s, fires, m1, s1, model, ttlTable.Value(), now, hasher);
        fires := fires + 1;
      }
      TickEnd(m, s, fires, model, ttlTable.Value(), now, hasher);
    }

    method CopyKeys() returns (keys: seq<int>)
      requires Valid()
      ensures NoDuplicates(keys) && |keys| == |model|
      ensures forall i :: i in keys <==> i in entries.Entries()
    {
      hide Intact; hide Linked;
      keys := [];
      var rest := hashmap.Keys;
      Injective(hashmap, model, entries.Entries());
      while rest != {}
        invariant rest <= hashmap.Keys && |keys| + |rest| == |hashmap| && NoDuplicates(keys)
        invariant forall i :: i in keys ==> exists h :: h in hashmap && h !in rest && hashmap[h] == i
        invariant forall h :: h in hashmap && h !in rest ==> hashmap[h] in keys
        decreases |rest|
      {
        var h :| h in rest;
        assert hashmap[h] !in keys;
        keys := keys + [hashmap[h]];
        rest := rest - {h};
      }
      SameKeys(hashmap, model, entries.Entries());
    }

    /** The free list is not cleared: the shard is usable afterwards exactly when it was empty. */
    method Reset(bufferSize: nat)
      requires Valid()
      modifies this`hashmap, this`entryBuffer, this`model, entries, ttlTable
      ensures hashmap == map[] && model == map[] && fresh(entryBuffer) && ttlTable.Value() == Table(map[], None, false)
      ensures Valid() <==> entries.freelist.Free() == map[]
    {
      hide Sound; hide FreeList.Valid; hide FreeList.Free; hide LiveIn; hide IdleIn; hide BytesQueue.Valid;
      hide Linked;
      EmptyLinked();
      hashmap := map[];
      model := map[];
      entryBuffer := new byte[bufferSize](_ => 0);
      FreeListValid();
      entries.Reset();
      ttlTable.Reset();
      EmptySound([]);
    }

    lemma FreeListValid()
      requires entries.Valid()
      ensures entries.freelist.Valid()
    {
    }

    // The calls of the cache, which passes the hash of the key, keep every entry recorded and the timer set.

    method SetHashed(key: Key, entry: seq<byte>, expiry: u64, now: nat) returns (timestamp: u64, stored: bool)
      requires Current(now) && expiry <= Horizon(now)
      requires HasRoom(Vacated(entries.tiles, hashmap, hasher(key)), entries.tail, BlockSize(key, entry))
      modifies Repr()
      ensures fresh(Repr() - old(Repr())) && entries.tail <= old(entries.tail) + BlockSize(key, entry)
      ensures stored ==>
        Current(now) && model == old(model)[hasher(key) := Entry(expiry, key, entry)] && timestamp == expiry
      ensures !stored ==>
        timestamp == 0 && locked && 0 < entries.maxCapacity < old(entries.tail) + 2 * BlockSize(key, entry)
    {
      hide Shard.Valid; hide TableCurrent; hide TableAfterSet; hide Refuses; hide Vacated;
      CurrentClock(model, ttlTable.Value(), now, hasher);
      SetCurrent(model, ttlTable.Value(), now, hasher, key, entry, expiry);
      timestamp, stored := Set(key, hasher(key), entry, expiry, now);
    }

    method DelHashed(key: Key, now: nat) returns (found: bool)
      requires Current(now)
      modifies Repr()
      ensures Current(now) && fresh(Repr() - old(Repr())) && entries.tail == old(entries.tail)
      ensures (found <==> hasher(key) in old(model)) && model == old(model) - {hasher(key)}
    {
      hide Shard.Valid; hide TableCurrent; hide RemoveSpec;
      DelCurrent(model, ttlTable.Value(), now, hasher, key);
      found := Del(key, hasher(key), now);
    }

    method EvictDue(now: nat)
      requires Current(now)
      modifies Repr()
      ensures Current(now) && fresh(Repr() - old(Repr())) && entries.tail == old(entries.tail)
      ensures forall h: u64 :: Aged(At(old(model), h), At(model, h), now)
      ensures forall h :: h in model ==> h in old(model)
    {
      hide Shard.Valid; hide TableCurrent; hide CaughtUp; hide Timely; hide Ready;
      ghost var m, s := model, ttlTable.Value();
      CurrentClock(m, s, now, hasher);
      var fires := Eviction(now);
      EvictionCurrent(m, s, fires, model, ttlTable.Value(), now, hasher);
    }

    /** There is room for what the change stores. */
    ghost predicate RoomFor(c: Change)
      reads this, entries
    {
      c.Store? ==> HasRoom(Vacated(entries.tiles, hashmap, hasher(c.key)), entries.tail, Growth(c))
    }

    /** Any of the calls that change the shard; a store that is refused leaves the shard locked. */
    method Apply(c: Change, now: nat) returns (ok: bool)
      requires Current(now) && RoomFor(c) && (c.Store? ==> c.expiry <= Horizon(now))
      modifies Repr()
      ensures fresh(Repr() - old(Repr())) && entries.tail <= old(entries.tail) + Growth(c)
      ensures ok || !c.Store? ==>
        Current(now) && forall h: u64 :: Becomes(c, h, At(old(model), h), At(model, h), now, hasher)
      ensures c.Store? && !ok ==> locked && 0 < entries.maxCapacity < old(entries.tail) + 2 * Growth(c)
      ensures c.Erase? ==> (ok <==> hasher(c.key) in old(model))
    {
      hide Shard.Valid; hide Shard.Current; hide HasRoom; hide Vacated; hide Aged;
      ok := true;
      match c
      case Store(key, value, expiry) =>
        var timestamp;
        timestamp, ok := SetHashed(key, value, expiry, now);
      case Erase(key) =>
        ok := DelHashed(key, now);
      case Ticks =>
        EvictDue(now);
    }
  }

  /** A call that changes a shard, as the cache makes it: a set, a deletion, or the ticks that are due. */
  datatype Change = Store(key: Key, value: seq<byte>, expiry: u64) | Erase(key: Key) | Ticks

  /** Bytes of the arena that a change can take. */
  function Growth(c: Change): nat {
    if c.Store? then BlockSize(c.key, c.value) else 0
  }

  /** What a change makes of the entry under h. */
  ghost predicate Becomes(c: Change, h: u64, before: Option<Entry>, after: Option<Entry>, now: nat,
                          hasher: Key -> u64)
  {
    match c
    case Store(key, value, expiry) => after == if h == hasher(key) then Some(Entry(expiry, key, value)) else before
    case Erase(key) => after == if h == hasher(key) then None else before
    case Ticks => Aged(before, after, now)
  }

  lemma HashmapKeys(shard: Shard)
    requires shard.Valid()
    ensures shard.hashmap.Keys == shard.model.Keys
  {
    hide Shard.Intact; hide Blob; hide ReadHash;
  }

  /** Whether a push is refused does not depend on the bytes in the arena. */
  lemma RefusesAlike(q: State, q': State, n: int, maxCapacity: int)
    requires |q.bytes| == |q'.bytes| && q' == q.(bytes := q'.bytes)
    ensures Refuses(q, n, maxCapacity) <==> Refuses(q', n, maxCapacity)
  {
  }

  /** A queue that was never popped refuses a push only when the limit is near. */
  lemma RefusedBound(q: State, n: int, maxCapacity: int)
    requires n > 0
    ensures q.head <= q.tail && Refuses(q, n, maxCapacity) ==> 0 < maxCapacity < q.tail + 2 * n
  {
  }

  /** n more bytes keep the addresses within 32 bits: a free block takes them, or the end of the arena stays below. */
  ghost predicate HasRoom(tiles: Tiles, tail: int, n: int) {
    tail + n <= TWO_32 || !NoneFits(IdleIn(tiles), n)
  }

  lemma RoomBounds(q: State, n: int)
    requires Sound(q) && q.head == LEFT_MARGIN && q.tail <= TWO_32 && HasRoom(q.tiles, q.tail, n)
    ensures n < TWO_32
  {
    hide Tiling; hide Stored;
    if !NoneFits(IdleIn(q.tiles), n) {
      var s :| s in IdleIn(q.tiles) && n <= IdleIn(q.tiles)[s];
      assert Tiling(Extents(q.tiles), q.head, q.tail, q.right);
      TileBounds(q, s);
    }
  }

  /** Bytes of the arena that an entry takes. */
  function BlockSize(key: Key, entry: seq<byte>): nat {
    HEADER + HEADERS_SIZE + |key| + |entry|
  }

  /** The expiry table once the entry under hash, if any, is about to be replaced by one for key. */
  function TableAfterDrop(s: Table, model: Model, key: Key, hash: u64, now: nat): Table
    requires Seconds(now) < TWO_64
  {
    if hash in model then RemoveSpec(s, model[hash].timestamp, key, now) else s
  }

  function TableAfterSet(s: Table, model: Model, key: Key, hash: u64, expiry: u64, now: nat): Table
    requires Seconds(now) < TWO_64
  {
    var s' := TableAfterDrop(s, model, key, hash, now);
    if expiry != NO_EXPIRY then PutSpec(s', expiry, key, now) else s'
  }

  /** The record of the entry that is replaced, under the key of the set, is taken out. */
  lemma DropRecords(s: Table, model: Model, key: Key, hash: u64, now: nat)
    requires Seconds(now) < TWO_64
    ensures forall t: u64, k: Key :: Records(TableAfterDrop(s, model, key, hash, now), t, k) <==>
      Records(s, t, k) && !(hash in model && t == model[hash].timestamp && k == key)
  {
    hide RemoveSpec; hide Records;
    if hash in model {
      forall t: u64, k: Key {
        RemoveRecords(s, model[hash].timestamp, key, now, t, k);
      }
    }
  }

  /** A set takes out the record of the entry that it replaces, under its own key, and adds its own. */
  lemma SetRecords(s: Table, model: Model, key: Key, hash: u64, expiry: u64, now: nat)
    requires Seconds(now) < TWO_64
    ensures forall t: u64, k: Key :: Records(TableAfterSet(s, model, key, hash, expiry, now), t, k) <==>
      || (expiry != 0 && t == expiry && k == key)
      || (Records(s, t, k) && !(hash in model && t == model[hash].timestamp && k == key))
  {
    hide PutSpec; hide RemoveSpec; hide Records; hide TableAfterDrop;
    DropRecords(s, model, key, hash, now);
    if expiry != NO_EXPIRY {
      forall t: u64, k: Key {
        PutRecords(TableAfterDrop(s, model, key, hash, now), expiry, key, now, t, k);
      }
    }
  }

  /** A push to a queue that has never been popped. */
  lemma PushedFlat(q: State, data: seq<byte>, index: int, q': State)
    requires Sound(q) && q.head == LEFT_MARGIN && Sound(q') && Pushed(q, data, index, q')
    ensures index !in LiveIn(q.tiles) && LiveIn(q'.tiles) == LiveIn(q.tiles)[index := data]
    ensures q'.head == LEFT_MARGIN && q.tail <= q'.tail <= q.tail + HEADER + |data|
    ensures 0 <= index && index + HEADER + |data| <= q'.tail
    ensures !NoneFits(IdleIn(q.tiles), HEADER + |data|) ==> q'.tail == q.tail
  {
    hide Tiling; hide Stored; hide NoneFits; hide Taken;
    LiveTile(q'.tiles, index);
    TileBounds(q', index);
  }

  lemma TimestampPrefix(arena: seq<byte>, start: int, n: int, blob: seq<byte>)
    requires 0 <= start && TIMESTAMP_SIZE <= n && start + n <= |arena| && TIMESTAMP_SIZE <= |blob|
    requires arena[start..start + TIMESTAMP_SIZE] == blob[..TIMESTAMP_SIZE]
    ensures ReadTimestamp(arena[start..start + n]) == ReadTimestamp(blob)
  {
    assert arena[start..start + n][..TIMESTAMP_SIZE] == arena[start..start + TIMESTAMP_SIZE];
  }

  lemma EvictOne(model: Model, timestamp: u64, v: Key, hasher: Key -> u64)
    ensures Evicted(model, timestamp, {v}, hasher) ==
      if hasher(v) in model && model[hasher(v)].timestamp == timestamp then model - {hasher(v)} else model
  {
    assert v in {v};
  }

  lemma EvictNone(model: Model, timestamp: u64, hasher: Key -> u64)
    ensures Evicted(model, timestamp, {}, hasher) == model
  {
  }

  lemma EvictMore(model: Model, timestamp: u64, keys: set<Key>, v: Key, hasher: Key -> u64)
    ensures Evicted(Evicted(model, timestamp, keys, hasher), timestamp, {v}, hasher)
      == Evicted(model, timestamp, keys + {v}, hasher)
  {
    var some, all := Evicted(model, timestamp, keys, hasher), Evicted(model, timestamp, keys + {v}, hasher);
    EvictOne(some, timestamp, v, hasher);
    forall h | h in model ensures h in Evicted(some, timestamp, {v}, hasher) <==> h in all {
      if exists k :: k in keys && hasher(k) == h {
        var k :| k in keys && hasher(k) == h;
        assert k in keys + {v};
      }
      if exists k :: k in keys + {v} && hasher(k) == h {
        var k :| k in keys + {v} && hasher(k) == h;
        assert k in keys || k == v;
      }
      assert v in keys + {v};
    }
  }

  // ---------------------------------------------------------------- entries and their expiry

  /** Every entry that is to expire has its record. */
  ghost predicate Recorded(model: Model, s: Table, hasher: Key -> u64) {
    forall h :: h in model ==>
      hasher(model[h].key) == h && (model[h].timestamp == NO_EXPIRY || Records(s, model[h].timestamp, model[h].key))
  }

  ghost predicate TableCurrent(model: Model, s: Table, now: nat, hasher: Key -> u64) {
    Timely(s, now) && Ready(s, now) && NO_EXPIRY !in s.tree && Recorded(model, s, hasher)
  }

  lemma SetCurrent(model: Model, s: Table, now: nat, hasher: Key -> u64, key: Key, value: seq<byte>, expiry: u64)
    requires TableCurrent(model, s, now, hasher) && expiry <= Horizon(now)
    ensures TableCurrent(model[hasher(key) := Entry(expiry, key, value)],
                         TableAfterSet(s, model, key, hasher(key), expiry, now), now, hasher)
  {
    hide PutSpec; hide RemoveSpec; hide Ready; hide Timely;
    TimelyClock(s, now);
    var hash, model' := hasher(key), model[hasher(key) := Entry(expiry, key, value)];
    var s1 := if hash in model then RemoveSpec(s, model[hash].timestamp, key, now) else s;
    if hash in model {
      RemoveReady(s, model[hash].timestamp, key, now);
      RemoveNoExpiry(s, model[hash].timestamp, key, now);
    }
    var s2 := TableAfterSet(s, model, key, hash, expiry, now);
    if expiry != NO_EXPIRY {
      PutReady(s1, expiry, key, now);
      PutNoExpiry(s1, expiry, key, now);
    }
    forall h | h in model'
      ensures hasher(model'[h].key) == h
      ensures model'[h].timestamp == NO_EXPIRY || Records(s2, model'[h].timestamp, model'[h].key)
    {
      var e := model'[h];
      if hash in model {
        RemoveRecords(s, model[hash].timestamp, key, now, e.timestamp, e.key);
      }
      if expiry != NO_EXPIRY {
        PutRecords(s1, expiry, key, now, e.timestamp, e.key);
      }
    }
  }

  lemma TimelyClock(s: Table, now: nat)
    requires Timely(s, now)
    ensures Seconds(now) < TWO_64
  {
  }

  lemma RemoveNoExpiry(s: Table, timestamp: u64, key: Key, now: nat)
    requires Seconds(now) < TWO_64 && NO_EXPIRY !in s.tree
    ensures NO_EXPIRY !in RemoveSpec(s, timestamp, key, now).tree
  {
  }

  lemma PutNoExpiry(s: Table, timestamp: u64, key: Key, now: nat)
    requires Seconds(now) < TWO_64 && NO_EXPIRY !in s.tree && timestamp != NO_EXPIRY
    ensures NO_EXPIRY !in PutSpec(s, timestamp, key, now).tree
  {
  }

  lemma DelCurrent(model: Model, s: Table, now: nat, hasher: Key -> u64, key: Key)
    requires TableCurrent(model, s, now, hasher)
    ensures Seconds(now) < TWO_64
    ensures var h := hasher(key);
      TableCurrent(model - {h}, if h in model then RemoveSpec(s, model[h].timestamp, key, now) else s, now, hasher)
  {
    hide RemoveSpec; hide Ready; hide Timely;
    TimelyClock(s, now);
    if hasher(key) in model {
      var t, model' := model[hasher(key)].timestamp, model - {hasher(key)};
      RemoveReady(s, t, key, now);
      RemoveNoExpiry(s, t, key, now);
      forall h | h in model'
        ensures var e := model'[h]; e.timestamp == NO_EXPIRY || Records(RemoveSpec(s, t, key, now), e.timestamp, e.key)
      {
        RemoveRecords(s, t, key, now, model'[h].timestamp, model'[h].key);
      }
    }
  }

  lemma CurrentClock(model: Model, s: Table, now: nat, hasher: Key -> u64)
    requires TableCurrent(model, s, now, hasher)
    ensures Seconds(now) <= MAX_SECONDS < TWO_64 && Timely(s, now) && Ready(s, now)
  {
  }

  /** What time does to an entry: it goes only once its second has come, and is gone once that is over. */
  ghost predicate Aged(before: Option<Entry>, after: Option<Entry>, now: nat) {
    && (after == before || (after.None? && before.Some? && NO_EXPIRY < before.value.timestamp <= Seconds(now)))
    && (after.Some? ==> after.value.timestamp == NO_EXPIRY || Seconds(now) <= after.value.timestamp)
  }

  /** Time passes. */
  lemma LaterCurrent(model: Model, s: Table, now: nat, later: nat, hasher: Key -> u64)
    requires TableCurrent(model, s, now, hasher) && now <= later && Seconds(later) <= MAX_SECONDS
    ensures TableCurrent(model, s, later, hasher)
  {
  }

  /** After the ticks of the current second, exactly expired entries are gone, and none from before. */
  lemma EvictionCurrent(model: Model, s: Table, fires: nat, model': Model, s': Table, now: nat, hasher: Key -> u64)
    requires TableCurrent(model, s, now, hasher) && CaughtUp(model, s, fires, model', s', now, hasher)
    ensures TableCurrent(model', s', now, hasher)
    ensures forall h :: h in model' ==> h in model && model'[h] == model[h]
    ensures forall h :: h in model && h !in model' ==> NO_EXPIRY < model[h].timestamp <= Seconds(now)
    ensures forall h :: h in model' ==> model'[h].timestamp == NO_EXPIRY || Seconds(now) <= model'[h].timestamp
  {
    hide Ready; hide Timely; hide Pending;
    forall h | h in model'
      ensures model'[h].timestamp == NO_EXPIRY || Records(s', model'[h].timestamp, model'[h].key)
    {
      var e := model'[h];
      assert e.timestamp == NO_EXPIRY || (Records(s, e.timestamp, e.key) && hasher(e.key) == h);
    }
  }

  // ---------------------------------------------------------------- eviction

  /** Some timestamps have left the tree, and with them exactly the entries that expire then and that
      their keys name. */
  ghost predicate Shed(m: Model, tree: Tree, m': Model, tree': Tree, hasher: Key -> u64) {
    && (forall t :: t in tree' ==> t in tree && tree'[t] == tree[t])
    && (forall h :: h in m' ==> h in m && m'[h] == m[h])
    && (forall h :: h in m && h !in m' ==> m[h].timestamp in tree && m[h].timestamp !in tree')
    && (forall t, k :: t in tree && t !in tree' && k in tree[t] && hasher(k) in m' ==> m'[hasher(k)].timestamp != t)
  }

  lemma ShedOne(m: Model, tree: Tree, t: u64, hasher: Key -> u64)
    requires t in tree
    ensures Shed(m, tree, Evicted(m, t, tree[t], hasher), tree - {t}, hasher)
  {
  }

  /** The first timestamp, if any, has been reached. */
  ghost predicate Due(s: Table, now: nat) {
    s.tree != map[] ==> Head(s.tree) <= Seconds(now)
  }

  ghost predicate Drained(m: Model, s: Table, m': Model, s': Table, now: nat, hasher: Key -> u64) {
    && Shed(m, s.tree, m', s'.tree, hasher)
    && (forall t :: t in s.tree && t !in s'.tree ==> t == Seconds(now))
    && Timely(s', now) && Rearmed(s', now)
  }

  ghost predicate Draining(m: Model, s: Table, m': Model, s': Table, now: nat, hasher: Key -> u64) {
    && Shed(m, s.tree, m', s'.tree, hasher)
    && (forall t :: t in s.tree && t !in s'.tree ==> t == Seconds(now))
    && Timely(s', now) && s'.armed.None? && !s'.fired
  }

  lemma DrainStart(m: Model, s: Table, now: nat, hasher: Key -> u64)
    requires Timely(s, now) && s.armed.None? && !s.fired
    ensures Draining(m, s, m, s, now, hasher)
  {
  }

  lemma DrainMore(m: Model, s: Table, m1: Model, s1: Table, m': Model, s': Table, now: nat, hasher: Key -> u64)
    requires Draining(m, s, m1, s1, now, hasher) && s1.tree != map[] && Head(s1.tree) == Seconds(now)
    requires s' == s1.(tree := s1.tree - {Head(s1.tree)}) && Shed(m1, s1.tree, m', s'.tree, hasher)
    ensures Draining(m, s, m', s', now, hasher)
  {
    ShedTwice(m, s.tree, m1, s1.tree, m', s'.tree, hasher);
  }

  /** Leaving the loop with an empty tree, or with a first timestamp that is not the current second. */
  lemma DrainStep(m: Model, s: Table, m': Model, s': Table, now: nat, hasher: Key -> u64)
    requires Draining(m, s, m', s', now, hasher)
    ensures Seconds(now) < TWO_64
    ensures s'.tree == map[] ==> Drained(m, s, m', s', now, hasher)
    ensures s'.tree != map[] ==> var key := Head(s'.tree);
      (key - Seconds(now)) % TWO_64 == 0 <==> key == Seconds(now)
    ensures s'.tree != map[] && Head(s'.tree) != Seconds(now) ==>
      Drained(m, s, m', Armed(s', Head(s'.tree), now), now, hasher)
  {
    hide Wait; hide Shed;
    if s'.tree != map[] {
      ArmedInSecond(Head(s'.tree), now);
    }
  }

  /** The timer is armed anew for the first timestamp left, which is not the current second. */
  ghost predicate Rearmed(s: Table, now: nat) {
    && !s.fired && Ready(s, now) && Seconds(now) < TWO_64
    && if s.tree == map[] then s.armed.None?
       else Head(s.tree) != Seconds(now) && s.armed == Some(now + Wait(Head(s.tree), Seconds(now)))
  }

  /** What one tick does: besides the first timestamp, it evicts none but the current second. */
  ghost predicate Fired(m: Model, s: Table, m': Model, s': Table, now: nat, hasher: Key -> u64) {
    && Shed(m, s.tree, m', s'.tree, hasher)
    && (forall t :: t in s.tree && t !in s'.tree ==> t == Head(s.tree) || t == Seconds(now))
    && (s.tree != map[] ==> Head(s.tree) !in s'.tree)
    && Timely(s', now) && Rearmed(s', now)
  }

  /** A tick for an empty tree stops the timer and nothing else. */
  lemma FiredEmpty(m: Model, s: Table, now: nat, hasher: Key -> u64)
    requires Timely(s, now) && s.tree == map[]
    ensures Fired(m, s, m, s.(armed := None, fired := false), now, hasher)
  {
    hide Wait;
    ShedNone(m, s.tree, hasher);
  }

  lemma StillTimely(s: Table, now: nat, s': Table)
    requires Timely(s, now) && s'.tree.Keys <= s.tree.Keys
    ensures Timely(s', now)
  {
  }

  lemma DrainedAfterHead(m: Model, s: Table, m1: Model, s1: Table, m': Model, s': Table, now: nat, hasher: Key -> u64)
    requires s.tree != map[] && s1.tree == s.tree - {Head(s.tree)}
    requires Shed(m, s.tree, m1, s1.tree, hasher) && Drained(m1, s1, m', s', now, hasher)
    ensures Fired(m, s, m', s', now, hasher)
  {
    hide Wait;
    ShedTwice(m, s.tree, m1, s1.tree, m', s'.tree, hasher);
  }

  lemma ShedNone(m: Model, tree: Tree, hasher: Key -> u64)
    ensures Shed(m, tree, m, tree, hasher)
  {
  }

  lemma ShedTwice(m: Model, tree: Tree, m': Model, tree': Tree, m'': Model, tree'': Tree, hasher: Key -> u64)
    requires Shed(m, tree, m', tree', hasher) && Shed(m', tree', m'', tree'', hasher)
    ensures Shed(m, tree, m'', tree'', hasher)
  {
    forall t, k | t in tree && t !in tree'' && k in tree[t] && hasher(k) in m''
      ensures m''[hasher(k)].timestamp != t
    {
      if t in tree' {
        assert tree'[t] == tree[t];
      }
    }
  }

  /** The channel holds a tick, or the deadline has passed. */
  predicate Pending(s: Table, now: nat) {
    s.fired || (s.armed.Some? && s.armed.value <= now)
  }

  ghost function Expired(tree: Tree, now: nat): set<u64> {
    set t | t in tree && t <= Seconds(now)
  }

  ghost predicate Ticking(m: Model, s: Table, fires: nat, m': Model, s': Table, now: nat, hasher: Key -> u64) {
    && Shed(m, s.tree, m', s'.tree, hasher)
    && (forall t :: t in s.tree && t !in s'.tree ==> t <= Seconds(now))
    && Timely(s', now) && Ready(s', now) && (fires > 0 ==> Rearmed(s', now))
    && if s.tree == map[] then fires <= 1 && (fires == 1 ==> s'.armed.None?)
       else fires + |Expired(s'.tree, now)| <= |Expired(s.tree, now)|
  }

  /** After the ticks that are due at now, nothing before the current second is left in the tree, and nothing
      of the current second once the timer went off; the ticks are no more than the timestamps that were due. */
  ghost predicate CaughtUp(m: Model, s: Table, fires: nat, m': Model, s': Table, now: nat, hasher: Key -> u64) {
    && Shed(m, s.tree, m', s'.tree, hasher)
    && (forall t :: t in s.tree && t !in s'.tree ==> t <= Seconds(now))
    && (forall t :: t in s'.tree ==> Seconds(now) <= t && (fires > 0 ==> Seconds(now) < t))
    && Timely(s', now) && Ready(s', now) && !Pending(s', now)
    && (if s.tree == map[] then fires <= 1 else fires <= |Expired(s.tree, now)|)
  }

  lemma TickStart(m: Model, s: Table, now: nat, hasher: Key -> u64)
    requires Timely(s, now) && Ready(s, now)
    ensures Ticking(m, s, 0, m, s, now, hasher)
  {
  }

  lemma TickDue(m: Model, s: Table, fires: nat, m': Model, s': Table, now: nat, hasher: Key -> u64)
    requires Ticking(m, s, fires, m', s', now, hasher) && Pending(s', now)
    ensures Timely(s', now) && Due(s', now)
  {
  }

  lemma TickMore(m: Model, s: Table, fires: nat, m1: Model, s1: Table, m': Model, s': Table, now: nat,
                 hasher: Key -> u64)
    requires Ticking(m, s, fires, m1, s1, now, hasher) && Pending(s1, now) && Due(s1, now)
    requires Fired(m1, s1, m', s', now, hasher)
    ensures Ticking(m, s, fires + 1, m', s', now, hasher)
    ensures |s'.tree| < |s1.tree| || (|s'.tree| == |s1.tree| && !Pending(s', now))
  {
    hide Wait;
    ShedTwice(m, s.tree, m1, s1.tree, m', s'.tree, hasher);
    assert s'.tree.Keys <= s1.tree.Keys;
    if s1.tree != map[] {
      var t := Head(s1.tree);
      assert t in s1.tree.Keys - s'.tree.Keys;
      FewerKeys(s1.tree.Keys, s'.tree.Keys, t);
      FewerKeys(Expired(s1.tree, now), Expired(s'.tree, now), t);
    } else {
      assert s'.tree == map[];
      if s.tree != map[] {
        FewerKeys(Expired(s.tree, now), {}, Head(s.tree));
      }
    }
  }

  lemma FewerKeys(a: set<u64>, b: set<u64>, x: u64)
    requires b <= a && x in a && x !in b
    ensures |b| < |a|
  {
    FewerOrEqual(a - {x}, b);
  }

  lemma {:induction false} FewerOrEqual(a: set<u64>, b: set<u64>)
    requires b <= a
    ensures |b| <= |a|
    decreases |b|
  {
    if x :| x in b {
      FewerOrEqual(a - {x}, b - {x});
    }
  }

  lemma TickEnd(m: Model, s: Table, fires: nat, m': Model, s': Table, now: nat, hasher: Key -> u64)
    requires Ticking(m, s, fires, m', s', now, hasher) && !Pending(s', now)
    ensures CaughtUp(m, s, fires, m', s', now, hasher)
  {
    hide Shed;
    if s'.tree != map[] {
      WaitExact(Head(s'.tree), Seconds(now));
    }
  }
}
