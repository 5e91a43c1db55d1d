/** Cache entries as bytes: expiry timestamp, hash, key length, key, value. */
module Encoding {
  import opened Bytes

  const TIMESTAMP_SIZE := 8
  const HASH_SIZE := 8
  const KEY_SIZE := 2
  const HEADERS_SIZE := TIMESTAMP_SIZE + HASH_SIZE + KEY_SIZE

  /** The longest key whose end offset fits in 16 bits. */
  const MAX_KEY := 65517

  /** A read may slice out of bounds. */
  datatype Read<+T> = Ok(value: T) | Panic

  function Wrap(timestamp: u64, hash: u64, key: seq<byte>, entry: seq<byte>): (r: seq<byte>)
    ensures |r| == HEADERS_SIZE + |key| + |entry|
  {
    Put(timestamp, TIMESTAMP_SIZE) + Put(hash, HASH_SIZE) + Put(|key|, KEY_SIZE) + key + entry
  }

  function ReadTimestamp(data: seq<byte>): u64
    requires TIMESTAMP_SIZE <= |data|
  {
    GetBound(data[..TIMESTAMP_SIZE]);
    Powers();
    Get(data[..TIMESTAMP_SIZE])
  }

  function ReadHash(data: seq<byte>): u64
    requires TIMESTAMP_SIZE + HASH_SIZE <= |data|
  {
    GetBound(data[TIMESTAMP_SIZE..TIMESTAMP_SIZE + HASH_SIZE]);
    Powers();
    Get(data[TIMESTAMP_SIZE..TIMESTAMP_SIZE + HASH_SIZE])
  }

  function KeyLength(data: seq<byte>): nat
    requires HEADERS_SIZE <= |data|
  {
    Get(data[TIMESTAMP_SIZE + HASH_SIZE..HEADERS_SIZE])
  }

  /** The offset of the value, added up in 16 bits. */
  function ValueOffset(data: seq<byte>): (r: nat)
    requires HEADERS_SIZE <= |data|
    ensures r < TWO_16 && r <= HEADERS_SIZE + KeyLength(data)
  {
    (HEADERS_SIZE + KeyLength(data)) % TWO_16
  }

  function ReadKey(data: seq<byte>): Read<seq<byte>>
    requires HEADERS_SIZE <= |data| && HEADERS_SIZE + KeyLength(data) <= |data|
  {
    var end := ValueOffset(data);
    if end < HEADERS_SIZE then Panic else Ok(data[HEADERS_SIZE..end])
  }

  function ReadEntry(data: seq<byte>): seq<byte>
    requires HEADERS_SIZE <= |data| && HEADERS_SIZE + KeyLength(data) <= |data|
  {
    data[ValueOffset(data)..]
  }

  /** The header fields of a wrapped entry. */
  lemma WrapFields(timestamp: u64, hash: u64, key: seq<byte>, entry: seq<byte>)
    ensures var w := Wrap(timestamp, hash, key, entry);
      && ReadTimestamp(w) == timestamp && ReadHash(w) == hash && KeyLength(w) == |key| % TWO_16
      && HEADERS_SIZE + KeyLength(w) <= |w|
      && w[HEADERS_SIZE..] == key + entry
  {
    hide Put; hide Bytes.Get; hide Power256;
    var w := Wrap(timestamp, hash, key, entry);
    var a, b, c := Put(timestamp, TIMESTAMP_SIZE), Put(hash, HASH_SIZE), Put(|key|, KEY_SIZE);
    assert w == a + b + c + (key + entry);
    Parts(a, b, c, key + entry);
    GetPut(timestamp, TIMESTAMP_SIZE);
    GetPut(hash, HASH_SIZE);
    GetPut(|key|, KEY_SIZE);
    Powers();
  }

  /** Where the fields are, in bytes. */
  lemma WrapLayout(timestamp: u64, hash: u64, key: seq<byte>, entry: seq<byte>)
    ensures var w := Wrap(timestamp, hash, key, entry);
      && |w| == 18 + |key| + |entry|
      && w[0..8] == Put(timestamp, 8) && w[8..16] == Put(hash, 8) && w[16..18] == Put(|key|, 2)
      && w[18..18 + |key|] == key && w[18 + |key|..] == entry
  {
    hide Put;
    var w := Wrap(timestamp, hash, key, entry);
    var a, b, c := Put(timestamp, TIMESTAMP_SIZE), Put(hash, HASH_SIZE), Put(|key|, KEY_SIZE);
    assert w == a + b + c + (key + entry);
    Parts(a, b, c, key + entry);
    assert w[18..] == key + entry;
    assert w[18..18 + |key|] == w[18..][..|key|] == key;
    assert w[18 + |key|..] == w[18..][|key|..] == entry;
  }

  /** The key and the value are read back exactly when the key has at most 65517 bytes. */
  lemma RoundTrip(timestamp: u64, hash: u64, key: seq<byte>, entry: seq<byte>)
    ensures var w := Wrap(timestamp, hash, key, entry);
      && HEADERS_SIZE + KeyLength(w) <= |w|
      && (ReadKey(w) == Ok(key) <==> |key| <= 65517)
      && (ReadEntry(w) == entry <==> |key| <= 65517)
  {
    hide Put; hide Bytes.Get; hide Wrap;
    var w := Wrap(timestamp, hash, key, entry);
    WrapFields(timestamp, hash, key, entry);
    if |key| <= MAX_KEY {
      assert w[HEADERS_SIZE..HEADERS_SIZE + |key|] == w[HEADERS_SIZE..][..|key|] == key;
      assert w[HEADERS_SIZE + |key|..] == w[HEADERS_SIZE..][|key|..] == entry;
    } else {
      assert ValueOffset(w) < HEADERS_SIZE + |key|;
      assert |ReadEntry(w)| > |entry|;
    }
  }

  /** What is read back, for a key of any length: it is cut to its length modulo 2^16, and the rest of it is taken
      for a part of the value; reading the key slices out of range exactly when the cut length is over MAX_KEY. */
  lemma Reading(timestamp: u64, hash: u64, key: seq<byte>, entry: seq<byte>)
    ensures var w, cut := Wrap(timestamp, hash, key, entry), |key| % TWO_16;
      && HEADERS_SIZE + KeyLength(w) <= |w|
      && ReadKey(w) == (if cut > MAX_KEY then Panic else Ok(key[..cut]))
      && (cut <= MAX_KEY ==> ReadEntry(w) == key[cut..] + entry)
  {
    hide Put; hide Bytes.Get; hide Wrap;
    var w, cut := Wrap(timestamp, hash, key, entry), |key| % TWO_16;
    WrapFields(timestamp, hash, key, entry);
    if cut <= MAX_KEY {
      assert w[HEADERS_SIZE..HEADERS_SIZE + cut] == w[HEADERS_SIZE..][..cut] == key[..cut];
      assert w[HEADERS_SIZE + cut..] == w[HEADERS_SIZE..][cut..] == key[cut..] + entry;
    }
  }

  /** Fills the buffer, or a larger one, whatever it held before. */
  method WrapEntry(timestamp: u64, hash: u64, key: seq<byte>, entry: seq<byte>, buffer: array<byte>)
    returns (buffer': array<byte>, blobLength: nat)
    modifies buffer
    ensures blobLength == HEADERS_SIZE + |key| + |entry|
    ensures if blobLength <= buffer.Length then buffer' == buffer else fresh(buffer')
    ensures blobLength <= buffer'.Length
    ensures buffer'[..blobLength] == Wrap(timestamp, hash, key, entry)
  {
    var keyLength := |key|;
    blobLength := |entry| + HEADERS_SIZE + keyLength;
    if blobLength > buffer.Length {
      buffer' := new byte[blobLength](_ => 0);
    } else {
      buffer' := buffer;
    }
    hide Put;
    WriteAt(buffer', 0, Put(timestamp, TIMESTAMP_SIZE));
    assert buffer'[..TIMESTAMP_SIZE] == Put(timestamp, TIMESTAMP_SIZE);
    WriteAt(buffer', TIMESTAMP_SIZE, Put(hash, HASH_SIZE));
    assert buffer'[..TIMESTAMP_SIZE + HASH_SIZE] == Put(timestamp, TIMESTAMP_SIZE) + Put(hash, HASH_SIZE);
    WriteAt(buffer', TIMESTAMP_SIZE + HASH_SIZE, Put(keyLength, KEY_SIZE));
    WriteAt(buffer', HEADERS_SIZE, key);
    WriteAt(buffer', HEADERS_SIZE + keyLength, entry);
  }
}
