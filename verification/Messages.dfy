/** The two binary messages between nodes, PUT and the response to GET. */
module Messages {
  import opened Bytes
  import opened Encoding

  const MSG_PUT: u16 := 14
  const MSG_GET_RSP: u16 := 16

  datatype PutMessage = PutMessage(key: seq<byte>, expiry: u64, data: seq<byte>)
  datatype GetRspMessage = GetRspMessage(pendingKey: seq<byte>, data: seq<byte>)

  /** A key preceded by its 16-bit length, then data, after a fixed header. */
  function Keyed(header: seq<byte>, key: seq<byte>, data: seq<byte>): seq<byte> {
    header + Put(|key|, 2) + key + data
  }

  /** Reads back the key and the data; their boundary is added up in 16 bits. */
  function Unkeyed(n: nat, body: seq<byte>): (r: Read<(seq<byte>, seq<byte>)>)
  {
    if |body| < n + 2 then Panic
    else
      var end := (n + 2 + Get(body[n..n + 2])) % TWO_16;
      if end < n + 2 || |body| < end then Panic else Ok((body[n + 2..end], body[end..]))
  }

  /** With a header of n bytes, exactly the keys that end below offset 2^16 survive. */
  lemma KeyedRoundTrip(header: seq<byte>, key: seq<byte>, data: seq<byte>)
    requires |header| <= 8
    ensures Unkeyed(|header|, Keyed(header, key, data)) == Ok((key, data)) <==> |header| + 2 + |key| < TWO_16
  {
    hide Put; hide Get; hide Power256;
    var n, body, len := |header|, Keyed(header, key, data), Put(|key|, 2);
    Parts(header, len, key, data);
    GetPut(|key|, 2);
    Powers();
    assert body[n..n + 2] == len;
    if |key| >= TWO_16 {
      var r := Unkeyed(n, body);
      assert r.Ok? ==> |r.value.0| < |key|;
    }
  }

  method SerializePut(m: PutMessage) returns (code: u16, data: seq<byte>)
    ensures code == 14 && data == Keyed(Put(m.expiry, 8), m.key, m.data)
    ensures |data| == 10 + |m.key| + |m.data| && data[0..8] == Put(m.expiry, 8) && data[8..10] == Put(|m.key|, 2)
    ensures data[10..10 + |m.key|] == m.key && data[10 + |m.key|..] == m.data
  {
    hide Put;
    var keyLen := |m.key|;
    var buffer := new byte[keyLen + |m.data| + 2 + 8](_ => 0);
    WriteAt(buffer, 0, Put(m.expiry, 8));
    assert buffer[..8] == Put(m.expiry, 8);
    WriteAt(buffer, 8, Put(keyLen, 2));
    assert buffer[..10] == Put(m.expiry, 8) + Put(keyLen, 2);
    WriteAt(buffer, 8 + 2, m.key);
    WriteAt(buffer, 8 + 2 + keyLen, m.data);
    assert buffer[..] == buffer[..8 + 2 + keyLen + |m.data|];
    Parts(Put(m.expiry, 8), Put(keyLen, 2), m.key, m.data);
    return MSG_PUT, buffer[..];
  }

  function DeSerializePut(body: seq<byte>): Read<PutMessage> {
    if |body| < 8 then Panic
    else
      GetBound(body[..8]);
      Powers();
      match Unkeyed(8, body)
      case Panic => Panic
      case Ok((key, data)) => Ok(PutMessage(key, Get(body[..8]), data))
  }

  method SerializeGetRsp(m: GetRspMessage) returns (code: u16, data: seq<byte>)
    ensures code == 16 && data == Keyed([], m.pendingKey, m.data)
    ensures |data| == 2 + |m.pendingKey| + |m.data| && data[0..2] == Put(|m.pendingKey|, 2)
    ensures data[2..2 + |m.pendingKey|] == m.pendingKey && data[2 + |m.pendingKey|..] == m.data
  {
    hide Put;
    var keyLen := |m.pendingKey|;
    var buffer := new byte[keyLen + |m.data| + 2](_ => 0);
    WriteAt(buffer, 0, Put(keyLen, 2));
    assert buffer[..2] == Put(keyLen, 2);
    WriteAt(buffer, 2, m.pendingKey);
    WriteAt(buffer, 2 + keyLen, m.data);
    assert buffer[..] == buffer[..2 + keyLen + |m.data|];
    Parts([], Put(keyLen, 2), m.pendingKey, m.data);
    return MSG_GET_RSP, buffer[..];
  }

  function DeSerializeGetRsp(body: seq<byte>): Read<GetRspMessage> {
    match Unkeyed(0, body)
    case Panic => Panic
    case Ok((key, data)) => Ok(GetRspMessage(key, data))
  }

  /** A PUT message is read back exactly when its key has at most 65525 bytes. */
  lemma PutRoundTrip(m: PutMessage)
    ensures DeSerializePut(Keyed(Put(m.expiry, 8), m.key, m.data)) == Ok(m) <==> |m.key| <= 65525
  {
    hide Put; hide Get; hide Power256; hide Unkeyed;
    var header := Put(m.expiry, 8);
    KeyedRoundTrip(header, m.key, m.data);
    GetPut(m.expiry, 8);
    Powers();
    assert Keyed(header, m.key, m.data)[..8] == header;
  }

  /** A response to GET is read back exactly when its pending key has at most 65533 bytes. */
  lemma GetRspRoundTrip(m: GetRspMessage)
    ensures DeSerializeGetRsp(Keyed([], m.pendingKey, m.data)) == Ok(m) <==> |m.pendingKey| <= 65533
  {
    hide Put; hide Get; hide Unkeyed;
    KeyedRoundTrip([], m.pendingKey, m.data);
  }

  /** What is read from a response, for a pending key of any length: the key is cut to its length modulo 2^16, and
      the rest of it is taken for data. */
  lemma GetRspReading(m: GetRspMessage)
    ensures var cut := |m.pendingKey| % TWO_16;
      DeSerializeGetRsp(Keyed([], m.pendingKey, m.data)) ==
      if cut > 65533 then Panic else Ok(GetRspMessage(m.pendingKey[..cut], m.pendingKey[cut..] + m.data))
  {
    hide Put; hide Get; hide Power256;
    var body, len, cut := Keyed([], m.pendingKey, m.data), Put(|m.pendingKey|, 2), |m.pendingKey| % TWO_16;
    Parts([], len, m.pendingKey, m.data);
    GetPut(|m.pendingKey|, 2);
    Powers();
    assert body[0..2] == len && body[2..] == m.pendingKey + m.data;
    if cut <= 65533 {
      assert body[2..2 + cut] == body[2..][..cut] == m.pendingKey[..cut];
      assert body[2 + cut..] == body[2..][cut..] == m.pendingKey[cut..] + m.data;
    }
  }
}
