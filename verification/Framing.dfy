/** The byte stream between two nodes: frames of a 32-bit length, a 16-bit message code and a body. */
module Framing {
  import opened Bytes

  datatype Wire = Wire(code: u16, body: seq<byte>)

  const HEADER := 6

  function Frame(m: Wire): (r: seq<byte>)
    ensures |r| == HEADER + |m.body|
  {
    Put(|m.body| + 2, 4) + Put(m.code, 2) + m.body
  }

  function Frames(msgs: seq<Wire>): seq<byte> {
    if msgs == [] then [] else Frame(msgs[0]) + Frames(msgs[1..])
  }

  /** The body length that a header announces; the two bytes of the code are taken off in 32 bits. */
  function BodyLength(header: seq<byte>): nat
    requires |header| == HEADER
  {
    (Get(header[..4]) - 2) % TWO_32
  }

  function Code(header: seq<byte>): u16
    requires |header| == HEADER
  {
    GetBound(header[4..]);
    Powers();
    Get(header[4..])
  }

  /** Whether a whole frame is at the front of the stream. */
  predicate Complete(stream: seq<byte>) {
    HEADER <= |stream| && HEADER + BodyLength(stream[..HEADER]) <= |stream|
  }

  function First(stream: seq<byte>): Wire
    requires Complete(stream)
  {
    Wire(Code(stream[..HEADER]), stream[HEADER..HEADER + BodyLength(stream[..HEADER])])
  }

  function Rest(stream: seq<byte>): seq<byte>
    requires Complete(stream)
  {
    stream[HEADER + BodyLength(stream[..HEADER])..]
  }

  /** The messages at the front of the stream. */
  function Parse(stream: seq<byte>): seq<Wire>
    decreases |stream|
  {
    if Complete(stream) then [First(stream)] + Parse(Rest(stream)) else []
  }

  method BuildFrame(m: Wire) returns (data: seq<byte>)
    ensures data == Frame(m)
    ensures |data| == 6 + |m.body| && data[0..4] == Put(|m.body| + 2, 4) && data[4..6] == Put(m.code, 2)
    ensures data[6..] == m.body
  {
    hide Put;
    var buffer := new byte[6 + |m.body|](_ => 0);
    WriteAt(buffer, 0, Put(|m.body| + 2, 4));
    assert buffer[..4] == Put(|m.body| + 2, 4);
    WriteAt(buffer, 4, Put(m.code, 2));
    WriteAt(buffer, 6, m.body);
    assert buffer[..] == buffer[..6 + |m.body|];
    Parts(Put(|m.body| + 2, 4), Put(m.code, 2), m.body, []);
    data := buffer[..];
  }

  method Send(msgs: seq<Wire>) returns (stream: seq<byte>)
    ensures stream == Frames(msgs)
  {
    hide Frame;
    stream := [];
    var i := 0;
    while i < |msgs|
      invariant 0 <= i <= |msgs| && stream == Frames(msgs[..i])
    {
      var data := BuildFrame(msgs[i]);
      FramesConcat(msgs[..i], [msgs[i]]);
      assert msgs[..i + 1] == msgs[..i] + [msgs[i]];
      assert Frames([msgs[i]]) == data + [];
      stream := stream + data;
      i := i + 1;
    }
    assert msgs[..i] == msgs;
  }

  /** The consumer's loop on a stream that ends: it stops at the first header or body that is cut off. */
  method Consume(stream: seq<byte>) returns (msgs: seq<Wire>)
    ensures msgs == Parse(stream)
  {
    hide BodyLength; hide Code;
    msgs := [];
    var at := 0;
    while true
      invariant 0 <= at <= |stream| && Parse(stream) == msgs + Parse(stream[at..])
      decreases |stream| - at
    {
      ghost var rest := stream[at..];
      if |stream| < at + HEADER {
        break;
      }
      var header := stream[at..at + HEADER];
      assert rest[..HEADER] == header;
      var dataLength := BodyLength(header);
      var msgCode := Code(header);
      var data := [];
      if dataLength > 0 {
        if |stream| < at + HEADER + dataLength {
          break;
        }
        data := stream[at + HEADER..at + HEADER + dataLength];
      }
      assert data == rest[HEADER..HEADER + dataLength];
      assert Rest(rest) == stream[at + HEADER + dataLength..];
      msgs := msgs + [Wire(msgCode, data)];
      at := at + HEADER + dataLength;
    }
  }

  lemma {:induction false} FramesConcat(a: seq<Wire>, b: seq<Wire>)
    ensures Frames(a + b) == Frames(a) + Frames(b)
    decreases |a|
  {
    hide Frame;
    if a == [] {
      assert a + b == b;
    } else {
      FramesConcat(a[1..], b);
      assert (a + b)[1..] == a[1..] + b;
    }
  }

  lemma FrameHeader(m: Wire, tail: seq<byte>)
    ensures var s := Frame(m) + tail;
      && BodyLength(s[..HEADER]) == |m.body| % TWO_32 && Code(s[..HEADER]) == m.code
      && s[HEADER..] == m.body + tail
  {
    hide Put; hide Get; hide Power256;
    var s, len, code := Frame(m) + tail, Put(|m.body| + 2, 4), Put(m.code, 2);
    assert s == len + code + m.body + tail;
    Parts(len, code, m.body, tail);
    assert s[..HEADER] == len + code;
    assert s[..HEADER][..4] == len && s[..HEADER][4..] == code;
    GetPut(|m.body| + 2, 4);
    GetPut(m.code, 2);
    Powers();
    assert s[HEADER..] == m.body + tail;
  }

  /** A frame at the front of a stream is taken off whole. */
  lemma ParseFrame(m: Wire, tail: seq<byte>)
    requires |m.body| < TWO_32
    ensures var s := Frame(m) + tail; Complete(s) && First(s) == m && Rest(s) == tail
  {
    hide BodyLength; hide Code; hide Frame;
    var s := Frame(m) + tail;
    FrameHeader(m, tail);
    assert s[HEADER..HEADER + |m.body|] == s[HEADER..][..|m.body|] == m.body;
    assert s[HEADER + |m.body|..] == s[HEADER..][|m.body|..] == tail;
  }

  /** What the sender writes is what the consumer reads, in order and with nothing left over. */
  lemma {:induction false} StreamRoundTrip(msgs: seq<Wire>, tail: seq<byte>)
    requires forall m :: m in msgs ==> |m.body| < TWO_32
    ensures Parse(Frames(msgs) + tail) == msgs + Parse(tail)
    decreases |msgs|
  {
    hide Complete; hide First; hide Rest; hide Frame;
    if msgs == [] {
      assert Frames(msgs) + tail == tail;
    } else {
      var more := Frames(msgs[1..]) + tail;
      assert Frames(msgs) + tail == Frame(msgs[0]) + more;
      ParseFrame(msgs[0], more);
      StreamRoundTrip(msgs[1..], tail);
    }
  }

  /** The length field makes the bound exact. */
  lemma FrameRoundTrip(m: Wire)
    ensures Parse(Frame(m)) == [m] <==> |m.body| < TWO_32
  {
    hide BodyLength; hide Code; hide Frame;
    assert Frame(m) + [] == Frame(m);
    FrameHeader(m, []);
    if |m.body| < TWO_32 {
      ParseFrame(m, []);
    } else {
      assert Complete(Frame(m)) ==> |First(Frame(m)).body| < |m.body| && Parse(Frame(m))[0] == First(Frame(m));
    }
  }

  /** A stream cut off anywhere yields the messages whose frames are whole, and nothing else. */
  lemma {:induction false} CutStream(msgs: seq<Wire>, n: nat) returns (k: nat)
    requires forall m :: m in msgs ==> |m.body| < TWO_32
    requires n <= |Frames(msgs)|
    ensures k <= |msgs| && Parse(Frames(msgs)[..n]) == msgs[..k]
    ensures |Frames(msgs[..k])| <= n && (k < |msgs| ==> n < |Frames(msgs[..k + 1])|)
    decreases |msgs|
  {
    hide Frame; hide BodyLength; hide Code;
    if msgs == [] {
      return 0;
    }
    var n0 := |Frame(msgs[0])|;
    if n < n0 {
      CutFrame(msgs[0], Frames(msgs[1..]), n);
      k := 0;
      assert msgs[..1] == [msgs[0]] && Frames([msgs[0]]) == Frame(msgs[0]) + [];
    } else {
      k := CutStream(msgs[1..], n - n0);
      CutLater(msgs, n, k);
      k := k + 1;
    }
  }

  /** A cut after the first frame is a cut of the rest of the stream. */
  lemma CutLater(msgs: seq<Wire>, n: nat, j: nat)
    requires msgs != [] && |msgs[0].body| < TWO_32 && |Frame(msgs[0])| <= n <= |Frames(msgs)| && j < |msgs|
    requires Parse(Frames(msgs[1..])[..n - |Frame(msgs[0])|]) == msgs[1..][..j]
    ensures Parse(Frames(msgs)[..n]) == msgs[..j + 1]
    ensures |Frames(msgs[..j + 1])| == |Frame(msgs[0])| + |Frames(msgs[1..][..j])|
    ensures j + 1 < |msgs| ==> |Frames(msgs[..j + 2])| == |Frame(msgs[0])| + |Frames(msgs[1..][..j + 1])|
  {
    hide Frame; hide First; hide Rest; hide Complete;
    var m, rest, f := msgs[0], msgs[1..], Frame(msgs[0]);
    var cut := Frames(rest)[..n - |f|];
    ParseFrame(m, cut);
    assert Frames(msgs)[..n] == f + cut;
    assert msgs[..j + 1] == [m] + rest[..j];
    assert msgs[..j + 1][1..] == rest[..j];
    if j + 1 < |msgs| {
      assert msgs[..j + 2][1..] == rest[..j + 1];
    }
  }

  /** A frame that is cut off is not taken for a message. */
  lemma CutFrame(m: Wire, tail: seq<byte>, n: nat)
    requires |m.body| < TWO_32 && n < |Frame(m)|
    ensures !Complete((Frame(m) + tail)[..n])
  {
    hide BodyLength; hide Code; hide Frame;
    var s := Frame(m) + tail;
    FrameHeader(m, tail);
    if HEADER <= n {
      assert s[..n][..HEADER] == s[..HEADER];
    }
  }
}
