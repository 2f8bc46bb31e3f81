/** Concrete frames: the request for `get foo`, the `MaxMsg` boundary and the
    reply shapes the decoder distinguishes. */
module Scenarios {
  import opened Bytes
  import opened Wrappers
  import opened Codec

  const Get: seq<byte> := [0x67, 0x65, 0x74]
  const Foo: seq<byte> := [0x66, 0x6f, 0x6f]

  /** `get foo`: body length 4 + (4 + 3) + (4 + 3) = 18, a 22-byte frame,
      which the peer reads back as the same two arguments. */
  lemma GetFooRequest()
    ensures BodyLength([Get, Foo]) == 18
    ensures EncodeRequest([Get, Foo]) == Ok([18, 0, 0, 0, 2, 0, 0, 0,
                                            3, 0, 0, 0, 0x67, 0x65, 0x74,
                                            3, 0, 0, 0, 0x66, 0x6f, 0x6f])
    ensures ParseRequest(EncodeRequest([Get, Foo]).value) == Ok([Get, Foo])
  {
    var args: seq<seq<byte>> := [Get, Foo];
    assert args[1..] == [Foo];
    assert |args[1..][1..]| == 0;
    assert EntriesSize(args[1..]) == 7;
    assert EntriesSize(args) == 14;
    assert LE32(18) == [18, 0, 0, 0] && LE32(2) == [2, 0, 0, 0] && LE32(3) == [3, 0, 0, 0];
    assert EncodeEntries(args[1..]) == [3, 0, 0, 0] + Foo;
    assert EncodeEntries(args) == [3, 0, 0, 0] + Get + [3, 0, 0, 0] + Foo;
    assert EncodeRequest(args).value == LE32(18) + LE32(2) + EncodeEntries(args);
    assert LE32(18) + LE32(2) + EncodeEntries(args) == [18, 0, 0, 0, 2, 0, 0, 0,
                                                        3, 0, 0, 0, 0x67, 0x65, 0x74,
                                                        3, 0, 0, 0, 0x66, 0x6f, 0x6f];
    RequestRoundTrip(args);
  }

  /** A body of exactly `MaxMsg` bytes is sent; one byte more is refused. */
  lemma MaxMsgBoundary()
    ensures var fits: seq<byte> := seq(4088, _ => 0x7a);
      BodyLength([fits]) == MaxMsg && EncodeRequest([fits]).Ok?
      && |EncodeRequest([fits]).value| == 4100
    ensures var over: seq<byte> := seq(4089, _ => 0x7a);
      BodyLength([over]) == MaxMsg + 1 && EncodeRequest([over]) == Err(MessageTooLarge)
  {
    var fits: seq<byte> := seq(4088, _ => 0x7a);
    var over: seq<byte> := seq(4089, _ => 0x7a);
    assert |[fits][1..]| == 0;
    assert |[over][1..]| == 0;
    assert EntriesSize([fits]) == 4092;
    assert EntriesSize([over]) == 4093;
  }

  /** Status 0 with payload "OK" (length 6); length 4 gives an empty payload. */
  lemma WellFormedReplies(closed: bool)
    ensures DecodeResponse([6, 0, 0, 0, 0, 0, 0, 0, 0x4f, 0x4b], closed) == Ok(Response(0, [0x4f, 0x4b]))
    ensures DecodeResponse([4, 0, 0, 0, 7, 0, 0, 0], closed) == Ok(Response(7, []))
  {
    ResponseRoundTrip(0, [0x4f, 0x4b], [], closed);
    ResponseRoundTrip(7, [], [], closed);
    assert EncodeResponse(0, [0x4f, 0x4b]) + [] == [6, 0, 0, 0, 0, 0, 0, 0, 0x4f, 0x4b];
    assert EncodeResponse(7, []) + [] == [4, 0, 0, 0, 7, 0, 0, 0];
  }

  /** Length 3 is malformed once its three body bytes are in, a read error
      when the stream ends first; two header bytes then an orderly shutdown is
      `ConnectionClosed`; a length of `MaxMsg + 1` is refused on the header. */
  lemma RejectedReplies()
    ensures DecodeResponse([3, 0, 0, 0, 1, 2, 3], true) == Err(MalformedMessage)
    ensures DecodeResponse([3, 0, 0, 0, 1], true) == Err(IoError)
    ensures DecodeResponse([4, 0], true) == Err(ConnectionClosed)
    ensures DecodeResponse([4, 0], false) == Err(IoError)
    ensures DecodeResponse([1, 16, 0, 0], true) == Err(MessageTooLarge)
  {
    var a: seq<byte> := [3, 0, 0, 0, 1, 2, 3];
    var b: seq<byte> := [3, 0, 0, 0, 1];
    var c: seq<byte> := [1, 16, 0, 0];
    assert a[..4] == [3, 0, 0, 0];
    assert b[..4] == [3, 0, 0, 0];
    assert c[..4] == c;
  }
}
