/** The message codec: the length-prefixed frames of the protocol.

    Frame        := total_length:u32, body:byte[total_length]
    RequestBody  := argument_count:u32, (length:u32, bytes:byte[length])*
    ResponseBody := status:u32, payload:byte[total_length - 4]

    All integers are little-endian; `total_length` never exceeds `MaxMsg`. The
    client only encodes requests and decodes responses; the parser of requests
    and the encoder of responses are the peer's halves of the same layout,
    defined here as the partners the client's halves are proved against. */
module Codec {
  import opened Bytes
  import opened Wrappers

  /** `k_max_msg`: the largest `total_length` either side accepts. */
  const MaxMsg: nat := 4096

  datatype Error = IoError | ConnectionClosed | MessageTooLarge | MalformedMessage

  /** A decoded reply: the server's status code and its raw payload. */
  datatype Response = Response(status: u32, payload: seq<byte>)

  // ---------------------------------------------------------------- requests

  /** Bytes taken by the argument entries: a 4-byte length plus the bytes of
      each argument. */
  function EntriesSize(args: seq<seq<byte>>): nat
  {
    if |args| == 0 then 0 else 4 + |args[0]| + EntriesSize(args[1..])
  }

  /** `total_length` of the request for `args`: the count field and the entries. */
  function BodyLength(args: seq<seq<byte>>): nat
  {
    4 + EntriesSize(args)
  }

  /** One argument's entry as the layout loop writes it: its length cast to
      `uint32_t`, then its bytes. */
  function Entry(arg: seq<byte>): seq<byte>
  {
    LE32(Truncate32(|arg|)) + arg
  }

  /** The entries, in argument order. */
  function EncodeEntries(args: seq<seq<byte>>): (r: seq<byte>)
    ensures |r| == EntriesSize(args)
  {
    if |args| == 0 then [] else Entry(args[0]) + EncodeEntries(args[1..])
  }

  /** Every argument costs at least its 4-byte length field. */
  lemma {:induction false} EntriesSizeBounds(args: seq<seq<byte>>)
    ensures EntriesSize(args) >= 4 * |args|
  {
    if |args| > 0 {
      EntriesSizeBounds(args[1..]);
    }
  }

  /** No single entry is larger than all of them together. */
  lemma {:induction false} EntrySizeBound(args: seq<seq<byte>>, i: nat)
    requires i < |args|
    ensures EntriesSize(args) >= 4 + |args[i]|
  {
    if i > 0 {
      EntrySizeBound(args[1..], i - 1);
      assert args[1..][i - 1] == args[i];
    }
  }

  /** Every argument length can be written as a u32. */
  predicate LengthsFit(args: seq<seq<byte>>)
  {
    forall i :: 0 <= i < |args| ==> |args[i]| < U32_BOUND
  }

  /** Within `MaxMsg`, every length and the count fit in a u32. */
  lemma SmallRequestFits(args: seq<seq<byte>>)
    requires BodyLength(args) <= MaxMsg
    ensures LengthsFit(args) && |args| < U32_BOUND
  {
    EntriesSizeBounds(args);
    forall i | 0 <= i < |args|
      ensures |args[i]| < U32_BOUND
    {
      EntrySizeBound(args, i);
    }
  }

  /** `send_req`'s frame, or `MessageTooLarge` when the body would exceed
      `MaxMsg` (in which case nothing is laid out). */
  function EncodeRequest(args: seq<seq<byte>>): (r: Result<seq<byte>, Error>)
    ensures r.Err? <==> BodyLength(args) > MaxMsg
    ensures r.Err? ==> r.error == MessageTooLarge
    ensures r.Ok? ==> |r.value| == 4 + BodyLength(args)
    ensures r.Ok? ==> r.value[..4] == LE32(BodyLength(args))
    ensures r.Ok? ==> |args| < U32_BOUND && r.value[4..8] == LE32(|args|)
  {
    var len := BodyLength(args);
    if len > MaxMsg then Err(MessageTooLarge)
    else
      EntriesSizeBounds(args);
      Ok(LE32(len) + LE32(|args|) + EncodeEntries(args))
  }

  /** The peer's reading of `count` entries that must fill `b` exactly. */
  function ParseEntries(b: seq<byte>, count: nat): Result<seq<seq<byte>>, Error>
    decreases count
  {
    if count == 0 then
      (if |b| == 0 then Ok([]) else Err(MalformedMessage))
    else if |b| < 4 then Err(MalformedMessage)
    else
      var k: nat := ParseLE32(b[..4]);
      if |b| < 4 + k then Err(MalformedMessage)
      else
        match ParseEntries(b[4 + k..], count - 1)
        case Ok(rest) => Ok([b[4..4 + k]] + rest)
        case Err(e) => Err(e)
  }

  /** The peer's reading of a whole request frame. */
  function ParseRequest(frame: seq<byte>): Result<seq<seq<byte>>, Error>
  {
    if |frame| < 8 then Err(MalformedMessage)
    else
      var len: nat := ParseLE32(frame[..4]);
      if len > MaxMsg then Err(MessageTooLarge)
      else if |frame| != 4 + len then Err(MalformedMessage)
      else ParseEntries(frame[8..], ParseLE32(frame[4..8]))
  }

  lemma {:induction false} ParseEncodedEntries(args: seq<seq<byte>>)
    requires LengthsFit(args)
    ensures ParseEntries(EncodeEntries(args), |args|) == Ok(args)
  {
    if |args| > 0 {
      var b := EncodeEntries(args);
      var a := args[0];
      assert |a| < U32_BOUND;
      assert LengthsFit(args[1..]);
      ParseLE32OfLE32(|a|);
      assert b[..4] == LE32(|a|);
      assert b[4..4 + |a|] == a;
      assert b[4 + |a|..] == EncodeEntries(args[1..]);
      ParseEncodedEntries(args[1..]);
      assert [a] + args[1..] == args;
    }
  }

  /** What a successful parse of a non-empty entry list consumed. */
  lemma ParseEntriesStep(b: seq<byte>, count: nat)
    requires count > 0 && ParseEntries(b, count).Ok?
    ensures |b| >= 4 && |b| >= 4 + ParseLE32(b[..4])
    ensures var k: nat := ParseLE32(b[..4]);
      ParseEntries(b[4 + k..], count - 1).Ok?
      && ParseEntries(b, count).value == [b[4..4 + k]] + ParseEntries(b[4 + k..], count - 1).value
  {
  }

  /** One parsed entry, written back, is the bytes it was parsed from. */
  lemma EntryOfParsed(b: seq<byte>)
    requires |b| >= 4 && |b| >= 4 + ParseLE32(b[..4])
    ensures Entry(b[4..4 + ParseLE32(b[..4])]) + b[4 + ParseLE32(b[..4])..] == b
  {
    var k: nat := ParseLE32(b[..4]);
    LE32OfParseLE32(b[..4]);
    assert Entry(b[4..4 + k]) == b[..4] + b[4..4 + k];
    SplitAt(b, 4, 4 + k);
  }

  lemma {:induction false} EncodeParsedEntries(b: seq<byte>, count: nat, args: seq<seq<byte>>)
    requires ParseEntries(b, count) == Ok(args)
    ensures |args| == count
    ensures EncodeEntries(args) == b
  {
    if count > 0 {
      ParseEntriesStep(b, count);
      var k: nat := ParseLE32(b[..4]);
      var rest := ParseEntries(b[4 + k..], count - 1).value;
      EncodeParsedEntries(b[4 + k..], count - 1, rest);
      assert args[0] == b[4..4 + k] && args[1..] == rest;
      EntryOfParsed(b);
    }
  }

  /** Parsing the frame `send_req` lays out recovers the argument list, in order. */
  lemma RequestRoundTrip(args: seq<seq<byte>>)
    requires EncodeRequest(args).Ok?
    ensures ParseRequest(EncodeRequest(args).value) == Ok(args)
  {
    var frame := EncodeRequest(args).value;
    SmallRequestFits(args);
    ParseLE32OfLE32(BodyLength(args));
    ParseLE32OfLE32(|args|);
    assert frame[8..] == EncodeEntries(args);
    ParseEncodedEntries(args);
  }

  /** Conversely, every frame the peer accepts is the one `send_req` lays out
      for the arguments it reads: the encoding is the only way to write them. */
  lemma ParsedRequestIsEncoded(frame: seq<byte>, args: seq<seq<byte>>)
    requires ParseRequest(frame) == Ok(args)
    ensures EncodeRequest(args) == Ok(frame)
  {
    EncodeParsedEntries(frame[8..], ParseLE32(frame[4..8]), args);
    LE32OfParseLE32(frame[..4]);
    LE32OfParseLE32(frame[4..8]);
    assert frame == frame[..4] + frame[4..8] + frame[8..];
  }

  lemma {:induction false} EntriesSizeAppend(xs: seq<seq<byte>>, ys: seq<seq<byte>>)
    ensures EntriesSize(xs + ys) == EntriesSize(xs) + EntriesSize(ys)
  {
    if |xs| > 0 {
      assert (xs + ys)[1..] == xs[1..] + ys;
      EntriesSizeAppend(xs[1..], ys);
    } else {
      assert xs + ys == ys;
    }
  }

  lemma {:induction false} EncodeEntriesAppend(xs: seq<seq<byte>>, ys: seq<seq<byte>>)
    ensures EncodeEntries(xs + ys) == EncodeEntries(xs) + EncodeEntries(ys)
  {
    if |xs| > 0 {
      assert (xs + ys)[0] == xs[0];
      assert (xs + ys)[1..] == xs[1..] + ys;
      EncodeEntriesAppend(xs[1..], ys);
    } else {
      assert xs + ys == ys;
    }
  }

  /** The entries from argument `i` on start with the entry of argument `i`. */
  lemma EntriesFrom(args: seq<seq<byte>>, i: nat)
    requires i < |args|
    ensures EntriesSize(args[..i]) + 4 + |args[i]| <= EntriesSize(args)
    ensures EncodeEntries(args)[EntriesSize(args[..i])..]
            == Entry(args[i]) + EncodeEntries(args[i + 1..])
  {
    var pre, post := args[..i], args[i..];
    assert args == pre + post;
    EntriesSuffix(pre, post);
    assert post[0] == args[i] && post[1..] == args[i + 1..];
  }

  /** Argument `i` sits right after the entries of the arguments before it:
      its u32 length, then exactly its bytes. */
  lemma RequestLayout(args: seq<seq<byte>>, i: nat)
    requires EncodeRequest(args).Ok? && i < |args|
    ensures |args[i]| < U32_BOUND
    ensures var frame := EncodeRequest(args).value;
      var at := 8 + EntriesSize(args[..i]);
      at + 4 + |args[i]| <= |frame|
      && frame[at..at + 4] == LE32(|args[i]|)
      && frame[at + 4..at + 4 + |args[i]|] == args[i]
  {
    EntrySizeBound(args, i);
    var frame := EncodeRequest(args).value;
    var entries := EncodeEntries(args);
    var skip := EntriesSize(args[..i]);
    assert frame[8..] == entries;
    EntriesFrom(args, i);
    assert frame[8 + skip..] == entries[skip..];
    assert Entry(args[i]) == LE32(|args[i]|) + args[i];
    Window(frame, 8 + skip, LE32(|args[i]|), args[i], EncodeEntries(args[i + 1..]));
  }

  /** The entries of a list's back part start where those of its front end. */
  lemma EntriesSuffix(pre: seq<seq<byte>>, post: seq<seq<byte>>)
    ensures EntriesSize(pre) + EntriesSize(post) == EntriesSize(pre + post)
    ensures EncodeEntries(pre + post)[EntriesSize(pre)..] == EncodeEntries(post)
  {
    EncodeEntriesAppend(pre, post);
    EntriesSizeAppend(pre, post);
  }

  /** Taking one more argument of the list adds its entry at the back: the
      step `send_req`'s layout loop takes. */
  lemma EntriesPrefixStep(args: seq<seq<byte>>, i: nat)
    requires i < |args|
    ensures EntriesSize(args[..i + 1]) == EntriesSize(args[..i]) + 4 + |args[i]|
    ensures EncodeEntries(args[..i + 1]) == EncodeEntries(args[..i]) + Entry(args[i])
  {
    var xs, x := args[..i], args[i];
    assert args[..i + 1] == xs + [x];
    EntriesSizeAppend(xs, [x]);
    EncodeEntriesAppend(xs, [x]);
    assert EncodeEntries([x]) == Entry(x) + [];
  }

  // --------------------------------------------------------------- responses

  /** `read_res` on the bytes the peer sends before the stream ends with
      `closed` (orderly) or not: the checks in the order the client makes them. */
  function DecodeResponse(data: seq<byte>, closed: bool): Result<Response, Error>
  {
    if |data| < 4 then Err(if closed then ConnectionClosed else IoError)
    else
      var len: nat := ParseLE32(data[..4]);
      if len > MaxMsg then Err(MessageTooLarge)
      else if |data| < 4 + len then Err(IoError)
      else if len < 4 then Err(MalformedMessage)
      else Ok(Response(ParseLE32(data[4..8]), data[8..4 + len]))
  }

  /** The peer's reply frame for `status` and `payload`. */
  function EncodeResponse(status: u32, payload: seq<byte>): (r: seq<byte>)
    requires |payload| <= MaxMsg - 4
    ensures |r| == 8 + |payload|
  {
    LE32(4 + |payload|) + LE32(status) + payload
  }

  /** A reply frame decodes to its status and payload, whatever follows it. */
  lemma ResponseRoundTrip(status: u32, payload: seq<byte>, after: seq<byte>, closed: bool)
    requires |payload| <= MaxMsg - 4
    ensures DecodeResponse(EncodeResponse(status, payload) + after, closed) == Ok(Response(status, payload))
  {
    var data := EncodeResponse(status, payload) + after;
    ParseLE32OfLE32(4 + |payload|);
    ParseLE32OfLE32(status);
    assert data[..4] == LE32(4 + |payload|);
    assert data[4..8] == LE32(status);
    assert data[8..8 + |payload|] == payload;
  }

  /** Conversely, a successful decode read exactly one well-formed reply frame
      from the front of the stream. */
  lemma DecodedResponseIsFramed(data: seq<byte>, closed: bool, resp: Response)
    requires DecodeResponse(data, closed) == Ok(resp)
    ensures |resp.payload| <= MaxMsg - 4
    ensures 8 + |resp.payload| <= |data|
    ensures data[..8 + |resp.payload|] == EncodeResponse(resp.status, resp.payload)
  {
    LE32OfParseLE32(data[..4]);
    LE32OfParseLE32(data[4..8]);
    assert data[..8 + |resp.payload|] == data[..4] + data[4..8] + data[8..8 + |resp.payload|];
  }

  /** A stream that ends before the header, or before the body the header
      announces, never decodes; only a header cut short by an orderly shutdown
      is reported as `ConnectionClosed`. */
  lemma TruncatedResponseFails(data: seq<byte>, closed: bool)
    requires |data| < 4 || (ParseLE32(data[..4]) <= MaxMsg && |data| < 4 + ParseLE32(data[..4]))
    ensures DecodeResponse(data, closed).Err?
    ensures |data| < 4 ==> DecodeResponse(data, closed).error == (if closed then ConnectionClosed else IoError)
    ensures |data| >= 4 ==> DecodeResponse(data, closed).error == IoError
  {
  }

  /** An announced length above `MaxMsg` is refused on the header alone:
      no body byte has any influence on the outcome. */
  lemma OversizedResponseRejected(data: seq<byte>, closed: bool)
    requires |data| >= 4 && ParseLE32(data[..4]) > MaxMsg
    ensures DecodeResponse(data, closed) == Err(MessageTooLarge)
    ensures DecodeResponse(data, closed) == DecodeResponse(data[..4], closed)
  {
  }

  /** An announced length below 4 is malformed, but only once that many body
      bytes have arrived; a stream that ends first is a read error. */
  lemma ShortLengthCheckedAfterBody(data: seq<byte>, closed: bool)
    requires |data| >= 4 && ParseLE32(data[..4]) < 4
    ensures |data| >= 4 + ParseLE32(data[..4]) ==> DecodeResponse(data, closed) == Err(MalformedMessage)
    ensures |data| < 4 + ParseLE32(data[..4]) ==> DecodeResponse(data, closed) == Err(IoError)
  {
  }

  // ------------------------------------------------- length as the C computes it

  /** The client's `uint32_t` accumulation of the body length: each step is
      truncated to 32 bits, starting from `acc`. */
  function WrapAccumulate(acc: u32, args: seq<seq<byte>>): u32
    decreases |args|
  {
    if |args| == 0 then acc
    else WrapAccumulate((acc + 4 + |args[0]|) % U32_BOUND, args[1..])
  }

  /** `len` as `send_req` computes it: the body length modulo 2^32. */
  function WrappedBodyLength(args: seq<seq<byte>>): u32
  {
    WrapAccumulate(4, args)
  }

  /** Whether the size check of `send_req`, made on the wrapped length, lets
      the request through. */
  predicate WrappedCheckAccepts(args: seq<seq<byte>>)
  {
    WrappedBodyLength(args) <= MaxMsg
  }

  lemma ModAddLeft(x: int, y: int)
    requires x >= 0 && y >= 0
    ensures (x % U32_BOUND + y) % U32_BOUND == (x + y) % U32_BOUND
  {
    var q := x / U32_BOUND;
    assert x == q * U32_BOUND + x % U32_BOUND;
    assert x + y == q * U32_BOUND + (x % U32_BOUND + y);
  }

  lemma {:induction false} WrapAccumulateIsModulo(acc: u32, args: seq<seq<byte>>)
    ensures WrapAccumulate(acc, args) == (acc + EntriesSize(args)) % U32_BOUND
    decreases |args|
  {
    if |args| > 0 {
      var step := acc + 4 + |args[0]|;
      WrapAccumulateIsModulo(step % U32_BOUND, args[1..]);
      ModAddLeft(step, EntriesSize(args[1..]));
    }
  }

  /** The wrapped length is the true body length reduced modulo 2^32, so the
      two agree exactly while the body stays below 4 GiB. */
  lemma WrappedBodyLengthIsModulo(args: seq<seq<byte>>)
    ensures WrappedBodyLength(args) == BodyLength(args) % U32_BOUND
    ensures BodyLength(args) < U32_BOUND ==> WrappedBodyLength(args) == BodyLength(args)
  {
    WrapAccumulateIsModulo(4, args);
  }

  /** One argument of 2^32 - 4 bytes: the wrapped length is 4, so the check
      lets a request through whose real body is more than 4 GiB, which the
      corrected `EncodeRequest` refuses. */
  lemma WrappedCheckAdmitsOversizedRequest()
    ensures var args := [seq(0xFFFF_FFFC, _ => 0)];
      WrappedBodyLength(args) == 4
      && WrappedCheckAccepts(args)
      && BodyLength(args) > MaxMsg
      && EncodeRequest(args) == Err(MessageTooLarge)
  {
    var args: seq<seq<byte>> := [seq(0xFFFF_FFFC, _ => 0)];
    assert |args[0]| == 0xFFFF_FFFC;
    assert EntriesSize(args[1..]) == 0;
    WrappedBodyLengthIsModulo(args);
  }
}
