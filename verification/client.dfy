/** The client's request/response cycle: `send_req`, `read_res`, and the
    one exchange `main` drives with them over a connected stream. */
module Client {
  import opened Bytes
  import opened Wrappers
  import opened Stream
  import opened Codec

  /** The length computation of `send_req`, taken over the unbounded
      integers: the count field plus, per argument, a length field and its bytes. */
  method MeasureRequest(cmd: seq<seq<byte>>) returns (len: nat)
    ensures len == 4 + EntriesSize(cmd)
    ensures len >= 4 + 4 * |cmd|
  {
    len := 4;
    var i := 0;
    while i < |cmd|
      invariant 0 <= i <= |cmd|
      invariant len == BodyLength(cmd[..i])
    {
      assert cmd[..i + 1] == cmd[..i] + [cmd[i]];
      EntriesSizeAppend(cmd[..i], [cmd[i]]);
      len := len + 4 + |cmd[i]|;
      i := i + 1;
    }
    assert cmd[..|cmd|] == cmd;
    EntriesSizeBounds(cmd);
  }

  /** One pass of the layout loop: the argument's length cast to `uint32_t`,
      then its bytes, copied at the cursor. */
  method AppendEntry(wbuf: seq<byte>, s: seq<byte>) returns (w: seq<byte>)
    ensures w == wbuf + Entry(s)
  {
    var p: u32 := Truncate32(|s|);
    w := BufAppend(wbuf, LE32(p), 4);
    w := BufAppend(w, s, |s|);
  }

  /** The frame `send_req` lays out in `wbuf` once the size check has passed:
      the length, the argument count, then one entry per argument, the write
      cursor ending at exactly `4 + len`. */
  method LayOutRequest(cmd: seq<seq<byte>>, len: nat) returns (wbuf: seq<byte>)
    requires len == BodyLength(cmd) <= MaxMsg
    ensures |wbuf| == 4 + len
    ensures EncodeRequest(cmd) == Ok(wbuf)
  {
    EntriesSizeBounds(cmd);
    var header := LE32(len) + LE32(|cmd|);
    wbuf := header;
    var cur: nat := 8;
    var i := 0;
    while i < |cmd|
      invariant 0 <= i <= |cmd|
      invariant cur == |wbuf| == 8 + EntriesSize(cmd[..i])
      invariant wbuf == header + EncodeEntries(cmd[..i])
    {
      var s := cmd[i];
      EntriesPrefixStep(cmd, i);
      wbuf := AppendEntry(wbuf, s);
      cur := cur + 4 + |s|;
      i := i + 1;
    }
    assert cmd[..|cmd|] == cmd;
  }

  /** `send_req`: refuses a request whose body would exceed `MaxMsg`, writing
      nothing; otherwise writes all `4 + len` bytes of its frame, or fails with
      the peer holding the prefix it accepted. */
  method SendReq(out: Outbound, cmd: seq<seq<byte>>) returns (r: Result<(), Error>, rest: Outbound)
    ensures r == Err(MessageTooLarge) <==> BodyLength(cmd) > MaxMsg
    ensures r == Err(MessageTooLarge) ==> rest == out
    ensures r.Ok? <==> EncodeRequest(cmd).Ok? && |EncodeRequest(cmd).value| <= Capacity(out.windows)
    ensures r.Ok? ==> rest.delivered == out.delivered + EncodeRequest(cmd).value
    ensures r == Err(IoError) ==>
              (EncodeRequest(cmd).Ok?
               && rest.delivered == out.delivered + EncodeRequest(cmd).value[..Capacity(out.windows)])
    ensures r.Err? ==> r.error in {MessageTooLarge, IoError}
  {
    var len := MeasureRequest(cmd);
    if len > MaxMsg {
      return Err(MessageTooLarge), out;
    }
    var wbuf := LayOutRequest(cmd, len);
    var ok;
    ok, rest := WriteAll(out, wbuf, 4 + len);
    r := if ok then Ok(()) else Err(IoError);
  }

  /** `read_res` over any chunking of the inbound stream: the outcome depends
      only on the bytes the peer sent and how the stream ended. An oversized
      header is refused having consumed the header alone; a successful read
      consumes exactly one frame. */
  method ReadRes(inb: Inbound) returns (r: Result<Response, Error>, rest: Inbound)
    ensures r == DecodeResponse(Pending(inb), inb.tail == Closed)
    ensures r == Err(MessageTooLarge) ==> Pending(rest) == Pending(inb)[4..]
    ensures r.Ok? ==> Pending(rest) == Pending(inb)[8 + |r.value.payload|..]
  {
    var header, afterHeader := ReadFull(inb, 4);
    if header.Err? {
      return Err(if header.error == Closed then ConnectionClosed else IoError), afterHeader;
    }
    var len: nat := ParseLE32(header.value);
    if len > MaxMsg {
      return Err(MessageTooLarge), afterHeader;
    }
    var body, afterBody := ReadFull(afterHeader, len);
    if body.Err? {
      return Err(IoError), afterBody;
    }
    if len < 4 {
      return Err(MalformedMessage), afterBody;
    }
    var data := Pending(inb);
    assert body.value == data[4..4 + len];
    r := Ok(Response(ParseLE32(body.value[..4]), body.value[4..]));
    rest := afterBody;
    assert body.value[..4] == data[4..8];
  }

  /** One cycle of `main`: send the request, and read the reply only when the
      request went out in full. */
  method Exchange(out: Outbound, inb: Inbound, cmd: seq<seq<byte>>)
    returns (r: Result<Response, Error>, outRest: Outbound, inRest: Inbound)
    ensures EncodeRequest(cmd).Err? ==> r == Err(MessageTooLarge) && outRest == out && inRest == inb
    ensures EncodeRequest(cmd).Ok? && |EncodeRequest(cmd).value| > Capacity(out.windows) ==>
              (r == Err(IoError) && inRest == inb)
    ensures EncodeRequest(cmd).Ok? && |EncodeRequest(cmd).value| <= Capacity(out.windows) ==>
              (outRest.delivered == out.delivered + EncodeRequest(cmd).value
               && r == DecodeResponse(Pending(inb), inb.tail == Closed))
  {
    var sent;
    sent, outRest := SendReq(out, cmd);
    if sent.Err? {
      return Err(sent.error), outRest, inb;
    }
    r, inRest := ReadRes(inb);
  }
}
