/** Reliable stream I/O: `read_full` and `write_all` over a transport whose
    primitive `read`/`write` calls may move fewer bytes than asked.

    The connected socket is abstract. Inbound, it is the bytes the peer has
    sent, cut into the pieces that successive `read` calls hand back, followed
    by either an orderly shutdown (`read` returns 0) or a failure (`read`
    returns -1). Outbound, it is the sizes of the successive windows the peer
    accepts; once they are used up, `write` fails. Any pattern of short
    transfers is one of these: take the pieces to be what each call moved. */
module Stream {
  import opened Bytes
  import opened Wrappers

  /** How the inbound stream ends once every pending byte has been read. */
  datatype Tail = Closed | Broken

  /** A piece of data that one `read` call can return; never empty. */
  type Chunk = c: seq<byte> | |c| > 0 witness [0]

  datatype Inbound = Inbound(chunks: seq<Chunk>, tail: Tail)

  /** The result of one `read(fd, buf, want)` call: its return value, the
      bytes it stored and what is left to read. */
  datatype RecvStep = RecvStep(rv: int, got: seq<byte>, rest: Inbound)

  /** All bytes the chunks will deliver, in order. */
  function Concat(chunks: seq<Chunk>): seq<byte>
  {
    if |chunks| == 0 then [] else chunks[0] + Concat(chunks[1..])
  }

  /** All bytes still to be read from the inbound stream. */
  function Pending(inb: Inbound): seq<byte>
  {
    Concat(inb.chunks)
  }

  /** One `read` call: at most `want` bytes of the next piece, or the end of
      the stream (0 on orderly shutdown, -1 on failure). */
  function Recv(inb: Inbound, want: nat): (s: RecvStep)
    requires want > 0
    ensures s.rv <= want
    ensures s.rv > 0 ==> |s.got| == s.rv && Pending(inb) == s.got + Pending(s.rest)
    ensures s.rv > 0 ==> s.rest.tail == inb.tail
    ensures s.rv <= 0 ==> Pending(inb) == [] && (s.rv == 0 <==> inb.tail == Closed)
  {
    if |inb.chunks| == 0 then
      RecvStep(if inb.tail == Closed then 0 else -1, [], inb)
    else
      var c := inb.chunks[0];
      if |c| <= want then
        RecvStep(|c|, c, Inbound(inb.chunks[1..], inb.tail))
      else
        var left: Chunk := c[want..];
        assert Concat([left] + inb.chunks[1..]) == left + Concat(inb.chunks[1..]);
        RecvStep(want, c[..want], Inbound([left] + inb.chunks[1..], inb.tail))
  }

  /** `read_full`: exactly `n` bytes, in stream order, or a failure that tells
      an orderly shutdown (`Closed`, the `errno == 0` case) from an I/O error. */
  method ReadFull(inb: Inbound, n: nat) returns (r: Result<seq<byte>, Tail>, rest: Inbound)
    ensures r.Ok? <==> n <= |Pending(inb)|
    ensures r.Ok? ==> r.value == Pending(inb)[..n]
    ensures r.Ok? ==> Pending(rest) == Pending(inb)[n..] && rest.tail == inb.tail
    ensures r.Err? ==> r.error == inb.tail
  {
    var buf: seq<byte> := [];
    var remaining: nat := n;
    rest := inb;
    while remaining > 0
      invariant |buf| + remaining == n
      invariant Pending(inb) == buf + Pending(rest)
      invariant rest.tail == inb.tail
      decreases remaining
    {
      var step := Recv(rest, remaining);
      if step.rv <= 0 {
        return Err(if step.rv == 0 then Closed else Broken), rest;
      }
      assert step.rv <= remaining;
      assert Pending(inb) == (buf + step.got) + Pending(step.rest);
      remaining := remaining - step.rv;
      buf := buf + step.got;
      rest := step.rest;
    }
    assert |buf| == n;
    assert Pending(inb)[..n] == buf && Pending(inb)[n..] == Pending(rest);
    r := Ok(buf);
  }

  /** A positive number of bytes the peer accepts in one `write` call. */
  type Window = w: int | w > 0 witness 1

  datatype Outbound = Outbound(windows: seq<Window>, delivered: seq<byte>)

  /** The result of one `write(fd, buf, n)` call: its return value and the
      connection afterwards. */
  datatype SendStep = SendStep(rv: int, rest: Outbound)

  /** How many more bytes the peer will accept. */
  function Capacity(windows: seq<Window>): nat
  {
    if |windows| == 0 then 0 else windows[0] + Capacity(windows[1..])
  }

  /** One `write` call: as much of `buf` as the next window takes, or -1 once
      the peer accepts nothing more. */
  function Send(out: Outbound, buf: seq<byte>): (s: SendStep)
    requires |buf| > 0
    ensures s.rv <= |buf|
    ensures s.rv > 0 ==> s.rest.delivered == out.delivered + buf[..s.rv]
    ensures s.rv > 0 ==> Capacity(s.rest.windows) + s.rv == Capacity(out.windows)
    ensures s.rv <= 0 ==> Capacity(out.windows) == 0 && s.rest == out
  {
    if |out.windows| == 0 then
      SendStep(-1, out)
    else
      var w := out.windows[0];
      if w <= |buf| then
        SendStep(w, Outbound(out.windows[1..], out.delivered + buf[..w]))
      else
        var left: Window := w - |buf|;
        assert Capacity([left] + out.windows[1..]) == left + Capacity(out.windows[1..]);
        SendStep(|buf|, Outbound([left] + out.windows[1..], out.delivered + buf))
  }

  /** `write_all`: succeeds exactly when the peer takes all `n` bytes, which
      then follow what was delivered before; on failure the peer has received
      a strict prefix of them, as much as it would accept. */
  method WriteAll(out: Outbound, buf: seq<byte>, n: nat) returns (ok: bool, rest: Outbound)
    requires n <= |buf|
    ensures ok <==> n <= Capacity(out.windows)
    ensures ok ==> rest.delivered == out.delivered + buf[..n]
    ensures !ok ==> rest.delivered == out.delivered + buf[..Capacity(out.windows)]
  {
    var cur: nat := 0;
    var remaining: nat := n;
    rest := out;
    while remaining > 0
      invariant cur + remaining == n <= |buf|
      invariant rest.delivered == out.delivered + buf[..cur]
      invariant Capacity(rest.windows) + cur == Capacity(out.windows)
      decreases remaining
    {
      var step := Send(rest, buf[cur..n]);
      if step.rv <= 0 {
        return false, rest;
      }
      assert step.rv <= remaining;
      assert buf[..cur] + buf[cur..n][..step.rv] == buf[..cur + step.rv];
      remaining := remaining - step.rv;
      cur := cur + step.rv;
      rest := step.rest;
    }
    ok := true;
  }
}
