# Wire codec of the single-request TCP client

This project models the protocol core of `client.cpp`. That file is a command-line client. It sends one
request frame to a server and reads one response frame back. The model covers three parts:

- **Reliable stream I/O**: `read_full` and `write_all`. Each loop keeps calling a primitive that may move
  fewer bytes than asked, until the full count has moved or a call returns zero or less.
- **Request encoding**: `send_req`. It computes the body length `4 + Σ(4 + |arg|)` and refuses anything
  above `k_max_msg = 4096`. Otherwise it lays out `len:u32, count:u32, (length:u32, bytes)*` and writes
  exactly `4 + len` bytes.
- **Response decoding**: `read_res`. It reads a 4-byte header and refuses a length above `k_max_msg`.
  It then reads the body, refuses a length below 4 as malformed, and splits the body into a u32 status
  and the payload.

All integers go on the wire little-endian. The source gets this byte order by copying host integers
and assuming a little-endian host. The model writes the order out explicitly, in `Bytes.LE32` and
`Bytes.ParseLE32`.

Modules:

- `Wrappers`: the `Result` type. It replaces the source's `-1` returns and its `errno` side channel.
- `Bytes`: bytes, u32 values, the little-endian codec and `buf_append`.
- `Stream`: an abstract connected socket and the two full-transfer loops.
  - Inbound, the socket is the peer's bytes cut into the pieces successive `read` calls return. After
    the last piece the stream either shuts down in order (`read` returns 0, `Closed`) or fails (`read`
    returns -1, `Broken`).
  - Outbound, the socket is the sizes of the windows the peer accepts. Once they are used up, `write`
    fails.
  - Any sequence of short transfers a real socket produces is one of these: take the pieces to be what
    each call moved. So the source's `assert(rv <= n)` is proved here, not assumed.
- `Codec`: `MaxMsg`, the error kinds and the frame layouts. It also holds the peer's halves of the
  protocol as reference definitions: `ParseRequest` reads a request frame and `EncodeResponse` builds a
  reply frame. The client's halves are proved against them. The module also holds the body length as
  the C code computes it (see Findings).
- `Client`: `send_req` and `read_res` as methods over the abstract socket, and the single send-then-read
  cycle of `main`.
- `Scenarios`: concrete frames.

## Model

| member | source | states |
|---|---|---|
| Bytes.ParseLE32OfLE32 | client.cpp:75-77 | reading the four little-endian bytes written for a u32 gives that u32 back |
| Bytes.LE32OfParseLE32 | client.cpp:103 | every 4-byte header is exactly the encoding of the length read from it, so no two headers carry the same length |
| Bytes.LE32Injective | client.cpp:75-81 | distinct integers get distinct 4-byte encodings |
| Bytes.Truncate32 | client.cpp:80 | a conversion to `uint32_t` keeps the value modulo 2^32 |
| Bytes.BufAppend | client.cpp:55-58 | the result keeps the old buffer as its prefix, followed by exactly the first `len` bytes of the data |
| Stream.Recv | client.cpp:30-34 | one read never returns more than requested; a positive return hands over exactly that many of the next pending bytes; 0 or less happens only when nothing is pending, and 0 exactly on an orderly shutdown |
| Stream.ReadFull | client.cpp:28-39 | succeeds if and only if `n` bytes are pending, returning exactly the first `n` in stream order and leaving the rest; otherwise fails, saying whether the stream closed in order or broke, over every way the stream may be cut into short reads |
| Stream.Send | client.cpp:43-47 | one write never reports more than offered; a positive return delivers exactly that prefix and uses that much capacity; 0 or less only when the peer accepts nothing more |
| Stream.WriteAll | client.cpp:41-53 | succeeds if and only if the peer accepts all `n` bytes, which then follow what it had before; on failure the peer holds exactly the prefix it could accept |
| Codec.EncodeEntries | client.cpp:78-84 | the entries take exactly `Σ(4 + |arg|)` bytes, a 4-byte length and the bytes per argument |
| Codec.EncodeRequest | client.cpp:64-77 | fails, with `MessageTooLarge`, if and only if the body length exceeds 4096; otherwise the frame has `4 + len` bytes and starts with the little-endian body length, then the little-endian argument count |
| Codec.RequestLayout | client.cpp:78-84 | argument `i` sits right after the entries of arguments `0..i`, as its u32 length followed by exactly its bytes |
| Codec.EntriesPrefixStep | client.cpp:79-84 | each step of the layout loop adds the next argument's entry at the back and moves the cursor by `4 + |arg|` |
| Codec.RequestRoundTrip | client.cpp:75-85 | parsing a frame the client lays out gives back the original argument list in order |
| Codec.ParsedRequestIsEncoded | client.cpp:75-85 | every frame the parser accepts is the very frame the client lays out for the arguments parsed from it |
| Codec.ResponseRoundTrip | client.cpp:115-121 | a reply frame decodes to its own status and payload, whatever bytes follow it on the stream |
| Codec.DecodedResponseIsFramed | client.cpp:101-121 | a successful decode read one well-formed reply frame from the front of the stream, with a payload of at most 4092 bytes |
| Codec.TruncatedResponseFails | client.cpp:91-113 | a stream that ends before the header or before the announced body never decodes; a short header is `ConnectionClosed` only after an orderly shutdown and `IoError` otherwise; a short body is always `IoError` |
| Codec.OversizedResponseRejected | client.cpp:103-107 | a length above 4096 is refused with `MessageTooLarge`, and the outcome depends on the header alone |
| Codec.ShortLengthCheckedAfterBody | client.cpp:109-119 | a length below 4 is `MalformedMessage` once that many body bytes have arrived, and `IoError` when the stream ends first |
| Codec.WrappedBodyLengthIsModulo | client.cpp:66-69 | the C `uint32_t` accumulation gives the true body length modulo 2^32, so the two agree for any body under 4 GiB |
| Codec.WrappedCheckAdmitsOversizedRequest | client.cpp:66-72 | one argument of 2^32 - 4 bytes makes the wrapped length 4, so the C size check passes a request the corrected encoder refuses |
| Client.MeasureRequest | client.cpp:66-69 | the length loop yields `4 + Σ(4 + |arg|)`, at least `4 + 4·count` |
| Client.AppendEntry | client.cpp:80-83 | one pass of the layout loop appends exactly the argument's entry: its length cast to `uint32_t`, then its bytes |
| Client.LayOutRequest | client.cpp:74-84 | the buffer built with the write cursor is exactly the encoded frame, `4 + len` bytes long |
| Client.SendReq | client.cpp:65-86 | `MessageTooLarge` if and only if the body exceeds 4096, and then nothing is written; success if and only if the peer takes all `4 + len` frame bytes, which it then holds in order; otherwise `IoError` with the peer holding a prefix of the frame |
| Client.ReadRes | client.cpp:88-123 | over any cutting of the stream into short reads, the outcome is the response decode of the bytes sent; an oversized header consumes only the header; a success consumes exactly one frame |
| Client.Exchange | client.cpp:184-191 | a request that cannot go out in full is never followed by a read; otherwise the peer holds the whole frame and the outcome is the response decode |
| Scenarios.GetFooRequest | client.cpp:66-85 | `get foo` has body length 18 and the listed 22-byte frame, which parses back to the same arguments |
| Scenarios.MaxMsgBoundary | client.cpp:64-72 | a body of exactly 4096 bytes is encoded into 4100 bytes; 4097 is `MessageTooLarge` |
| Scenarios.WellFormedReplies | client.cpp:115-121 | length 6 with status 0 and `OK` gives status 0 and payload `OK`; length 4 gives an empty payload |
| Scenarios.RejectedReplies | client.cpp:91-119 | length 3 is malformed with its body present and a read error without it; two header bytes then a shutdown is `ConnectionClosed`, or `IoError` if the stream broke; length 4097 is `MessageTooLarge` |

## Left out

- Socket creation, `connect`, the loopback address and port, and `close` (client.cpp:127-141, 192-194) are left out. They are OS plumbing. The core receives an already connected stream.
- The abstract socket is finite: its pieces and windows run out. A peer that never answers would block the source forever. Here, such a peer is a stream whose pieces end, so every loop terminates. Timeouts are not modelled.
- `msg`, `die` and `abort` (client.cpp:17-26) are left out because they only print. The `printf` of the reply (client.cpp:121) is replaced by returning the status and payload as a `Response`.
- The source does not propagate its error kinds. `send_req` and `read_res` return `-1` for every failure, and `read_res` tells end-of-stream from error only in a message chosen by `errno`. The model returns the distinct kinds instead. A header read that fails with `errno` still 0 (the failing `read` returned 0) is `ConnectionClosed`. Every other failure is `IoError`, `MessageTooLarge` or `MalformedMessage`.
- The fixed stack buffers `wbuf` and `rbuf` (client.cpp:74, 90) are modelled as sequences of exactly the needed length. The `k_max_msg` check comes first, as in the source.
- `main` exits with status 0 whatever happened (client.cpp:194). `Client.Exchange` returns the outcome rather than an exit code.
- The commented-out multi-request and pipelined code (client.cpp:142-178) is left out. It is dead and calls a different `send_req`.
- Host byte order is not modelled. Only explicit little-endian is.
- Bytes.LE32: its contract states only the length. What the encoding means is stated by the round-trip lemmas `Bytes.ParseLE32OfLE32` and `Bytes.LE32OfParseLE32`.
- Codec.DecodeResponse: carries no contract of its own. It is the reference that `Client.ReadRes` is proved equal to. Its meaning is stated by the `Codec` lemmas on responses and by `Scenarios`.

## Findings

| source | as written | input that shows it | evidently intended | confidence | as-written member | corrected member |
|---|---|---|---|---|---|---|
| client.cpp:66-72 | `len` is a `uint32_t`, so `4 + Σ(4 + s.size())` wraps modulo 2^32 before the `len > k_max_msg` check | one argument of 2^32 - 4 bytes: `len` becomes 4, the check passes, and the layout loop copies the argument into the 4100-byte `wbuf` | refuse every request whose true body length exceeds 4096 | low: not executed; needs a single argument of about 4 GiB | Codec.WrappedCheckAdmitsOversizedRequest | Codec.EncodeRequest |

The rest of the model uses the corrected body length, an unbounded `nat`. That means `Codec.EncodeRequest`
and `Client.SendReq` refuse every request over 4096 bytes. `Codec.WrappedBodyLength` is the length as
the source computes it. `Codec.WrappedBodyLengthIsModulo` proves it equals the corrected length
whenever the body is under 4 GiB. So the two can differ only for the input above.
