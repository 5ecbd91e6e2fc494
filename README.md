# socketwrap: PROXY-protocol preamble stripping, modelled in Dafny

`socketwrap(socket)` waits for the PROXY-protocol preamble that a load
balancer such as HAProxy sends in front of a TCP stream, decodes it, and puts
the bytes that follow back into the socket. The preamble is either a version 1
text line or a version 2 binary header. It returns a promise that resolves to
the decoded peer address, or rejects with an error carrying the bytes seen so
far.

The model has three modules:

- `Header` (header.dfy) is the boundary locator `isHeaderCompleted`, with Node
  `Buffer` semantics written out:
  - `slice` clamps its bounds to the buffer;
  - `indexOf` returns -1 when the byte is absent;
  - a missing `buf[15]` makes `addrLength` NaN, so `slice(0, NaN)` is empty and
    `slice(NaN)` is the whole buffer.

  The version 2 signature and the two decoders come from the parser package.
  They are parameters (`ProxyLib`): the signature is any 12 bytes that do not
  begin with "P", and the decoders are uninterpreted functions.
- `Handshake` (handshake.dfy) is the state machine of the `onReadable`
  handler and of `destroy`, as functions over one `Connection` value:
  - the closure variables `buf` and `protocolError`;
  - whether the 'readable' listener is attached;
  - the promise (`Pending`, `Resolved`, `Rejected`), which settles at most once;
  - the socket's unread chunks;
  - whether the socket is destroyed.

  `Verdict` lists the checks of the loop body in the source's order, `Drain`
  is the `while (chunk !== null)` loop, and the lemmas state what one event
  guarantees.
- `Wrap` (wrap.dfy) is the imperative form, in two classes:
  - `Socket` holds a queue of chunks, with `Read`, `Unshift` and `Destroy`.
  - `SocketWrap` holds the handler's state, with `OnReadable` (a `while`
    loop), its loop body `Append`, `Destroy` and the event entry point
    `Readable`.

  Each method's postcondition ties the new state to the `Handshake` function
  of the old state. The `Handshake` lemmas then give the properties.

## Model

| member | source | states |
|---|---|---|
| Header.StartsWithBytes | lib/socketwrap.js:20 | `buf.slice(0, n).equals(p)` holds exactly when the buffer has at least `|p|` bytes and each of the first `|p|` matches `p` (also lines 29 and 91-92) |
| Header.SliceFrom | lib/socketwrap.js:25 | `buf.slice(k)` is clamped: the `max(len - k, 0)` last bytes of the buffer (also lines 27 and 32) |
| Header.SliceTo | lib/socketwrap.js:31 | `buf.slice(0, k)` is clamped: the first `min(k, len)` bytes of the buffer |
| Header.IndexOf | lib/socketwrap.js:21 | `buf.indexOf('\r')`: the result is -1 exactly when the byte is absent; otherwise it is an index holding the byte, with no earlier occurrence |
| Header.AddrLength | lib/socketwrap.js:30 | `buf[15] + buf[14] * 256` is a number exactly when the buffer holds at least 16 bytes, and it is below 65536 |
| Header.SniffLength | lib/socketwrap.js:89 | `Math.max` of the two prefix lengths is 12 and covers both prefixes |
| Header.IsHeaderCompleted | lib/socketwrap.js:19-35 | completed exactly on ("PROXY" and a carriage return present) or (the signature instead of "PROXY"); no info unless completed; the rest is always a tail of the buffer |
| Header.V1Complete | lib/socketwrap.js:20-25 | the first CR at i: completed, decoder gets `buf[..i]`, rest is `buf[i+2..]` clamped, whatever byte i+1 is; the buffer is the line, the terminator bytes and the rest |
| Header.V1Incomplete | lib/socketwrap.js:20-27 | "PROXY" without a CR: not completed, no info, rest `buf.slice(1)` |
| Header.V2Complete | lib/socketwrap.js:29-32 | signature and at least 16 bytes: completed, decoder gets the first `min(16 + addrLength, len)` bytes, the rest the bytes after them |
| Header.V2Short | lib/socketwrap.js:29-32 | signature but fewer than 16 bytes: completed, decoder gets no bytes, rest is the whole buffer |
| Header.NeitherPrefix | lib/socketwrap.js:34 | neither prefix, in particular under five bytes: not completed, no info, buffer returned unchanged |
| Header.FullHeaderIsStable | lib/socketwrap.js:19-35 | once the whole header with its terminator is buffered, appending bytes keeps the info and the boundary and only extends the rest |
| Header.SplitTerminatorIsNotStable | lib/socketwrap.js:21-25 | the buffer "PROXY" CR is already complete with an empty rest, and appending the LF does not just extend that rest with the LF, so `FullHeaderIsStable` needs both terminator bytes buffered |
| Handshake.NotProxy | lib/socketwrap.js:88-94 | the sniff rejects only buffers of at least 12 bytes that the locator would not declare complete |
| Handshake.Verdict | lib/socketwrap.js:88-120 | the checks of one loop pass: waiting only at 107 bytes or fewer; a resolution carries a numeric port and a tail of the buffer as remainder; a rejection carries one of the three messages and removes the listener exactly for the malformed one |
| Handshake.Settle | lib/socketwrap.js:99-120 | acting on a step leaves the buffer alone, changes nothing on `Wait`, settles a pending promise on any other step and never changes a settled one |
| Handshake.Drain | lib/socketwrap.js:85-123 | the loop, for any check, only extends the buffer and never changes a settled outcome |
| Handshake.HandleReadable | lib/socketwrap.js:78-124 | `onReadable` only extends the buffer and never changes a settled outcome |
| Handshake.Event | lib/socketwrap.js:62-124 | a 'readable' event only extends the buffer, never changes a settled outcome, and does nothing on a destroyed socket |
| Handshake.Run | lib/socketwrap.js:60-124 | across arrivals and events the buffer only grows and a settled outcome stays settled |
| Handshake.Ascii | lib/socketwrap.js:71 | `toString('ascii')`: one character per byte, the byte with its high bit cleared |
| Handshake.AfterDestroy | lib/socketwrap.js:64-75 | destroy sets the error flag and destroys the socket; it rejects with the buffer as ASCII if the promise is pending, else the outcome is unchanged; all else unchanged |
| Handshake.Initial | lib/socketwrap.js:57-62 | the state after `socketwrap(socket)` is coherent and pending |
| Handshake.NonProxyRejection | lib/socketwrap.js:88-95 | rejected as non-PROXY exactly at 12 or more bytes with neither prefix; never below 12 bytes |
| Handshake.SizeCap | lib/socketwrap.js:97-120 | rejected as too long exactly on a "PROXY" buffer over 107 bytes with no CR; a completed header never is |
| Handshake.Waiting | lib/socketwrap.js:119-122 | the handler reads on exactly when the buffer is at most 107 bytes and is either a "PROXY" line with no CR or under 12 bytes with neither prefix |
| Handshake.MalformedHeader | lib/socketwrap.js:97-104 | rejected as malformed, with the listener removed, exactly when it passed the sniff, completed, and the info is null or its port NaN |
| Handshake.Acceptance | lib/socketwrap.js:97-108 | resolved with info and rest exactly when it passed the sniff, completed with that info and rest, and the port is a number |
| Handshake.NothingToRead | lib/socketwrap.js:80-85 | a read that finds nothing changes nothing, with `buf` empty or not |
| Handshake.ReadsUpToFirstVerdict | lib/socketwrap.js:80-123 | an event reads chunks in order up to the first buffer that is not left waiting, and waited on every earlier buffer; `buf` grows by exactly the chunks read, and the rest stay unread |
| Handshake.LosesNoByte | lib/socketwrap.js:82-108 | buffer plus unread chunks is the same byte sequence before and after an event; on success exactly one chunk, a tail of the buffer, is unshifted ahead of the unread chunks |
| Handshake.KeepsCoherent | lib/socketwrap.js:57-123 | every event keeps the flags consistent: listening and alive exactly while pending; destroyed, error set and rejected together; a rejection carries the buffer as ASCII and one of the three messages; only malformed removes the listener |
| Handshake.ChunkedV1Header | lib/socketwrap.js:78-123 | a version 1 line of at most 107 bytes, its CR LF and a payload, split into any chunks none of which ends between CR and LF: resolved exactly when the decoder gives a numeric port, with the decoded info and exactly the payload left queued; otherwise rejected as malformed |
| Handshake.ChunkedV1AcrossEvents | lib/socketwrap.js:78-123 | the same as `ChunkedV1Header` when each chunk arrives on its own and is followed by a 'readable' event |
| Handshake.DeliverOneByOne | lib/socketwrap.js:78-124 | delivering chunks one per 'readable' event ends in exactly the state of one event that finds them all queued |
| Handshake.RunLosesNoByte | lib/socketwrap.js:80-108 | across any arrivals and events from a fresh socket, the buffer followed by the unread chunks is exactly the bytes queued and arrived, in order, so the buffer is always a prefix of them |
| Handshake.EventKeepsCoherent | lib/socketwrap.js:62-124 | a 'readable' event, which a destroyed socket does not emit and which only reaches an attached handler, keeps a connection coherent and changes nothing once the promise has settled |
| Handshake.RunKeepsCoherent | lib/socketwrap.js:57-124 | any sequence of data arrivals and 'readable' events keeps a connection coherent; once settled, neither the outcome nor the buffer changes again |
| Handshake.SettlesOnce | lib/socketwrap.js:60-124 | from a fresh socket, the outcome and buffer reached when the promise first settles are the ones after every later happening |
| Handshake.SplitTerminatorLeaksLineFeed | lib/socketwrap.js:21-25 | "PROXY" line + CR LF + payload in one chunk leaves exactly the payload; split between CR and LF it leaves LF + payload |
| Handshake.TruncatedV2IsDecodedEarly | lib/socketwrap.js:29-32 | a version 2 header whose address block comes in a later chunk never waits for it: the event settles on the first 16 bytes, and if the decoder accepts them the block is left in front of the payload; delivered whole, the decoder sees the block and only the payload is left |
| Wrap.Socket.Read | lib/socketwrap.js:80 | `socket.read()` pops the first chunk, or returns null and changes nothing on an empty queue |
| Wrap.Socket.Unshift | lib/socketwrap.js:106 | `socket.unshift` puts the data in front of the queue |
| Wrap.Socket.Destroy | lib/socketwrap.js:73 | `socket.destroy()` sets the destroyed flag and leaves the queue alone |
| Wrap.SocketWrap.constructor | lib/socketwrap.js:55-62 | empty buffer, no error, listener attached, promise pending |
| Wrap.SocketWrap.Destroy | lib/socketwrap.js:64-75 | the new state is `AfterDestroy` of the old one |
| Wrap.SocketWrap.Append | lib/socketwrap.js:86-121 | one loop pass: the state after appending the chunk and acting on `Verdict` of the grown buffer; `done` exactly when the verdict is not to wait |
| Wrap.SocketWrap.OnReadable | lib/socketwrap.js:78-124 | the new state is `HandleReadable` of the old one, so every `Handshake` lemma applies to the loop |
| Wrap.SocketWrap.Readable | lib/socketwrap.js:62-124 | a 'readable' event runs the handler only while its listener is attached and the socket is not destroyed (the new state is `Event` of the old); it keeps the wrapper coherent, and after the promise has settled it changes nothing |

## Where the code departs from the PROXY protocol

The model follows the code. The code departs from HAProxy's proxy-protocol.txt,
which lib/socketwrap.js:53 cites, in two places:

- Version 2: section 2.2 makes the binary header `16 + len` bytes long, where
  `len` is the big-endian length field in bytes 14 and 15. The code declares
  the header complete as soon as the signature matches, and decodes a clamped,
  truncated slice when fewer bytes have arrived.
  `TruncatedV2IsDecodedEarly` shows the consequence when the address block
  arrives in a later chunk.
- Version 1: section 2.1 ends the header line with CR LF. The code skips two
  bytes after the first CR, whatever they are, and completes before the LF has
  arrived. When a chunk boundary falls between CR and LF, the LF is handed to
  the application as payload (`SplitTerminatorLeaksLineFeed`). For a line of
  at most 107 bytes, any other split resolves exactly when one chunk would,
  with the same info and exactly the payload left over; otherwise it is
  rejected as malformed, with the bytes read so far as the error's header
  (`ChunkedV1Header` for chunks queued before one event, `ChunkedV1AcrossEvents`
  for one chunk per event).

## Left out

- `override` and `defineProperty` (lib/socketwrap.js:39-51): they install
  property getters on a foreign object, which is not behaviour with a stateable
  contract.
- The `proxyProtocolFields` list (lib/socketwrap.js:10-17): it is never used.
- The decoders `v1_decode` and `v2_decode` and the signature bytes belong to the
  parser package. They are parameters here, their internals are not
  modelled, and neither are exceptions they might throw.
- The legacy `socket.ondata` re-read after resolving (lib/socketwrap.js:110-115)
  forwards whatever `read` returns, so it is not modelled.
- Socket I/O is a queue of chunks. `read` returns one queued chunk, where Node
  may merge several buffered chunks into one. Because the handler only
  concatenates, merging changes which buffers the checks see but not the bytes.
- Destroying a socket is a flag: discarding buffered data, closing, timeouts
  and TLS are not modelled.
- The listener machinery (`socket.on`, `removeListener`) is the `listening`
  flag, and the promise is the `Outcome` field. A resolve or reject on a
  settled promise has no effect.
- `destroy(error)` is only ever called with a message string in this file, so
  the `instanceof Error` branch (lib/socketwrap.js:65-69) is reduced to
  building an error from that message.
- This file has no option for permissive handling, for suppressing errors or
  for overriding the remote address: it always rejects a connection that does
  not begin with a well-formed PROXY header.
- `socket.unshift` of an empty remainder: Node ignores a zero-length buffer,
  while `Socket.Unshift` queues an empty chunk. The bytes of the queue, as
  `Flatten` joins them, are the same either way, and the whole-event lemmas are
  stated on those bytes.
- `ChunkedV1Header` and `ChunkedV1AcrossEvents` cover two delivery patterns:
  every chunk queued before one event, and one chunk per event. Other
  interleavings of arrivals and events are covered by the byte and coherence
  lemmas (`RunLosesNoByte`, `RunKeepsCoherent`), not by a statement about the
  decoded header.
- A 'readable' event is taken to reach the handler only while the socket is
  not destroyed (`Event`), as a destroyed Node stream emits no further 'readable'.
- The whole-event lemmas (`ReadsUpToFirstVerdict`, `LosesNoByte`,
  `KeepsCoherent`) are stated for an event that finds the promise pending and
  the listener attached. That is the only state in which the source's handler
  runs, because a settled connection has removed its listener or destroyed its
  socket; `EventKeepsCoherent` and `RunKeepsCoherent` cover the events that
  reach a settled connection.
