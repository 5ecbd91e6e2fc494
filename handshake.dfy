/**
 * The state machine of `socketwrap`'s `onReadable` handler and its `destroy`
 * helper, as functions over one value holding everything the handler reads or
 * changes: the closure variables `buf` and `protocolError`, whether the
 * 'readable' listener is attached, the state of the returned promise, and the
 * socket's unread chunks and destroyed flag.
 */
module Handshake {
  import opened Wrappers
  import opened Header

  const NonProxyMessage: string := "non-PROXY protocol connection"
  const MalformedMessage: string := "PROXY protocol malformed header"
  const TooLongMessage: string := "PROXY header too long"

  /** The largest buffer that may still wait for the end of a header. */
  const MaxHeaderLength: nat := 107

  /** The promise returned by `socketwrap`; it settles at most once. */
  datatype Outcome = Pending | Resolved(info: ProxyInfo) | Rejected(message: string, header: string)

  datatype Connection = Connection(
    buf: seq<byte>,
    protocolError: bool,
    listening: bool,
    outcome: Outcome,
    pending: seq<seq<byte>>,
    destroyed: bool)

  /** What the handler does with the buffer after one append. */
  datatype Step = Wait | Resolve(info: ProxyInfo, rest: seq<byte>) | Reject(message: string, detached: bool)

  /** The chunks of a queue, joined in order. */
  function Flatten(chunks: seq<seq<byte>>): seq<byte>
  {
    if chunks == [] then [] else chunks[0] + Flatten(chunks[1..])
  }

  /**
   * `buf.toString('ascii')`: Node clears the high bit of every byte and reads
   * the result as Latin-1, so the string has one character per byte.
   */
  function Ascii(buf: seq<byte>): (s: string)
    ensures |s| == |buf|
    ensures forall i :: 0 <= i < |buf| ==> s[i] as int == buf[i] % 128
  {
    seq(|buf|, i requires 0 <= i < |buf| => (buf[i] % 128) as char)
  }

  /**
   * The checks the loop body runs, in the source's order, on the buffer it has
   * just extended: the non-PROXY sniff, then `isHeaderCompleted` (with the
   * `protocolError` disjunct), the malformed test, and last the size cap.
   */
  function Verdict(buf: seq<byte>, protocolError: bool, lib: ProxyLib): (r: Step)
    ensures r.Wait? ==> |buf| <= MaxHeaderLength
    ensures r.Resolve? ==> r.info.remotePort.Finite? && |r.rest| <= |buf| && r.rest == buf[|buf| - |r.rest|..]
    ensures r.Reject? ==>
      && r.message in {NonProxyMessage, MalformedMessage, TooLongMessage}
      && (r.detached <==> r.message == MalformedMessage)
  {
    if NotProxy(buf, lib) then
      Reject(NonProxyMessage, false)
    else
      var located := IsHeaderCompleted(buf, lib);
      if located.completed || protocolError then
        // the listener is removed before the decoded info is examined
        if located.info.None? || located.info.value.remotePort.NotANumber? then
          Reject(MalformedMessage, true)
        else
          Resolve(located.info.value, located.rest)
      else if |buf| > MaxHeaderLength then
        Reject(TooLongMessage, false)
      else
        Wait
  }

  /**
   * `destroy(message)`: the error carries the buffer as ASCII, the error flag
   * is set, the socket is destroyed and the promise is rejected, which has no
   * effect on a promise that has already settled.
   */
  function AfterDestroy(c: Connection, message: string): (r: Connection)
    ensures r.protocolError && r.destroyed
    ensures r.buf == c.buf && r.listening == c.listening && r.pending == c.pending
    ensures c.outcome.Pending? ==> r.outcome == Rejected(message, Ascii(c.buf))
    ensures !c.outcome.Pending? ==> r.outcome == c.outcome
  {
    c.(protocolError := true, destroyed := true,
       outcome := if c.outcome.Pending? then Rejected(message, Ascii(c.buf)) else c.outcome)
  }

  /**
   * The `while (chunk !== null)` loop of `onReadable`, for a given check of the
   * extended buffer: append the next unread chunk and stop at the first step
   * other than `Wait`. A read that finds nothing changes nothing, whether or
   * not `buf` is empty.
   */
  function Drain(c: Connection, check: (seq<byte>, bool) -> Step): (r: Connection)
    ensures c.buf <= r.buf
    ensures !c.outcome.Pending? ==> r.outcome == c.outcome
    decreases |c.pending|
  {
    if c.pending == [] then c
    else
      var next := c.(buf := c.buf + c.pending[0], pending := c.pending[1..]);
      var step := check(next.buf, c.protocolError);
      if step.Wait? then Drain(next, check) else Settle(next, step)
  }

  /**
   * What the loop body does once the checks of the buffer it has just extended
   * have given `step`: keep the state, unshift the remainder and resolve (the
   * listener is removed first), or destroy the connection.
   */
  function Settle(next: Connection, step: Step): (r: Connection)
    ensures r.buf == next.buf
    ensures step.Wait? ==> r == next
    ensures next.outcome.Pending? && !step.Wait? ==> !r.outcome.Pending?
    ensures !next.outcome.Pending? ==> r.outcome == next.outcome
  {
    match step
    case Wait => next
    case Resolve(info, rest) =>
      next.(listening := false, pending := [rest] + next.pending,
            outcome := if next.outcome.Pending? then Resolved(info) else next.outcome)
    case Reject(message, detached) =>
      AfterDestroy(next.(listening := next.listening && !detached), message)
  }

  /** The checks of this file, as the function the loop applies. */
  function SourceChecks(lib: ProxyLib): (seq<byte>, bool) -> Step
  {
    (buf: seq<byte>, protocolError: bool) => Verdict(buf, protocolError, lib)
  }

  /** One 'readable' event. */
  function HandleReadable(c: Connection, lib: ProxyLib): (r: Connection)
    ensures c.buf <= r.buf
    ensures !c.outcome.Pending? ==> r.outcome == c.outcome
  {
    Drain(c, SourceChecks(lib))
  }

  /** The sniff of the loop body: at least twelve bytes that start with neither prefix. */
  predicate NotProxy(buf: seq<byte>, lib: ProxyLib): (b: bool)
    ensures b ==> |buf| >= 12 && !IsHeaderCompleted(buf, lib).completed
  {
    |buf| >= SniffLength(lib.sigBytes) && !StartsWith(buf, V1Tag) && !StartsWith(buf, lib.sigBytes)
  }

  /** An event whose first unread chunk is `x` makes one pass over it and goes on only when told to wait. */
  lemma PassThenRest(c: Connection, lib: ProxyLib, x: seq<byte>)
    ensures var next := c.(buf := c.buf + x);
      var step := Verdict(next.buf, c.protocolError, lib);
      HandleReadable(c.(pending := [x] + c.pending), lib) ==
        if step.Wait? then HandleReadable(next, lib) else Settle(next, step)
  {
    assert ([x] + c.pending)[1..] == c.pending;
  }

  /** A read that finds nothing, whether or not bytes are buffered, changes nothing. */
  lemma NothingToRead(c: Connection, lib: ProxyLib)
    requires c.pending == []
    ensures HandleReadable(c, lib) == c
  {
  }

  /** The chunks still unread after an event: what `unshift` put in front is not among them. */
  function Unread(r: Connection): seq<seq<byte>>
  {
    if r.outcome.Resolved? && r.pending != [] then r.pending[1..] else r.pending
  }

  /**
   * The relations between the flags that every reachable connection keeps: the
   * handler is attached to a live socket exactly while the promise is pending;
   * the error flag, the destroyed socket and a rejection go together; a
   * resolution carries a numeric port; a rejection carries the buffer as ASCII
   * and one of the three messages, and only the malformed-header rejection
   * removes the listener.
   */
  predicate Coherent(c: Connection)
  {
    && (c.outcome.Pending? <==> c.listening && !c.destroyed)
    && (c.protocolError <==> c.destroyed)
    && (c.destroyed <==> c.outcome.Rejected?)
    && (c.outcome.Resolved? ==> c.outcome.info.remotePort.Finite?)
    && (c.outcome.Rejected? ==>
          && c.outcome.header == Ascii(c.buf)
          && c.outcome.message in {NonProxyMessage, MalformedMessage, TooLongMessage}
          && (c.outcome.message == MalformedMessage <==> !c.listening))
  }

  /** The state right after `socketwrap(socket)`: empty buffer, listener attached, promise pending. */
  function Initial(pending: seq<seq<byte>>): (c: Connection)
    ensures Coherent(c) && c.outcome.Pending?
  {
    Connection([], false, true, Pending, pending, false)
  }

  // ----- The checks after one append -----

  /**
   * A buffer is rejected as non-PROXY exactly when it holds at least twelve
   * bytes and starts with neither "PROXY" nor the signature; in particular a
   * shorter buffer never is.
   */
  lemma NonProxyRejection(buf: seq<byte>, lib: ProxyLib)
    ensures Verdict(buf, false, lib) == Reject(NonProxyMessage, false) <==>
      |buf| >= 12 && !StartsWith(buf, V1Tag) && !StartsWith(buf, lib.sigBytes)
    ensures |buf| < 12 ==> Verdict(buf, false, lib).Reject? ==> Verdict(buf, false, lib).message != NonProxyMessage
  {
  }

  /**
   * The size cap fires exactly on a buffer of more than 107 bytes that starts
   * with "PROXY" and holds no carriage return, so a completed header is never
   * rejected as too long.
   */
  lemma SizeCap(buf: seq<byte>, lib: ProxyLib)
    ensures Verdict(buf, false, lib) == Reject(TooLongMessage, false) <==>
      StartsWith(buf, V1Tag) && CR !in buf && |buf| > MaxHeaderLength
    ensures IsHeaderCompleted(buf, lib).completed ==> Verdict(buf, false, lib) != Reject(TooLongMessage, false)
  {
  }

  /**
   * The handler waits for more data exactly on a buffer of at most 107 bytes
   * that is a "PROXY" line without its carriage return, or is shorter than
   * twelve bytes and starts with neither prefix.
   */
  lemma Waiting(buf: seq<byte>, lib: ProxyLib)
    ensures Verdict(buf, false, lib) == Wait <==>
      |buf| <= MaxHeaderLength && (if StartsWith(buf, V1Tag) then CR !in buf else |buf| < 12)
  {
    if |buf| < 12 && !StartsWith(buf, V1Tag) {
      assert !StartsWith(buf, lib.sigBytes);
    }
  }

  /**
   * A header that passed the sniff and completed is rejected as malformed
   * exactly when the decoder gave nothing or a port that is not a number, and
   * that rejection also detaches the listener.
   */
  lemma MalformedHeader(buf: seq<byte>, lib: ProxyLib)
    ensures var located := IsHeaderCompleted(buf, lib);
      Verdict(buf, false, lib) == Reject(MalformedMessage, true) <==>
        && (|buf| < 12 || StartsWith(buf, V1Tag) || StartsWith(buf, lib.sigBytes))
        && located.completed
        && (located.info.None? || located.info.value.remotePort.NotANumber?)
  {
  }

  /** The header is accepted exactly when it passed the sniff, completed and decoded to a numeric port. */
  lemma Acceptance(buf: seq<byte>, lib: ProxyLib, info: ProxyInfo, rest: seq<byte>)
    ensures var located := IsHeaderCompleted(buf, lib);
      Verdict(buf, false, lib) == Resolve(info, rest) <==>
        && (|buf| < 12 || StartsWith(buf, V1Tag) || StartsWith(buf, lib.sigBytes))
        && located == Located(true, Some(info), rest)
        && info.remotePort.Finite?
  {
  }

  // ----- Whole events -----

  lemma {:induction false} FlattenAppend(a: seq<seq<byte>>, b: seq<seq<byte>>)
    ensures Flatten(a + b) == Flatten(a) + Flatten(b)
  {
    if a == [] {
      assert a + b == b;
    } else {
      assert (a + b)[0] == a[0];
      assert (a + b)[1..] == a[1..] + b;
      FlattenAppend(a[1..], b);
    }
  }

  lemma FlattenSingle(x: seq<byte>)
    ensures Flatten([x]) == x
  {
    assert [x][1..] == [];
  }

  lemma FlattenPrefix(s: seq<seq<byte>>, j: nat)
    requires 0 < j <= |s|
    ensures Flatten(s[..j]) == s[0] + Flatten(s[1..][..j - 1])
  {
    assert s[..j][1..] == s[1..][..j - 1];
  }

  /**
   * After an event that turned `c` into `r`: the handler read some number k of
   * chunks, in order; the buffer grew by exactly those chunks and the chunks
   * after them are still unread; `check` said `Wait` on every buffer before the
   * k-th one, and what `r` reports is what it said on the k-th. The handler
   * keeps waiting only once it has read every chunk.
   */
  ghost predicate ReadUpToFirstStep(c: Connection, r: Connection, check: (seq<byte>, bool) -> Step)
  {
    var k := |c.pending| - |Unread(r)|;
    && 0 <= k <= |c.pending|
    && Unread(r) == c.pending[k..]
    && r.buf == c.buf + Flatten(c.pending[..k])
    && (forall j :: 0 < j < k ==> check(c.buf + Flatten(c.pending[..j]), false) == Wait)
    && (r.outcome.Pending? ==> k == |c.pending| && r.pending == [])
    && (!r.outcome.Pending? ==> k > 0)
    && (k > 0 ==> check(r.buf, false) == Reported(r))
  }

  /**
   * The step a connection's state reports: waiting while the promise is
   * pending, the resolution with the chunk put back in front of the queue, or
   * the rejection together with whether the listener was removed.
   */
  function Reported(r: Connection): Step
  {
    match r.outcome
    case Pending => Wait
    case Resolved(info) => Resolve(info, if r.pending == [] then [] else r.pending[0])
    case Rejected(message, _) => Reject(message, !r.listening)
  }

  /** The loop, whatever the check, reads up to the first step that is not `Wait`. */
  lemma {:induction false} DrainReadsUpToFirstStep(c: Connection, check: (seq<byte>, bool) -> Step)
    requires c.outcome.Pending? && c.listening && !c.protocolError
    ensures ReadUpToFirstStep(c, Drain(c, check), check)
    decreases |c.pending|
  {
    if c.pending != [] {
      var next := c.(buf := c.buf + c.pending[0], pending := c.pending[1..]);
      if check(next.buf, false) == Wait {
        DrainReadsUpToFirstStep(next, check);
        assert Drain(c, check) == Drain(next, check);
        ExtendWait(c, Drain(next, check), check);
      } else {
        SettleReadsOne(c, check);
      }
    }
  }

  /** A first chunk on which the check does not wait is the one chunk the event reads. */
  lemma SettleReadsOne(c: Connection, check: (seq<byte>, bool) -> Step)
    requires c.pending != [] && c.outcome.Pending? && c.listening && !c.protocolError
    requires !check(c.buf + c.pending[0], false).Wait?
    ensures ReadUpToFirstStep(c, Drain(c, check), check)
  {
    var next := c.(buf := c.buf + c.pending[0], pending := c.pending[1..]);
    var step := check(next.buf, false);
    assert Drain(c, check) == Settle(next, step);
    SettleReports(next, step);
    assert Flatten(c.pending[..1]) == c.pending[0] by {
      assert c.pending[..1][1..] == [];
    }
    assert c.pending[1..] == c.pending[|c.pending| - |next.pending|..];
  }

  /** Settling an attached, pending connection reports the step and leaves the buffer and the unread chunks alone. */
  lemma SettleReports(next: Connection, step: Step)
    requires next.outcome.Pending? && next.listening && !step.Wait?
    ensures var r := Settle(next, step);
      && r.buf == next.buf && !r.outcome.Pending?
      && Unread(r) == next.pending && Reported(r) == step
  {
    if step.Resolve? {
      assert ([step.rest] + next.pending)[1..] == next.pending;
    }
  }

  /** A waiting first chunk adds itself in front of whatever the rest of the event read. */
  lemma ExtendWait(c: Connection, r: Connection, check: (seq<byte>, bool) -> Step)
    requires c.pending != []
    requires check(c.buf + c.pending[0], false) == Wait
    requires ReadUpToFirstStep(c.(buf := c.buf + c.pending[0], pending := c.pending[1..]), r, check)
    ensures ReadUpToFirstStep(c, r, check)
  {
    var next := c.(buf := c.buf + c.pending[0], pending := c.pending[1..]);
    var k := |c.pending| - |Unread(r)|;
    assert c.pending[1..][k - 1..] == c.pending[k..];
    FlattenPrefix(c.pending, k);
    assert next.pending[..k - 1] == c.pending[1..][..k - 1];
    forall j | 0 < j < k
      ensures check(c.buf + Flatten(c.pending[..j]), false) == Wait
    {
      WaitAfterFirst(c, j, check);
    }
    if k == 1 {
      assert next.pending[..0] == [];
      assert r.outcome.Pending? && r.buf == next.buf;
    }
  }

  /** A wait on the first `j` chunks is a wait on the first `j - 1` after reading one. */
  lemma WaitAfterFirst(c: Connection, j: nat, check: (seq<byte>, bool) -> Step)
    requires 0 < j <= |c.pending|
    requires j == 1 ==> check(c.buf + c.pending[0], false) == Wait
    requires j > 1 ==> check(c.buf + c.pending[0] + Flatten(c.pending[1..][..j - 1]), false) == Wait
    ensures check(c.buf + Flatten(c.pending[..j]), false) == Wait
  {
    FlattenPrefix(c.pending, j);
    if j == 1 {
      assert c.pending[1..][..0] == [];
      assert c.buf + Flatten(c.pending[..j]) == c.buf + c.pending[0];
    } else {
      assert c.buf + Flatten(c.pending[..j]) == c.buf + c.pending[0] + Flatten(c.pending[1..][..j - 1]);
    }
  }

  /**
   * Every event on an attached, pending connection reads up to the first
   * buffer on which the checks of this file do not wait: in particular the
   * size cap and the non-PROXY test apply to every intermediate buffer.
   */
  lemma ReadsUpToFirstVerdict(c: Connection, lib: ProxyLib)
    requires c.outcome.Pending? && c.listening && !c.protocolError
    ensures ReadUpToFirstStep(c, HandleReadable(c, lib), SourceChecks(lib))
  {
    DrainReadsUpToFirstStep(c, SourceChecks(lib));
  }

  /** The loop, whatever the check, keeps every byte it reads in the buffer and leaves the rest queued. */
  lemma DrainLosesNoByte(c: Connection, check: (seq<byte>, bool) -> Step)
    requires c.outcome.Pending? && c.listening && !c.protocolError
    ensures var r := Drain(c, check);
      && c.buf + Flatten(c.pending) == r.buf + Flatten(Unread(r))
      && (!r.outcome.Pending? ==> check(r.buf, false) == Reported(r))
      && (r.outcome.Resolved? ==> r.pending != [] && r.pending == [r.pending[0]] + Unread(r))
  {
    var r := Drain(c, check);
    DrainReadsUpToFirstStep(c, check);
    ReadConserves(c, r, check);
    DrainResolvedUnshifts(c, check);
    if r.outcome.Resolved? {
      assert r.pending == [r.pending[0]] + r.pending[1..];
    }
  }

  /** Reading up to the first step keeps every byte, in order, between the buffer and the unread chunks. */
  lemma ReadConserves(c: Connection, r: Connection, check: (seq<byte>, bool) -> Step)
    requires ReadUpToFirstStep(c, r, check)
    ensures c.buf + Flatten(c.pending) == r.buf + Flatten(Unread(r))
    ensures !r.outcome.Pending? ==> check(r.buf, false) == Reported(r)
  {
    var k := |c.pending| - |Unread(r)|;
    assert c.pending == c.pending[..k] + c.pending[k..];
    FlattenAppend(c.pending[..k], c.pending[k..]);
  }

  /** A resolution always puts one chunk, the remainder, in front of the queue. */
  lemma {:induction false} DrainResolvedUnshifts(c: Connection, check: (seq<byte>, bool) -> Step)
    requires c.outcome.Pending?
    ensures Drain(c, check).outcome.Resolved? ==> Drain(c, check).pending != []
    decreases |c.pending|
  {
    if c.pending != [] {
      var next := c.(buf := c.buf + c.pending[0], pending := c.pending[1..]);
      if check(next.buf, c.protocolError) == Wait {
        DrainResolvedUnshifts(next, check);
      }
    }
  }

  /**
   * No byte is lost or repeated: what was buffered and queued before an event
   * is what is buffered and still unread after it; on success the remainder
   * put back in front of the unread chunks is a tail of the buffer.
   */
  lemma LosesNoByte(c: Connection, lib: ProxyLib)
    requires c.outcome.Pending? && c.listening && !c.protocolError
    ensures var r := HandleReadable(c, lib);
      && c.buf + Flatten(c.pending) == r.buf + Flatten(Unread(r))
      && (r.outcome.Resolved? ==>
            && r.pending != [] && |r.pending[0]| <= |r.buf|
            && r.pending == [r.pending[0]] + Unread(r)
            && r.pending[0] == r.buf[|r.buf| - |r.pending[0]|..])
  {
    var r := HandleReadable(c, lib);
    DrainLosesNoByte(c, SourceChecks(lib));
    if r.outcome.Resolved? {
      ReportedRestIsTail(r, lib);
    }
  }

  /** The remainder a resolution reports is a tail of the buffer it was found in. */
  lemma ReportedRestIsTail(r: Connection, lib: ProxyLib)
    requires r.outcome.Resolved? && r.pending != []
    requires SourceChecks(lib)(r.buf, false) == Reported(r)
    ensures |r.pending[0]| <= |r.buf| && r.pending[0] == r.buf[|r.buf| - |r.pending[0]|..]
  {
    assert Verdict(r.buf, false, lib) == Resolve(r.outcome.info, r.pending[0]);
  }

  /**
   * An event delivered to a pending connection leaves it coherent, so once the
   * promise has settled the handler is detached or the socket destroyed, and
   * the promise is never settled a second time.
   */
  lemma {:induction false} KeepsCoherent(c: Connection, lib: ProxyLib)
    requires Coherent(c) && c.outcome.Pending?
    ensures Coherent(HandleReadable(c, lib))
    decreases |c.pending|
  {
    if c.pending != [] {
      var next := c.(buf := c.buf + c.pending[0], pending := c.pending[1..]);
      if Verdict(next.buf, c.protocolError, lib) == Wait {
        KeepsCoherent(next, lib);
      }
    }
  }

  /**
   * A 'readable' event as the socket delivers it: a destroyed stream emits
   * none, and the handler runs only while it is attached.
   */
  function Event(c: Connection, lib: ProxyLib): (r: Connection)
    ensures c.buf <= r.buf
    ensures !c.outcome.Pending? ==> r.outcome == c.outcome
    ensures c.destroyed ==> r == c
  {
    if c.listening && !c.destroyed then HandleReadable(c, lib) else c
  }

  /** What can happen to a connection: data arrives from the peer, or the socket emits 'readable'. */
  datatype Happening = Arrival(chunk: seq<byte>) | Readable

  /** The connection after a sequence of arrivals and events, in order. */
  function Run(c: Connection, hs: seq<Happening>, lib: ProxyLib): (r: Connection)
    ensures c.buf <= r.buf
    ensures !c.outcome.Pending? ==> r.outcome == c.outcome
    decreases |hs|
  {
    if hs == [] then c else Run(Happen(c, hs[0], lib), hs[1..], lib)
  }

  /** One happening: an arriving chunk is queued behind the unread ones, and 'readable' is an `Event`. */
  function Happen(c: Connection, h: Happening, lib: ProxyLib): Connection
  {
    match h
    case Arrival(chunk) => c.(pending := c.pending + [chunk])
    case Readable => Event(c, lib)
  }

  /**
   * Every event keeps a coherent connection coherent, and an event on a
   * connection whose promise has settled changes nothing at all.
   */
  lemma EventKeepsCoherent(c: Connection, lib: ProxyLib)
    requires Coherent(c)
    ensures Coherent(Event(c, lib))
    ensures !c.outcome.Pending? ==> Event(c, lib) == c
  {
    if c.outcome.Pending? {
      KeepsCoherent(c, lib);
    }
  }

  /**
   * Whatever arrives and whenever 'readable' fires, a coherent connection
   * stays coherent; once the promise has settled it never settles again and
   * no byte is added to the buffer.
   */
  lemma {:induction false} RunKeepsCoherent(c: Connection, hs: seq<Happening>, lib: ProxyLib)
    requires Coherent(c)
    ensures Coherent(Run(c, hs, lib))
    ensures !c.outcome.Pending? ==> Run(c, hs, lib).outcome == c.outcome && Run(c, hs, lib).buf == c.buf
    decreases |hs|
  {
    if hs != [] {
      EventKeepsCoherent(c, lib);
      RunKeepsCoherent(Happen(c, hs[0], lib), hs[1..], lib);
    }
  }

  lemma {:induction false} RunAppend(c: Connection, hs: seq<Happening>, more: seq<Happening>, lib: ProxyLib)
    ensures Run(c, hs + more, lib) == Run(Run(c, hs, lib), more, lib)
    decreases |hs|
  {
    if hs == [] {
      assert hs + more == more;
    } else {
      assert (hs + more)[0] == hs[0];
      assert (hs + more)[1..] == hs[1..] + more;
      RunAppend(Happen(c, hs[0], lib), hs[1..], more, lib);
    }
  }

  /**
   * The promise settles once: from a fresh socket, if it has settled after
   * the first `j` happenings, every later happening leaves that outcome and
   * the buffer it was settled on as they are.
   */
  lemma SettlesOnce(pending: seq<seq<byte>>, hs: seq<Happening>, j: nat, lib: ProxyLib)
    requires j <= |hs|
    requires !Run(Initial(pending), hs[..j], lib).outcome.Pending?
    ensures var settled := Run(Initial(pending), hs[..j], lib);
      && Run(Initial(pending), hs, lib).outcome == settled.outcome
      && Run(Initial(pending), hs, lib).buf == settled.buf
  {
    assert hs == hs[..j] + hs[j..];
    RunAppend(Initial(pending), hs[..j], hs[j..], lib);
    RunKeepsCoherent(Initial(pending), hs[..j], lib);
    RunKeepsCoherent(Run(Initial(pending), hs[..j], lib), hs[j..], lib);
  }

  /** The chunks that arrive during a run, in order. */
  function Arrived(hs: seq<Happening>): seq<seq<byte>>
    decreases |hs|
  {
    if hs == [] then []
    else (if hs[0].Arrival? then [hs[0].chunk] else []) + Arrived(hs[1..])
  }

  /** What a connection holds: its buffer followed by the chunks still unread. */
  function Held(c: Connection): seq<byte>
  {
    c.buf + Flatten(Unread(c))
  }

  /** An arrival adds its chunk behind everything still unread, including behind an unshifted remainder. */
  lemma ArrivalKeepsBytes(c: Connection, chunk: seq<byte>)
    requires c.outcome.Resolved? ==> c.pending != []
    ensures var n := c.(pending := c.pending + [chunk]);
      n.buf + Flatten(Unread(n)) == c.buf + Flatten(Unread(c)) + chunk
  {
    var n := c.(pending := c.pending + [chunk]);
    assert Unread(n) == Unread(c) + [chunk];
    FlattenAppend(Unread(c), [chunk]);
    FlattenSingle(chunk);
  }

  /** An event moves bytes from the unread chunks into the buffer, and a resolution keeps its remainder queued. */
  lemma EventKeepsBytes(c: Connection, lib: ProxyLib)
    requires Coherent(c) && (c.outcome.Resolved? ==> c.pending != [])
    ensures var r := Event(c, lib);
      && r.buf + Flatten(Unread(r)) == c.buf + Flatten(Unread(c))
      && (r.outcome.Resolved? ==> r.pending != [])
  {
    EventKeepsCoherent(c, lib);
    if c.outcome.Pending? {
      LosesNoByte(c, lib);
    }
  }

  /**
   * Across any run, what the connection has buffered followed by what is
   * still unread is what it held before followed by every chunk that arrived.
   */
  lemma {:induction false} RunKeepsBytes(c: Connection, hs: seq<Happening>, lib: ProxyLib)
    requires Coherent(c) && (c.outcome.Resolved? ==> c.pending != [])
    ensures var r := Run(c, hs, lib);
      && Held(r) == Held(c) + Flatten(Arrived(hs))
      && (r.outcome.Resolved? ==> r.pending != [])
    decreases |hs|
  {
    if hs == [] {
      assert Held(c) + [] == Held(c);
    } else {
      var n := Happen(c, hs[0], lib);
      var x := if hs[0].Arrival? then hs[0].chunk else [];
      HappenKeepsBytes(c, hs[0], lib);
      RunKeepsBytes(n, hs[1..], lib);
      ArrivedFirst(hs);
      assert Run(c, hs, lib) == Run(n, hs[1..], lib);
      ConcatChain(Held(c), Held(n), Held(Run(n, hs[1..], lib)), x, Flatten(Arrived(hs[1..])), Flatten(Arrived(hs)));
    }
  }

  lemma ConcatChain(a: seq<byte>, b: seq<byte>, c: seq<byte>, x: seq<byte>, y: seq<byte>, xy: seq<byte>)
    requires b == a + x && c == b + y && xy == x + y
    ensures c == a + xy
  {
  }

  lemma ArrivedFirst(hs: seq<Happening>)
    requires hs != []
    ensures Flatten(Arrived(hs)) == (if hs[0].Arrival? then hs[0].chunk else []) + Flatten(Arrived(hs[1..]))
  {
    var first: seq<seq<byte>> := if hs[0].Arrival? then [hs[0].chunk] else [];
    FlattenAppend(first, Arrived(hs[1..]));
    if hs[0].Arrival? {
      FlattenSingle(hs[0].chunk);
    }
  }

  /** One happening keeps the bytes of a coherent connection, adding an arriving chunk at the end. */
  lemma HappenKeepsBytes(c: Connection, h: Happening, lib: ProxyLib)
    requires Coherent(c) && (c.outcome.Resolved? ==> c.pending != [])
    ensures var n := Happen(c, h, lib);
      && Coherent(n)
      && Held(n) == Held(c) + (if h.Arrival? then h.chunk else [])
      && (n.outcome.Resolved? ==> n.pending != [])
  {
    EventKeepsCoherent(c, lib);
    if h.Arrival? {
      ArrivalKeepsBytes(c, h.chunk);
    } else {
      EventKeepsBytes(c, lib);
      assert Held(c) + [] == Held(c);
    }
  }

  /**
   * No byte is lost or reordered across events: from a fresh socket, the
   * buffer followed by the unread chunks is exactly the bytes that were
   * queued and then arrived, so the buffer is always a prefix of them.
   */
  lemma RunLosesNoByte(pending: seq<seq<byte>>, hs: seq<Happening>, lib: ProxyLib)
    ensures var r := Run(Initial(pending), hs, lib);
      && r.buf + Flatten(Unread(r)) == Flatten(pending) + Flatten(Arrived(hs))
      && r.buf <= Flatten(pending) + Flatten(Arrived(hs))
  {
    RunKeepsBytes(Initial(pending), hs, lib);
    assert Held(Initial(pending)) == Flatten(pending);
  }

  /** Each chunk arrives on its own and is followed by a 'readable' event. */
  function Deliver(chunks: seq<seq<byte>>): seq<Happening>
    decreases |chunks|
  {
    if chunks == [] then [] else [Arrival(chunks[0]), Readable] + Deliver(chunks[1..])
  }

  lemma RunDeliverStep(c: Connection, x: seq<byte>, rest: seq<seq<byte>>, lib: ProxyLib)
    ensures Run(c, Deliver([x] + rest), lib) == Run(Event(c.(pending := c.pending + [x]), lib), Deliver(rest), lib)
  {
    assert ([x] + rest)[0] == x && ([x] + rest)[1..] == rest;
    var hs := Deliver([x] + rest);
    assert hs[0] == Arrival(x);
    assert hs[1..] == [Readable] + Deliver(rest);
    assert hs[1..][1..] == Deliver(rest);
  }

  /** Settling and then queueing more chunks is settling with them already queued. */
  lemma SettleAppend(next: Connection, step: Step, more: seq<seq<byte>>)
    ensures Settle(next.(pending := next.pending + more), step) ==
      Settle(next, step).(pending := Settle(next, step).pending + more)
  {
    if step.Resolve? {
      assert [step.rest] + (next.pending + more) == ([step.rest] + next.pending) + more;
    }
  }

  /** Once the promise has settled, arriving chunks only queue up and events change nothing. */
  lemma {:induction false} SettledDeliver(c: Connection, chunks: seq<seq<byte>>, lib: ProxyLib)
    requires Coherent(c) && !c.outcome.Pending?
    ensures Run(c, Deliver(chunks), lib) == c.(pending := c.pending + chunks)
    decreases |chunks|
  {
    if chunks == [] {
      assert c.pending + chunks == c.pending;
    } else {
      var x, rest := chunks[0], chunks[1..];
      assert chunks == [x] + rest;
      RunDeliverStep(c, x, rest, lib);
      var next := c.(pending := c.pending + [x]);
      EventKeepsCoherent(next, lib);
      SettledDeliver(next, rest, lib);
      assert c.pending + [x] + rest == c.pending + chunks;
    }
  }

  /**
   * Delivering chunks one per 'readable' event ends in the same state as one
   * event that finds them all queued: the connection reads on while it
   * waits, and once settled the later chunks stay unread in the same order.
   */
  lemma {:induction false} DeliverOneByOne(c: Connection, chunks: seq<seq<byte>>, lib: ProxyLib)
    requires Coherent(c) && c.outcome.Pending? && c.pending == []
    ensures Run(c, Deliver(chunks), lib) == HandleReadable(c.(pending := chunks), lib)
    decreases |chunks|
  {
    if chunks == [] {
      NothingToRead(c, lib);
      assert c.(pending := chunks) == c;
    } else {
      var x, rest := chunks[0], chunks[1..];
      assert chunks == [x] + rest;
      RunDeliverStep(c, x, rest, lib);
      assert c.pending + [x] == [x] + c.pending;
      var step := Verdict(c.buf + x, c.protocolError, lib);
      var grown := c.(buf := c.buf + x);
      PassThenRest(c, lib, x);
      PassThenRest(c.(pending := rest), lib, x);
      assert c.(pending := rest).(pending := [x] + rest) == c.(pending := chunks);
      if step.Wait? {
        NothingToRead(grown, lib);
        DeliverOneByOne(grown, rest, lib);
        assert grown.(pending := rest) == c.(pending := rest).(buf := c.buf + x);
      } else {
        KeepsCoherent(c.(pending := [x] + c.pending), lib);
        SettleReports(grown, step);
        SettledDeliver(Settle(grown, step), rest, lib);
        SettleAppend(grown, step, rest);
        assert grown.(pending := grown.pending + rest) == c.(pending := rest).(buf := c.buf + x);
      }
    }
  }

  /**
   * `ChunkedV1Header` when the chunks arrive one per 'readable' event, which
   * is how a socket hands them over once `read` has returned what was
   * buffered.
   */
  lemma ChunkedV1AcrossEvents(lib: ProxyLib, chunks: seq<seq<byte>>, line: seq<byte>, payload: seq<byte>)
    requires StartsWith(line, V1Tag) && CR !in line && |line| <= MaxHeaderLength
    requires Flatten(chunks) == line + [CR, LF] + payload
    requires !ChunkEndsAt(chunks, |line| + 1)
    ensures var r := Run(Initial([]), Deliver(chunks), lib);
      var decoded := lib.v1Decode(line);
      && (r.outcome.Resolved? <==> decoded.Some? && decoded.value.remotePort.Finite?)
      && (r.outcome.Resolved? ==> r.outcome.info == decoded.value && Flatten(r.pending) == payload)
      && (!r.outcome.Resolved? ==> r.outcome.Rejected? && r.outcome.message == MalformedMessage)
  {
    DeliverOneByOne(Initial([]), chunks, lib);
    assert Initial([]).(pending := chunks) == Initial(chunks);
    ChunkedV1Header(lib, chunks, line, payload);
  }

  // ----- Where chunk boundaries matter -----

  /** Some prefix of the chunks, possibly none of them, holds exactly `n` bytes. */
  predicate ChunkEndsAt(chunks: seq<seq<byte>>, n: int)
    decreases |chunks|
  {
    n == 0 || (chunks != [] && ChunkEndsAt(chunks[1..], n - |chunks[0]|))
  }

  lemma {:induction false} ChunkEndsAtPrefix(chunks: seq<seq<byte>>, j: nat)
    requires j <= |chunks|
    ensures ChunkEndsAt(chunks, |Flatten(chunks[..j])|)
    decreases j
  {
    if j == 0 {
      assert chunks[..0] == [];
    } else {
      FlattenPrefix(chunks, j);
      ChunkEndsAtPrefix(chunks[1..], j - 1);
    }
  }

  /**
   * The checks on a prefix `p` of a version 1 line, its CR LF and a payload,
   * when `p` does not end between the CR and the LF: while the line is
   * unfinished the handler waits; once the terminator is in, the header is
   * the line and the rest is what follows the terminator.
   */
  lemma V1Prefix(lib: ProxyLib, line: seq<byte>, payload: seq<byte>, p: seq<byte>)
    requires StartsWith(line, V1Tag) && CR !in line && |line| <= MaxHeaderLength
    requires |p| <= |line| + 2 + |payload| && p == (line + [CR, LF] + payload)[..|p|]
    requires |p| != |line| + 1
    ensures |p| <= |line| ==> Verdict(p, false, lib) == Wait
    ensures |p| > |line| ==>
      && |p| >= |line| + 2 && !NotProxy(p, lib)
      && IsHeaderCompleted(p, lib) == Located(true, lib.v1Decode(line), p[|line| + 2..])
  {
    if |p| <= |line| {
      assert p == line[..|p|];
      UnfinishedLineWaits(lib, line, p);
    } else {
      assert p[..|line|] == line && p[|line|] == CR;
      FinishedLineCompletes(lib, line, p);
    }
  }

  /** A buffer holding a "PROXY" line and its carriage return is complete on that line. */
  lemma FinishedLineCompletes(lib: ProxyLib, line: seq<byte>, p: seq<byte>)
    requires StartsWith(line, V1Tag) && CR !in line
    requires |p| >= |line| + 2 && p[..|line|] == line && p[|line|] == CR
    ensures !NotProxy(p, lib)
    ensures IsHeaderCompleted(p, lib) == Located(true, lib.v1Decode(line), p[|line| + 2..])
  {
    assert p[..5] == line[..5];
    V1Fields(p, lib, |line|);
  }

  /** A prefix of a "PROXY" line without a carriage return is waited on. */
  lemma UnfinishedLineWaits(lib: ProxyLib, line: seq<byte>, p: seq<byte>)
    requires StartsWith(line, V1Tag) && CR !in line && |line| <= MaxHeaderLength
    requires |p| <= |line| && p == line[..|p|]
    ensures Verdict(p, false, lib) == Wait
  {
    if |p| < 5 {
      if p != [] {
        assert p[0] == V1Tag[0] != lib.sigBytes[0];
      }
      NeitherPrefix(p, lib);
    } else {
      assert p[..5] == line[..5];
      assert CR !in p by {
        forall b | b in p ensures b != CR {
          var x :| 0 <= x < |p| && p[x] == b;
          assert line[x] == b;
        }
      }
      V1Incomplete(p, lib);
    }
  }

  /**
   * A version 1 header of at most 107 bytes followed by its CR LF and a
   * payload gives the same result however the bytes are split into the
   * chunks a first 'readable' event finds queued, as long as no chunk ends
   * between the carriage return and the line feed:
   * the promise resolves with what the decoder makes of the line, exactly
   * when that is a numeric port, the application is left exactly the payload,
   * and otherwise the header is rejected as malformed.
   */
  lemma ChunkedV1Header(lib: ProxyLib, chunks: seq<seq<byte>>, line: seq<byte>, payload: seq<byte>)
    requires StartsWith(line, V1Tag) && CR !in line && |line| <= MaxHeaderLength
    requires Flatten(chunks) == line + [CR, LF] + payload
    requires !ChunkEndsAt(chunks, |line| + 1)
    ensures var r := HandleReadable(Initial(chunks), lib);
      var decoded := lib.v1Decode(line);
      && (r.outcome.Resolved? <==> decoded.Some? && decoded.value.remotePort.Finite?)
      && (r.outcome.Resolved? ==> r.outcome.info == decoded.value && Flatten(r.pending) == payload)
      && (!r.outcome.Resolved? ==> r.outcome.Rejected? && r.outcome.message == MalformedMessage)
  {
    FirstEventHoldsPrefix(chunks, lib, |line| + 1);
    ChunkedV1Settles(lib, line, payload, HandleReadable(Initial(chunks), lib));
  }

  /**
   * After the first event on a fresh connection, the buffer holds the chunks
   * read so far, so its length is not `n` when no chunk ends `n` bytes into
   * the stream; the verdict on it is the one reported, and with the unread
   * chunks it makes up the whole stream.
   */
  lemma FirstEventHoldsPrefix(chunks: seq<seq<byte>>, lib: ProxyLib, n: int)
    requires !ChunkEndsAt(chunks, n)
    ensures var r := HandleReadable(Initial(chunks), lib);
      && |r.buf| != n
      && Flatten(chunks) == r.buf + Flatten(Unread(r))
      && (r.outcome.Pending? ==> Unread(r) == [] && r.pending == [])
      && (chunks != [] ==> Verdict(r.buf, false, lib) == Reported(r))
      && (r.outcome.Resolved? ==> r.pending != [] && r.pending == [r.pending[0]] + Unread(r))
  {
    var c := Initial(chunks);
    var r := HandleReadable(c, lib);
    ReadsUpToFirstVerdict(c, lib);
    LosesNoByte(c, lib);
    var k := |chunks| - |Unread(r)|;
    assert r.buf == Flatten(chunks[..k]) by {
      assert c.buf == [];
    }
    ChunkEndsAtPrefix(chunks, k);
    assert SourceChecks(lib)(r.buf, false) == Verdict(r.buf, false, lib);
  }

  /**
   * `ChunkedV1Header` for any result that holds a prefix of the stream in its
   * buffer, reports the verdict on that prefix and keeps the other bytes.
   */
  lemma ChunkedV1Settles(lib: ProxyLib, line: seq<byte>, payload: seq<byte>, r: Connection)
    requires StartsWith(line, V1Tag) && CR !in line && |line| <= MaxHeaderLength
    requires line + [CR, LF] + payload == r.buf + Flatten(Unread(r))
    requires |r.buf| != |line| + 1
    requires r.outcome.Pending? ==> Unread(r) == [] && r.pending == []
    requires Verdict(r.buf, false, lib) == Reported(r)
    requires r.outcome.Resolved? ==> r.pending != [] && r.pending == [r.pending[0]] + Unread(r)
    ensures var decoded := lib.v1Decode(line);
      && (r.outcome.Resolved? <==> decoded.Some? && decoded.value.remotePort.Finite?)
      && (r.outcome.Resolved? ==> r.outcome.info == decoded.value && Flatten(r.pending) == payload)
      && (!r.outcome.Resolved? ==> r.outcome.Rejected? && r.outcome.message == MalformedMessage)
  {
    var whole := line + [CR, LF] + payload;
    assert r.buf == whole[..|r.buf|];
    V1Prefix(lib, line, payload, r.buf);
    if r.outcome.Resolved? {
      assert r.pending[0] == r.buf[|line| + 2..];
      ResolvedLeavesPayload(line, payload, r);
    }
  }

  /** An unshifted remainder that starts right after the terminator leaves exactly the payload queued. */
  lemma ResolvedLeavesPayload(line: seq<byte>, payload: seq<byte>, r: Connection)
    requires |r.buf| >= |line| + 2 && line + [CR, LF] + payload == r.buf + Flatten(Unread(r))
    requires r.pending != [] && r.pending == [r.pending[0]] + Unread(r)
    requires r.pending[0] == r.buf[|line| + 2..]
    ensures Flatten(r.pending) == payload
  {
    var rest := r.pending[0];
    FlattenAppend([rest], Unread(r));
    FlattenSingle(rest);
    assert (line + [CR, LF] + payload)[|line| + 2..] == payload;
    DropAppend(r.buf, Flatten(Unread(r)), |line| + 2);
  }

  /** An event whose first chunk gives a verdict other than `Wait` settles on that chunk alone. */
  lemma DrainStopsOnFirst(c: Connection, check: (seq<byte>, bool) -> Step)
    requires c.pending != [] && c.outcome.Pending? && c.listening
    requires !check(c.buf + c.pending[0], c.protocolError).Wait?
    ensures var r := Drain(c, check);
      && r.buf == c.buf + c.pending[0]
      && Reported(r) == check(c.buf + c.pending[0], c.protocolError)
      && (r.outcome.Resolved? ==> r.pending == [check(r.buf, c.protocolError).rest] + c.pending[1..])
  {
  }

  /** A fresh connection whose first chunk gives a verdict other than `Wait` settles on that chunk. */
  lemma FirstChunkDecides(lib: ProxyLib, first: seq<byte>, later: seq<seq<byte>>)
    requires !Verdict(first, false, lib).Wait?
    ensures var r := HandleReadable(Initial([first] + later), lib);
      && Reported(r) == Verdict(first, false, lib)
      && (r.outcome.Resolved? ==> r.pending == [Verdict(first, false, lib).rest] + later)
  {
    var c := Initial([first] + later);
    assert c.buf + c.pending[0] == first && c.pending[1..] == later;
    DrainStopsOnFirst(c, SourceChecks(lib));
  }

  /** The checks on a "PROXY" line whose first carriage return is at `i`, when it decodes well. */
  lemma V1LineResolves(buf: seq<byte>, lib: ProxyLib, i: nat, info: ProxyInfo)
    requires StartsWith(buf, V1Tag) && i < |buf| && buf[i] == CR && CR !in buf[..i]
    requires lib.v1Decode(buf[..i]) == Some(info) && info.remotePort.Finite?
    ensures Verdict(buf, false, lib) == Resolve(info, if i + 2 <= |buf| then buf[i + 2..] else [])
  {
    V1Complete(buf, lib, i);
  }

  /** The checks on a buffer that starts with the signature and holds the length field. */
  lemma V2Verdict(buf: seq<byte>, lib: ProxyLib)
    requires StartsWith(buf, lib.sigBytes) && |buf| >= 16
    ensures var n := Min(16 + buf[15] as int + 256 * buf[14] as int, |buf|);
      match Verdict(buf, false, lib)
      case Wait => false
      case Resolve(info, rest) => lib.v2Decode(buf[..n]) == Some(info) && rest == buf[n..]
      case Reject(message, _) => message == MalformedMessage
  {
    V2Complete(buf, lib);
  }

  /** A version 1 header line, its CR LF and a payload in one chunk leave exactly the payload. */
  lemma WholeLineLeavesPayload(lib: ProxyLib, line: seq<byte>, payload: seq<byte>, info: ProxyInfo)
    requires StartsWith(line, V1Tag) && CR !in line
    requires lib.v1Decode(line) == Some(info) && info.remotePort.Finite?
    ensures var r := HandleReadable(Initial([line + [CR, LF] + payload]), lib);
      r.outcome == Resolved(info) && r.pending == [payload]
  {
    var i := |line|;
    var one := line + [CR, LF] + payload;
    assert one == line + ([CR, LF] + payload);
    StartsWithAppend(line, [CR, LF] + payload, V1Tag);
    assert one[..i] == line && one[i + 2..] == payload;
    V1LineResolves(one, lib, i, info);
    FirstChunkDecides(lib, one, []);
    assert [one] + [] == [one];
  }

  /** The same line split after its carriage return leaves the line feed in front of the payload. */
  lemma SplitLineLeavesLineFeed(lib: ProxyLib, line: seq<byte>, payload: seq<byte>, info: ProxyInfo)
    requires StartsWith(line, V1Tag) && CR !in line
    requires lib.v1Decode(line) == Some(info) && info.remotePort.Finite?
    ensures var r := HandleReadable(Initial([line + [CR], [LF] + payload]), lib);
      r.outcome == Resolved(info) && r.pending == [[], [LF] + payload]
  {
    var i := |line|;
    var first := line + [CR];
    StartsWithAppend(line, [CR], V1Tag);
    assert first[..i] == line;
    V1LineResolves(first, lib, i, info);
    FirstChunkDecides(lib, first, [[LF] + payload]);
    assert [first] + [[LF] + payload] == [first, [LF] + payload];
  }

  /**
   * A version 1 header line followed by its CR LF and a payload, delivered in
   * one chunk, resolves and leaves exactly the payload for the application.
   * Delivered with the chunk boundary between the carriage return and the line
   * feed, it resolves as soon as the carriage return arrives, and the line
   * feed is left in front of the payload.
   */
  lemma SplitTerminatorLeaksLineFeed(lib: ProxyLib, line: seq<byte>, payload: seq<byte>, info: ProxyInfo)
    requires StartsWith(line, V1Tag) && CR !in line
    requires lib.v1Decode(line) == Some(info) && info.remotePort.Finite?
    ensures var whole := HandleReadable(Initial([line + [CR, LF] + payload]), lib);
      whole.outcome == Resolved(info) && Flatten(whole.pending) == payload
    ensures var split := HandleReadable(Initial([line + [CR], [LF] + payload]), lib);
      split.outcome == Resolved(info) && Flatten(split.pending) == [LF] + payload
  {
    WholeLineLeavesPayload(lib, line, payload, info);
    SplitLineLeavesLineFeed(lib, line, payload, info);
    FlattenSingle(payload);
    FlattenSingle([LF] + payload);
    assert [[], [LF] + payload][1..] == [[LF] + payload];
  }

  /** A version 2 header delivered whole is decoded with its address block. */
  lemma WholeV2Header(lib: ProxyLib, prefix: seq<byte>, block: seq<byte>, payload: seq<byte>)
    requires |prefix| == 16 && StartsWith(prefix, lib.sigBytes)
    requires |block| == prefix[15] as int + 256 * prefix[14] as int
    ensures var r := HandleReadable(Initial([prefix + block + payload]), lib);
      && !r.outcome.Pending?
      && (r.outcome.Resolved? ==> lib.v2Decode(prefix + block) == Some(r.outcome.info) && r.pending == [payload])
  {
    var one := prefix + block + payload;
    assert one == prefix + (block + payload);
    StartsWithAppend(prefix, block + payload, lib.sigBytes);
    assert one[14] == prefix[14] && one[15] == prefix[15];
    V2Verdict(one, lib);
    assert one[..16 + |block|] == prefix + block && one[16 + |block|..] == payload;
    FirstChunkDecides(lib, one, []);
    assert [one] + [] == [one];
  }

  /** A version 2 header whose address block comes in a later chunk is decoded without it. */
  lemma SplitV2Header(lib: ProxyLib, prefix: seq<byte>, later: seq<byte>)
    requires |prefix| == 16 && StartsWith(prefix, lib.sigBytes)
    ensures var r := HandleReadable(Initial([prefix, later]), lib);
      && !r.outcome.Pending?
      && (r.outcome.Resolved? ==> lib.v2Decode(prefix) == Some(r.outcome.info) && r.pending == [[], later])
  {
    V2Verdict(prefix, lib);
    assert prefix[..16] == prefix && prefix[16..] == [];
    FirstChunkDecides(lib, prefix, [later]);
    assert [prefix] + [later] == [prefix, later];
  }

  /**
   * A version 2 header whose address block arrives in a later chunk than its
   * first 16 bytes is decoded from those 16 bytes alone: the event never waits
   * for the block, and if the decoder accepts the truncated header, the block
   * is handed to the application as payload. Delivered whole, the decoder sees
   * the block and the application sees only the payload.
   */
  lemma TruncatedV2IsDecodedEarly(lib: ProxyLib, prefix: seq<byte>, block: seq<byte>, payload: seq<byte>)
    requires |prefix| == 16 && StartsWith(prefix, lib.sigBytes)
    requires |block| == prefix[15] as int + 256 * prefix[14] as int
    ensures var whole := HandleReadable(Initial([prefix + block + payload]), lib);
      && !whole.outcome.Pending?
      && (whole.outcome.Resolved? ==>
            lib.v2Decode(prefix + block) == Some(whole.outcome.info) && Flatten(whole.pending) == payload)
    ensures var split := HandleReadable(Initial([prefix, block + payload]), lib);
      && !split.outcome.Pending?
      && (split.outcome.Resolved? ==>
            lib.v2Decode(prefix) == Some(split.outcome.info) && Flatten(split.pending) == block + payload)
  {
    WholeV2Header(lib, prefix, block, payload);
    SplitV2Header(lib, prefix, block + payload);
    FlattenSingle(payload);
    FlattenSingle(block + payload);
    assert [[], block + payload][1..] == [block + payload];
  }
}
