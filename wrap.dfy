/**
 * `socketwrap(socket)` as objects: the socket with its queue of unread chunks,
 * and the wrapper holding the handler's closure state. Each method is proved
 * against the state machine of module Handshake, whose lemmas say what that
 * machine guarantees.
 */
module Wrap {
  import opened Wrappers
  import opened Header
  import opened Handshake

  /** The part of a stream socket that the handler uses: its read queue and its destroyed flag. */
  class Socket {
    var pending: seq<seq<byte>>
    var destroyed: bool

    constructor (chunks: seq<seq<byte>>)
      ensures pending == chunks && !destroyed
    {
      pending := chunks;
      destroyed := false;
    }

    /** `socket.read()`: the next buffered chunk, or `null` when nothing is buffered. */
    method Read() returns (chunk: Option<seq<byte>>)
      modifies this
      ensures old(pending) == [] ==> chunk.None? && pending == []
      ensures old(pending) != [] ==> chunk == Some(old(pending)[0]) && pending == old(pending)[1..]
      ensures chunk.Some? ==> old(pending) == [chunk.value] + pending
      ensures destroyed == old(destroyed)
    {
      if pending == [] {
        chunk := None;
      } else {
        chunk := Some(pending[0]);
        pending := pending[1..];
        assert old(pending) == [chunk.value] + pending;
      }
    }

    /** `socket.unshift(data)`: put data back in front of the read queue. */
    method Unshift(data: seq<byte>)
      modifies this
      ensures pending == [data] + old(pending) && destroyed == old(destroyed)
    {
      pending := [data] + pending;
    }

    /** `socket.destroy()`. */
    method Destroy()
      modifies this
      ensures destroyed && pending == old(pending)
    {
      destroyed := true;
    }
  }

  /** The closure of one `socketwrap` call: its buffer, its error flag, its listener and its promise. */
  class SocketWrap {
    const socket: Socket
    const lib: ProxyLib
    var buf: seq<byte>
    var protocolError: bool
    var listening: bool
    var outcome: Outcome

    /** Everything the handler reads or changes, as one value of the state machine. */
    ghost function State(): Connection
      reads this, socket
    {
      Connection(buf, protocolError, listening, outcome, socket.pending, socket.destroyed)
    }

    /** `socketwrap(socket)`: empty buffer, no error, 'readable' listener attached, promise pending. */
    constructor (s: Socket, l: ProxyLib)
      ensures socket == s && lib == l
      ensures State() == Connection([], false, true, Pending, s.pending, s.destroyed)
    {
      socket := s;
      lib := l;
      buf := [];
      protocolError := false;
      listening := true;
      outcome := Pending;
    }

    /** `destroy(message)`: reject with the buffer as the error's header and destroy the socket. */
    method Destroy(message: string)
      modifies this, socket
      ensures State() == AfterDestroy(old(State()), message)
    {
      protocolError := true;
      socket.Destroy();
      if outcome.Pending? {
        outcome := Rejected(message, Ascii(buf));
      }
    }

    /**
     * One pass of the `onReadable` loop: append the chunk just read and act on
     * the checks of the grown buffer. Accepting removes the listener, puts the
     * bytes after the header back into the socket and resolves; refusing
     * destroys, after removing the listener for a malformed header; `done`
     * says that the event is over.
     */
    method Append(chunk: seq<byte>) returns (done: bool)
      modifies this, socket
      ensures var step := Verdict(old(buf) + chunk, old(protocolError), lib);
        && State() == Settle(old(State()).(buf := old(buf) + chunk), step)
        && (done <==> !step.Wait?)
    {
      buf := buf + chunk;
      var step := Verdict(buf, protocolError, lib);
      match step {
        case Reject(message, detached) =>
          if detached {
            listening := false;
          }
          Destroy(message);
          return true;
        case Resolve(info, rest) =>
          listening := false;
          socket.Unshift(rest);
          if outcome.Pending? {
            outcome := Resolved(info);
          }
          return true;
        case Wait =>
          return false;
      }
    }

    /** `onReadable`: read chunks into the buffer until a header is found, refused or still incomplete. */
    method OnReadable()
      modifies this, socket
      ensures State() == HandleReadable(old(State()), lib)
    {
      var chunk := socket.Read();
      if chunk.None? && |buf| == 0 {
        return;
      }
      while chunk.Some?
        invariant chunk.Some? ==>
          HandleReadable(State().(pending := [chunk.value] + socket.pending), lib) == HandleReadable(old(State()), lib)
        invariant chunk.None? ==> socket.pending == [] && HandleReadable(State(), lib) == HandleReadable(old(State()), lib)
        decreases if chunk.Some? then |socket.pending| + 1 else 0
      {
        PassThenRest(State(), lib, chunk.value);
        var done := Append(chunk.value);
        if done {
          return;
        }
        chunk := socket.Read();
      }
    }

    /**
     * A 'readable' event: a destroyed socket emits none, and the handler runs
     * only while its listener is attached. A coherent wrapper stays coherent,
     * and once its promise has settled an event changes nothing.
     */
    method Readable()
      modifies this, socket
      ensures State() == Event(old(State()), lib)
      ensures Coherent(old(State())) ==> Coherent(State())
      ensures Coherent(old(State())) && !old(outcome).Pending? ==> State() == old(State())
    {
      ghost var before := State();
      if listening && !socket.destroyed {
        OnReadable();
      }
      if Coherent(before) {
        EventKeepsCoherent(before, lib);
      }
    }
  }
}
