/**
 * The PROXY-protocol header boundary locator (`isHeaderCompleted`): given the
 * bytes accumulated so far on a connection, it decides whether a complete
 * version 1 (text) or version 2 (binary) preamble is present, hands the header
 * bytes to the matching decoder and returns the bytes that follow the header.
 * Buffer operations follow Node.js `Buffer` semantics: `slice` clamps its
 * bounds to the buffer, and reading past the end yields `undefined`.
 */
module Header {
  import opened Wrappers

  type byte = b: int | 0 <= b < 256

  /** ASCII "PROXY": the first five bytes of a version 1 header. */
  const V1Tag: seq<byte> := [80, 82, 79, 88, 89]

  /** Carriage return, the byte that ends a version 1 header line. */
  const CR: byte := 13

  /** Line feed, its partner in the CR LF terminator. */
  const LF: byte := 10

  /**
   * The 12-byte version 2 signature is supplied by the parser package and its
   * bytes are not part of this model. Besides its length, the model uses one
   * fact about it: its first byte is not the "P" of "PROXY" (the signature of
   * section 2.2 of HAProxy's proxy-protocol.txt begins with a carriage return).
   */
  type Signature = s: seq<byte> | |s| == 12 && s[0] != V1Tag[0]
    witness [13, 10, 13, 10, 0, 13, 10, 81, 85, 73, 84, 10]

  /** A decoded port as `isNaN` sees it: a number, or something that is not one. */
  datatype PortValue = Finite(n: int) | NotANumber

  /** The address record the decoders produce. */
  datatype ProxyInfo = ProxyInfo(
    remoteAddress: string, remotePort: PortValue,
    localAddress: string, localPort: PortValue)

  /**
   * The parser package seen from this file: the version 2 signature and the two
   * decoders, which are left uninterpreted (`None` stands for a falsy result).
   */
  datatype ProxyLib = ProxyLib(
    sigBytes: Signature,
    v1Decode: seq<byte> -> Option<ProxyInfo>,
    v2Decode: seq<byte> -> Option<ProxyInfo>)

  /** The triple `[headerCompleted, proxyInfo, bufferRest]`. */
  datatype Located = Located(completed: bool, info: Option<ProxyInfo>, rest: seq<byte>)

  function Min(a: int, b: int): int { if a <= b then a else b }

  function Max(a: int, b: int): int { if a <= b then b else a }

  /** `buf.slice(0, p.length).equals(p)`: the slice is clamped, so a shorter buffer never matches. */
  predicate StartsWith(buf: seq<byte>, p: seq<byte>)
  {
    |buf| >= |p| && buf[..|p|] == p
  }

  /** `Buffer.equals` on the clamped slice compares byte by byte, so `StartsWith` holds exactly when every byte of `p` matches. */
  lemma StartsWithBytes(buf: seq<byte>, p: seq<byte>)
    ensures StartsWith(buf, p) <==> |buf| >= |p| && forall i :: 0 <= i < |p| ==> buf[i] == p[i]
  {
    if |buf| >= |p| && forall i :: 0 <= i < |p| ==> buf[i] == p[i] {
      assert buf[..|p|] == p;
    }
  }

  /** `buf.slice(k)` for a non-negative start: clamped to the end of the buffer. */
  function SliceFrom(buf: seq<byte>, k: nat): (r: seq<byte>)
    ensures |r| == if k <= |buf| then |buf| - k else 0
    ensures r == buf[|buf| - |r|..]
  {
    if k <= |buf| then buf[k..] else []
  }

  /** `buf.slice(0, k)` for a non-negative end: clamped to the end of the buffer. */
  function SliceTo(buf: seq<byte>, k: nat): (r: seq<byte>)
    ensures |r| == Min(k, |buf|)
    ensures r == buf[..|r|]
  {
    if k <= |buf| then buf[..k] else buf
  }

  /** `buf.indexOf(b)`: the first index holding `b`, or -1. */
  function IndexOf(s: seq<byte>, b: byte): (i: int)
    ensures -1 <= i < |s|
    ensures i >= 0 ==> s[i] == b && b !in s[..i]
    ensures i < 0 <==> b !in s
  {
    if s == [] then -1
    else if s[0] == b then 0
    else
      var j := IndexOf(s[1..], b);
      if j < 0 then -1
      else
        assert s[..j + 1] == [s[0]] + s[1..][..j];
        j + 1
  }

  /**
   * `buf[15] + buf[14] * 256`, the big-endian length field of a version 2
   * header; `None` is the NaN that a missing byte 15 (or 14) produces.
   */
  function AddrLength(buf: seq<byte>): (r: Option<nat>)
    ensures r.Some? <==> |buf| >= 16
    ensures r.Some? ==> r.value < 0x1_0000
  {
    if |buf| >= 16 then Some(buf[15] as int + buf[14] as int * 256) else None
  }

  /** `Math.max(v1Header.length, v2Header.length)`: the bytes needed to sniff the version. */
  function SniffLength(sig: Signature): (n: nat)
    ensures n == 12 && n >= |V1Tag| && n >= |sig|
  {
    Max(|V1Tag|, |sig|)
  }

  /**
   * `isHeaderCompleted(buf)`. It is complete exactly when the buffer starts with
   * "PROXY" and holds a carriage return, or starts with the version 2 signature
   * instead: the version 2 branch does not wait for the address block. The
   * rest is always a tail of the buffer.
   */
  function IsHeaderCompleted(buf: seq<byte>, lib: ProxyLib): (r: Located)
    ensures r.completed <==>
      (StartsWith(buf, V1Tag) && CR in buf) ||
      (!StartsWith(buf, V1Tag) && StartsWith(buf, lib.sigBytes))
    ensures !r.completed ==> r.info == None
    ensures |r.rest| <= |buf| && r.rest == buf[|buf| - |r.rest|..]
  {
    if StartsWith(buf, V1Tag) then
      var end := IndexOf(buf, CR);
      if end >= 0 then
        Located(true, lib.v1Decode(buf[..end]), SliceFrom(buf, end + 2))
      else
        // end + 2 == 1 here: the unused rest is buf.slice(1)
        Located(false, None, SliceFrom(buf, end + 2))
    else if StartsWith(buf, lib.sigBytes) then
      match AddrLength(buf)
      case Some(len) => Located(true, lib.v2Decode(SliceTo(buf, 16 + len)), SliceFrom(buf, 16 + len))
      // 16 + NaN is NaN; slice(0, NaN) is empty and slice(NaN) is the whole buffer
      case None => Located(true, lib.v2Decode([]), buf)
    else
      Located(false, None, buf)
  }

  /**
   * Version 1, complete: the decoder receives the bytes before the first
   * carriage return and the rest starts two bytes after it (clamped), whatever
   * the second of those two bytes is. No byte of the buffer is lost.
   */
  lemma V1Complete(buf: seq<byte>, lib: ProxyLib, i: nat)
    requires StartsWith(buf, V1Tag)
    requires i < |buf| && buf[i] == CR && CR !in buf[..i]
    ensures var r := IsHeaderCompleted(buf, lib);
      && r.completed
      && r.info == lib.v1Decode(buf[..i])
      && r.rest == (if i + 2 <= |buf| then buf[i + 2..] else [])
      && buf == buf[..i] + buf[i..Min(i + 2, |buf|)] + r.rest
  {
    V1Fields(buf, lib, i);
    AroundTerminator(buf, i);
  }

  /** A buffer is the line before `i`, the (at most) two terminator bytes and the clamped rest. */
  lemma AroundTerminator(buf: seq<byte>, i: nat)
    requires i < |buf|
    ensures buf == buf[..i] + buf[i..Min(i + 2, |buf|)] + (if i + 2 <= |buf| then buf[i + 2..] else [])
  {
    if i + 2 <= |buf| {
      assert buf == buf[..i] + buf[i..i + 2] + buf[i + 2..];
    } else {
      assert buf == buf[..i] + buf[i..] + [];
    }
  }

  /** The three fields of a complete version 1 result, without the account of the bytes. */
  lemma V1Fields(buf: seq<byte>, lib: ProxyLib, i: nat)
    requires StartsWith(buf, V1Tag)
    requires i < |buf| && buf[i] == CR && CR !in buf[..i]
    ensures IsHeaderCompleted(buf, lib) ==
      Located(true, lib.v1Decode(buf[..i]), if i + 2 <= |buf| then buf[i + 2..] else [])
  {
    var j := IndexOf(buf, CR);
    assert j == i;
  }

  /** Version 1, no carriage return yet: not complete and no info. */
  lemma V1Incomplete(buf: seq<byte>, lib: ProxyLib)
    requires StartsWith(buf, V1Tag) && CR !in buf
    ensures var r := IsHeaderCompleted(buf, lib);
      !r.completed && r.info == None && r.rest == buf[1..]
  {
  }

  /**
   * Version 2 with the length field present: complete as soon as the signature
   * matches; the decoder receives the first `16 + addrLength` bytes and the rest
   * is what follows, both clamped to the buffer, so a short buffer is decoded
   * truncated.
   */
  lemma V2Complete(buf: seq<byte>, lib: ProxyLib)
    requires StartsWith(buf, lib.sigBytes) && |buf| >= 16
    ensures var r := IsHeaderCompleted(buf, lib);
      var n := Min(16 + buf[15] as int + 256 * buf[14] as int, |buf|);
      && r.completed
      && r.info == lib.v2Decode(buf[..n])
      && r.rest == buf[n..]
  {
    assert buf[..5] == buf[..12][..5];
  }

  /**
   * Version 2 with fewer than 16 bytes: `addrLength` is NaN, so the decoder
   * receives no bytes at all and the rest is the whole buffer.
   */
  lemma V2Short(buf: seq<byte>, lib: ProxyLib)
    requires StartsWith(buf, lib.sigBytes) && |buf| < 16
    ensures IsHeaderCompleted(buf, lib) == Located(true, lib.v2Decode([]), buf)
  {
    assert buf[..5] == buf[..12][..5];
  }

  /** Neither prefix (in particular any buffer shorter than five bytes): not complete, buffer unchanged. */
  lemma NeitherPrefix(buf: seq<byte>, lib: ProxyLib)
    requires |buf| < 5 || (!StartsWith(buf, V1Tag) && !StartsWith(buf, lib.sigBytes))
    ensures IsHeaderCompleted(buf, lib) == Located(false, None, buf)
  {
  }

  /**
   * The whole header is buffered: for version 1 both terminator bytes, for
   * version 2 the full `16 + addrLength` bytes.
   */
  predicate FullyBuffered(buf: seq<byte>, lib: ProxyLib)
  {
    if StartsWith(buf, V1Tag) then
      CR in buf && IndexOf(buf, CR) + 2 <= |buf|
    else
      StartsWith(buf, lib.sigBytes) && |buf| >= 16 && 16 + AddrLength(buf).value <= |buf|
  }

  lemma DropAppend(a: seq<byte>, b: seq<byte>, k: nat)
    requires k <= |a|
    ensures (a + b)[k..] == a[k..] + b
  {
  }

  lemma StartsWithAppend(buf: seq<byte>, extra: seq<byte>, p: seq<byte>)
    requires |buf| >= |p|
    ensures StartsWith(buf + extra, p) == StartsWith(buf, p)
  {
    assert (buf + extra)[..|p|] == buf[..|p|];
  }

  /**
   * Once the whole header is buffered, more bytes change neither the decoded
   * info nor the boundary: they only extend the rest. For version 1,
   * `Handshake.ChunkedV1Header` carries this to whole events whose chunks
   * split the bytes anywhere but between the carriage return and the line feed.
   */
  lemma FullHeaderIsStable(buf: seq<byte>, extra: seq<byte>, lib: ProxyLib)
    requires FullyBuffered(buf, lib)
    ensures var r := IsHeaderCompleted(buf, lib);
      r.completed && IsHeaderCompleted(buf + extra, lib) == r.(rest := r.rest + extra)
  {
    StartsWithAppend(buf, extra, V1Tag);
    if StartsWith(buf, V1Tag) {
      FullV1HeaderIsStable(buf, extra, lib);
    } else {
      FullV2HeaderIsStable(buf, extra, lib);
    }
  }

  lemma FullV1HeaderIsStable(buf: seq<byte>, extra: seq<byte>, lib: ProxyLib)
    requires StartsWith(buf, V1Tag) && CR in buf && IndexOf(buf, CR) + 2 <= |buf|
    ensures var r := IsHeaderCompleted(buf, lib);
      r.completed && IsHeaderCompleted(buf + extra, lib) == r.(rest := r.rest + extra)
  {
    var i := IndexOf(buf, CR);
    var longer := buf + extra;
    assert longer[..i] == buf[..i];
    assert longer[i] == CR;
    DropAppend(buf, extra, i + 2);
    StartsWithAppend(buf, extra, V1Tag);
    V1Fields(buf, lib, i);
    V1Fields(longer, lib, i);
    assert IsHeaderCompleted(buf, lib) == Located(true, lib.v1Decode(buf[..i]), buf[i + 2..]);
    assert IsHeaderCompleted(longer, lib) == Located(true, lib.v1Decode(buf[..i]), buf[i + 2..] + extra);
  }

  lemma FullV2HeaderIsStable(buf: seq<byte>, extra: seq<byte>, lib: ProxyLib)
    requires !StartsWith(buf, V1Tag) && StartsWith(buf, lib.sigBytes)
    requires |buf| >= 16 && 16 + AddrLength(buf).value <= |buf|
    ensures var r := IsHeaderCompleted(buf, lib);
      r.completed && IsHeaderCompleted(buf + extra, lib) == r.(rest := r.rest + extra)
  {
    StartsWithAppend(buf, extra, V1Tag);
    StartsWithAppend(buf, extra, lib.sigBytes);
    var n := 16 + AddrLength(buf).value;
    assert AddrLength(buf + extra) == AddrLength(buf);
    assert (buf + extra)[..n] == buf[..n];
    DropAppend(buf, extra, n);
  }

  /**
   * The converse fails for version 1: a buffer that ends at the carriage
   * return is already complete with an empty rest, and so is the same buffer
   * once the line feed has arrived, so the line feed is not carried over.
   */
  lemma SplitTerminatorIsNotStable(lib: ProxyLib)
    ensures var r := IsHeaderCompleted(V1Tag + [CR], lib);
      && r.completed && r.rest == []
      && IsHeaderCompleted(V1Tag + [CR] + [LF], lib) != r.(rest := r.rest + [LF])
  {
    V1Complete(V1Tag + [CR], lib, 5);
    assert (V1Tag + [CR])[..5] == V1Tag;
    V1Complete(V1Tag + [CR] + [LF], lib, 5);
    assert (V1Tag + [CR] + [LF])[..5] == V1Tag;
  }
}
