/** `MockTransport`: an in-memory byte pipe with a connected flag. Writes
    append to the buffer and reads take bytes from its front. The
    `asyncio.sleep` pauses are left out and `read`'s timeout is ignored, as
    in the source. */
module MockTransports {
  import opened Common

  /** Why a transport call failed. */
  datatype TransportError =
    | NotConnected       // `ConnectionError("... not connected")`
    | TransportFailure   // any other exception from a real transport

  /** The reply an empty buffer gives: `b"OK"`. */
  const OkReply: seq<byte> := [79, 75]

  /** How many bytes `read(size)` takes from a non-empty buffer of length
      `len`: `size` of them when positive (but no more than there are),
      all of them otherwise. */
  function ReadCount(len: nat, size: int): (n: nat)
    ensures n <= len
    ensures size > 0 ==> n == Min(size, len)
    ensures size <= 0 ==> n == len
  {
    if size > 0 then Min(size, len) else len
  }

  /** The bytes a connected `read(size)` returns, and the buffer it leaves. */
  datatype ReadOutcome = ReadOutcome(data: seq<byte>, rest: seq<byte>)

  function Take(buffer: seq<byte>, size: int): ReadOutcome
  {
    if buffer == [] then ReadOutcome(OkReply, [])
    else
      var n := ReadCount(|buffer|, size);
      ReadOutcome(buffer[..n], buffer[n..])
  }

  /** A read from a non-empty buffer returns a prefix of it and leaves the
      remainder: nothing is lost, duplicated or reordered. A positive size
      takes at most that many bytes, a non-positive one drains the buffer,
      and an empty buffer answers `OK` and stays empty. */
  lemma TakeSplitsBuffer(buffer: seq<byte>, size: int)
    ensures buffer != [] ==> Take(buffer, size).data + Take(buffer, size).rest == buffer
    ensures buffer != [] ==> |Take(buffer, size).data| > 0
    ensures size > 0 ==> |Take(buffer, size).rest| == |buffer| - Min(size, |buffer|)
    ensures size <= 0 || size >= |buffer| ==> Take(buffer, size).rest == []
    ensures buffer == [] ==> Take(buffer, size) == ReadOutcome(OkReply, [])
  {
    if buffer != [] {
      var n := ReadCount(|buffer|, size);
      assert buffer[..n] + buffer[n..] == buffer;
    }
  }

  /** Reading in two chunks returns the same bytes, in the same order, as
      one read of their combined size. */
  lemma {:induction false} TakeTwiceIsTakeOnce(buffer: seq<byte>, a: nat, b: nat)
    requires 0 < a && 0 < b && a + b <= |buffer|
    ensures var first := Take(buffer, a);
      var second := Take(first.rest, b);
      && first.data + second.data == Take(buffer, a + b).data
      && second.rest == Take(buffer, a + b).rest
  {
    var first := Take(buffer, a);
    assert first.data == buffer[..a] && first.rest == buffer[a..];
    assert buffer[a..] != [] by { assert |buffer[a..]| == |buffer| - a; }
    assert Take(first.rest, b).data == buffer[a..][..b];
    assert buffer[..a] + buffer[a..][..b] == buffer[..a + b];
    assert buffer[a..][b..] == buffer[a + b..];
  }

  class MockTransport {
    var connected: bool
    /** `_buffer`: the bytes written and not read yet, oldest first. */
    var buffer: seq<byte>

    /** `MockTransport()`: disconnected, with an empty buffer. */
    constructor ()
      ensures !connected && buffer == []
    {
      connected := false;
      buffer := [];
    }

    /** `connect`: always succeeds. */
    method Connect() returns (ok: bool)
      modifies this`connected
      ensures connected && ok
    {
      connected := true;
      ok := true;
    }

    /** `disconnect`: always succeeds, and drops the unread bytes. */
    method Disconnect() returns (ok: bool)
      modifies this
      ensures !connected && buffer == [] && ok
    {
      connected := false;
      buffer := [];
      ok := true;
    }

    /** `write`: append the bytes and report how many there were. */
    method Write(data: seq<byte>) returns (r: Result<nat, TransportError>)
      modifies this`buffer
      ensures !connected ==> r == Err(NotConnected) && buffer == old(buffer)
      ensures connected ==> r == Ok(|data|) && buffer == old(buffer) + data
    {
      if !connected {
        return Err(NotConnected);
      }
      buffer := buffer + data;
      r := Ok(|data|);
    }

    /** `read(size)`: see `Take`. */
    method Read(size: int) returns (r: Result<seq<byte>, TransportError>)
      modifies this`buffer
      ensures !connected ==> r == Err(NotConnected) && buffer == old(buffer)
      ensures connected ==> r == Ok(Take(old(buffer), size).data) && buffer == Take(old(buffer), size).rest
    {
      if !connected {
        return Err(NotConnected);
      }
      if |buffer| == 0 {
        return Ok(OkReply);
      }
      var data := if size > 0 then buffer[..Min(size, |buffer|)] else buffer;
      assert buffer[..|buffer|] == buffer;
      if size > 0 {
        buffer := buffer[Min(size, |buffer|)..];
      } else {
        buffer := [];
      }
      r := Ok(data);
    }
  }

  /** Bytes come out in the order they went in: two writes followed by a
      draining read return their concatenation and leave the buffer
      empty. */
  method WritesComeBackInOrder(t: MockTransport, first: seq<byte>, second: seq<byte>)
    returns (echoed: Result<seq<byte>, TransportError>)
    requires t.connected && t.buffer == [] && first + second != []
    modifies t
    ensures echoed == Ok(first + second) && t.buffer == []
  {
    var w1 := t.Write(first);
    var w2 := t.Write(second);
    assert t.buffer == first + second;
    TakeSplitsBuffer(first + second, -1);
    echoed := t.Read(-1);
    var outcome := Take(first + second, -1);
    assert outcome.data == outcome.data + outcome.rest;
  }
}
