/** Length-prefixed frames on a byte stream (internal/rpc/framing.go). */
module Framing {
  import opened Utf8

  const UINT32: nat := 0x1_0000_0000

  datatype Read = Payload(bytes: seq<Byte>) | ShortHeader | EmptyPayload | TooLarge | ShortPayload

  /** `binary.BigEndian`. */
  function BigEndian(n: nat): seq<Byte>
    requires n < UINT32
  {
    [n / 0x100_0000, n / 0x1_0000 % 0x100, n / 0x100 % 0x100, n % 0x100]
  }

  function Uint32(b: seq<Byte>): nat
    requires |b| == 4
  {
    var at := (i: int) requires 0 <= i < 4 => b[i] as int;
    at(0) * 0x100_0000 + at(1) * 0x1_0000 + at(2) * 0x100 + at(3)
  }

  function Frame(payload: seq<Byte>): seq<Byte>
    requires |payload| < UINT32
  {
    BigEndian(|payload|) + payload
  }

  /** What reading one frame gives and how many bytes it consumes. A limit of 0 is no limit. */
  function ReadSpec(stream: seq<Byte>, maxBytes: nat): (r: (Read, nat))
    ensures r.1 <= |stream|
  {
    if |stream| < 4 then (ShortHeader, |stream|)
    else
      var size := Uint32(stream[..4]);
      if size == 0 then (EmptyPayload, 4)
      else if maxBytes > 0 && size > maxBytes then (TooLarge, 4)
      else if |stream| < 4 + size then (ShortPayload, |stream|)
      else (Payload(stream[4..4 + size]), 4 + size)
  }

  /** The bytes that reach a connection which accepts `room` more of them. */
  function Accepted(bytes: seq<Byte>, room: nat): seq<Byte> {
    if |bytes| <= room then bytes else bytes[..room]
  }

  /** What `WriteFrame` puts on such a connection. */
  function Sent(payload: seq<Byte>, room: nat): seq<Byte> {
    if 0 < |payload| < UINT32 then Accepted(Frame(payload), room) else []
  }

  /** A connection: bytes written at one end are read at the other. It breaks after
      `room` more bytes. */
  class Pipe {
    var stream: seq<Byte>
    var room: nat

    constructor (room: nat)
      ensures stream == [] && this.room == room
    {
      stream := [];
      this.room := room;
    }

    method Write(bytes: seq<Byte>) returns (ok: bool)
      modifies this
      ensures ok == (|bytes| <= old(room))
      ensures stream == old(stream) + Accepted(bytes, old(room))
      ensures room == old(room) - |Accepted(bytes, old(room))|
    {
      ok := |bytes| <= room;
      var accepted := Accepted(bytes, room);
      stream := stream + accepted;
      room := room - |accepted|;
    }

    /** `io.ReadFull`: fills the buffer, or consumes what there is and fails. */
    method ReadFull(buffer: array<Byte>) returns (ok: bool)
      modifies this`stream, buffer
      ensures ok == (|old(stream)| >= buffer.Length)
      ensures ok ==> buffer[..] == old(stream)[..buffer.Length] && stream == old(stream)[buffer.Length..]
      ensures !ok ==> stream == []
    {
      var n := buffer.Length;
      ok := |stream| >= n;
      var got := if ok then n else |stream|;
      for i := 0 to got
        invariant got <= n && got <= |stream| && stream == old(stream)
        invariant buffer[..i] == stream[..i]
      {
        buffer[i] := stream[i];
      }
      stream := stream[got..];
    }

    method WriteFrame(payload: seq<Byte>) returns (ok: bool)
      modifies this
      ensures ok == (0 < |payload| < UINT32 && |Frame(payload)| <= old(room))
      ensures stream == old(stream) + Sent(payload, old(room))
      ensures room == old(room) - |Sent(payload, old(room))|
    {
      if |payload| == 0 {
        return false;
      }
      if |payload| > UINT32 - 1 {
        return false;
      }
      ok := Write(BigEndian(|payload|));
      if !ok {
        return false;
      }
      ok := Write(payload);
      if !ok {
        return false;
      }
      return true;
    }

    method ReadFrame(maxBytes: nat) returns (r: Read)
      modifies this`stream
      ensures r == ReadSpec(old(stream), maxBytes).0
      ensures stream == old(stream)[ReadSpec(old(stream), maxBytes).1..]
    {
      var header := new Byte[4];
      var ok := ReadFull(header);
      if !ok {
        return ShortHeader;
      }
      var size := Uint32(header[..]);
      if size == 0 {
        return EmptyPayload;
      }
      if maxBytes > 0 && size > maxBytes {
        return TooLarge;
      }
      var payload := new Byte[size];
      ok := ReadFull(payload);
      if !ok {
        return ShortPayload;
      }
      return Payload(payload[..]);
    }
  }

  // ---- round trips -------------------------------------------------------------------

  lemma SizeBack(n: nat)
    requires n < UINT32
    ensures Uint32(BigEndian(n)) == n
  {
    LowByte(n);
    LowByte(n / 0x100);
    LowByte(n / 0x1_0000);
    assert n / 0x100 / 0x100 == n / 0x1_0000 && n / 0x1_0000 / 0x100 == n / 0x100_0000;
  }

  lemma LowByte(n: nat)
    ensures n == n / 0x100 * 0x100 + n % 0x100
  {}

  /** A payload that both ends accept. */
  predicate Fits(payload: seq<Byte>, maxBytes: nat) {
    0 < |payload| < UINT32 && (maxBytes > 0 ==> |payload| <= maxBytes)
  }

  /** One frame, and whatever follows it untouched. */
  lemma FrameBack(payload: seq<Byte>, maxBytes: nat, rest: seq<Byte>)
    requires Fits(payload, maxBytes)
    ensures ReadSpec(Frame(payload) + rest, maxBytes) == (Payload(payload), |Frame(payload)|)
    ensures (Frame(payload) + rest)[|Frame(payload)|..] == rest
  {
    var stream := Frame(payload) + rest;
    assert stream[..4] == BigEndian(|payload|);
    SizeBack(|payload|);
    assert stream[4..4 + |payload|] == payload;
  }

  /** Every strict prefix of a frame is a read error that consumes all of it. */
  lemma PrefixIsError(payload: seq<Byte>, maxBytes: nat, n: nat)
    requires Fits(payload, maxBytes) && n < |Frame(payload)|
    ensures ReadSpec(Frame(payload)[..n], maxBytes) == (if n < 4 then ShortHeader else ShortPayload, n)
  {
    if n >= 4 {
      assert Frame(payload)[..n][..4] == BigEndian(|payload|);
      SizeBack(|payload|);
    }
  }

  /** What a reader makes of one write: the payload if all of the frame got
      through, and an error if not, never another payload. */
  lemma SentReadsBack(payload: seq<Byte>, room: nat, maxBytes: nat)
    requires maxBytes > 0 ==> |payload| <= maxBytes
    ensures ReadSpec(Sent(payload, room), maxBytes).0 ==
              if !(0 < |payload| < UINT32) || room < 4 then ShortHeader
              else if room < |Frame(payload)| then ShortPayload
              else Payload(payload)
  {
    if 0 < |payload| < UINT32 {
      if room < |Frame(payload)| {
        PrefixIsError(payload, maxBytes, room);
      } else {
        FrameBack(payload, maxBytes, []);
        assert Frame(payload) + [] == Frame(payload);
      }
    }
  }

  function Frames(payloads: seq<seq<Byte>>, maxBytes: nat): seq<Byte>
    requires forall i :: 0 <= i < |payloads| ==> Fits(payloads[i], maxBytes)
  {
    if payloads == [] then [] else
      assert Fits(payloads[0], maxBytes);
      Frame(payloads[0]) + Frames(payloads[1..], maxBytes)
  }

  /** Reading `n` frames in a row: the payloads up to the first failure, and the rest of the stream. */
  function ReadMany(stream: seq<Byte>, maxBytes: nat, n: nat): (seq<seq<Byte>>, seq<Byte>) {
    if n == 0 then ([], stream)
    else
      var (r, used) := ReadSpec(stream, maxBytes);
      if !r.Payload? then ([], stream[used..])
      else
        var (more, rest) := ReadMany(stream[used..], maxBytes, n - 1);
        ([r.bytes] + more, rest)
  }

  /** A stream of frames reads back as the same payloads, with the remainder untouched. */
  lemma {:induction false} FramesBack(payloads: seq<seq<Byte>>, maxBytes: nat, rest: seq<Byte>)
    requires forall i :: 0 <= i < |payloads| ==> Fits(payloads[i], maxBytes)
    ensures ReadMany(Frames(payloads, maxBytes) + rest, maxBytes, |payloads|) == (payloads, rest)
  {
    hide Frame, ReadSpec;
    if payloads == [] {
      assert [] + rest == rest;
    } else {
      assert Fits(payloads[0], maxBytes);
      var more := Frames(payloads[1..], maxBytes) + rest;
      assert Frames(payloads, maxBytes) + rest == Frame(payloads[0]) + more;
      FrameBack(payloads[0], maxBytes, more);
      FramesBack(payloads[1..], maxBytes, rest);
      assert [payloads[0]] + payloads[1..] == payloads;
    }
  }
}
