/** A packet is one type/length/payload record inside a parcel body. */
module Packets {
  import opened Wire
  import opened Status

  /** Packet type of a status report (and of the status request). */
  const StatusType: Byte := 129
  /** Packet type of an outdoor-temperature report. */
  const OutdoorTempType: Byte := 33

  /** A packet read from or written to the wire. A status report keeps its raw
      type and payload next to the decoded telemetry; every other type is
      carried through uninterpreted. */
  datatype Packet =
    | Plain(ptype: Byte, pdata: seq<Byte>)
    | StatusPacket(ptype: Byte, pdata: seq<Byte>, report: StatusReport)

  // ---------------------------------------------------------------------------
  // Reading from a stream (the source's `io.BytesIO`). A stream is the bytes
  // not read yet; every read returns what it took and what is left.
  // ---------------------------------------------------------------------------

  /** `fd.read(1)[0]`: one byte, or an index error at the end of the stream. */
  function ReadByte(s: seq<Byte>): Result<(Byte, seq<Byte>)>
  {
    if |s| > 0 then Ok((s[0], s[1..])) else Err(Truncated)
  }

  /** `fd.read(n)`: up to `n` bytes; fewer, without error, near the end. */
  function ReadUpTo(s: seq<Byte>, n: nat): (r: (seq<Byte>, seq<Byte>))
    ensures r.0 + r.1 == s
    ensures |r.0| == if n <= |s| then n else |s|
  {
    if n <= |s| then (s[..n], s[n..]) else (s, [])
  }

  // ---------------------------------------------------------------------------
  // Encoding and parsing one packet
  // ---------------------------------------------------------------------------

  /** `Packet.encode`: type byte, length byte, payload. A payload longer than
      255 bytes has no length byte and raises. */
  function EncodePacket(p: Packet): (r: Result<seq<Byte>>)
    ensures r.Ok? <==> |p.pdata| <= 255
    ensures r.Err? ==> r.error == ByteOverflow
    ensures r.Ok? ==> |r.value| == 2 + |p.pdata|
    ensures r.Ok? ==> r.value[0] == p.ptype && r.value[1] as int == |p.pdata| && r.value[2..] == p.pdata
  {
    if |p.pdata| > 255 then Err(ByteOverflow)
    else Ok([p.ptype, |p.pdata| as Byte] + p.pdata)
  }

  /** What a parser can produce and what re-encodes to itself: a payload that
      fits a length byte, and either a status report whose telemetry is the
      decoding of its payload, or an uninterpreted type. */
  predicate WellFormed(p: Packet)
  {
    && |p.pdata| <= 255
    && match p
       case Plain(t, _) => t != StatusType && t != OutdoorTempType
       case StatusPacket(t, d, s) => t == StatusType && DecodeStatus(d) == Ok(s)
  }

  /** `Packet.parse`: read type and length, read up to `length` payload bytes,
      and dispatch on the type. Returns the packet and the stream after it. */
  function ParsePacket(s: seq<Byte>): (r: Result<(Packet, seq<Byte>)>)
    ensures r.Ok? ==> |r.value.1| <= |s| - 2
  {
    var t :- ReadByte(s);
    var n :- ReadByte(t.1);
    var payload := ReadUpTo(n.1, n.0 as nat);
    if t.0 == StatusType then
      var report :- DecodeStatus(payload.0);
      Ok((StatusPacket(t.0, payload.0, report), payload.1))
    else if t.0 == OutdoorTempType then
      Err(OutdoorTempUnusable)
    else
      Ok((Plain(t.0, payload.0), payload.1))
  }

  /** What the packet parser accepts: a missing type or length byte is an
      index error, a status packet parses exactly when its payload decodes and
      otherwise fails with the decoder's error, the outdoor-temperature type
      always fails, and every other type is accepted whatever its payload. */
  lemma ParsePacketAccepts(s: seq<Byte>)
    ensures |s| < 2 ==> ParsePacket(s) == Err(Truncated)
    ensures |s| >= 2 && s[0] == StatusType ==>
      var payload := ReadUpTo(s[2..], s[1] as nat).0;
      && (ParsePacket(s).Ok? <==> DecodeStatus(payload).Ok?)
      && (DecodeStatus(payload).Err? ==> ParsePacket(s) == Err(DecodeStatus(payload).error))
    ensures |s| >= 2 && s[0] == OutdoorTempType ==> ParsePacket(s) == Err(OutdoorTempUnusable)
    ensures |s| >= 2 && s[0] != StatusType && s[0] != OutdoorTempType ==> ParsePacket(s).Ok?
  {
    if |s| >= 2 {
      assert s[1..][1..] == s[2..];
    }
  }

  /** What a parsed packet holds: the type byte and the payload bytes that
      followed the length byte (fewer than announced when the stream ends
      early), and the stream resumes right after them. */
  lemma ParsePacketLayout(s: seq<Byte>)
    ensures ParsePacket(s).Ok? ==>
      var p := ParsePacket(s).value.0;
      && p.ptype == s[0]
      && s == [s[0], s[1]] + p.pdata + ParsePacket(s).value.1
      && |p.pdata| == (if s[1] as int <= |s| - 2 then s[1] as int else |s| - 2)
  {
    if |s| >= 2 {
      assert s == [s[0], s[1]] + s[2..];
    }
  }

  /** Every packet the parser returns is well formed. */
  lemma ParsedPacketWellFormed(s: seq<Byte>)
    ensures ParsePacket(s).Ok? ==> WellFormed(ParsePacket(s).value.0)
  {
  }

  /** A well-formed packet's encoding, at the head of any stream, parses back
      to the same packet and leaves the stream just after it. */
  lemma ParseEncodedPacket(p: Packet, rest: seq<Byte>)
    requires WellFormed(p)
    ensures EncodePacket(p).Ok?
    ensures ParsePacket(EncodePacket(p).value + rest) == Ok((p, rest))
  {
    var s := EncodePacket(p).value + rest;
    var n := |p.pdata|;
    assert s[0] == p.ptype && s[1] as int == n;
    assert s[1..][1..] == p.pdata + rest;
    assert (p.pdata + rest)[..n] == p.pdata;
    assert (p.pdata + rest)[n..] == rest;
    match p
    case Plain(t, d) =>
      assert ParsePacket(s) == Ok((Plain(t, d), rest));
    case StatusPacket(t, d, r) =>
      assert ParsePacket(s) == Ok((StatusPacket(t, d, r), rest));
  }

  /** A payload cut short by the end of the stream is accepted as it is. */
  lemma ShortPayloadAccepted()
    ensures ParsePacket([7, 5, 1, 2]) == Ok((Plain(7, [1, 2]), []))
  {
    var s: seq<Byte> := [7, 5, 1, 2];
    assert s[1..][1..] == [1, 2];
  }
}
