/** A parcel is one complete message: a sync byte, source and destination
    addresses, an operation, a packet count, the packets, and a checksum
    byte, all passed through the obfuscation transform. */
module Parcels {
  import opened Wire
  import opened Codes
  import opened Obfuscation
  import opened Packets

  /** First byte of every de-obfuscated frame. */
  const SyncByte: Byte := 0x11

  datatype Parcel = Parcel(src: Component, dst: Component, op: Operation, packets: seq<Packet>)

  /** The five header bytes a parcel starts with. */
  function Header(p: Parcel): (h: seq<Byte>)
    requires |p.packets| <= 255
    ensures |h| == 5
  {
    [SyncByte, p.src.Code(), p.dst.Code(), p.op.Code(), |p.packets| as Byte]
  }

  /** Bytes the packets take on the wire: type, length and payload of each. */
  function PacketsSize(ps: seq<Packet>): nat
  {
    if |ps| == 0 then 0 else 2 + |ps[0].pdata| + PacketsSize(ps[1..])
  }

  /** Every payload fits a length byte. */
  predicate PayloadsFit(ps: seq<Packet>)
  {
    forall i :: 0 <= i < |ps| ==> |ps[i].pdata| <= 255
  }

  /** The packets' encodings, in order. The first payload that does not fit a
      length byte makes the whole encoding fail. */
  function EncodePackets(ps: seq<Packet>): (r: Result<seq<Byte>>)
    ensures r.Ok? <==> PayloadsFit(ps)
    ensures r.Err? ==> r.error == ByteOverflow
    ensures r.Ok? ==> |r.value| == PacketsSize(ps)
  {
    if |ps| == 0 then Ok([])
    else
      var head :- EncodePacket(ps[0]);
      var tail :- EncodePackets(ps[1..]);
      assert PayloadsFit(ps) by {
        assert forall i :: 1 <= i < |ps| ==> ps[i] == ps[1..][i - 1];
      }
      Ok(head + tail)
  }

  /** The frame `Parcel.encode` builds before obfuscating it: header, packets,
      and a zero placeholder for the checksum. A count or a payload length that
      does not fit one byte raises. */
  function Frame(p: Parcel): (r: Result<seq<Byte>>)
    ensures r.Ok? <==> |p.packets| <= 255 && PayloadsFit(p.packets)
    ensures r.Err? ==> r.error == ByteOverflow
    ensures r.Ok? ==> |r.value| == 6 + PacketsSize(p.packets)
    ensures r.Ok? ==> r.value == Header(p) + EncodePackets(p.packets).value + [0]
  {
    if |p.packets| > 255 then Err(ByteOverflow)
    else
      var body :- EncodePackets(p.packets);
      Ok(Header(p) + body + [0])
  }

  /** `Parcel.encode`: the frame, obfuscated. */
  function EncodeParcel(p: Parcel): (r: Result<seq<Byte>>)
    ensures r.Ok? <==> |p.packets| <= 255 && PayloadsFit(p.packets)
    ensures r.Err? ==> r.error == ByteOverflow
    ensures r.Ok? ==> |r.value| == 6 + PacketsSize(p.packets)
  {
    var f :- Frame(p);
    Obfuscate(f)
  }

  /** Read `count` packets one after the other; returns them and the stream
      after the last one. */
  function ParsePackets(s: seq<Byte>, count: nat): (r: Result<(seq<Packet>, seq<Byte>)>)
    ensures r.Ok? ==> |r.value.0| == count && |r.value.1| <= |s|
    decreases count
  {
    if count == 0 then Ok(([], s))
    else
      var first :- ParsePacket(s);
      var rest :- ParsePackets(first.1, count - 1);
      Ok(([first.0] + rest.0, rest.1))
  }

  /** Every packet of a list is well formed. */
  predicate AllWellFormed(ps: seq<Packet>)
  {
    forall i :: 0 <= i < |ps| ==> WellFormed(ps[i])
  }

  /** Every packet the list parser returns is well formed. */
  lemma {:induction false} ParsedPacketsWellFormed(s: seq<Byte>, count: nat)
    ensures ParsePackets(s, count).Ok? ==> AllWellFormed(ParsePackets(s, count).value.0)
    decreases count
  {
    if count > 0 && ParsePacket(s).Ok? {
      var s1 := ParsePacket(s).value.1;
      ParsedPacketWellFormed(s);
      ParsedPacketsWellFormed(s1, count - 1);
      if ParsePackets(s1, count - 1).Ok? {
        var ps, tail := ParsePackets(s, count).value.0, ParsePackets(s1, count - 1).value.0;
        assert ps == [ParsePacket(s).value.0] + tail;
        AllWellFormedCons(ParsePacket(s).value.0, tail);
      }
    }
  }

  lemma AllWellFormedCons(p: Packet, tail: seq<Packet>)
    requires WellFormed(p) && AllWellFormed(tail)
    ensures AllWellFormed([p] + tail)
  {
    assert forall i :: 1 <= i < |[p] + tail| ==> ([p] + tail)[i] == tail[i - 1];
  }

  /** What a parsed parcel says about the frame it came from. */
  predicate ParsedFrom(p: Parcel, d: seq<Byte>)
  {
    && |d| >= 5
    && d[0] == SyncByte
    && p.src.Code() == d[1]
    && p.dst.Code() == d[2]
    && p.op.Code() == d[3]
    && |p.packets| == d[4] as int
    && AllWellFormed(p.packets)
  }

  /** The part of `Parcel.parse` after de-obfuscation: check the sync byte,
      read the addresses, the operation and the count, then that many packets.
      Bytes after the last packet, the checksum among them, are ignored. */
  function ParseFrame(d: seq<Byte>): (r: Result<Parcel>)
    ensures r.Ok? ==> |d| >= 5 && |r.value.packets| == d[4] as int
  {
    var sync :- ReadByte(d);
    if sync.0 != SyncByte then Err(BadSync)
    else
      var sb :- ReadByte(sync.1);
      var src :- Component.FromCode(sb.0);
      var db :- ReadByte(sb.1);
      var dst :- Component.FromCode(db.0);
      var ob :- ReadByte(db.1);
      var op :- Operation.FromCode(ob.0);
      var n :- ReadByte(ob.1);
      var ps :- ParsePackets(n.1, n.0 as nat);
      Ok(Parcel(src, dst, op, ps.0))
  }

  /** `Parcel.parse`: de-obfuscate, then read the frame. */
  function ParseParcel(wire: seq<Byte>): (r: Result<Parcel>)
    ensures Deobfuscate(wire).Err? ==> r == Err(Deobfuscate(wire).error)
    ensures r.Ok? ==> Deobfuscate(wire).Ok?
  {
    var d :- Deobfuscate(wire);
    ParseFrame(d)
  }

  /** A parsed frame starts with the sync byte and the codes of its
      addresses, its operation and its packet count, and its packets are well
      formed. */
  lemma ParseFrameSpec(d: seq<Byte>)
    ensures ParseFrame(d).Ok? ==> ParsedFrom(ParseFrame(d).value, d)
  {
    if |d| >= 5 {
      assert d[1..][1..][1..][1..][1..] == d[5..];
      ParsedPacketsWellFormed(d[5..], d[4] as nat);
    }
  }

  /** The header checks, in the order the parser makes them. */
  lemma ParseFrameRejects(d: seq<Byte>)
    ensures |d| == 0 ==> ParseFrame(d) == Err(Truncated)
    ensures |d| > 0 && d[0] != SyncByte ==> ParseFrame(d) == Err(BadSync)
    ensures |d| >= 2 && d[0] == SyncByte && !IsComponentCode(d[1]) ==> ParseFrame(d) == Err(UnknownComponent)
    ensures |d| >= 3 && d[0] == SyncByte && IsComponentCode(d[1]) && !IsComponentCode(d[2])
            ==> ParseFrame(d) == Err(UnknownComponent)
    ensures |d| >= 4 && d[0] == SyncByte && IsComponentCode(d[1]) && IsComponentCode(d[2]) && d[3] > 4
            ==> ParseFrame(d) == Err(UnknownOperation)
    ensures 0 < |d| < 5 && d[0] == SyncByte ==> ParseFrame(d).Err?
  {
  }

  /** Parsed packets are well formed, so their payloads fit. */
  lemma WellFormedFit(ps: seq<Packet>)
    requires AllWellFormed(ps)
    ensures PayloadsFit(ps)
  {
    forall i | 0 <= i < |ps|
      ensures |ps[i].pdata| <= 255
    {
      assert WellFormed(ps[i]);
    }
  }

  /** The encoding of a non-empty packet list is the first packet's encoding
      followed by the rest's. */
  lemma EncodePacketsCons(ps: seq<Packet>)
    requires |ps| > 0 && PayloadsFit(ps)
    ensures PayloadsFit(ps[1..])
    ensures EncodePackets(ps).value == EncodePacket(ps[0]).value + EncodePackets(ps[1..]).value
  {
    assert forall i :: 0 <= i < |ps| - 1 ==> ps[1..][i] == ps[i + 1];
  }

  /** One step of the packet-list parser: the first packet, then the rest. */
  lemma ParsePacketsCons(s: seq<Byte>, ps: seq<Packet>, mid: seq<Byte>, rest: seq<Byte>)
    requires |ps| > 0
    requires ParsePacket(s) == Ok((ps[0], mid))
    requires ParsePackets(mid, |ps[1..]|) == Ok((ps[1..], rest))
    ensures ParsePackets(s, |ps|) == Ok((ps, rest))
  {
    assert [ps[0]] + ps[1..] == ps;
  }

  /** Encodings of well-formed packets, at the head of any stream, parse back
      in order and leave the stream just after them. */
  lemma {:induction false} ParseEncodedPackets(ps: seq<Packet>, rest: seq<Byte>)
    requires AllWellFormed(ps)
    ensures EncodePackets(ps).Ok?
    ensures ParsePackets(EncodePackets(ps).value + rest, |ps|) == Ok((ps, rest))
    decreases |ps|
  {
    WellFormedFit(ps);
    if |ps| == 0 {
      assert EncodePackets(ps).value + rest == rest;
    } else {
      EncodePacketsCons(ps);
      var head, tail := EncodePacket(ps[0]).value, EncodePackets(ps[1..]).value;
      assert head + tail + rest == head + (tail + rest);
      assert WellFormed(ps[0]);
      ParseEncodedPacket(ps[0], tail + rest);
      assert forall i :: 0 <= i < |ps[1..]| ==> ps[1..][i] == ps[i + 1];
      ParseEncodedPackets(ps[1..], rest);
      ParsePacketsCons(head + tail + rest, ps, tail + rest, rest);
    }
  }

  /** Parcels the encoder accepts and whose packets a parser could produce. */
  predicate Encodable(p: Parcel)
  {
    && |p.packets| <= 255
    && AllWellFormed(p.packets)
  }

  /** Sealing a frame keeps its header and its packet bytes: only the
      trailing placeholder becomes the checksum. */
  lemma SealedFrameLayout(p: Parcel)
    requires |p.packets| <= 255 && PayloadsFit(p.packets)
    ensures Frame(p).Ok?
    ensures var d := Seal(Frame(p).value);
      d == Header(p) + EncodePackets(p.packets).value + [d[|d| - 1]]
  {
    var f := Frame(p).value;
    var d := Seal(f);
    var n := |d|;
    assert f[..n - 1] == Header(p) + EncodePackets(p.packets).value;
    assert d == d[..n - 1] + [d[n - 1]];
  }

  /** A frame that starts with a parcel's header and then holds its packets
      reads back as that parcel. */
  lemma ParseHeader(p: Parcel, s: seq<Byte>, rest: seq<Byte>)
    requires |p.packets| <= 255
    requires ParsePackets(s, |p.packets|) == Ok((p.packets, rest))
    ensures ParseFrame(Header(p) + s) == Ok(p)
  {
    var d := Header(p) + s;
    var s1, s2, s3, s4 := d[1..], d[2..], d[3..], d[4..];
    assert ReadByte(d) == Ok((SyncByte, s1));
    assert ReadByte(s1) == Ok((p.src.Code(), s2));
    assert ReadByte(s2) == Ok((p.dst.Code(), s3));
    assert ReadByte(s3) == Ok((p.op.Code(), s4));
    assert ReadByte(s4) == Ok((|p.packets| as Byte, s));
    CodesRoundTrip(Heat, AutoFan, p.src, p.op);
    CodesRoundTrip(Heat, AutoFan, p.dst, p.op);
  }

  /** The sealed frame of an encodable parcel reads back as that parcel. */
  lemma FrameRoundTrip(p: Parcel)
    requires Encodable(p)
    ensures Frame(p).Ok?
    ensures ParseFrame(Seal(Frame(p).value)) == Ok(p)
  {
    WellFormedFit(p.packets);
    SealedFrameLayout(p);
    var d := Seal(Frame(p).value);
    var body, ck := EncodePackets(p.packets).value, [d[|d| - 1]];
    ParseEncodedPackets(p.packets, ck);
    assert d == Header(p) + (body + ck);
    ParseHeader(p, body + ck, ck);
  }

  /** Parsing the encoding of an encodable parcel gives the parcel back:
      addresses, operation, and the packets in order with their types and
      payloads. */
  lemma ParcelRoundTrip(p: Parcel)
    requires Encodable(p)
    ensures EncodeParcel(p).Ok?
    ensures ParseParcel(EncodeParcel(p).value) == Ok(p)
  {
    FrameRoundTrip(p);
    var f := Frame(p).value;
    DeobfuscateObfuscate(f);
    var w := Obfuscate(f).value;
    assert EncodeParcel(p) == Ok(w);
    assert ParseParcel(w) == ParseFrame(Seal(f));
  }

  /** Every parcel the parser returns could have been encoded. */
  lemma ParsedIsEncodable(wire: seq<Byte>)
    ensures ParseParcel(wire).Ok? ==> Encodable(ParseParcel(wire).value)
  {
    if Deobfuscate(wire).Ok? {
      ParseFrameSpec(Deobfuscate(wire).value);
    }
  }

  /** A parcel that was received can be re-sent: it encodes, and the encoding
      parses to the same parcel. */
  lemma ReencodeParsed(wire: seq<Byte>)
    requires ParseParcel(wire).Ok?
    ensures Encodable(ParseParcel(wire).value)
    ensures EncodeParcel(ParseParcel(wire).value).Ok?
    ensures ParseParcel(EncodeParcel(ParseParcel(wire).value).value) == ParseParcel(wire)
  {
    ParsedIsEncodable(wire);
    ParcelRoundTrip(ParseParcel(wire).value);
  }
}
