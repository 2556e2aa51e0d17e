/** The command parcels the integration sends: each is a single packet from
    the app to a unit, built from one caller-supplied number. */
module Commands {
  import opened Wire
  import opened Codes
  import opened Status
  import opened Obfuscation
  import opened Packets
  import opened Parcels

  /** Packet types of the settable attributes. */
  const PowerType: Byte := 65
  const ModeType: Byte := 66
  const TempType: Byte := 76
  const PowerSaveType: Byte := 84
  const OutingType: Byte := 105

  /** An element of `bytes([...])`: an integer outside 0..255 raises. */
  function ByteOf(x: int): (r: Result<Byte>)
    ensures r.Ok? <==> 0 <= x < 256
    ensures r.Ok? ==> r.value as int == x
    ensures r.Err? ==> r.error == ByteOverflow
  {
    if 0 <= x < 256 then Ok(x as Byte) else Err(ByteOverflow)
  }

  /** A parcel from the app carrying one packet. */
  function Command(dst: Component, op: Operation, ptype: Byte, pdata: seq<Byte>): Parcel
  {
    Parcel(App, dst, op, [Plain(ptype, pdata)])
  }

  /** `PanasonicBLEPower`: 0 is off and 1 is on, sent as 2 and 3. */
  function PowerCommand(state: int): (r: Result<Parcel>)
    ensures r.Ok? <==> -2 <= state <= 253
    ensures r.Err? ==> r.error == ByteOverflow
    ensures r.Ok? ==> |r.value.packets| == 1 && |r.value.packets[0].pdata| == 1
    ensures r.Ok? ==> r.value == Command(IUnit1, Set, PowerType, [r.value.packets[0].pdata[0]])
    ensures r.Ok? ==> r.value.packets[0].pdata[0] as int == state + 2
  {
    var b :- ByteOf(state + 2);
    Ok(Command(IUnit1, Set, PowerType, [b]))
  }

  /** `PanasonicBLEMode`: the mode code as the only payload byte. */
  function ModeCommand(mode: int): (r: Result<Parcel>)
    ensures r.Ok? <==> 0 <= mode < 256
    ensures r.Err? ==> r.error == ByteOverflow
    ensures r.Ok? ==> |r.value.packets| == 1 && |r.value.packets[0].pdata| == 1
    ensures r.Ok? ==> r.value == Command(IUnit1, Set, ModeType, [r.value.packets[0].pdata[0]])
    ensures r.Ok? ==> r.value.packets[0].pdata[0] as int == mode
  {
    var b :- ByteOf(mode);
    Ok(Command(IUnit1, Set, ModeType, [b]))
  }

  /** `PanasonicBLEEnergySaving`: the state as the only payload byte. */
  function EnergySavingCommand(state: int): (r: Result<Parcel>)
    ensures r.Ok? <==> 0 <= state < 256
    ensures r.Err? ==> r.error == ByteOverflow
    ensures r.Ok? ==> |r.value.packets| == 1 && |r.value.packets[0].pdata| == 1
    ensures r.Ok? ==> r.value == Command(IUnit1, Set, PowerSaveType, [r.value.packets[0].pdata[0]])
    ensures r.Ok? ==> r.value.packets[0].pdata[0] as int == state
  {
    var b :- ByteOf(state);
    Ok(Command(IUnit1, Set, PowerSaveType, [b]))
  }

  /** `PanasonicBLEStatusReq`: a request carrying a fixed type-129 packet. */
  function StatusRequest(): (c: Parcel)
    ensures c == Parcel(App, IUnit1, Req, [Plain(StatusType, [4, 0, 14])])
  {
    Command(IUnit1, Req, StatusType, [4, 0, 14])
  }

  /** `PanasonicBLETemp` for a target temperature given in half degrees: the
      temperature byte is the half-degree count plus 70. */
  function TempCommand(halfDegrees: int): (r: Result<Parcel>)
    ensures r.Ok? <==> -70 <= halfDegrees <= 185
    ensures r.Err? ==> r.error == ByteOverflow
    ensures r.Ok? ==> |r.value.packets| == 1 && |r.value.packets[0].pdata| == 4
    ensures r.Ok? ==> var t := r.value.packets[0].pdata[2];
      r.value == Command(IUnit1, Set, TempType, [9, 0, t, 0])
      && t as int == halfDegrees + TempOffset
  {
    var t :- ByteOf(halfDegrees + TempOffset);
    Ok(Command(IUnit1, Set, TempType, [9, 0, t, 0]))
  }

  /** `PanasonicBLEOuting`: sent to the BLE module, the state last. */
  function OutingCommand(state: int): (r: Result<Parcel>)
    ensures r.Ok? <==> 0 <= state < 256
    ensures r.Err? ==> r.error == ByteOverflow
    ensures r.Ok? ==> |r.value.packets| == 1 && |r.value.packets[0].pdata| == 5
    ensures r.Ok? ==> var s := r.value.packets[0].pdata[4];
      r.value == Command(BleModuleUart, Set, OutingType, [0, 0, 17, 2, s])
      && s as int == state
  {
    var s :- ByteOf(state);
    Ok(Command(BleModuleUart, Set, OutingType, [0, 0, 17, 2, s]))
  }

  /** A single-packet command whose packet type the parser carries through
      uninterpreted goes on the wire as eight bytes plus the payload, and
      reads back as the same command. */
  lemma CommandRoundTrip(dst: Component, op: Operation, ptype: Byte, pdata: seq<Byte>)
    requires ptype != StatusType && ptype != OutdoorTempType && |pdata| <= 255
    ensures var c := Command(dst, op, ptype, pdata);
      && EncodeParcel(c).Ok?
      && |EncodeParcel(c).value| == 8 + |pdata|
      && ParseParcel(EncodeParcel(c).value) == Ok(c)
  {
    var c := Command(dst, op, ptype, pdata);
    assert WellFormed(c.packets[0]);
    assert Encodable(c);
    assert PacketsSize(c.packets) == 2 + |pdata| + PacketsSize([]);
    ParcelRoundTrip(c);
  }

  /** Every command the setting builders accept reads back as itself. */
  lemma PowerCommandRoundTrip(state: int)
    requires PowerCommand(state).Ok?
    ensures EncodeParcel(PowerCommand(state).value).Ok?
    ensures ParseParcel(EncodeParcel(PowerCommand(state).value).value) == PowerCommand(state)
  {
    CommandRoundTrip(IUnit1, Set, PowerType, [(state + 2) as Byte]);
  }

  lemma ModeCommandRoundTrip(mode: int)
    requires ModeCommand(mode).Ok?
    ensures EncodeParcel(ModeCommand(mode).value).Ok?
    ensures ParseParcel(EncodeParcel(ModeCommand(mode).value).value) == ModeCommand(mode)
  {
    CommandRoundTrip(IUnit1, Set, ModeType, [mode as Byte]);
  }

  lemma EnergySavingCommandRoundTrip(state: int)
    requires EnergySavingCommand(state).Ok?
    ensures EncodeParcel(EnergySavingCommand(state).value).Ok?
    ensures ParseParcel(EncodeParcel(EnergySavingCommand(state).value).value) == EnergySavingCommand(state)
  {
    CommandRoundTrip(IUnit1, Set, PowerSaveType, [state as Byte]);
  }

  lemma TempCommandRoundTrip(halfDegrees: int)
    requires TempCommand(halfDegrees).Ok?
    ensures EncodeParcel(TempCommand(halfDegrees).value).Ok?
    ensures ParseParcel(EncodeParcel(TempCommand(halfDegrees).value).value) == TempCommand(halfDegrees)
  {
    CommandRoundTrip(IUnit1, Set, TempType, [9, 0, (halfDegrees + TempOffset) as Byte, 0]);
  }

  lemma OutingCommandRoundTrip(state: int)
    requires OutingCommand(state).Ok?
    ensures EncodeParcel(OutingCommand(state).value).Ok?
    ensures ParseParcel(EncodeParcel(OutingCommand(state).value).value) == OutingCommand(state)
  {
    CommandRoundTrip(BleModuleUart, Set, OutingType, [0, 0, 17, 2, state as Byte]);
  }

  /** Power off is sent as 2 and power on as 3, and the status decoder reads
      bit 0 of a power byte: 3 reads as on and 2 as off. */
  lemma PowerStates()
    ensures PowerCommand(0).Ok? && PowerCommand(0).value.packets[0].pdata == [2]
    ensures PowerCommand(1).Ok? && PowerCommand(1).value.packets[0].pdata == [3]
    ensures LowBit(2) == 0 && LowBit(3) == 1
  {
  }

  /** The mode command for a mode carries that mode's code, which decodes back
      to the mode. */
  lemma ModeCommandOfMode(m: Mode)
    ensures ModeCommand(m.Code() as int).Ok?
    ensures Mode.FromCode(ModeCommand(m.Code() as int).value.packets[0].pdata[0]) == Ok(m)
  {
    CodesRoundTrip(m, AutoFan, App, Set);
  }

  /** The temperature byte a temperature command sends is read back by the
      status decoder's half-degree convention as the requested value. */
  lemma TempCommandReadsBack(halfDegrees: int)
    requires -70 <= halfDegrees <= 185
    ensures TempCommand(halfDegrees).Ok?
    ensures HalfDegrees(TempCommand(halfDegrees).value.packets[0].pdata[2]) == halfDegrees
  {
  }

  /** The status request encodes, but its own encoding does not parse: the
      parser takes any type-129 packet for a status report, and the request's
      first payload byte 4 has mode field `(4 >> 5) & 7 == 0`, which is no
      mode. */
  lemma StatusRequestNotReparsable()
    ensures EncodeParcel(StatusRequest()).Ok?
    ensures |EncodeParcel(StatusRequest()).value| == 11
    ensures ParseParcel(EncodeParcel(StatusRequest()).value) == Err(UnknownMode)
  {
    var c := StatusRequest();
    var pdata: seq<Byte> := [4, 0, 14];
    assert PacketsSize(c.packets) == 2 + |pdata| + PacketsSize([]);
    SealedFrameLayout(c);
    var f := Frame(c).value;
    var d := Seal(f);
    var body := [StatusType, 3 as Byte] + pdata;
    assert EncodePackets(c.packets).value == body;
    var s := body + [d[|d| - 1]];
    assert d == Header(c) + s;
    assert d[1..][1..][1..][1..][1..] == s;
    assert s[1..][1..][..3] == pdata;
    assert DecodeStatus(pdata) == Err(UnknownMode);
    assert ParsePacket(s) == Err(UnknownMode);
    assert ParseFrame(d) == Err(UnknownMode);
    DeobfuscateObfuscate(f);
  }
}
