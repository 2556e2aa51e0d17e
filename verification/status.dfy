/** Decoding of the status-report payload (packet type 129) into telemetry. */
module Status {
  import opened Wire
  import opened Codes

  /** Offset subtracted from a temperature byte; the rest counts half degrees. */
  const TempOffset: int := 70

  /** Decoded telemetry. Temperatures are in half-degree units (`byte - 70`);
      `curTemp` is 0 when the payload is too short to carry it, as in the
      source. `powerSave` is the raw byte, which callers read as a truth value. */
  datatype StatusReport = StatusReport(
    power: bool,
    mode: Mode,
    fanSpeed: FanSpeed,
    setTemp: int,
    curTemp: int,
    powerSave: Byte)

  /** Bits 7..5 of a byte, `(b >> 5) & 7`: shifting right by 5 divides by 32,
      and masking with 7 keeps the remainder modulo 8. */
  function TopBits(b: Byte): (r: Byte)
    ensures r <= 7
    ensures 32 * r as int <= b as int < 32 * (r as int + 1)
  {
    ((b as int / 32) % 8) as Byte
  }

  /** Bit 0 of a byte, `b & 1`. */
  function LowBit(b: Byte): (r: Byte)
    ensures r <= 1 && (b as int - r as int) % 2 == 0
  {
    (b as int % 2) as Byte
  }

  /** Half-degree value carried by a temperature byte. */
  function HalfDegrees(b: Byte): (t: int)
    ensures -70 <= t <= 185
    ensures t + TempOffset == b as int
  {
    b as int - TempOffset
  }

  /** The status decoder. Fields are read in the source's order, so the error
      raised is the first one met: byte 0 (power), the mode field, byte 4 (set
      temperature), the fan field, then the sixth byte from the end. */
  function DecodeStatus(d: seq<Byte>): (r: Result<StatusReport>)
    ensures r.Ok? <==> |d| >= 6 && 1 <= TopBits(d[0]) <= 5 && 2 <= TopBits(d[1]) <= 5
    ensures |d| == 0 ==> r == Err(Truncated)
    ensures |d| > 0 && !(1 <= TopBits(d[0]) <= 5) ==> r == Err(UnknownMode)
    ensures 0 < |d| < 5 && 1 <= TopBits(d[0]) <= 5 ==> r == Err(Truncated)
    ensures |d| >= 5 && 1 <= TopBits(d[0]) <= 5 && !(2 <= TopBits(d[1]) <= 5) ==> r == Err(UnknownFanSpeed)
    ensures |d| == 5 && 1 <= TopBits(d[0]) <= 5 && 2 <= TopBits(d[1]) <= 5 ==> r == Err(Truncated)
    ensures r.Ok? ==>
      && r.value.power == (LowBit(d[0]) == 1)
      && r.value.mode.Code() == TopBits(d[0])
      && r.value.fanSpeed.Code() == TopBits(d[1])
      && r.value.setTemp == d[4] as int - 70
      && r.value.powerSave == d[|d| - 6]
      && r.value.curTemp == (if |d| > 12 then d[5] as int - 70 else 0)
  {
    if |d| == 0 then Err(Truncated)
    else
      var power := LowBit(d[0]) == 1;
      var mode :- Mode.FromCode(TopBits(d[0]));
      if |d| < 5 then Err(Truncated)
      else
        var setTemp := HalfDegrees(d[4]);
        var fanSpeed :- FanSpeed.FromCode(TopBits(d[1]));
        if |d| < 6 then Err(Truncated)
        else
          var powerSave := d[|d| - 6];
          var curTemp := if |d| > 12 then HalfDegrees(d[5]) else 0;
          Ok(StatusReport(power, mode, fanSpeed, setTemp, curTemp, powerSave))
  }

  /** The 13-byte sample payload `[0x21, 0x60, 0, 0, 99, 101, 0, 0, 0, 0, 0, 1, 0]`
      decodes to: power on, heat, high fan, set 14.5 degrees (29 half
      degrees), room 15.5 degrees (31 half degrees), power-save byte 0. */
  lemma SampleStatusDecodes()
    ensures DecodeStatus([0x21, 0x60, 0, 0, 99, 101, 0, 0, 0, 0, 0, 1, 0])
         == Ok(StatusReport(true, Heat, High, 29, 31, 0))
  {
    var d: seq<Byte> := [0x21, 0x60, 0, 0, 99, 101, 0, 0, 0, 0, 0, 1, 0];
    assert TopBits(d[0]) == 1 && TopBits(d[1]) == 3;
    assert LowBit(d[0]) == 1;
  }
}
