/** The closed enumerations of the protocol and their one-byte codes. Decoding
    a code outside an enumeration is an error, never a default. */
module Codes {
  import opened Wire

  /** Operating mode of the unit. */
  datatype Mode = Heat | Cool | FanOnly | Dry | Auto {

    function Code(): Byte
    {
      match this
      case Heat => 1
      case Cool => 2
      case FanOnly => 3
      case Dry => 4
      case Auto => 5
    }

    static function FromCode(c: Byte): (r: Result<Mode>)
      ensures r.Ok? <==> 1 <= c <= 5
      ensures r.Ok? ==> r.value.Code() == c
      ensures r.Err? ==> r.error == UnknownMode
    {
      if c == 1 then Ok(Heat)
      else if c == 2 then Ok(Cool)
      else if c == 3 then Ok(FanOnly)
      else if c == 4 then Ok(Dry)
      else if c == 5 then Ok(Auto)
      else Err(UnknownMode)
    }
  }

  /** Fan speed of the unit. */
  datatype FanSpeed = AutoFan | High | Medium | Low {

    function Code(): Byte
    {
      match this
      case AutoFan => 2
      case High => 3
      case Medium => 4
      case Low => 5
    }

    static function FromCode(c: Byte): (r: Result<FanSpeed>)
      ensures r.Ok? <==> 2 <= c <= 5
      ensures r.Ok? ==> r.value.Code() == c
      ensures r.Err? ==> r.error == UnknownFanSpeed
    {
      if c == 2 then Ok(AutoFan)
      else if c == 3 then Ok(High)
      else if c == 4 then Ok(Medium)
      else if c == 5 then Ok(Low)
      else Err(UnknownFanSpeed)
    }
  }

  /** A logical endpoint that can send or receive a parcel. */
  datatype Component = IUnit1 | OUnit1 | AllUnits | App | BleModuleUart {

    function Code(): Byte
    {
      match this
      case IUnit1 => 1
      case OUnit1 => 9
      case AllUnits => 247
      case App => 249
      case BleModuleUart => 254
    }

    static function FromCode(c: Byte): (r: Result<Component>)
      ensures r.Ok? <==> IsComponentCode(c)
      ensures r.Ok? ==> r.value.Code() == c
      ensures r.Err? ==> r.error == UnknownComponent
    {
      if c == 1 then Ok(IUnit1)
      else if c == 9 then Ok(OUnit1)
      else if c == 247 then Ok(AllUnits)
      else if c == 249 then Ok(App)
      else if c == 254 then Ok(BleModuleUart)
      else Err(UnknownComponent)
    }
  }

  /** The address bytes the protocol defines. */
  predicate IsComponentCode(c: Byte)
  {
    c == 1 || c == 9 || c == 247 || c == 249 || c == 254
  }

  /** What a parcel asks for or answers. */
  datatype Operation = Set | SetRes | Req | ReqRes | Notify {

    function Code(): Byte
    {
      match this
      case Set => 0
      case SetRes => 1
      case Req => 2
      case ReqRes => 3
      case Notify => 4
    }

    static function FromCode(c: Byte): (r: Result<Operation>)
      ensures r.Ok? <==> c <= 4
      ensures r.Ok? ==> r.value.Code() == c
      ensures r.Err? ==> r.error == UnknownOperation
    {
      if c == 0 then Ok(Set)
      else if c == 1 then Ok(SetRes)
      else if c == 2 then Ok(Req)
      else if c == 3 then Ok(ReqRes)
      else if c == 4 then Ok(Notify)
      else Err(UnknownOperation)
    }
  }

  /** Every enumeration member survives a trip through its code. */
  lemma CodesRoundTrip(m: Mode, f: FanSpeed, c: Component, o: Operation)
    ensures Mode.FromCode(m.Code()) == Ok(m)
    ensures FanSpeed.FromCode(f.Code()) == Ok(f)
    ensures Component.FromCode(c.Code()) == Ok(c)
    ensures Operation.FromCode(o.Code()) == Ok(o)
  {
  }
}
