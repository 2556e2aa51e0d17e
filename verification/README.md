# Panasonic H&C Bluetooth codec in Dafny

A model of the message codec of the Panasonic H&C Bluetooth air-conditioner
integration, `custom_components/panasonic_hc/panasonic_hc_proto.py`. It covers:

- the obfuscation transform that wraps every frame (`_cksum`, `_encode`,
  `_decode`): an 8-bit checksum in the last byte, XOR of byte 0 with 202, a
  forward XOR chain and a final XOR of every byte with 105;
- packets (type byte, length byte, payload) and their parser, which reads from
  a byte stream;
- parcels (sync byte 0x11, source, destination, operation, packet count,
  packets, checksum) with their encoder and parser;
- the decoder of the status-report payload (packet type 129) into power,
  mode, fan speed, set and room temperature and power-save;
- the command builders for power, mode, energy saving, status request, target
  temperature and "outing".

Modules, one per layer: `Bits` (XOR on naturals and its algebra), `Wire`
(bytes, errors, `Result`), `Obfuscation`, `Codes` (the enumerations), `Status`,
`Packets`, `Parcels`, `Commands`.

Modelling choices:

- A byte is `Wire.Byte`, an integer in 0..255. Every Python exception the
  codec can raise becomes one `Wire.Error` value inside `Result`:
  - the index error of `_encode` or `_decode` on an empty buffer
    (`data[-1]`, `data[0]`) is `EmptyFrame`;
  - any other index error past the end of the data (a `fd.read(1)[0]` at the
    end of the stream, a fixed-offset payload index) is `Truncated`;
  - `ValueError("Bad Checksum")` is `BadChecksum`;
  - `ValueError("Bad packet")`, for a frame not starting with 0x11, is
    `BadSync`;
  - an enumeration lookup of an unknown value is `UnknownComponent`,
    `UnknownOperation`, `UnknownMode` or `UnknownFanSpeed`;
  - the `TypeError` raised when a type-33 packet is constructed is
    `OutdoorTempUnusable`;
  - an `int.to_bytes()` or `bytes([...])` of a value outside 0..255 is
    `ByteOverflow`.
- `io.BytesIO` is modelled as the bytes not read yet. `fd.read(1)[0]` fails at
  the end of the stream. `fd.read(n)` returns fewer bytes, without error, when
  fewer are left.
- Temperatures are kept in half-degree units (`byte - 70`), so the source's
  division by 2 is exact.

Where the code is more permissive, or less useful, than the wire format would
lead one to expect, the model follows the code:

- `_decode` and `_encode` fail for lack of bytes only on an empty buffer
  (`_decode` also fails on a bad checksum). Buffers of one or two bytes are
  accepted, with an empty checksummed interior.
- A packet whose payload is cut short by the end of the frame is accepted with
  the shorter payload (`Packets.ShortPayloadAccepted`).
- The checksum does not catch every single-bit change on the wire: a bit flipped
  in an interior wire byte flips the same bit in two adjacent plaintext bytes,
  and their sum can stay the same (`Obfuscation.InteriorBitFlipMayEscape`).
  A change to the last wire byte is always caught
  (`Obfuscation.LastByteTamperDetected`).
- A type-33 (outdoor temperature) packet can never be parsed: the class's
  constructor takes no payload arguments, so the call raises.
- The status request, a type-129 packet, is not parseable by the codec itself:
  every type-129 packet is decoded as a status report, and the request's first
  byte holds no valid mode (`Commands.StatusRequestNotReparsable`).

## Model

| member | source | states |
|---|---|---|
| Obfuscation.Cksum | custom_components/panasonic_hc/panasonic_hc_proto.py:7-11 | the running checksum, masked with 255 after every addition, always fits one byte |
| Obfuscation.CksumIsSumMod256 | custom_components/panasonic_hc/panasonic_hc_proto.py:7-11 | masking after every addition gives the plain sum of the bytes modulo 256 |
| Obfuscation.Checksum | custom_components/panasonic_hc/panasonic_hc_proto.py:7-11 | the left-to-right accumulation loop computes that checksum, the sum modulo 256 |
| Obfuscation.Interior | custom_components/panasonic_hc/panasonic_hc_proto.py:24 | `data[1:-1]` is every byte but the first and the last, and is empty for buffers shorter than two |
| Obfuscation.Seal | custom_components/panasonic_hc/panasonic_hc_proto.py:30-32 | overwriting the last byte with the interior's checksum keeps the length and every other byte, and makes the checksum hold |
| Obfuscation.SealIdempotent | custom_components/panasonic_hc/panasonic_hc_proto.py:30-32 | sealing a buffer whose checksum already holds leaves it unchanged |
| Obfuscation.Whiten | custom_components/panasonic_hc/panasonic_hc_proto.py:16-17 | the XOR-105 loop keeps the buffer's length; it is its own inverse (`Obfuscation.WhitenInvolution`) and is what the in-place loop computes (`Obfuscation.WhitenInPlace`) |
| Obfuscation.Chain | custom_components/panasonic_hc/panasonic_hc_proto.py:34-36 | the encoder's forward chain keeps the buffer's length; each byte is characterised by `Obfuscation.ChainAt`, and it is inverted by `Obfuscation.Unchain` (`Obfuscation.UnchainOfChain`, `Obfuscation.ChainOfUnchain`) |
| Obfuscation.Unchain | custom_components/panasonic_hc/panasonic_hc_proto.py:19-22 | the decoder's backward loop keeps the buffer's length and inverts `Obfuscation.Chain` in both directions (`Obfuscation.UnchainOfChain`, `Obfuscation.ChainOfUnchain`) |
| Obfuscation.WhitenInvolution | custom_components/panasonic_hc/panasonic_hc_proto.py:16-17 | XORing every byte with 105 twice gives the buffer back |
| Obfuscation.ChainAt | custom_components/panasonic_hc/panasonic_hc_proto.py:34-36 | byte i of the encoder's chain is plaintext byte i XOR the previous chained byte, or XOR 202 for byte 0 |
| Obfuscation.UnchainOfChain | custom_components/panasonic_hc/panasonic_hc_proto.py:19-22 | the decoder's backward XOR loop undoes the encoder's forward chain |
| Obfuscation.ChainOfUnchain | custom_components/panasonic_hc/panasonic_hc_proto.py:33-36 | the forward chain undoes the backward loop, so the chain is a bijection on buffers |
| Obfuscation.Obfuscate | custom_components/panasonic_hc/panasonic_hc_proto.py:30-41 | `_encode` fails exactly on the empty buffer and otherwise keeps the length |
| Obfuscation.Deobfuscate | custom_components/panasonic_hc/panasonic_hc_proto.py:14-27 | `_decode` fails on the empty buffer, otherwise fails only with a bad checksum, and what it returns has the input's length and a valid checksum |
| Obfuscation.DeobfuscateObfuscate | custom_components/panasonic_hc/panasonic_hc_proto.py:14-41 | decoding an encoded buffer gives the buffer back with its last byte replaced by the interior's checksum |
| Obfuscation.ObfuscateDeobfuscate | custom_components/panasonic_hc/panasonic_hc_proto.py:14-41 | every buffer that decodes is the encoding of what it decodes to |
| Obfuscation.WireMaskSpreads | custom_components/panasonic_hc/panasonic_hc_proto.py:14-22 | XORing a mask into one wire byte XORs it into the same plaintext byte and the next one, and changes no other byte |
| Obfuscation.LastByteTamperDetected | custom_components/panasonic_hc/panasonic_hc_proto.py:24-25 | any change to the last byte of a valid wire buffer makes decoding fail with a bad checksum |
| Obfuscation.InteriorBitFlipMayEscape | custom_components/panasonic_hc/panasonic_hc_proto.py:14-27 | a concrete valid buffer in which one flipped interior bit still decodes, to different bytes |
| Obfuscation.OneByteFramesDecode | custom_components/panasonic_hc/panasonic_hc_proto.py:14-41 | one-byte buffers encode to one byte, and that byte decodes to the checksum of an empty interior, 0 |
| Obfuscation.WhitenInPlace | custom_components/panasonic_hc/panasonic_hc_proto.py:38-39 | the in-place loop XORs every byte with 105 |
| Obfuscation.ChainInPlace | custom_components/panasonic_hc/panasonic_hc_proto.py:33-36 | the in-place forward loop, which reads the byte before after updating it, computes the chain |
| Obfuscation.UnchainInPlace | custom_components/panasonic_hc/panasonic_hc_proto.py:19-22 | the in-place backward loop, which reads the byte before before it is updated, then fixes byte 0, computes the inverse chain |
| Obfuscation.EncodeBuffer | custom_components/panasonic_hc/panasonic_hc_proto.py:30-41 | the statement-by-statement `_encode` computes the same result as the layered definition |
| Obfuscation.DecodeBuffer | custom_components/panasonic_hc/panasonic_hc_proto.py:14-27 | the statement-by-statement `_decode` computes the same result as the layered definition, error cases included |
| Codes.Mode.FromCode | custom_components/panasonic_hc/panasonic_hc_proto.py:44-49 | `MODE(v)` succeeds exactly for 1..5, giving the mode with that value, and raises otherwise |
| Codes.FanSpeed.FromCode | custom_components/panasonic_hc/panasonic_hc_proto.py:52-56 | `FANSPEED(v)` succeeds exactly for 2..5, giving the speed with that value, and raises otherwise |
| Codes.Component.FromCode | custom_components/panasonic_hc/panasonic_hc_proto.py:132-137 | `COMPONENT(v)` succeeds exactly for 1, 9, 247, 249 and 254, giving the component with that value, and raises otherwise |
| Codes.Operation.FromCode | custom_components/panasonic_hc/panasonic_hc_proto.py:139-144 | `OPERATION(v)` succeeds exactly for 0..4, giving the operation with that value, and raises otherwise |
| Codes.CodesRoundTrip | custom_components/panasonic_hc/panasonic_hc_proto.py:44-56 | every mode, fan speed, component and operation is found again from its numeric value |
| Status.TopBits | custom_components/panasonic_hc/panasonic_hc_proto.py:103 | `(b >> 5) & 7` is the number of whole 32s in the byte, between 0 and 7 |
| Status.LowBit | custom_components/panasonic_hc/panasonic_hc_proto.py:102 | `b & 1` is 0 or 1 and has the byte's parity |
| Status.DecodeStatus | custom_components/panasonic_hc/panasonic_hc_proto.py:99-109 | the status payload decodes exactly when it has at least six bytes and valid mode and fan fields; otherwise the first failing read in source order gives the error; the fields are bit 0 and bits 7..5 of byte 0, bits 7..5 of byte 1, byte 4, the sixth byte from the end, and byte 5 only when there are more than 12 bytes |
| Status.SampleStatusDecodes | custom_components/panasonic_hc/panasonic_hc_proto.py:99-109 | a 13-byte sample report decodes to power on, heat, high fan, 29 and 31 half degrees, power-save off |
| Packets.EncodePacket | custom_components/panasonic_hc/panasonic_hc_proto.py:92-93 | a packet encodes as its type, its payload length and its payload, and fails exactly when the length does not fit a byte |
| Packets.ReadByte | custom_components/panasonic_hc/panasonic_hc_proto.py:81-82 | `fd.read(1)[0]`: one byte and the rest of the stream, or an index error at its end; its behaviour is stated by `Packets.ParsePacketAccepts` and `Parcels.ParseFrameRejects` |
| Packets.ReadUpTo | custom_components/panasonic_hc/panasonic_hc_proto.py:83 | `fd.read(n)` splits the stream into what was read and what is left, reading n bytes, or all that remain when fewer than n are left, without error |
| Packets.ParsePacket | custom_components/panasonic_hc/panasonic_hc_proto.py:78-90 | a parsed packet consumes at least its two header bytes; its dispatch on the type is stated by `Packets.ParsePacketAccepts` and its layout by `Packets.ParsePacketLayout` |
| Packets.ParsePacketAccepts | custom_components/panasonic_hc/panasonic_hc_proto.py:78-90 | a stream shorter than two bytes is an index error; a type-129 packet parses exactly when its payload decodes as a status report and otherwise fails with the decoder's error; type 33 always fails; every other type is accepted |
| Packets.ParsePacketLayout | custom_components/panasonic_hc/panasonic_hc_proto.py:81-83 | a parsed packet is the type byte, the length byte, then the payload, as many bytes as announced or as are left, and the stream resumes right after it |
| Packets.ParsedPacketWellFormed | custom_components/panasonic_hc/panasonic_hc_proto.py:84-90 | a parsed type-129 packet carries the status decoding of its payload, and no other parsed packet has type 129 or 33 |
| Packets.ParseEncodedPacket | custom_components/panasonic_hc/panasonic_hc_proto.py:78-93 | a parseable packet's encoding, followed by anything, parses back to that packet and leaves exactly what followed |
| Packets.ShortPayloadAccepted | custom_components/panasonic_hc/panasonic_hc_proto.py:83 | a length byte of 5 with two bytes left gives a two-byte payload, not an error |
| Parcels.Header | custom_components/panasonic_hc/panasonic_hc_proto.py:176-182 | a parcel's header is five bytes |
| Parcels.EncodePackets | custom_components/panasonic_hc/panasonic_hc_proto.py:182-184 | the packets encode exactly when every payload fits a length byte, to two bytes plus the payload per packet |
| Parcels.Frame | custom_components/panasonic_hc/panasonic_hc_proto.py:175-186 | the frame before obfuscation is the header, the encoded packets and a zero byte; it fails exactly when the count or a payload length does not fit a byte |
| Parcels.EncodeParcel | custom_components/panasonic_hc/panasonic_hc_proto.py:175-188 | a parcel encodes to six bytes plus its packets' size, under the same conditions as its frame |
| Parcels.ParsePackets | custom_components/panasonic_hc/panasonic_hc_proto.py:166-169 | reading a count of packets returns exactly that many and never grows the stream |
| Parcels.ParsedPacketsWellFormed | custom_components/panasonic_hc/panasonic_hc_proto.py:166-169 | every packet of a parsed list could have come from the packet parser |
| Parcels.ParseFrame | custom_components/panasonic_hc/panasonic_hc_proto.py:157-173 | a parsed frame has at least five bytes and holds as many packets as its count byte says |
| Parcels.ParseParcel | custom_components/panasonic_hc/panasonic_hc_proto.py:153-173 | a wire buffer that does not decode fails with the decoder's error, and a parsed one decoded |
| Parcels.ParseFrameSpec | custom_components/panasonic_hc/panasonic_hc_proto.py:158-173 | a parsed frame starts with 0x11 and the codes of the parcel's source, destination, operation and packet count, and its packets are parseable ones |
| Parcels.ParseFrameRejects | custom_components/panasonic_hc/panasonic_hc_proto.py:158-166 | the header checks fail in source order: empty data, wrong sync byte, unknown source, unknown destination, unknown operation, and any frame shorter than five bytes |
| Parcels.ParseEncodedPackets | custom_components/panasonic_hc/panasonic_hc_proto.py:166-169 | the encodings of parseable packets, followed by anything, parse back to those packets in order and leave what followed |
| Parcels.SealedFrameLayout | custom_components/panasonic_hc/panasonic_hc_proto.py:175-188 | sealing the frame keeps the header and the packet bytes and changes only the trailing byte |
| Parcels.ParseHeader | custom_components/panasonic_hc/panasonic_hc_proto.py:158-173 | a parcel's header followed by its packets parses to that parcel |
| Parcels.FrameRoundTrip | custom_components/panasonic_hc/panasonic_hc_proto.py:158-188 | the sealed frame of an encodable parcel parses back to the parcel |
| Parcels.ParcelRoundTrip | custom_components/panasonic_hc/panasonic_hc_proto.py:153-188 | parsing the encoding of a parcel with at most 255 parseable packets gives back its addresses, operation and packets in order |
| Parcels.ParsedIsEncodable | custom_components/panasonic_hc/panasonic_hc_proto.py:153-173 | every parsed parcel has at most 255 packets, all of them encodable |
| Parcels.ReencodeParsed | custom_components/panasonic_hc/panasonic_hc_proto.py:153-188 | every received parcel re-encodes, and its encoding parses to the same parcel |
| Commands.ByteOf | custom_components/panasonic_hc/panasonic_hc_proto.py:215 | `bytes([x])` succeeds exactly for 0..255 and keeps the value |
| Commands.PowerCommand | custom_components/panasonic_hc/panasonic_hc_proto.py:229-237 | the power command is a SET from the app to the indoor unit with one type-65 packet whose byte is the state plus 2, and fails when that is not a byte |
| Commands.ModeCommand | custom_components/panasonic_hc/panasonic_hc_proto.py:209-216 | the mode command is a SET to the indoor unit with one type-66 packet holding the mode value |
| Commands.EnergySavingCommand | custom_components/panasonic_hc/panasonic_hc_proto.py:219-226 | the energy-saving command is a SET to the indoor unit with one type-84 packet holding the state |
| Commands.StatusRequest | custom_components/panasonic_hc/panasonic_hc_proto.py:240-247 | the status request is a REQ from the app to the indoor unit carrying the single type-129 packet with payload `[4, 0, 14]` |
| Commands.TempCommand | custom_components/panasonic_hc/panasonic_hc_proto.py:250-258 | the temperature command is a SET to the indoor unit with one type-76 packet `9, 0, t, 0`, where t is the half-degree count plus 70 |
| Commands.OutingCommand | custom_components/panasonic_hc/panasonic_hc_proto.py:261-270 | the outing command is a SET to the BLE module with one type-105 packet `0, 0, 17, 2, state` |
| Commands.CommandRoundTrip | custom_components/panasonic_hc/panasonic_hc_proto.py:209-270 | a one-packet command of a type the parser passes through goes on the wire as 8 bytes plus its payload and parses back to itself |
| Commands.PowerCommandRoundTrip | custom_components/panasonic_hc/panasonic_hc_proto.py:229-237 | every power command that builds parses back from its encoding |
| Commands.ModeCommandRoundTrip | custom_components/panasonic_hc/panasonic_hc_proto.py:209-216 | every mode command that builds parses back from its encoding |
| Commands.EnergySavingCommandRoundTrip | custom_components/panasonic_hc/panasonic_hc_proto.py:219-226 | every energy-saving command that builds parses back from its encoding |
| Commands.TempCommandRoundTrip | custom_components/panasonic_hc/panasonic_hc_proto.py:250-258 | every temperature command that builds parses back from its encoding |
| Commands.OutingCommandRoundTrip | custom_components/panasonic_hc/panasonic_hc_proto.py:261-270 | every outing command that builds parses back from its encoding |
| Commands.PowerStates | custom_components/panasonic_hc/panasonic_hc_proto.py:231 | off is sent as 2 and on as 3, which the status decoder's bit 0 reads as off and on |
| Commands.ModeCommandOfMode | custom_components/panasonic_hc/panasonic_hc_proto.py:209-216 | the mode command for a mode carries a byte that decodes back to that mode |
| Commands.TempCommandReadsBack | custom_components/panasonic_hc/panasonic_hc_proto.py:252 | the temperature byte sent reads back, by the status decoder's convention, as the requested half-degree value |
| Commands.StatusRequestNotReparsable | custom_components/panasonic_hc/panasonic_hc_proto.py:240-247 | the status request encodes to 11 bytes, but parsing them fails with an unknown mode |

## Left out

- The Bluetooth session layer, `custom_components/panasonic_hc/panasonic_hc.py`
  (connection, polling, notifications), is not part of this model. It is I/O.
- Floating point: the status decoder's `/ 2` and the outdoor temperature's
  `/ 10` produce floats. The model keeps the exact integer before the division,
  in half degrees for the status report.
- Commands.TempCommand: takes the temperature as a whole number of half
  degrees. The source's `int(temp * 2 + 70)` on an arbitrary float, with its
  truncation toward zero, is not modelled.
- The outdoor-temperature packet's decoding (`pdata[1] / 10`) is unreachable,
  because its constructor cannot be called with a payload. Only the failure
  is modelled.
- `__str__`, `__iter__` and `__next__` are display and iteration helpers with
  no effect on the bytes.
- The `PACKET_TYPE` enumeration is not used by the code. The model names the
  packet types as constants.
- Constructing a parcel from component and operation names
  (`COMPONENT[src]`) is not modelled. The model's parcels hold enumeration values,
  so an unknown name cannot be written.
- Packets.EncodePacket: a packet type above 255 would make `to_bytes()` raise.
  A type is a byte in the model, and every parsed type is one, so this case
  cannot be written.
- The exception classes (`IndexError`, `ValueError`, `OverflowError`,
  `TypeError`) are merged into the one `Error` type. Only which failure
  happens is kept.
