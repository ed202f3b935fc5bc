# unilux-uart: a verified model

A Dafny model of the AUP/WMMM thermostat protocol stack of unilux-uart, from single bytes on a
UART up to the climate entity of the ESPHome component, with proofs of what the stack promises.

* `Aup.dfy`, `AupStream.dfy`, `AupDecoder.dfy`: the AUP framer. `AupDecoder.Decoder` is the
  byte-at-a-time state machine with its fields; `Aup.Parse` is a reference parser over whole
  streams (first marker, header, exactly the declared payload, start over), and every call of
  `Consume` returns what the reference parser predicts for that byte.
* `Binary.dfy`, `Tenfold.dfy`, `FixedPoint.dfy`: IEEE 754 rounding for any precision, tenths in
  any precision, and the tenths of a degree in single precision that every temperature message
  multiplies and divides by ten.
* `Wmmm.dfy`, `UnitSlot.dfy`, `AllConfig.dfy`, `Schedule.dfy`, `Messages.dfy`,
  `MessageRoundTrips.dfy`: the message layers, with the buffer-writing encoders proved against
  layouts, and what survives encoding and decoding, over all fourteen message types.
* `WireFormat.dfy`: the wire format by its numbers, byte by byte and field by field, apart from the
  constants and layouts that the encoders and decoders share.
* `Link.dfy`: the composition of the layers in both directions, through noise.
* `Climate.dfy`, `UniluxUart.dfy`: the climate entity, as functions on its state and as objects.
* `Agreement.dfy`, `WireAgreement.dfy`: the entity against a device over whole runs, first on
  messages and then on the bytes that carry them.

Floats are modelled as the real numbers they stand for, rounded to nearest with ties to even
(sections 4.3.1 and 5.4.1 of IEEE 754-2019) at the precision and smallest exponent of binary32
(section 3.6). The lemmas hold for every real, so for every float. A cast of a float to an integer
type is undefined in C++ when the truncated value does not fit; the encoders require that it fits,
and nothing else.

Where the repository's comments and its code differ, the model follows the code:

* `Power`, `Mode` and `FanSpeed` are documented as exact inverses (include/messages/power.hpp:50-51,
  include/messages/mode.hpp:54-55, include/messages/fan_speed.hpp:53-54). They are so only on
  canonical frames: a state byte of 2 comes back as 1, and reserved bytes come back as zero.
  `MessageRoundTrips.EncodeOfDecode` says exactly when a frame comes back, `PowerNotInverse` and
  `EnumerationNotInverse` give frames that do not.
* `AllConfig` is documented as an exact inverse (include/messages/all_config.hpp:31-32). Bytes
  behind the first NUL of a unit slot are dropped, and a temperature word of 0x8000 or more decodes
  to a negative float whose cast back to `uint16_t` is undefined. `AllConfig.PayloadRoundTrip` gives
  both conditions exactly, `MessageRoundTrips.ConfigNotInverse` and `NegativeConfigNotEncodable` a
  payload for each.
* After booting switched off, a request for heating sends no Mode message, because heating is what
  the entity assumes. `Agreement.BootOffThenHeat` shows that a device in another mode then stays in
  it; `Agreement.AgreementOverRuns` says exactly when the modes agree.
* A broadcast mode or fan byte that the entity does not know is ignored by the entity but not by
  the device that sent it. They then disagree on it until the next known byte crosses, as
  `Agreement.AgreementOverRuns` says; power and setpoint agree all the same.

The main results are marked in the table below; the other rows lead up to them.

## Model

| member | source | states |
|---|---|---|
| Bytes.BitOrDisjoint | include/utils.hpp:41-58 | Or-ing a value into cleared low bits is addition, for every width |
| Bytes.FromBe16 | include/utils.hpp:40-42 | Shift and or read the big-endian value of two bytes |
| Bytes.FromBe32 | include/utils.hpp:55-59 | Three shifts and ors read the big-endian value of four bytes |
| Bytes.ToBe16 | include/utils.hpp:47-50 | Stores the two big-endian bytes in place and touches nothing else |
| Bytes.ToBe32 | include/utils.hpp:64-69 | Stores the four big-endian bytes in place and touches nothing else |
| Aup.FrameOf | include/aup.hpp:33-47 | The frame read from a complete byte sequence is well formed and lays out those bytes again |
| Aup.FrameOfWire | include/aup.hpp:127-133 | A well-formed frame is recovered from its layout |
| Aup.PartialMeansPrefix | src/aup.cpp:37-111 | The byte sequences that a decoder can be in the middle of are the proper prefixes of frames |
| Aup.FindMarker | include/aup.hpp:81-85 | The position of the first adjacent marker pair, or the end when there is none |
| Aup.ParseJoin | src/aup.cpp:37-135 | Every stream divides into marker-free gaps, well-formed frames and an unfinished rest that together are all its bytes in order |
| Aup.JoinParse | src/aup.cpp:37-135 | Any valid division of a stream is the one the reference parser finds |
| Aup.UniqueSegmentation | src/aup.cpp:37-135 | **Main result.** Two valid divisions of the same bytes are equal |
| AupStream.ResidueIsLongest | include/aup.hpp:81-87 | A receiver remembers a suffix of its input, the longest that can still become a frame |
| AupStream.FoldAppend | src/aup.cpp:37-111 | Receiving a concatenation is receiving its parts in turn |
| AupStream.AbsorbFrame | src/aup.cpp:96-106 | The last byte of a frame emits it, no earlier byte emits anything, and nothing is remembered |
| AupStream.AbsorbGap | src/aup.cpp:39-60 | Marker-free noise is received in silence and leaves at most one first marker byte |
| AupStream.MarkerRestarts | src/aup.cpp:52-55 | A run of first marker bytes collapses: after one, another means what it means at the start |
| AupStream.ReceiveJoin | src/aup.cpp:37-111 | The bytes of a valid division give, byte for byte, the events it predicts |
| AupStream.Refinement | src/aup.cpp:37-111 | **Main result.** Over any stream the receiver emits the reference parser's frames, each at its last byte |
| AupStream.NoisyRoundTrip | include/aup.hpp:81-87 | **Main result.** Well-formed frames arrive, and nothing else, through any marker-free noise, whatever their payloads contain |
| AupStream.InverseExactlyWhenWellFormed | include/aup.hpp:127-140 | Decoding an encoded frame gives that frame and leaves nothing exactly if it is well formed |
| AupStream.Chunking | esphome/components/unilux_uart/unilux_uart.cpp:205-212 | How a stream is cut into chunks does not change the events |
| AupStream.BytesLeftDecreases | src/aup.cpp:48-111 | Every byte other than the first marker byte brings an unfinished frame closer to its end |
| AupStream.Stabilise | src/aup.cpp:48-111 | From any reachable state, enough such bytes emit at most one frame and end the hunt at its start |
| AupStream.Recovery | src/aup.cpp:48-111 | **Main result.** After 65542 such bytes everything that follows is received as by a fresh decoder |
| AupStream.BoundAttained | src/aup.cpp:48-111 | 65541 such bytes can be too few |
| AupDecoder.Decoder.constructor | include/aup.hpp:115-117 | A new decoder is valid whatever its indeterminate header fields hold |
| AupDecoder.Decoder.Reset | include/aup.hpp:119-124 | All three fields return to their initial values |
| AupDecoder.Decoder.AssembleLength | src/aup.cpp:82-95 | The or-ed length is the declared length, and a frame without payload is complete |
| AupDecoder.Decoder.AssemblePayload | src/aup.cpp:96-106 | The counter never wraps, and the frame is complete at exactly the declared length |
| AupDecoder.Decoder.Assemble | src/aup.cpp:37-111 | The switch on the state tracks the remembered bytes through every byte |
| AupDecoder.Decoder.Consume | src/aup.cpp:37-111 | **Main result.** The result is what the reference parser says of everything consumed; a frame re-encodes to the last bytes consumed and leaves the fields of a new decoder |
| AupDecoder.Encode | src/aup.cpp:113-135 | Pushes exactly the layout of the frame |
| Binary.RoundHalfEven | include/messages/temperature.hpp:75-107 | The nearest integer, and the even one in a tie |
| Binary.RoundMono | include/messages/temperature.hpp:75-85 | Rounding keeps order, across binades and subnormals |
| Binary.IntegerExact | include/messages/temperature.hpp:104-105 | Integers within the precision are exact |
| Binary.RoundIsNearest | include/messages/temperature.hpp:75-107 | In every format, no value of it is nearer than the rounding, and where another is as near the rounding is the even one |
| Binary.MultiplyBack | include/messages/temperature.hpp:75-107 | **Main result.** In every precision, every integer below half the precision survives rounded division by ten and rounded multiplication by ten |
| Binary.MultiplyBackFails | include/messages/temperature.hpp:75-107 | In every precision from four bits on, some integer below twice that bound comes back smaller by one |
| Binary.TruncatedResolution | include/messages/temperature.hpp:53-54 | In every precision, what rounds to between an integer and the next lies within one of ten times that integer's rounded tenth |
| Tenfold.DecodedResolution | include/messages/temperature.hpp:53-54 | In every precision, the value that the truncated tenths of a temperature decode to is less than a tenth away from it |
| FixedPoint.TenthsOfQuotient | include/messages/temperature.hpp:53-54 | The nearest single to any tenth below 2^23 tenths encodes to exactly that tenth |
| FixedPoint.RoundsToSingle | include/messages/temperature.hpp:62-68 | The arithmetic is that of single precision, by numbers: 24 bits, exponents from -149 on, nearest and even in a tie |
| FixedPoint.DecodesToNearest | include/messages/temperature_offset.hpp:98-102 | Every word, unsigned or signed, decodes to the single nearest to its tenth |
| FixedPoint.EncodesTruncation | include/messages/temperature.hpp:82-83 | A temperature encodes to the truncation of the single nearest to its tenfold, and has an encoding exactly if that truncation fits |
| FixedPoint.TwentyOnePointThree | include/messages/target_temperature.hpp:81-91 | 213 tenths are the single 5583667/262144, in both directions |
| FixedPoint.UnsignedExact | include/messages/temperature.hpp:75-107 | **Main result.** Every unsigned wire word survives decoding and encoding |
| FixedPoint.SignedExact | include/messages/temperature_offset.hpp:70-104 | **Main result.** Every signed wire word survives decoding and encoding |
| FixedPoint.MixedExact | include/messages/all_config.hpp:131-189 | Signed decoding followed by unsigned encoding is defined exactly below 0x8000, and exact there |
| FixedPoint.UnsignedGrid | include/messages/temperature.hpp:53-54 | A temperature survives encoding and decoding exactly if it is the nearest single to a tenth in range |
| FixedPoint.SignedGrid | include/messages/temperature_offset.hpp:70-104 | The same for signed temperatures |
| FixedPoint.MixedGrid | include/messages/schedule.hpp:112-148 | The same for the messages that decode signed and encode unsigned |
| FixedPoint.Resolution | include/messages/temperature.hpp:75-85 | The exact tenths that are transmitted are less than a tenth away from the temperature, on both sides of zero |
| FixedPoint.DecodedResolution | include/messages/temperature.hpp:53-54 | **Main result.** Encoding and then decoding, with all three roundings and the truncation, loses less than a tenth wherever the cast is defined, in each of the three pairs of casts |
| FixedPoint.TenthsMono | include/messages/temperature.hpp:75-85 | Encoding keeps the order of temperatures |
| Wmmm.Inverse | include/wmmm.hpp:78-88 | Layout and parsing are inverse in both directions, and exactly the short buffers are refused |
| Wmmm.Encode | src/wmmm.cpp:43-51 | Pushes exactly the layout of the frame |
| Wmmm.Decode | src/wmmm.cpp:30-41 | Refuses short buffers and otherwise parses |
| UnitSlot.ReadOfWrite | include/messages/all_config.hpp:226-246 | A written string reads back cut at its first NUL or at eight bytes |
| UnitSlot.ReadOfWriteExact | include/messages/all_config.hpp:226-246 | It reads back unchanged exactly if it fits and holds no NUL |
| UnitSlot.WriteOfRead | include/messages/all_config.hpp:226-246 | A slot survives exactly if it is zero after its first NUL |
| UnitSlot.ReadUnit | include/messages/all_config.hpp:228-234 | The loop finds the first NUL or the end of the slot |
| UnitSlot.WriteUnit | include/messages/all_config.hpp:238-246 | The loops fill the slot with the cut and padded string and touch nothing else |
| AllConfig.EncodeBlock | include/messages/all_config.hpp:128-158 | The writes by offset produce the layout at all 61 offsets |
| AllConfig.Encode | include/messages/all_config.hpp:122-160 | The payload is the layout of the cast temperatures and the other fields |
| AllConfig.Decode | include/messages/all_config.hpp:181-224 | Every field is read from its offset |
| AllConfig.BlockOfLayout | include/messages/all_config.hpp:41-55 | Reading a layout returns every field, except what the unit slots cut off |
| AllConfig.LayoutOfBlock | include/messages/all_config.hpp:122-224 | Laying out what was read returns every byte, except what the unit slots cut off |
| AllConfig.PayloadRoundTrip | include/messages/all_config.hpp:26-32 | **Main result.** Re-encoding a decoded payload is defined exactly for non-negative temperatures, and restores it exactly if the unit slots are clean |
| AllConfig.ConfigRoundTrip | include/messages/all_config.hpp:122-224 | A configuration comes back exactly if its temperatures are on the grid and its units fit without a NUL |
| Schedule.Tiling | include/messages/schedule.hpp:106-109 | The offsets of (day, entry, byte) tile the payload: each offset from 4 on belongs to exactly one |
| Schedule.LayoutInverse | include/messages/schedule.hpp:93-152 | **Main result.** Layout and reading are inverse in both directions on all 116 bytes |
| Schedule.Encode | include/messages/schedule.hpp:93-116 | The nested loops write the layout at every offset |
| Schedule.Decode | include/messages/schedule.hpp:131-152 | The nested loops read every entry from its offset |
| Schedule.PayloadRoundTrip | include/messages/schedule.hpp:93-152 | Re-encoding a decoded payload is defined exactly for non-negative setpoints, and then restores it |
| Schedule.ProgramRoundTrip | include/messages/schedule.hpp:93-152 | A program comes back exactly if its setpoints are on the grid |
| Messages.Encode | include/message.hpp:65-68 | Each message type's encoder produces its id, zero reserved bytes and its payload |
| Messages.EncodePair | include/messages/target_temperature.hpp:81-91 | Two unsigned channels, first channel first |
| Messages.EncodeScalar | include/messages/temperature_offset.hpp:70-80 | One signed value, then two zero bytes |
| Messages.EncodeByte | include/messages/mode.hpp:79-88 | One byte, then three zero bytes |
| Messages.TryDecode | src/messages.cpp:38-47 | Matches exactly its own id, and yields a message exactly if the payload also has its size |
| Messages.DecodeVariant | src/messages.cpp:54-59 | Trying the alternatives in order with short-circuit is the fold |
| Messages.DecodeMessage | src/messages.cpp:63-65 | The fold over the variant's alternatives |
| Messages.IdUnique | include/messages.hpp:78-83 | No two alternatives share an id |
| Messages.DispatchFinds | src/messages.cpp:54-59 | The fold is lookup by id: a listed alternative decides wherever it stands |
| Messages.DispatchOrderIrrelevant | src/messages.cpp:38-59 | The order and multiplicity of the alternatives do not matter |
| Messages.Accepted | include/messages.hpp:85-90 | **Main result.** A frame is accepted exactly if its id is known and its payload has that message's size, and the result has that id |
| WireFormat.AupBytes | src/aup.cpp:113-135 | The bytes 5A 9E, four header bytes, big-endian length and payload are what the encoder lays out for a frame, what the parser finds and what a fresh receiver emits as that frame |
| WireFormat.SilentWithoutMarker | src/aup.cpp:39-60 | A stream without 5A directly followed by 9E emits nothing |
| WireFormat.WmmmBytes | src/wmmm.cpp:30-41 | Id, reserved bytes and payload by index, and no frame from fewer than four bytes |
| WireFormat.WmmmLayout | src/wmmm.cpp:43-51 | Id first, then the reserved bytes, then the payload |
| WireFormat.PacketBytes | esphome/components/unilux_uart/unilux_uart.cpp:20-25 | The first twelve bytes of every packet that is sent, by value, and then the payload |
| WireFormat.MessageInFrame | esphome/components/unilux_uart/unilux_uart.cpp:214-228 | A received frame carries the message of its payload, whatever its header and reserved bytes hold |
| WireFormat.DecodedShort | src/messages.cpp:38-65 | What every frame with four payload bytes decodes to, for every id by value |
| WireFormat.DecodedLong | src/messages.cpp:38-65 | Other payload sizes are accepted only as 61 bytes with id 0x76 and 116 bytes with id 0x78 |
| WireFormat.EncodedShort | include/message.hpp:65-68 | Id and payload bytes of every short message, by value |
| WireFormat.DecodedConfig | include/messages/all_config.hpp:181-224 | All 26 fields of a decoded configuration, by offset |
| WireFormat.EncodedConfig | include/messages/all_config.hpp:122-160 | All 61 bytes of an encoded configuration, by offset |
| WireFormat.DecodedProgram | include/messages/schedule.hpp:131-152 | Every field of a decoded program, by offset |
| WireFormat.EncodedProgram | include/messages/schedule.hpp:93-116 | Every byte of an encoded program, by offset |
| MessageRoundTrips.QuantisedExactly | include/message.hpp:35-38 | For every message type, a message comes back unchanged exactly if its temperatures are on the grid and its strings fit |
| MessageRoundTrips.DecodeOfEncode | include/message.hpp:35-38 | Decoding an encoded message always succeeds, with its quantised form |
| MessageRoundTrips.PayloadOfMessage | include/message.hpp:35-38 | For every message type, when re-encoding is defined and when it restores the payload |
| MessageRoundTrips.EncodeOfDecode | include/messages/power.hpp:48-96 | **Main result.** A decoded frame re-encodes to itself exactly if it is canonical |
| MessageRoundTrips.Canonicalisation | src/messages.cpp:38-65 | **Main result.** One pass through decode and encode keeps the meaning, and a second one changes nothing |
| MessageRoundTrips.PowerNotInverse | include/messages/power.hpp:88-96 | A frame with state byte two decodes to on and re-encodes differently |
| MessageRoundTrips.EnumerationNotInverse | include/messages/mode.hpp:54-55 | Every enumeration frame with a non-zero reserved byte decodes and re-encodes differently |
| MessageRoundTrips.ConfigNotInverse | include/messages/all_config.hpp:31-32 | A configuration with a byte behind the first NUL of a unit slot decodes and re-encodes differently |
| MessageRoundTrips.NegativeConfigNotEncodable | include/messages/all_config.hpp:122-135 | A configuration with a negative temperature decodes to a message whose encoding has an undefined cast |
| Link.NoisyLink | esphome/components/unilux_uart/unilux_uart.cpp:133-228 | **Main result.** Messages sent arrive quantised and in order through any marker-free noise, and nothing else arrives |
| Link.WireLogRoundTrip | esphome/components/unilux_uart/unilux_uart.cpp:133-228 | **Main result.** The bytes of any messages give a fresh receiver exactly them, unchanged exactly if all are on the grid, and leave it at its start |
| Link.PacketsAreLog | esphome/components/unilux_uart/unilux_uart.cpp:145-146 | The writes of a component, joined, are the wire log of what it sent |
| Link.WrittenArrives | esphome/components/unilux_uart/unilux_uart.cpp:133-228 | What a component wrote is received as exactly what it sent |
| UniluxUart.LengthNotCut | esphome/components/unilux_uart/unilux_uart.cpp:142 | The cast of the payload size to 16 bits does not truncate |
| UniluxUart.UniluxUartComponent.SendMessage | esphome/components/unilux_uart/unilux_uart.cpp:133-147 | Writes the packet of the message and keeps writes and messages in step |
| UniluxUart.UniluxUartComponent.LogFrame | esphome/components/unilux_uart/unilux_uart.cpp:214-304 | Publishes exactly the message that the frame carries, if any, to the climate entity |
| UniluxUart.UniluxUartComponent.Loop | esphome/components/unilux_uart/unilux_uart.cpp:205-212 | **Main result.** The entity ends up as after all messages found in the available bytes, continuing an unfinished frame |
| UniluxUart.UniluxUartClimate.Resolve | esphome/components/unilux_uart/unilux_uart.cpp:308-338 | Restored or default state, with every missing part filled in |
| UniluxUart.UniluxUartClimate.Setup | esphome/components/unilux_uart/unilux_uart.cpp:308-343 | Resolves the state and sends all of it |
| UniluxUart.UniluxUartClimate.SyncToDevice | esphome/components/unilux_uart/unilux_uart.cpp:454-468 | Sends the state, without the mode when off, and changes nothing |
| UniluxUart.UniluxUartClimate.ControlMode | esphome/components/unilux_uart/unilux_uart.cpp:379-401 | Sends exactly the changes of power and active mode, power first |
| UniluxUart.UniluxUartClimate.Control | esphome/components/unilux_uart/unilux_uart.cpp:369-411 | Applies any subset of a request and sends the requested setpoint and fan and the changes of power and mode, in order |
| UniluxUart.UniluxUartClimate.PublishMode | esphome/components/unilux_uart/unilux_uart.cpp:423-431 | A known mode becomes the active mode and is published if on; an unknown one changes nothing |
| UniluxUart.UniluxUartClimate.PublishPower | esphome/components/unilux_uart/unilux_uart.cpp:433-436 | Power is folded with the remembered active mode |
| UniluxUart.UniluxUartClimate.PublishFanSpeed | esphome/components/unilux_uart/unilux_uart.cpp:438-447 | A known fan speed is published; an unknown one changes nothing |
| Climate.ModesInverse | esphome/components/unilux_uart/unilux_uart.cpp:37-72 | The mode translations are inverse between known bytes and active modes, and only there |
| Climate.FansInverse | esphome/components/unilux_uart/unilux_uart.cpp:74-107 | Every known fan byte survives the translation to a fan mode and back |
| Climate.ModeBytes | esphome/components/unilux_uart/unilux_uart.cpp:40-65 | The three mode bytes by value, in both directions, and no others |
| Climate.FanBytes | esphome/components/unilux_uart/unilux_uart.cpp:76-107 | The five fan bytes by value, in both directions, and no others; other fan modes are sent as automatic |
| Climate.RequestHonoured | esphome/components/unilux_uart/unilux_uart.cpp:369-411 | After a request the named mode, setpoint and fan hold, off keeps the active mode, and nothing else changes |
| Climate.RequestSends | esphome/components/unilux_uart/unilux_uart.cpp:369-411 | The messages of a request, in order and by value |
| Climate.SyncSends | esphome/components/unilux_uart/unilux_uart.cpp:454-468 | The messages of a rebroadcast, in order |
| Climate.SavedRestored | esphome/components/unilux_uart/unilux_uart.cpp:308-338 | Each part of a saved state is restored, and each missing part gets its default |
| Climate.ReceivedEffect | esphome/components/unilux_uart/unilux_uart.cpp:413-452 | The whole state after every received message, by the values of its bytes |
| Climate.BootConsistent | esphome/components/unilux_uart/unilux_uart.cpp:308-338 | Setup ends with an active mode, a matching published mode, a sendable setpoint and a fan mode |
| Agreement.DeliverRequest | esphome/components/unilux_uart/unilux_uart.cpp:369-411 | The messages of a request bring the device to the entity's new power and setpoint, to a requested fan, and to the mode if it changed |
| Agreement.RequestReaches | esphome/components/unilux_uart/unilux_uart.cpp:369-411 | From full agreement, the device holds the requested power, mode byte, fan byte and setpoint, and keeps what was not named |
| Agreement.DeliverSync | esphome/components/unilux_uart/unilux_uart.cpp:454-468 | A rebroadcast forces power, setpoint and fan on any device, and the mode unless off |
| Agreement.RequestCarries | esphome/components/unilux_uart/unilux_uart.cpp:379-408 | A request sends a Mode message exactly if it changes the active mode, and a FanSpeed message exactly if it names a fan |
| Agreement.SyncCarries | esphome/components/unilux_uart/unilux_uart.cpp:454-468 | A rebroadcast sends the fan, and the mode exactly if the power is on |
| Agreement.HearEffect | esphome/components/unilux_uart/unilux_uart.cpp:228-267 | The entity reads from any frame the same effect as the device that broadcast it, and its current temperature from a measurement; every other frame leaves it as it was |
| Agreement.BroadcastKeeps | esphome/components/unilux_uart/unilux_uart.cpp:413-452 | A broadcast keeps full agreement exactly if a fan byte in it is known |
| Agreement.ModeBroadcast | esphome/components/unilux_uart/unilux_uart.cpp:423-431 | A broadcast mode is agreed on exactly if its byte is known |
| Agreement.FanBroadcast | esphome/components/unilux_uart/unilux_uart.cpp:438-447 | A broadcast fan speed is agreed on exactly if its byte is known |
| Agreement.CoreStep | esphome/components/unilux_uart/unilux_uart.cpp:369-468 | Any step, whatever bytes it carries, keeps agreement on power and setpoint; setpoints survive the float |
| Agreement.ByteStep | esphome/components/unilux_uart/unilux_uart.cpp:369-468 | Of mode and fan each: where a byte crosses they agree afterwards exactly if it is known, elsewhere exactly if they did before |
| Agreement.PublishedMode | esphome/components/unilux_uart/unilux_uart.cpp:379-452 | **Main result.** Over every run, with frames known or not, the active mode is one of three and the published mode folds it with the power |
| Agreement.RunKeeps | esphome/components/unilux_uart/unilux_uart.cpp:369-468 | Over every run, known bytes or not, power and setpoint stay agreed, and the last byte that crossed decides on mode and fan |
| Agreement.BootAgrees | esphome/components/unilux_uart/unilux_uart.cpp:308-343 | Setup establishes agreement with any device, on the mode exactly if on or the device is heating |
| Agreement.FirstBoot | esphome/components/unilux_uart/unilux_uart.cpp:308-343 | With nothing saved, setup switches any device on, in automatic mode and fan, at 21.0 degrees |
| Agreement.RestoredReaches | esphome/components/unilux_uart/unilux_uart.cpp:308-343 | After a boot any device holds the saved power, mode byte, fan byte and setpoint |
| Agreement.AgreementOverRuns | esphome/components/unilux_uart/unilux_uart.cpp:308-468 | **Main result.** From setup with any saved state and any device, over every run: power and setpoint agree, and exactly when fan and mode do |
| Agreement.AgreementWhileKnown | esphome/components/unilux_uart/unilux_uart.cpp:308-468 | While only known bytes are broadcast, the fan agrees too, and the mode exactly if the entity booted on, a Mode message crossed or the device was heating |
| Agreement.BootOffThenHeat | esphome/components/unilux_uart/unilux_uart.cpp:319-396 | Booted off, a request to heat switches the device on without setting its mode |
| Agreement.OffThenOn | esphome/components/unilux_uart/unilux_uart.cpp:379-452 | Off then on restores the remembered mode, whoever does either |
| WireAgreement.StepRefines | esphome/components/unilux_uart/unilux_uart.cpp:133-304 | One step in which each side sees only bytes, with noise before every frame, is the step on messages, and leaves both decoders at their start |
| WireAgreement.RunRefines | esphome/components/unilux_uart/unilux_uart.cpp:133-304 | A run on bytes is the run on messages |
| WireAgreement.AgreementOnTheWire | esphome/components/unilux_uart/unilux_uart.cpp:133-468 | **Main result.** The agreement over every run from setup, unknown bytes included, with all messages in both directions passing as bytes with noise in front of every frame |
| WireAgreement.Resynchronised | esphome/components/unilux_uart/unilux_uart.cpp:122-130 | **Main result.** From any state of the two and of their decoders, filler in both directions and one rebroadcast make them agree, on the mode too if on, with both decoders at their start |

## Left out

- Text output: `to_string`, log lines and hexadecimal formatting only display.
- ESPHome itself: UART device, timers, preferences and base classes are not part of this model; received bytes, saved state and requests are parameters, written bytes a field. The twelve-fold repetition of the rebroadcast is any number of `Sync` events.
- Sensors, number and select entities and the code generation in `__init__.py`: forwarding and configuration.
- Checksums: the code carries them verbatim and so does the model.
- Infinite floats, negative zero and overflow to infinity: an infinite temperature can never be sent without an undefined cast, negative zero encodes as zero, and the exponent range is unbounded above.
- Crossing of requests and broadcasts in flight: the code has no ordering or acknowledgement, so each event is delivered before the next.
- The measured temperature is not held by the device twin; `Agreement.HearEffect` says how the entity follows it.
- WireAgreement.WireStep: noise stands in front of frames, so noise behind a frame counts as noise in front of the next one in its direction.
- UniluxUart.UniluxUartClimate.Control: the three blocks of the source are three methods; republishing to Home Assistant has no state and is left out.
- AupDecoder.Decoder.Assemble: the length and payload cases of the switch are methods of their own; ghost fields keep the history.
- Messages.Encode: settings with identical bodies share one codec each (the four enumeration bytes, the five signed scalars), selected by the setting.
- AllConfig.EncodeBlock: the offsets are written by five methods in order, and the temperatures are cast before the first write instead of between writes.
