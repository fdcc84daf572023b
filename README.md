# Servoshock 2 SPI driver — a Dafny model

This project models the Arduino driver for the Servoshock 2 board, which reads a
PS4 controller and drives servo and digital outputs from it. The model covers:

- **The two packets.** The 39-byte outbound packet (`SPI_OUTPUT_PACKET`)
  carries override bits, LED and rumble levels, one pulse width per axis and
  one output bit per button. The 96-byte inbound packet (`SPI_INPUT_PACKET`)
  carries the report, sticks, buttons, IMU readings, battery, touchpad records
  (`TOUCHPAD_RAW_DATA` / `FINGER_DATA`) and the outputs currently in effect.
  Each packet is a `seq<bv8>` with get/set functions for every field.
  Bit-fields are allocated least significant bit first and 16-bit integers
  are little-endian, as GCC lays out packed structs on AVR.
- **`Servoshock::Update`.** A class holding the two packets as arrays. One
  call drives slave-select low and makes 96 full-duplex byte transfers: the
  outbound bytes first, then 0xCD padding. Each received byte is stored at
  its own index. The four d-pad bits of byte 13 are then rewritten from a
  direction code into four button flags, and slave-select goes high.
- **`Servoshock::SetLED`.** Writes the five LED bytes of the outbound packet.
- **The `print_serial.h` formatters.** These are zero-padded hexadecimal and
  decimal printing of bytes and 16-bit words, plus an 8-character binary dump.
  Each is modelled by the characters it emits.

Modules:

- `Bits`: bit, byte and 16-bit helpers.
- `Layout`: the axes and buttons, in the order both packets list them.
- `OutPacket` and `InPacket`: the two packet layouts.
- `Servoshock`: the bus model, the driver class and the d-pad specification.
- `PrintSerial`: the formatters.

The Arduino calls the driver makes are modelled by the class `Bus`. Its
`DigitalWrite` and `Transfer` methods record every call in a ghost log.
`Transfer` answers with bytes supplied in advance. `Update` is specified
against `UpdateTrace`, the exact sequence of calls it makes.

The code and the header's own comment disagree in one place. The comment
on `Update` (servoshock_PS4.h:321-322) says the gyro and accelerometer
fields are converted between little- and big-endian. No code does this: the
bytes are stored as received. The model follows the code. `InPacket.GetImu`
reads the raw little-endian `signed int`, and `Update`'s postcondition shows
no other byte is touched.

## Model

| member | source | states |
|---|---|---|
| Layout.AxisIndex | Servoshock2_Arduino/servoshock_PS4.h:246-257 | each axis has a distinct position among the twelve `*_uS` fields, and `Axes` at that position is the axis |
| Layout.ButtonIndex | Servoshock2_Arduino/servoshock_PS4.h:259-279 | each button has a distinct position among the eighteen outbound button bits |
| Bits.SetBit | Servoshock2_Arduino/servoshock_PS4.h:198-201 | setting one bit of a packet gives that bit the new value and keeps every other bit and every other byte |
| Bits.SetU16 | Servoshock2_Arduino/servoshock_PS4.h:246-257 | storing a 16-bit little-endian `unsigned int` reads back the value and changes no byte outside its two |
| Bits.SetU16GetU16 | Servoshock2_Arduino/servoshock_PS4.h:246-257 | writing back the 16-bit value just read leaves the packet unchanged |
| Bits.ToSigned16 | Servoshock2_Arduino/servoshock_PS4.h:121-126 | the two's-complement reading of a 16-bit `signed int` lies in [-32768, 32767], is negative exactly when the pattern is at least 0x8000, and agrees with the pattern modulo 2^16 |
| Bits.FromSigned16 | Servoshock2_Arduino/servoshock_PS4.h:121-126 | every signed 16-bit value has a 16-bit pattern that reads back as that value |
| Bits.FromSigned16ToSigned16 | Servoshock2_Arduino/servoshock_PS4.h:121-126 | every 16-bit pattern is the pattern of its own signed reading |
| OutPacket.FlagBit | Servoshock2_Arduino/servoshock_PS4.h:198-279 | override flags sit at byte 0 bits 0-2 and bytes 8-11; button output flags sit at bytes 36-38 |
| OutPacket.FlagBitInjective | Servoshock2_Arduino/servoshock_PS4.h:198-279 | no two outbound flags share a bit |
| OutPacket.LevelOffset | Servoshock2_Arduino/servoshock_PS4.h:203-209 | the LED and rumble levels are bytes 1 to 7 |
| OutPacket.PulseWidthOffset | Servoshock2_Arduino/servoshock_PS4.h:246-257 | the pulse widths start at even offsets 12 to 34 |
| OutPacket.SetFlag | Servoshock2_Arduino/servoshock_PS4.h:198-279 | setting a flag reads back the value and keeps every other bit of the 39 bytes |
| OutPacket.SetLevel | Servoshock2_Arduino/servoshock_PS4.h:203-209 | setting a level reads back the byte and keeps every other byte |
| OutPacket.SetPulseWidth | Servoshock2_Arduino/servoshock_PS4.h:246-257 | setting a pulse width reads back the 16-bit value and keeps every byte outside its two |
| OutPacket.FieldsDisjoint | Servoshock2_Arduino/servoshock_PS4.h:192-283 | every outbound field lies inside the 39 bytes and no two fields overlap |
| OutPacket.Read | Servoshock2_Arduino/servoshock_PS4.h:192-283 | a field's value is below 2 to the power of its width |
| OutPacket.WriteRead | Servoshock2_Arduino/servoshock_PS4.h:192-283 | set-then-get on any outbound field returns the value written |
| OutPacket.WriteKeepsOthers | Servoshock2_Arduino/servoshock_PS4.h:192-283 | writing one outbound field leaves every other field's value unchanged |
| OutPacket.ReadWrite | Servoshock2_Arduino/servoshock_PS4.h:192-283 | writing back the value just read leaves all 39 bytes unchanged |
| OutPacket.OverrideAndPulseWidth | Servoshock2_Arduino/servoshock_PS4.h:184-189 | after `overrideLStickX = 1; lStickX_uS = 1500` the override is set and the pulse width reads 1500, whatever the packet held before |
| InPacket.ControllerIndex | Servoshock2_Arduino/servoshock_PS4.h:94-114 | each controller button has its own position among the button bits of bytes 13-15, in the inbound order |
| InPacket.FlagBit | Servoshock2_Arduino/servoshock_PS4.h:94-174 | pressed flags sit in bytes 13-15, USBData is byte 38 bit 4, output states sit in bytes 93-95 |
| InPacket.FlagBitInjective | Servoshock2_Arduino/servoshock_PS4.h:94-174 | no two inbound flags share a bit |
| InPacket.ReadingOffset | Servoshock2_Arduino/servoshock_PS4.h:85-136 | reportID is byte 8, the sticks bytes 9-12, the analog triggers bytes 16-17, numTpadPackets byte 41 |
| InPacket.ImuOffset | Servoshock2_Arduino/servoshock_PS4.h:121-126 | the six IMU fields start at odd offsets 21 to 31 |
| InPacket.StatePulseWidthOffset | Servoshock2_Arduino/servoshock_PS4.h:140-151 | the state pulse widths start at odd offsets 69 to 91 |
| InPacket.TpadOffset | Servoshock2_Arduino/servoshock_PS4.h:136-137 | the three touchpad records start between bytes 42 and 60 |
| InPacket.FingerOffset | Servoshock2_Arduino/servoshock_PS4.h:62-65 | each finger's 4 bytes lie inside its 9-byte record, after the packet counter |
| InPacket.SetFlag | Servoshock2_Arduino/servoshock_PS4.h:94-174 | setting an inbound flag reads back the value and keeps every other bit |
| InPacket.SetReading | Servoshock2_Arduino/servoshock_PS4.h:85-136 | setting a byte-wide reading reads it back and keeps every other byte |
| InPacket.GetCounter | Servoshock2_Arduino/servoshock_PS4.h:112-114 | the report counter is a 6-bit value |
| InPacket.SetCounter | Servoshock2_Arduino/servoshock_PS4.h:112-114 | setting the counter reads back and keeps psButton and tpadPress (byte 15 bits 0-1) and every other byte |
| InPacket.GetBattery | Servoshock2_Arduino/servoshock_PS4.h:129-131 | the battery level is a 4-bit value |
| InPacket.SetBattery | Servoshock2_Arduino/servoshock_PS4.h:129-131 | setting the battery reads back and keeps bits 4-7 of byte 38 (USBData included) and every other byte |
| InPacket.GetImu | Servoshock2_Arduino/servoshock_PS4.h:121-126 | an IMU reading is a signed 16-bit value, read little-endian with no byte swap; it is negative exactly when its high byte is at least 0x80 |
| InPacket.SetImu | Servoshock2_Arduino/servoshock_PS4.h:121-126 | setting an IMU reading reads it back and keeps every byte outside its two |
| InPacket.GetStatePulseWidth | Servoshock2_Arduino/servoshock_PS4.h:140-151 | a state pulse width is a 16-bit value |
| InPacket.SetStatePulseWidth | Servoshock2_Arduino/servoshock_PS4.h:140-151 | setting a state pulse width reads it back and keeps every byte outside its two |
| InPacket.SetTpadCounter | Servoshock2_Arduino/servoshock_PS4.h:62-65 | setting a touchpad record's packet counter reads back and keeps every other byte |
| InPacket.DecodeFinger | Servoshock2_Arduino/servoshock_PS4.h:55-60 | a decoded finger has a 7-bit touchID and 12-bit x and y |
| InPacket.LowTwelve | Servoshock2_Arduino/servoshock_PS4.h:58 | x, from the second byte and the low nibble of the third, is below 4096 |
| InPacket.HighTwelve | Servoshock2_Arduino/servoshock_PS4.h:59 | y, from the high nibble of the third byte and the fourth byte, is below 4096 |
| InPacket.EncodeFinger | Servoshock2_Arduino/servoshock_PS4.h:55-60 | every valid finger record encodes to 4 bytes that decode back to it |
| InPacket.TwelveBitsRoundTrip | Servoshock2_Arduino/servoshock_PS4.h:58-59 | x and y split into bytes and nibbles and joined again give back x and y |
| InPacket.EncodeDecodeFinger | Servoshock2_Arduino/servoshock_PS4.h:55-60 | every 4-byte pattern is the encoding of the finger it decodes to |
| InPacket.GetFinger | Servoshock2_Arduino/servoshock_PS4.h:62-65 | every finger read from the packet is a valid record |
| InPacket.SetFinger | Servoshock2_Arduino/servoshock_PS4.h:62-65 | writing a finger reads it back and keeps every byte outside its four |
| InPacket.FieldInPacket | Servoshock2_Arduino/servoshock_PS4.h:72-178 | every inbound field lies after the eight discarded bytes and inside the 96 bytes |
| InPacket.FieldsDisjoint | Servoshock2_Arduino/servoshock_PS4.h:72-178 | no two inbound fields overlap |
| InPacket.TouchpadDisjoint | Servoshock2_Arduino/servoshock_PS4.h:136-137 | touchpad counters and fingers overlap neither each other nor any other field |
| Servoshock.Bus.DigitalWrite | Servoshock2_Arduino/servoshock_PS4.h:329 | a pin write appends exactly that event to the log |
| Servoshock.Bus.Transfer | Servoshock2_Arduino/servoshock_PS4.h:332-334 | a transfer returns the next reply, consumes it, and logs the byte sent with the byte received |
| Servoshock.TransmitFrame | Servoshock2_Arduino/servoshock_PS4.h:330-336 | the 96 bytes sent are the outbound packet at indices 0-38 and 0xCD at 39-95 |
| Servoshock.Exchanges | Servoshock2_Arduino/servoshock_PS4.h:330-336 | transfer i of an exchange pairs sent byte i with received byte i |
| Servoshock.ExchangesBytes | Servoshock2_Arduino/servoshock_PS4.h:330-336 | the bytes sent by a run of transfers are the given bytes in order, and no pin is written in between |
| Servoshock.ExchangesSelected | Servoshock2_Arduino/servoshock_PS4.h:330-336 | a run of transfers leaves the select pin low |
| Servoshock.UpdateTraceSends | Servoshock2_Arduino/servoshock_PS4.h:330-336 | an update sends exactly 96 bytes, in index order, and they are the transmit frame |
| Servoshock.UpdateTracePins | Servoshock2_Arduino/servoshock_PS4.h:329-344 | an update writes the select pin exactly twice: low, then high |
| Servoshock.UpdateTraceSelects | Servoshock2_Arduino/servoshock_PS4.h:329-344 | every transfer of an update happens while the select pin is low, and the pin ends high |
| Servoshock.DirectionCode | Servoshock2_Arduino/servoshock_PS4.h:338 | the direction code is a 4-bit number |
| Servoshock.DPadFlagBits | Servoshock2_Arduino/servoshock_PS4.h:94-97 | the four d-pad flags are bits 0-3 of byte 13, up, right, down, left |
| Servoshock.DPadRuleIsHeld | Servoshock2_Arduino/servoshock_PS4.h:339-342 | the four assignments of the source agree with the geometric reading: a direction is held when the code points within 45 degrees of it |
| Servoshock.DPadByte | Servoshock2_Arduino/servoshock_PS4.h:339-342 | the rewritten byte holds the four assignments in bits 0-3 and keeps bits 4-7 |
| Servoshock.NormalizeDPad | Servoshock2_Arduino/servoshock_PS4.h:338-342 | the d-pad rewrite changes only byte 13; its bits 0-3 become the held directions and bits 4-7 (square, cross, circle, triangle) are kept |
| Servoshock.DPadWritesNormalize | Servoshock2_Arduino/servoshock_PS4.h:338-342 | the byte-level statements of the source compute exactly the rewrite `NormalizeDPad` specifies |
| Servoshock.NormalizeDPadFlags | Servoshock2_Arduino/servoshock_PS4.h:338-342 | after the rewrite each d-pad flag is its held direction, and every other inbound flag is unchanged |
| Servoshock.DPadDecodeTable | Servoshock2_Arduino/servoshock_PS4.h:338-342 | for all 16 codes the four flags follow the table: 0 up, 1 up-right, 2 right, ..., 7 up-left, and 8-15 none |
| Servoshock.Servoshock.constructor | Servoshock2_Arduino/servoshock_PS4.h:305-315 | a new driver stores the pin and starts with both packets all zero |
| Servoshock.Servoshock.Update | Servoshock2_Arduino/servoshock_PS4.h:327-345 | the inbound packet becomes the 96 received bytes with the d-pad rewritten; the calls made are exactly `UpdateTrace`; the outbound packet is unchanged |
| Servoshock.Servoshock.TransferPackets | Servoshock2_Arduino/servoshock_PS4.h:330-336 | the loop stores received byte i at index i for all 96, consumes 96 replies and logs the transmit frame |
| Servoshock.Servoshock.DecodeDPad | Servoshock2_Arduino/servoshock_PS4.h:338-342 | the d-pad statements turn the inbound packet into `NormalizeDPad` of it |
| Servoshock.Servoshock.SetLED | Servoshock2_Arduino/servoshock_PS4.h:354-362 | the outbound packet becomes `WithLED` of its old contents |
| Servoshock.WithLED | Servoshock2_Arduino/servoshock_PS4.h:354-362 | bytes 1-5 hold red, green, blue, blink-on and blink-off; byte 0, bytes 6-38 and every outbound flag are unchanged |
| Servoshock.EchoScenario | Servoshock2_Arduino/servoshock_PS4.h:327-345 | if the board answers byte i with i, the inbound packet reads 0..95 except byte 13, whose code 13 holds no direction, so it reads 0 |
| Servoshock.RepeatedUpdate | Servoshock2_Arduino/servoshock_PS4.h:327-345 | two updates against the same replies leave the same inbound packet: nothing from before an exchange survives it |
| PrintSerial.DigitChar | Servoshock2_Arduino/print_serial.h:9 | the digit character of a value below 16 reads back as that value |
| PrintSerial.PrintNumber | Servoshock2_Arduino/print_serial.h:9 | the shortest numeral reads back as the number and starts with '0' only for zero |
| PrintSerial.FixedWidth | Servoshock2_Arduino/print_serial.h:6-34 | the reference numeral has exactly the requested number of digits |
| PrintSerial.FixedWidthValue | Servoshock2_Arduino/print_serial.h:6-34 | a number below base to the w reads back from its w-digit numeral |
| PrintSerial.PrintNumberLength | Servoshock2_Arduino/print_serial.h:8-33 | the shortest numeral has at most w digits exactly when the number is below base to the w; this is what each leading-zero threshold tests |
| PrintSerial.PadToWidth | Servoshock2_Arduino/print_serial.h:6-34 | zeros plus the shortest numeral, w characters in all, are the w-digit numeral and read back as the number |
| PrintSerial.SerialWriteHex | Servoshock2_Arduino/print_serial.h:6-10 | a byte prints as exactly two hex digits that read back as the byte; the first is '0' exactly when the byte is below 0x10 |
| PrintSerial.SerialWriteIntHex | Servoshock2_Arduino/print_serial.h:12-18 | a 16-bit word prints as exactly four hex digits that read back as the word; the first is '0' exactly when it is below 0x1000 |
| PrintSerial.SerialWriteDec | Servoshock2_Arduino/print_serial.h:20-25 | a byte prints as exactly three decimal digits that read back as the byte; the first is '0' exactly when it is below 100 |
| PrintSerial.SerialWriteIntDec | Servoshock2_Arduino/print_serial.h:27-34 | a 16-bit word prints as exactly five decimal digits that read back as the word; the first is '0' exactly when it is below 10000 |
| PrintSerial.BinaryPrefix | Servoshock2_Arduino/print_serial.h:37-50 | after n steps the output is n characters, character k being bit 7-k |
| PrintSerial.SerialWriteBin | Servoshock2_Arduino/print_serial.h:37-50 | a byte prints as exactly 8 characters, most significant bit first: character k is '1' exactly when bit 7-k is set |

## Left out

- SPI configuration (`SPI.setDataMode`, `setClockDivider`, `setBitOrder`, `SPI.begin`) and the 100 Hz delay in the usage comment. These are Arduino library calls and timing, outside the driver.
- The constructor's `pinMode` call. Only the stored pin number is modelled.
- `SPI.transfer` is an oracle. `Bus` answers with replies supplied up front, so `Update` requires at least 96 queued replies. What the board itself computes is not modelled.
- Concurrency and interrupts. The driver is single-threaded.
- The gyro and accelerometer byte swap that the comment at servoshock_PS4.h:321-322 describes. The code has none, and the model follows the code.
- The actual serial output. `Serial.print(x, HEX)` and `Serial.print(x, DEC)` are taken to emit the shortest numeral, in upper-case hex or decimal. The Arduino core that prints is not part of this model.
- PrintSerial.SerialWriteIntHex, PrintSerial.SerialWriteIntDec: `unsigned int` is taken as 16 bits, as on AVR. On a 32-bit board, values of 0x1_0000 and above would print wider than four or five digits; the model's `UInt16` input type excludes them.
- PrintSerial.SerialWriteBin: its contract states each character from the bits of the byte. It does not also state that the eight characters read back in base 2 as the byte's value.
- Bit-field layout is taken as GCC's on AVR: packed, least significant bit first, 16-bit little-endian integers. Other compilers' layouts are not modelled.
- Servoshock.Servoshock.Update: the loop and the d-pad rewrite are two helper methods, `TransferPackets` and `DecodeDPad`. `Update` calls them in the source's order, between the two pin writes.
