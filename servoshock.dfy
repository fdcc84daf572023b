/** The `Servoshock` driver: one full-duplex SPI exchange per `Update`, the
 *  d-pad post-processing that follows it, and `SetLED`.
 *
 *  The Arduino calls the driver relies on (`digitalWrite` on the slave-select
 *  pin and `SPI.transfer`) are modelled by `Bus`: the bytes the board will
 *  clock back are supplied up front, and a ghost log records every call.
 */
module Servoshock {
  import opened Bits
  import Layout
  import OutPacket
  import InPacket

  /** The byte clocked out for inbound positions past the end of the outbound packet. */
  const PADDING: bv8 := 0xCD

  datatype PinLevel = Low | High

  /** One call the driver makes on the Arduino core. */
  datatype BusEvent =
    | PinWrite(pin: int, level: PinLevel)   // digitalWrite(pin, level)
    | Exchange(sent: bv8, received: bv8)    // received := SPI.transfer(sent)

  /** The SPI bus and the digital pins, as seen by the driver. */
  class Bus {
    /** The bytes the board will shift back, one per transfer, in order. */
    var replies: seq<bv8>
    ghost var log: seq<BusEvent>

    constructor (replies: seq<bv8>)
      ensures this.replies == replies && log == []
    {
      this.replies := replies;
      log := [];
    }

    method DigitalWrite(pin: int, level: PinLevel)
      modifies this`log
      ensures log == old(log) + [PinWrite(pin, level)]
    {
      log := log + [PinWrite(pin, level)];
    }

    /** Shifts `b` out and the next reply in. */
    method Transfer(b: bv8) returns (r: bv8)
      requires |replies| > 0
      modifies this
      ensures r == old(replies)[0] && replies == old(replies)[1..]
      ensures log == old(log) + [Exchange(b, r)]
    {
      r := replies[0];
      replies := replies[1..];
      log := log + [Exchange(b, r)];
    }
  }

  // The byte stream of one exchange

  /** The 96 bytes an exchange sends: the outbound packet, then padding. */
  function TransmitFrame(out: seq<bv8>): (f: seq<bv8>)
    requires |out| == OutPacket.OUTPUT_PACKET_SIZE
    ensures |f| == InPacket.INPUT_PACKET_SIZE
    ensures forall i :: 0 <= i < |f| ==> f[i] == if i < |out| then out[i] else PADDING
  {
    out + seq(InPacket.INPUT_PACKET_SIZE - OutPacket.OUTPUT_PACKET_SIZE, _ => PADDING)
  }

  /** The transfer events of sending `sent` while receiving `received`. */
  function Exchanges(sent: seq<bv8>, received: seq<bv8>): (t: seq<BusEvent>)
    requires |sent| == |received|
    ensures |t| == |sent|
    ensures forall i :: 0 <= i < |t| ==> t[i] == Exchange(sent[i], received[i])
  {
    seq(|sent|, i requires 0 <= i < |sent| => Exchange(sent[i], received[i]))
  }

  lemma ExchangesSnoc(sent: seq<bv8>, received: seq<bv8>, i: nat)
    requires |sent| == |received| && i < |sent|
    ensures Exchanges(sent[..i + 1], received[..i + 1]) == Exchanges(sent[..i], received[..i]) + [Exchange(sent[i], received[i])]
  {
  }

  /** Everything one `Update` does on the bus. */
  function UpdateTrace(pin: int, out: seq<bv8>, replies: seq<bv8>): seq<BusEvent>
    requires |out| == OutPacket.OUTPUT_PACKET_SIZE && |replies| == InPacket.INPUT_PACKET_SIZE
  {
    [PinWrite(pin, Low)] + Exchanges(TransmitFrame(out), replies) + [PinWrite(pin, High)]
  }

  /** The bytes sent by the transfers of a log, in order. */
  function SentBytes(log: seq<BusEvent>): seq<bv8>
  {
    if log == [] then []
    else (if log[0].Exchange? then [log[0].sent] else []) + SentBytes(log[1..])
  }

  /** The pin writes of a log, in order. */
  function PinWrites(log: seq<BusEvent>): seq<BusEvent>
  {
    if log == [] then []
    else (if log[0].PinWrite? then [log[0]] else []) + PinWrites(log[1..])
  }

  /** The level of `pin` after `log`, starting from `level`. */
  function LevelAfter(pin: int, level: PinLevel, log: seq<BusEvent>): PinLevel
    decreases |log|
  {
    if log == [] then level
    else LevelAfter(pin, if log[0].PinWrite? && log[0].pin == pin then log[0].level else level, log[1..])
  }

  /** Every transfer of `log` happens while `pin` (the slave select) is low, starting from `level`. */
  predicate TransfersWhileSelected(pin: int, level: PinLevel, log: seq<BusEvent>)
    decreases |log|
  {
    if log == [] then true
    else if log[0].Exchange? then level == Low && TransfersWhileSelected(pin, level, log[1..])
    else TransfersWhileSelected(pin, if log[0].pin == pin then log[0].level else level, log[1..])
  }

  lemma {:induction false} SentBytesAppend(a: seq<BusEvent>, b: seq<BusEvent>)
    ensures SentBytes(a + b) == SentBytes(a) + SentBytes(b)
  {
    if a != [] {
      assert (a + b)[1..] == a[1..] + b;
      SentBytesAppend(a[1..], b);
    } else {
      assert a + b == b;
    }
  }

  lemma {:induction false} PinWritesAppend(a: seq<BusEvent>, b: seq<BusEvent>)
    ensures PinWrites(a + b) == PinWrites(a) + PinWrites(b)
  {
    if a != [] {
      assert (a + b)[1..] == a[1..] + b;
      PinWritesAppend(a[1..], b);
    } else {
      assert a + b == b;
    }
  }

  /** Transfers send exactly the bytes given, and write no pin. */
  lemma {:induction false} ExchangesBytes(sent: seq<bv8>, received: seq<bv8>)
    requires |sent| == |received|
    ensures SentBytes(Exchanges(sent, received)) == sent
    ensures PinWrites(Exchanges(sent, received)) == []
  {
    if sent != [] {
      var t := Exchanges(sent, received);
      assert t[1..] == Exchanges(sent[1..], received[1..]);
      ExchangesBytes(sent[1..], received[1..]);
    }
  }

  /** While the select line is low, transfers keep it low and are all selected. */
  lemma {:induction false} ExchangesSelected(pin: int, sent: seq<bv8>, received: seq<bv8>, rest: seq<BusEvent>)
    requires |sent| == |received|
    ensures TransfersWhileSelected(pin, Low, Exchanges(sent, received) + rest) == TransfersWhileSelected(pin, Low, rest)
    ensures LevelAfter(pin, Low, Exchanges(sent, received) + rest) == LevelAfter(pin, Low, rest)
  {
    if sent != [] {
      var t := Exchanges(sent, received);
      assert (t + rest)[1..] == Exchanges(sent[1..], received[1..]) + rest;
      ExchangesSelected(pin, sent[1..], received[1..], rest);
    } else {
      assert Exchanges(sent, received) + rest == rest;
    }
  }

  /** One `Update` sends exactly the outbound packet followed by padding: 96
   *  bytes, whatever the packet holds.
   */
  lemma UpdateTraceSends(pin: int, out: seq<bv8>, replies: seq<bv8>)
    requires |out| == OutPacket.OUTPUT_PACKET_SIZE && |replies| == InPacket.INPUT_PACKET_SIZE
    ensures SentBytes(UpdateTrace(pin, out, replies)) == TransmitFrame(out)
    ensures |SentBytes(UpdateTrace(pin, out, replies))| == InPacket.INPUT_PACKET_SIZE
  {
    var x := Exchanges(TransmitFrame(out), replies);
    var first, last := [PinWrite(pin, Low)], [PinWrite(pin, High)];
    assert UpdateTrace(pin, out, replies) == first + (x + last);
    ExchangesBytes(TransmitFrame(out), replies);
    SentBytesAppend(first, x + last);
    SentBytesAppend(x, last);
    assert first[1..] == [] && last[1..] == [];
  }

  /** One `Update` writes the select pin twice: low, then high. */
  lemma UpdateTracePins(pin: int, out: seq<bv8>, replies: seq<bv8>)
    requires |out| == OutPacket.OUTPUT_PACKET_SIZE && |replies| == InPacket.INPUT_PACKET_SIZE
    ensures PinWrites(UpdateTrace(pin, out, replies)) == [PinWrite(pin, Low), PinWrite(pin, High)]
  {
    var x := Exchanges(TransmitFrame(out), replies);
    var first, last := [PinWrite(pin, Low)], [PinWrite(pin, High)];
    assert UpdateTrace(pin, out, replies) == first + (x + last);
    ExchangesBytes(TransmitFrame(out), replies);
    PinWritesAppend(first, x + last);
    PinWritesAppend(x, last);
    assert first[1..] == [] && last[1..] == [];
  }

  /** Whatever the select pin's level before, every transfer of an `Update`
   *  happens while it is low, and it is high (idle) afterwards.
   */
  lemma UpdateTraceSelects(pin: int, out: seq<bv8>, replies: seq<bv8>, before: PinLevel)
    requires |out| == OutPacket.OUTPUT_PACKET_SIZE && |replies| == InPacket.INPUT_PACKET_SIZE
    ensures TransfersWhileSelected(pin, before, UpdateTrace(pin, out, replies))
    ensures LevelAfter(pin, before, UpdateTrace(pin, out, replies)) == High
  {
    var frame := TransmitFrame(out);
    var x := Exchanges(frame, replies);
    var last := [PinWrite(pin, High)];
    var t := UpdateTrace(pin, out, replies);
    assert t[0] == PinWrite(pin, Low) && t[1..] == x + last;
    ExchangesSelected(pin, frame, replies, last);
    assert last[1..] == [];
  }

  // The d-pad

  predicate IsDPad(b: Layout.Button)
  {
    b == Layout.DPadUp || b == Layout.DPadRight || b == Layout.DPadDown || b == Layout.DPadLeft
  }

  /** The d-pad buttons, in the order of their bits 0-3 in byte 13. */
  const DPad: seq<Layout.Button> := [Layout.DPadUp, Layout.DPadRight, Layout.DPadDown, Layout.DPadLeft]

  /** The raw 4-bit direction code the board sends in the d-pad bits:
   *  dPadUp + 2 * dPadRight + 4 * dPadDown + 8 * dPadLeft.
   */
  function DirectionCode(p: seq<bv8>): (d: nat)
    requires |p| == InPacket.INPUT_PACKET_SIZE
    ensures d < 16
  {
    (if InPacket.GetFlag(p, InPacket.Pressed(Layout.DPadUp)) then 1 else 0)
    + 2 * (if InPacket.GetFlag(p, InPacket.Pressed(Layout.DPadRight)) then 1 else 0)
    + 4 * (if InPacket.GetFlag(p, InPacket.Pressed(Layout.DPadDown)) then 1 else 0)
    + 8 * (if InPacket.GetFlag(p, InPacket.Pressed(Layout.DPadLeft)) then 1 else 0)
  }

  /** The d-pad flags are bits 0-3 of byte 13. */
  lemma DPadFlagBits(p: seq<bv8>)
    requires |p| == InPacket.INPUT_PACKET_SIZE
    ensures forall k :: 0 <= k < 4 ==> InPacket.GetFlag(p, InPacket.Pressed(DPad[k])) == BitOf(p[13], k)
  {
  }

  /** The compass octant a d-pad button points at, clockwise from up. */
  function Octant(b: Layout.Button): (o: nat)
    requires IsDPad(b)
    ensures o < 8 && o % 2 == 0
  {
    match b
    case DPadUp => 0
    case DPadRight => 2
    case DPadDown => 4
    case _ => 6
  }

  /** Codes 0-7 name the eight compass directions clockwise from up; a d-pad
   *  button is held when the direction is its own or one of its two
   *  neighbours.  Codes 8-15 mean that no direction is held.
   */
  predicate Held(d: nat, b: Layout.Button)
    requires IsDPad(b)
  {
    var offset := (d + 8 - Octant(b)) % 8;
    d < 8 && (offset == 0 || offset == 1 || offset == 7)
  }

  /** The conditions `Update` writes into d-pad bit `k`, for direction code `d`. */
  predicate DPadRule(d: nat, k: nat)
    requires k < 4
  {
    match k
    case 0 => d == 7 || d == 0 || d == 1
    case 1 => d == 1 || d == 2 || d == 3
    case 2 => d == 3 || d == 4 || d == 5
    case _ => d == 5 || d == 6 || d == 7
  }

  /** The driver's conditions are exactly the compass rule, for every code. */
  lemma {:induction false} DPadRuleIsHeld(d: nat)
    requires d < 16
    ensures forall k :: 0 <= k < 4 ==> DPadRule(d, k) == Held(d, DPad[k])
  {
    forall k | 0 <= k < 4
      ensures DPadRule(d, k) == Held(d, DPad[k])
    {
      if d < 8 {
        assert (d + 8 - Octant(DPad[k])) % 8 == (d + 8 - 2 * k) % 8;
      }
    }
  }

  /** Byte `b` with bits 0-3 rewritten by the four rules for direction code
   *  `d`, and bits 4-7 kept.
   */
  function DPadByte(b: bv8, d: nat): (r: bv8)
    ensures forall k :: 0 <= k < 4 ==> BitOf(r, k) == DPadRule(d, k)
    ensures forall k :: 4 <= k < 8 ==> BitOf(r, k) == BitOf(b, k)
  {
    var b0 := WithBit(b, 0, DPadRule(d, 0));
    var b1 := WithBit(b0, 1, DPadRule(d, 1));
    var b2 := WithBit(b1, 2, DPadRule(d, 2));
    WithBit(b2, 3, DPadRule(d, 3))
  }

  /** Rewrites the four d-pad bits of a received packet from the direction code
   *  into independent button states, as `Update` does after the transfer.
   */
  function NormalizeDPad(p: seq<bv8>): (r: seq<bv8>)
    requires |p| == InPacket.INPUT_PACKET_SIZE
    ensures |r| == InPacket.INPUT_PACKET_SIZE
    ensures forall i :: 0 <= i < InPacket.INPUT_PACKET_SIZE && i != 13 ==> r[i] == p[i]
    ensures forall k :: 0 <= k < 4 ==> BitOf(r[13], k) == Held(DirectionCode(p), DPad[k])
    ensures forall k :: 4 <= k < 8 ==> BitOf(r[13], k) == BitOf(p[13], k)
  {
    DPadRuleIsHeld(DirectionCode(p));
    p[13 := DPadByte(p[13], DirectionCode(p))]
  }

  /** Writing the four rules of `Update` into byte 13 in turn yields `NormalizeDPad`. */
  lemma DPadWritesNormalize(p: seq<bv8>, d: nat, dPad: bv8)
    requires |p| == InPacket.INPUT_PACKET_SIZE
    requires d == (if BitOf(p[13], 0) then 1 else 0) + 2 * (if BitOf(p[13], 1) then 1 else 0)
                + 4 * (if BitOf(p[13], 2) then 1 else 0) + 8 * (if BitOf(p[13], 3) then 1 else 0)
    requires dPad == WithBit(WithBit(WithBit(WithBit(p[13],
                       0, d == 7 || d == 0 || d == 1),
                       1, d == 1 || d == 2 || d == 3),
                       2, d == 3 || d == 4 || d == 5),
                       3, d == 5 || d == 6 || d == 7)
    ensures p[13 := dPad] == NormalizeDPad(p)
  {
    DPadFlagBits(p);
    assert d == DirectionCode(p);
    assert DPadRule(d, 0) == (d == 7 || d == 0 || d == 1);
    assert DPadRule(d, 1) == (d == 1 || d == 2 || d == 3);
    assert DPadRule(d, 2) == (d == 3 || d == 4 || d == 5);
    assert DPadRule(d, 3) == (d == 5 || d == 6 || d == 7);
    assert dPad == DPadByte(p[13], d);
  }

  /** After normalisation each d-pad flag says whether the received direction
   *  holds that button, and every other flag of the packet is as received.
   */
  lemma NormalizeDPadFlags(p: seq<bv8>)
    requires |p| == InPacket.INPUT_PACKET_SIZE
    ensures forall b :: IsDPad(b) ==> InPacket.GetFlag(NormalizeDPad(p), InPacket.Pressed(b)) == Held(DirectionCode(p), b)
    ensures forall f: InPacket.Flag :: !(f.Pressed? && IsDPad(f.button)) ==> InPacket.GetFlag(NormalizeDPad(p), f) == InPacket.GetFlag(p, f)
  {
    var r := NormalizeDPad(p);
    DPadFlagBits(r);
    forall b | IsDPad(b)
      ensures InPacket.GetFlag(r, InPacket.Pressed(b)) == Held(DirectionCode(p), b)
    {
      var k := InPacket.ControllerIndex(b);
      assert DPad[k] == b;
    }
    forall f: InPacket.Flag | !(f.Pressed? && IsDPad(f.button))
      ensures InPacket.GetFlag(r, f) == InPacket.GetFlag(p, f)
    {
      var n := InPacket.FlagBit(f);
      if n / 8 == 13 {
        assert f.Pressed?;
        assert n % 8 >= 4;
      }
    }
  }

  /** The d-pad decode for all sixteen codes: rows are codes, columns are up, right, down, left. */
  const DPadTable: seq<seq<bool>> :=
    [[true, false, false, false], [true, true, false, false],
     [false, true, false, false], [false, true, true, false],
     [false, false, true, false], [false, false, true, true],
     [false, false, false, true], [true, false, false, true],
     [false, false, false, false], [false, false, false, false],
     [false, false, false, false], [false, false, false, false],
     [false, false, false, false], [false, false, false, false],
     [false, false, false, false], [false, false, false, false]]

  lemma {:induction false} DPadDecodeTable(d: nat)
    requires d < 16
    ensures forall k :: 0 <= k < 4 ==> Held(d, DPad[k]) == DPadTable[d][k]
  {
    DPadRuleIsHeld(d);
    forall k | 0 <= k < 4
      ensures Held(d, DPad[k]) == DPadTable[d][k]
    {
      if k == 0 {
        assert DPadRule(d, k) == DPadTable[d][0];
      } else if k == 1 {
        assert DPadRule(d, k) == DPadTable[d][1];
      } else if k == 2 {
        assert DPadRule(d, k) == DPadTable[d][2];
      } else {
        assert DPadRule(d, k) == DPadTable[d][3];
      }
    }
  }

  // The driver

  class Servoshock {
    const ssPin: int
    const outPacket: array<bv8>
    const inPacket: array<bv8>

    ghost predicate Valid()
    {
      outPacket.Length == OutPacket.OUTPUT_PACKET_SIZE && inPacket.Length == InPacket.INPUT_PACKET_SIZE
    }

    /** Both packets start zeroed; only the pin number is kept. */
    constructor (slaveSelectPin: int)
      ensures Valid() && ssPin == slaveSelectPin
      ensures fresh(outPacket) && fresh(inPacket)
      ensures outPacket[..] == seq(OutPacket.OUTPUT_PACKET_SIZE, _ => 0)
      ensures inPacket[..] == seq(InPacket.INPUT_PACKET_SIZE, _ => 0)
    {
      ssPin := slaveSelectPin;
      outPacket := new bv8[OutPacket.OUTPUT_PACKET_SIZE](_ => 0);
      inPacket := new bv8[InPacket.INPUT_PACKET_SIZE](_ => 0);
    }

    /** One full-duplex exchange: the received packet replaces `inPacket` byte
     *  for byte, except that its d-pad bits are normalised; `outPacket` is sent
     *  and left as it was.
     */
    method Update(bus: Bus)
      requires Valid() && |bus.replies| >= InPacket.INPUT_PACKET_SIZE
      modifies inPacket, bus
      ensures inPacket[..] == NormalizeDPad(old(bus.replies[..InPacket.INPUT_PACKET_SIZE]))
      ensures bus.replies == old(bus.replies[InPacket.INPUT_PACKET_SIZE..])
      ensures bus.log == old(bus.log) + UpdateTrace(ssPin, outPacket[..], old(bus.replies[..InPacket.INPUT_PACKET_SIZE]))
      ensures unchanged(outPacket)
    {
      ghost var replies := bus.replies[..InPacket.INPUT_PACKET_SIZE];
      ghost var log0 := bus.log;
      bus.DigitalWrite(ssPin, Low);
      TransferPackets(bus);
      DecodeDPad();
      bus.DigitalWrite(ssPin, High);
      assert bus.log == log0 + ([PinWrite(ssPin, Low)] + Exchanges(TransmitFrame(outPacket[..]), replies) + [PinWrite(ssPin, High)]);
    }

    /** The transfer loop of `Update`: byte `i` of the outbound packet, or
     *  padding past its end, is shifted out while byte `i` of the inbound
     *  packet is shifted in, for all 96 inbound bytes.
     */
    method TransferPackets(bus: Bus)
      requires Valid() && |bus.replies| >= InPacket.INPUT_PACKET_SIZE
      modifies inPacket, bus
      ensures inPacket[..] == old(bus.replies[..InPacket.INPUT_PACKET_SIZE])
      ensures bus.replies == old(bus.replies[InPacket.INPUT_PACKET_SIZE..])
      ensures bus.log == old(bus.log) + Exchanges(TransmitFrame(outPacket[..]), old(bus.replies[..InPacket.INPUT_PACKET_SIZE]))
    {
      ghost var all := bus.replies;
      ghost var replies := all[..InPacket.INPUT_PACKET_SIZE];
      ghost var frame := TransmitFrame(outPacket[..]);
      ghost var log0 := bus.log;
      for i := 0 to InPacket.INPUT_PACKET_SIZE
        invariant bus.replies == all[i..]
        invariant forall j :: 0 <= j < i ==> inPacket[j] == replies[j]
        invariant bus.log == log0 + Exchanges(frame[..i], replies[..i])
      {
        assert all[i..][1..] == all[i + 1..];
        var r: bv8;
        if i < OutPacket.OUTPUT_PACKET_SIZE {
          r := bus.Transfer(outPacket[i]);
        } else {
          r := bus.Transfer(PADDING);
        }
        inPacket[i] := r;
        ExchangesSnoc(frame, replies, i);
      }
      assert frame[..InPacket.INPUT_PACKET_SIZE] == frame;
      assert replies[..InPacket.INPUT_PACKET_SIZE] == replies;
    }

    /** The d-pad post-processing of `Update`: the four d-pad bits arrive
     *  holding a direction code and are rewritten in place into independent
     *  button states.
     */
    method DecodeDPad()
      requires Valid()
      modifies inPacket
      ensures inPacket[..] == NormalizeDPad(old(inPacket[..]))
    {
      ghost var p := inPacket[..];
      var dPad := inPacket[13];
      var d := (if BitOf(dPad, 0) then 1 else 0) + 2 * (if BitOf(dPad, 1) then 1 else 0)
             + 4 * (if BitOf(dPad, 2) then 1 else 0) + 8 * (if BitOf(dPad, 3) then 1 else 0);
      dPad := WithBit(dPad, 0, d == 7 || d == 0 || d == 1);  // dPadUp
      dPad := WithBit(dPad, 1, d == 1 || d == 2 || d == 3);  // dPadRight
      dPad := WithBit(dPad, 2, d == 3 || d == 4 || d == 5);  // dPadDown
      dPad := WithBit(dPad, 3, d == 5 || d == 6 || d == 7);  // dPadLeft
      inPacket[13] := dPad;
      DPadWritesNormalize(p, d, dPad);
    }

    /** Writes the lightbar colour and blink durations; no override bit changes. */
    method SetLED(red: bv8, green: bv8, blue: bv8, blinkOnDuration: bv8, blinkOffDuration: bv8)
      requires Valid()
      modifies outPacket
      ensures outPacket[..] == WithLED(old(outPacket[..]), red, green, blue, blinkOnDuration, blinkOffDuration)
    {
      outPacket[OutPacket.LevelOffset(OutPacket.LEDRed)] := red;
      outPacket[OutPacket.LevelOffset(OutPacket.LEDGreen)] := green;
      outPacket[OutPacket.LevelOffset(OutPacket.LEDBlue)] := blue;
      outPacket[OutPacket.LevelOffset(OutPacket.LEDBlinkOnDuration)] := blinkOnDuration;
      outPacket[OutPacket.LevelOffset(OutPacket.LEDBlinkOffDuration)] := blinkOffDuration;
    }
  }

  /** The outbound packet after `SetLED`: the five LED fields hold the
   *  arguments, every byte outside 1-5 is kept, and so is every flag,
   *  the LED override bit included.
   */
  function WithLED(p: seq<bv8>, red: bv8, green: bv8, blue: bv8, blinkOn: bv8, blinkOff: bv8): (r: seq<bv8>)
    requires |p| == OutPacket.OUTPUT_PACKET_SIZE
    ensures |r| == OutPacket.OUTPUT_PACKET_SIZE
    ensures OutPacket.GetLevel(r, OutPacket.LEDRed) == red && OutPacket.GetLevel(r, OutPacket.LEDGreen) == green
    ensures OutPacket.GetLevel(r, OutPacket.LEDBlue) == blue
    ensures OutPacket.GetLevel(r, OutPacket.LEDBlinkOnDuration) == blinkOn
    ensures OutPacket.GetLevel(r, OutPacket.LEDBlinkOffDuration) == blinkOff
    ensures forall i :: 0 <= i < OutPacket.OUTPUT_PACKET_SIZE && !(1 <= i <= 5) ==> r[i] == p[i]
    ensures forall f :: OutPacket.GetFlag(r, f) == OutPacket.GetFlag(p, f)
  {
    var r := OutPacket.SetLevel(p, OutPacket.LEDRed, red);
    var r := OutPacket.SetLevel(r, OutPacket.LEDGreen, green);
    var r := OutPacket.SetLevel(r, OutPacket.LEDBlue, blue);
    var r := OutPacket.SetLevel(r, OutPacket.LEDBlinkOnDuration, blinkOn);
    var r := OutPacket.SetLevel(r, OutPacket.LEDBlinkOffDuration, blinkOff);
    assert forall f :: r[OutPacket.FlagBit(f) / 8] == p[OutPacket.FlagBit(f) / 8];
    r
  }

  /** With an all-zero outbound packet and a board that answers byte `i` with
   *  the value `i`, the inbound packet reads 0, 1, ..., 95, except byte 13:
   *  its raw d-pad code is 13, which holds no direction, so the byte becomes 0.
   */
  lemma EchoScenario(replies: seq<bv8>)
    requires |replies| == InPacket.INPUT_PACKET_SIZE
    requires forall i :: 0 <= i < InPacket.INPUT_PACKET_SIZE ==> replies[i] as nat == i
    ensures NormalizeDPad(replies)[13] == 0
    ensures forall i :: 0 <= i < InPacket.INPUT_PACKET_SIZE && i != 13 ==> NormalizeDPad(replies)[i] as nat == i
  {
    ByteValueInjective(replies[13], 13);
    DPadFlagBits(replies);
    assert DirectionCode(replies) == 13;
    var p := NormalizeDPad(replies);
    assert forall k :: 0 <= k < 8 ==> BitOf(p[13], k) == BitOf(0, k);
    BitsDetermineByte(p[13], 0);
  }

  /** Two updates against a board that answers the same bytes leave the same
   *  inbound packet: nothing from before an exchange survives it.
   */
  method RepeatedUpdate(s: Servoshock, replies: seq<bv8>)
    requires s.Valid() && |replies| == InPacket.INPUT_PACKET_SIZE
    modifies s.inPacket
    ensures s.inPacket[..] == NormalizeDPad(replies)
  {
    var first := new Bus(replies);
    s.Update(first);
    assert replies[..InPacket.INPUT_PACKET_SIZE] == replies;
    var once := s.inPacket[..];
    var second := new Bus(replies);
    s.Update(second);
    assert s.inPacket[..] == once;
  }
}
