/** The 96-byte inbound SPI packet (Servoshock to Arduino), `SPI_INPUT_PACKET`.
 *
 *  Byte map:
 *    0-7      leftover bytes of the previous transaction, discarded
 *    8        reportID
 *    9-12     lStickX, lStickY, rStickX, rStickY
 *    13-15    controller button bits, then a 6-bit counter in bits 2-7 of byte 15
 *    16-17    lTriggerAnalog, rTriggerAnalog
 *    18-20    unused
 *    21-32    gyroX, gyroY, gyroZ, accelX, accelY, accelZ (signed 16-bit, little-endian)
 *    33-37    unused
 *    38       battery (bits 0-3) and USBData (bit 4)
 *    39-40    unused
 *    41       numTpadPackets
 *    42-68    three touchpad records of 9 bytes: a packet counter and two 4-byte fingers
 *    69-92    one 16-bit pulse width per axis, as currently driven
 *    93-95    one bit per button, as currently driven
 */
module InPacket {
  import opened Bits
  import Layout

  const INPUT_PACKET_SIZE: nat := 96
  const TPAD_RECORDS: nat := 3
  const FINGERS: nat := 2

  /** The controller buttons in the order of the bits at bytes 13-15, which
   *  differs from the order of the output bits (`Layout.Buttons`).
   */
  const ControllerButtons: seq<Layout.Button> :=
    [Layout.DPadUp, Layout.DPadRight, Layout.DPadDown, Layout.DPadLeft,
     Layout.Square, Layout.Cross, Layout.Circle, Layout.Triangle,
     Layout.LBumper, Layout.RBumper, Layout.LTriggerDigital, Layout.RTriggerDigital,
     Layout.Share, Layout.Options, Layout.LStickPress, Layout.RStickPress,
     Layout.PsButton, Layout.TpadPress]

  /** Position of `b` among the controller button bits. */
  function ControllerIndex(b: Layout.Button): (k: nat)
    ensures k < |ControllerButtons| == 18 && ControllerButtons[k] == b
  {
    match b
    case DPadUp => 0 case DPadRight => 1 case DPadDown => 2 case DPadLeft => 3
    case Square => 4 case Cross => 5 case Circle => 6 case Triangle => 7
    case LBumper => 8 case RBumper => 9 case LTriggerDigital => 10 case RTriggerDigital => 11
    case Share => 12 case Options => 13 case LStickPress => 14 case RStickPress => 15
    case PsButton => 16 case TpadPress => 17
  }

  /** Every single-bit field of the inbound packet. */
  datatype Flag =
    | Pressed(button: Layout.Button)      // controller state, bytes 13-15
    | USBData                             // byte 38 bit 4
    | OutputState(button: Layout.Button)  // output in effect, bytes 93-95

  function FlagBit(f: Flag): (n: nat)
    ensures 104 <= n < 122 || n == 308 || 744 <= n < 762
  {
    match f
    case Pressed(b) => 8 * 13 + ControllerIndex(b)
    case USBData => 8 * 38 + 4
    case OutputState(b) => 8 * 93 + Layout.ButtonIndex(b)
  }

  /** The byte-wide fields. */
  datatype Reading =
    | ReportID | LStickX | LStickY | RStickX | RStickY
    | LTriggerAnalog | RTriggerAnalog | NumTpadPackets

  function ReadingOffset(r: Reading): (i: nat)
    ensures 8 <= i <= 12 || i == 16 || i == 17 || i == 41
  {
    match r
    case ReportID => 8
    case LStickX => 9 case LStickY => 10 case RStickX => 11 case RStickY => 12
    case LTriggerAnalog => 16 case RTriggerAnalog => 17
    case NumTpadPackets => 41
  }

  /** The inertial readings. */
  datatype Imu = GyroX | GyroY | GyroZ | AccelX | AccelY | AccelZ

  function ImuOffset(m: Imu): (i: nat)
    ensures 21 <= i <= 31 && i % 2 == 1
  {
    match m
    case GyroX => 21 case GyroY => 23 case GyroZ => 25
    case AccelX => 27 case AccelY => 29 case AccelZ => 31
  }

  /** Offset of the low byte of an axis's current pulse width (`*State_uS`). */
  function StatePulseWidthOffset(a: Layout.Axis): (i: nat)
    ensures 69 <= i <= 91 && i % 2 == 1
  {
    69 + 2 * Layout.AxisIndex(a)
  }

  /** Offset of touchpad record `t` (its packet counter byte). */
  function TpadOffset(t: nat): (i: nat)
    requires t < TPAD_RECORDS
    ensures 42 <= i <= 60
  {
    42 + 9 * t
  }

  /** Offset of finger `f` of touchpad record `t`. */
  function FingerOffset(t: nat, f: nat): (i: nat)
    requires t < TPAD_RECORDS && f < FINGERS
    ensures TpadOffset(t) < i && i + 4 <= TpadOffset(t) + 9
  {
    TpadOffset(t) + 1 + 4 * f
  }

  // Single bits

  predicate GetFlag(p: seq<bv8>, f: Flag)
    requires |p| == INPUT_PACKET_SIZE
  {
    GetBit(p, FlagBit(f))
  }

  /** Sets one flag; every other bit of the packet is kept. */
  function SetFlag(p: seq<bv8>, f: Flag, v: bool): (r: seq<bv8>)
    requires |p| == INPUT_PACKET_SIZE
    ensures |r| == INPUT_PACKET_SIZE && GetFlag(r, f) == v
    ensures forall m :: 0 <= m < 8 * INPUT_PACKET_SIZE && m != FlagBit(f) ==> GetBit(r, m) == GetBit(p, m)
    ensures forall i :: 0 <= i < INPUT_PACKET_SIZE && i != FlagBit(f) / 8 ==> r[i] == p[i]
  {
    SetBit(p, FlagBit(f), v)
  }

  // Whole bytes

  function GetReading(p: seq<bv8>, r: Reading): bv8
    requires |p| == INPUT_PACKET_SIZE
  {
    p[ReadingOffset(r)]
  }

  function SetReading(p: seq<bv8>, r: Reading, v: bv8): (q: seq<bv8>)
    requires |p| == INPUT_PACKET_SIZE
    ensures |q| == INPUT_PACKET_SIZE && GetReading(q, r) == v
    ensures forall i :: 0 <= i < INPUT_PACKET_SIZE && i != ReadingOffset(r) ==> q[i] == p[i]
  {
    p[ReadingOffset(r) := v]
  }

  // Sub-byte fields

  /** The 6-bit report counter, bits 2-7 of byte 15. */
  function GetCounter(p: seq<bv8>): (c: nat)
    requires |p| == INPUT_PACKET_SIZE
    ensures c < 64
  {
    (p[15] >> 2) as nat
  }

  /** Sets the counter; bits 0-1 of byte 15 (psButton, tpadPress) and every other byte are kept. */
  function SetCounter(p: seq<bv8>, c: nat): (r: seq<bv8>)
    requires |p| == INPUT_PACKET_SIZE && c < 64
    ensures |r| == INPUT_PACKET_SIZE && GetCounter(r) == c
    ensures BitOf(r[15], 0) == BitOf(p[15], 0) && BitOf(r[15], 1) == BitOf(p[15], 1)
    ensures forall i :: 0 <= i < INPUT_PACKET_SIZE && i != 15 ==> r[i] == p[i]
  {
    p[15 := WithHighSix(p[15], c)]
  }

  /** The battery level, bits 0-3 of byte 38. */
  function GetBattery(p: seq<bv8>): (v: nat)
    requires |p| == INPUT_PACKET_SIZE
    ensures v < 16
  {
    LowNibble(p[38])
  }

  /** Sets the battery level; bits 4-7 of byte 38 (USBData and the unused bits) and every other byte are kept. */
  function SetBattery(p: seq<bv8>, v: nat): (r: seq<bv8>)
    requires |p| == INPUT_PACKET_SIZE && v < 16
    ensures |r| == INPUT_PACKET_SIZE && GetBattery(r) == v
    ensures forall k :: 4 <= k < 8 ==> BitOf(r[38], k) == BitOf(p[38], k)
    ensures forall i :: 0 <= i < INPUT_PACKET_SIZE && i != 38 ==> r[i] == p[i]
  {
    p[38 := WithLowNibble(p[38], v)]
  }

  // 16-bit fields

  /** An inertial reading: a `signed int`, read little-endian with no byte swap. */
  function GetImu(p: seq<bv8>, m: Imu): (s: int)
    requires |p| == INPUT_PACKET_SIZE
    ensures -0x8000 <= s < 0x8000
    ensures s >= 0 <==> p[ImuOffset(m) + 1] < 0x80
  {
    ToSigned16(GetU16(p, ImuOffset(m)))
  }

  function SetImu(p: seq<bv8>, m: Imu, s: int): (r: seq<bv8>)
    requires |p| == INPUT_PACKET_SIZE && -0x8000 <= s < 0x8000
    ensures |r| == INPUT_PACKET_SIZE && GetImu(r, m) == s
    ensures forall i :: 0 <= i < INPUT_PACKET_SIZE && i != ImuOffset(m) && i != ImuOffset(m) + 1 ==> r[i] == p[i]
  {
    SetU16(p, ImuOffset(m), FromSigned16(s))
  }

  /** The pulse width the board currently drives on an axis (`lStickXState_uS` to `tiltYState_uS`). */
  function GetStatePulseWidth(p: seq<bv8>, a: Layout.Axis): (us: nat)
    requires |p| == INPUT_PACKET_SIZE
    ensures us < 0x1_0000
  {
    GetU16(p, StatePulseWidthOffset(a))
  }

  function SetStatePulseWidth(p: seq<bv8>, a: Layout.Axis, us: nat): (r: seq<bv8>)
    requires |p| == INPUT_PACKET_SIZE && us < 0x1_0000
    ensures |r| == INPUT_PACKET_SIZE && GetStatePulseWidth(r, a) == us
    ensures forall i :: 0 <= i < INPUT_PACKET_SIZE && i != StatePulseWidthOffset(a) && i != StatePulseWidthOffset(a) + 1 ==> r[i] == p[i]
  {
    SetU16(p, StatePulseWidthOffset(a), us)
  }

  // Touchpad

  function GetTpadCounter(p: seq<bv8>, t: nat): bv8
    requires |p| == INPUT_PACKET_SIZE && t < TPAD_RECORDS
  {
    p[TpadOffset(t)]
  }

  function SetTpadCounter(p: seq<bv8>, t: nat, v: bv8): (r: seq<bv8>)
    requires |p| == INPUT_PACKET_SIZE && t < TPAD_RECORDS
    ensures |r| == INPUT_PACKET_SIZE && GetTpadCounter(r, t) == v
    ensures forall i :: 0 <= i < INPUT_PACKET_SIZE && i != TpadOffset(t) ==> r[i] == p[i]
  {
    p[TpadOffset(t) := v]
  }

  /** One `FINGER_DATA` record. */
  datatype Finger = Finger(touchID: nat, noFinger: bool, x: nat, y: nat)

  predicate ValidFinger(f: Finger)
  {
    f.touchID < 128 && f.x < 4096 && f.y < 4096
  }

  /** Decodes the 4-byte finger record: touchID is bits 0-6 and noFinger bit 7
   *  of the first byte; x is the next 12 bits and y the 12 after them.
   */
  function DecodeFinger(b: seq<bv8>): (f: Finger)
    requires |b| == 4
    ensures ValidFinger(f)
  {
    Finger((b[0] & 0x7F) as nat, BitOf(b[0], 7), LowTwelve(b[1], b[2]), HighTwelve(b[2], b[3]))
  }

  /** Bits 0-11 of the little-endian pair `b1`, `b2`. */
  function LowTwelve(b1: bv8, b2: bv8): (x: nat)
    ensures x < 4096
  {
    b1 as nat + 256 * LowNibble(b2)
  }

  /** Bits 4-15 of the little-endian pair `b2`, `b3`. */
  function HighTwelve(b2: bv8, b3: bv8): (y: nat)
    ensures y < 4096
  {
    HighNibble(b2) + 16 * b3 as nat
  }

  function EncodeFinger(f: Finger): (b: seq<bv8>)
    requires ValidFinger(f)
    ensures |b| == 4 && DecodeFinger(b) == f
  {
    var b := [JoinTopBit(f.touchID, f.noFinger),
              ToByte(f.x % 256),
              JoinNibbles(f.x / 256, f.y % 16),
              ToByte(f.y / 16)];
    TwelveBitsRoundTrip(f.x, f.y);
    b
  }

  lemma TwelveBitsRoundTrip(x: nat, y: nat)
    requires x < 4096 && y < 4096
    ensures LowTwelve(ToByte(x % 256), JoinNibbles(x / 256, y % 16)) == x
    ensures HighTwelve(JoinNibbles(x / 256, y % 16), ToByte(y / 16)) == y
  {
  }

  /** Every 4-byte pattern is the encoding of the finger it decodes to. */
  lemma EncodeDecodeFinger(b: seq<bv8>)
    requires |b| == 4
    ensures EncodeFinger(DecodeFinger(b)) == b
  {
    var e := EncodeFinger(DecodeFinger(b));
    SplitJoinTopBit(b[0]);
    TwelveBitsSplit(b[1], b[2], b[3]);
    assert e[0] == b[0] && e[1] == b[1] && e[2] == b[2] && e[3] == b[3];
  }

  lemma TwelveBitsSplit(b1: bv8, b2: bv8, b3: bv8)
    ensures ToByte(LowTwelve(b1, b2) % 256) == b1
    ensures JoinNibbles(LowTwelve(b1, b2) / 256, HighTwelve(b2, b3) % 16) == b2
    ensures ToByte(HighTwelve(b2, b3) / 16) == b3
  {
    LowTwelveSplit(b1, b2);
    HighTwelveSplit(b2, b3);
    SplitWord(b1 as nat, LowNibble(b2));
    SplitJoinNibbles(b2);
  }

  lemma LowTwelveSplit(b1: bv8, b2: bv8)
    ensures ToByte(LowTwelve(b1, b2) % 256) == b1
  {
    SplitWord(b1 as nat, LowNibble(b2));
    ToByteOfValue(b1);
  }

  lemma HighTwelveSplit(b2: bv8, b3: bv8)
    ensures HighTwelve(b2, b3) % 16 == HighNibble(b2) && HighTwelve(b2, b3) / 16 == b3 as nat
    ensures ToByte(HighTwelve(b2, b3) / 16) == b3
  {
    SplitNibble(HighNibble(b2), b3 as nat);
    ToByteOfValue(b3);
  }

  lemma SplitNibble(lo: nat, hi: nat)
    requires lo < 16
    ensures (lo + 16 * hi) % 16 == lo && (lo + 16 * hi) / 16 == hi
  {
  }

  function GetFinger(p: seq<bv8>, t: nat, f: nat): (fd: Finger)
    requires |p| == INPUT_PACKET_SIZE && t < TPAD_RECORDS && f < FINGERS
    ensures ValidFinger(fd)
  {
    var i := FingerOffset(t, f);
    DecodeFinger(p[i..i + 4])
  }

  function SetFinger(p: seq<bv8>, t: nat, f: nat, fd: Finger): (r: seq<bv8>)
    requires |p| == INPUT_PACKET_SIZE && t < TPAD_RECORDS && f < FINGERS && ValidFinger(fd)
    ensures |r| == INPUT_PACKET_SIZE && GetFinger(r, t, f) == fd
    ensures forall i :: 0 <= i < INPUT_PACKET_SIZE && !(FingerOffset(t, f) <= i < FingerOffset(t, f) + 4) ==> r[i] == p[i]
  {
    var i := FingerOffset(t, f);
    var r := p[..i] + EncodeFinger(fd) + p[i + 4..];
    assert r[i..i + 4] == EncodeFinger(fd);
    r
  }

  // The layout as a whole

  /** Any field of the inbound packet. */
  datatype Field =
    | FlagField(flag: Flag)
    | ReadingField(reading: Reading)
    | CounterField
    | BatteryField
    | ImuField(imu: Imu)
    | TpadCounterField(record: nat)
    | FingerField(record: nat, finger: nat)
    | StatePulseWidthField(axis: Layout.Axis)

  predicate ValidField(fd: Field)
  {
    match fd
    case TpadCounterField(t) => t < TPAD_RECORDS
    case FingerField(t, f) => t < TPAD_RECORDS && f < FINGERS
    case _ => true
  }

  /** First bit of a field; fields occupy contiguous bits. */
  function FieldStart(fd: Field): nat
    requires ValidField(fd)
  {
    match fd
    case FlagField(f) => FlagBit(f)
    case ReadingField(r) => 8 * ReadingOffset(r)
    case CounterField => 8 * 15 + 2
    case BatteryField => 8 * 38
    case ImuField(m) => 8 * ImuOffset(m)
    case TpadCounterField(t) => 8 * TpadOffset(t)
    case FingerField(t, f) => 8 * FingerOffset(t, f)
    case StatePulseWidthField(a) => 8 * StatePulseWidthOffset(a)
  }

  function FieldWidth(fd: Field): nat
  {
    match fd
    case FlagField(_) => 1
    case ReadingField(_) => 8
    case CounterField => 6
    case BatteryField => 4
    case ImuField(_) => 16
    case TpadCounterField(_) => 8
    case FingerField(_, _) => 32
    case StatePulseWidthField(_) => 16
  }

  /** Every field lies after the eight discarded bytes and inside the packet. */
  lemma FieldInPacket(fd: Field)
    requires ValidField(fd)
    ensures 8 * 8 <= FieldStart(fd) && FieldStart(fd) + FieldWidth(fd) <= 8 * INPUT_PACKET_SIZE
  {
  }

  /** No two fields share a bit. */
  lemma {:induction false} FieldsDisjoint(fd: Field, g: Field)
    requires ValidField(fd) && ValidField(g) && fd != g
    ensures FieldStart(fd) + FieldWidth(fd) <= FieldStart(g) || FieldStart(g) + FieldWidth(g) <= FieldStart(fd)
  {
    if fd.FlagField? && g.FlagField? {
      FlagBitInjective(fd.flag, g.flag);
    } else if fd.ReadingField? && g.ReadingField? {
      assert ReadingOffset(fd.reading) != ReadingOffset(g.reading);
    } else if fd.ImuField? && g.ImuField? {
      assert ImuOffset(fd.imu) != ImuOffset(g.imu);
    } else if fd.StatePulseWidthField? && g.StatePulseWidthField? {
      assert Layout.Axes[Layout.AxisIndex(fd.axis)] != Layout.Axes[Layout.AxisIndex(g.axis)];
    } else if fd.FingerField? || fd.TpadCounterField? || g.FingerField? || g.TpadCounterField? {
      TouchpadDisjoint(fd, g);
    } else {
      var lo, hi := FieldStart(fd), FieldStart(fd) + FieldWidth(fd);
      var lo', hi' := FieldStart(g), FieldStart(g) + FieldWidth(g);
      assert hi <= lo' || hi' <= lo;
    }
  }

  lemma FlagBitInjective(f: Flag, g: Flag)
    requires f != g
    ensures FlagBit(f) != FlagBit(g)
  {
    match f {
      case Pressed(b) =>
        if g.Pressed? { assert ControllerButtons[ControllerIndex(b)] != ControllerButtons[ControllerIndex(g.button)]; }
      case OutputState(b) =>
        if g.OutputState? { assert Layout.Buttons[Layout.ButtonIndex(b)] != Layout.Buttons[Layout.ButtonIndex(g.button)]; }
      case USBData =>
    }
  }

  /** The touchpad block, bytes 42-68, overlaps no other field. */
  lemma TouchpadDisjoint(fd: Field, g: Field)
    requires ValidField(fd) && ValidField(g) && fd != g
    requires fd.FingerField? || fd.TpadCounterField? || g.FingerField? || g.TpadCounterField?
    ensures FieldStart(fd) + FieldWidth(fd) <= FieldStart(g) || FieldStart(g) + FieldWidth(g) <= FieldStart(fd)
  {
    var lo, hi := FieldStart(fd), FieldStart(fd) + FieldWidth(fd);
    var lo', hi' := FieldStart(g), FieldStart(g) + FieldWidth(g);
    if (fd.FingerField? || fd.TpadCounterField?) && (g.FingerField? || g.TpadCounterField?) {
      assert hi <= lo' || hi' <= lo;
    } else {
      assert 8 * 42 <= lo < hi <= 8 * 69 || 8 * 42 <= lo' < hi' <= 8 * 69;
      assert hi <= lo' || hi' <= lo;
    }
  }
}
