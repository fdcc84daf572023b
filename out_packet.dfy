/** The 39-byte outbound SPI packet (Arduino to Servoshock), `SPI_OUTPUT_PACKET`.
 *
 *  Byte map:
 *    0        bits 0-2: overrideLED, overrideRumbleL, overrideRumbleH
 *    1-7      LEDRed, LEDGreen, LEDBlue, LEDBlinkOnDuration, LEDBlinkOffDuration, rumbleL, rumbleH
 *    8-11     one override bit per axis (12) then per button (18)
 *    12-35    one 16-bit little-endian pulse width in microseconds per axis
 *    36-38    one output bit per button
 */
module OutPacket {
  import opened Bits
  import opened Layout

  const OUTPUT_PACKET_SIZE: nat := 39

  /** Every single-bit field of the outbound packet. */
  datatype Flag =
    | OverrideLED | OverrideRumbleL | OverrideRumbleH
    | OverrideAxis(axis: Axis)
    | OverrideButton(button: Button)
    | Output(button: Button)

  /** The byte-wide feedback fields, bytes 1 to 7. */
  datatype Level =
    | LEDRed | LEDGreen | LEDBlue | LEDBlinkOnDuration | LEDBlinkOffDuration
    | RumbleL | RumbleH

  /** Flat bit address of a flag. */
  function FlagBit(f: Flag): (n: nat)
    ensures n < 3 || 64 <= n < 94 || 288 <= n < 306
  {
    match f
    case OverrideLED => 0
    case OverrideRumbleL => 1
    case OverrideRumbleH => 2
    case OverrideAxis(a) => 64 + AxisIndex(a)
    case OverrideButton(b) => 64 + 12 + ButtonIndex(b)
    case Output(b) => 8 * 36 + ButtonIndex(b)
  }

  /** No two flags share a bit. */
  lemma {:induction false} FlagBitInjective(f: Flag, g: Flag)
    requires f != g
    ensures FlagBit(f) != FlagBit(g)
  {
    match f
    case OverrideAxis(a) =>
      if g.OverrideAxis? { assert Axes[AxisIndex(a)] != Axes[AxisIndex(g.axis)]; }
    case OverrideButton(b) =>
      if g.OverrideButton? { assert Buttons[ButtonIndex(b)] != Buttons[ButtonIndex(g.button)]; }
    case Output(b) =>
      if g.Output? { assert Buttons[ButtonIndex(b)] != Buttons[ButtonIndex(g.button)]; }
    case _ =>
  }

  function LevelOffset(l: Level): (i: nat)
    ensures 1 <= i <= 7
  {
    match l
    case LEDRed => 1 case LEDGreen => 2 case LEDBlue => 3
    case LEDBlinkOnDuration => 4 case LEDBlinkOffDuration => 5
    case RumbleL => 6 case RumbleH => 7
  }

  /** Offset of the low byte of an axis's pulse width. */
  function PulseWidthOffset(a: Axis): (i: nat)
    ensures 12 <= i <= 34 && i % 2 == 0
  {
    12 + 2 * AxisIndex(a)
  }

  predicate GetFlag(p: seq<bv8>, f: Flag)
    requires |p| == OUTPUT_PACKET_SIZE
  {
    GetBit(p, FlagBit(f))
  }

  /** Sets one flag; every other bit of the packet is kept. */
  function SetFlag(p: seq<bv8>, f: Flag, v: bool): (r: seq<bv8>)
    requires |p| == OUTPUT_PACKET_SIZE
    ensures |r| == OUTPUT_PACKET_SIZE && GetFlag(r, f) == v
    ensures forall m :: 0 <= m < 8 * OUTPUT_PACKET_SIZE && m != FlagBit(f) ==> GetBit(r, m) == GetBit(p, m)
    ensures forall i :: 0 <= i < OUTPUT_PACKET_SIZE && i != FlagBit(f) / 8 ==> r[i] == p[i]
  {
    SetBit(p, FlagBit(f), v)
  }

  function GetLevel(p: seq<bv8>, l: Level): bv8
    requires |p| == OUTPUT_PACKET_SIZE
  {
    p[LevelOffset(l)]
  }

  /** Sets one byte-wide field; every other byte of the packet is kept. */
  function SetLevel(p: seq<bv8>, l: Level, v: bv8): (r: seq<bv8>)
    requires |p| == OUTPUT_PACKET_SIZE
    ensures |r| == OUTPUT_PACKET_SIZE && GetLevel(r, l) == v
    ensures forall i :: 0 <= i < OUTPUT_PACKET_SIZE && i != LevelOffset(l) ==> r[i] == p[i]
  {
    p[LevelOffset(l) := v]
  }

  /** The pulse width in microseconds, `lStickX_uS` to `tiltY_uS`. */
  function GetPulseWidth(p: seq<bv8>, a: Axis): (us: nat)
    requires |p| == OUTPUT_PACKET_SIZE
    ensures us < 0x1_0000
  {
    GetU16(p, PulseWidthOffset(a))
  }

  /** Sets one pulse width; every byte but its two is kept. */
  function SetPulseWidth(p: seq<bv8>, a: Axis, us: nat): (r: seq<bv8>)
    requires |p| == OUTPUT_PACKET_SIZE && us < 0x1_0000
    ensures |r| == OUTPUT_PACKET_SIZE && GetPulseWidth(r, a) == us
    ensures forall i :: 0 <= i < OUTPUT_PACKET_SIZE && i != PulseWidthOffset(a) && i != PulseWidthOffset(a) + 1 ==> r[i] == p[i]
  {
    SetU16(p, PulseWidthOffset(a), us)
  }

  /** Any field of the outbound packet, read and written as a number:
   *  a flag as 0 or 1, a level as a byte, a pulse width as 16 bits.
   */
  datatype Field = FlagField(flag: Flag) | LevelField(level: Level) | PulseWidthField(axis: Axis)

  /** First bit of a field and its width in bits: fields occupy contiguous bits. */
  function FieldStart(fd: Field): nat
  {
    match fd
    case FlagField(f) => FlagBit(f)
    case LevelField(l) => 8 * LevelOffset(l)
    case PulseWidthField(a) => 8 * PulseWidthOffset(a)
  }

  function FieldWidth(fd: Field): nat
  {
    match fd
    case FlagField(_) => 1
    case LevelField(_) => 8
    case PulseWidthField(_) => 16
  }

  /** Every field lies inside the packet, and no two fields share a bit. */
  lemma {:induction false} FieldsDisjoint(fd: Field, g: Field)
    requires fd != g
    ensures FieldStart(fd) + FieldWidth(fd) <= 8 * OUTPUT_PACKET_SIZE
    ensures FieldStart(fd) + FieldWidth(fd) <= FieldStart(g) || FieldStart(g) + FieldWidth(g) <= FieldStart(fd)
  {
    match fd
    case FlagField(f) =>
      if g.FlagField? { FlagBitInjective(f, g.flag); }
    case LevelField(l) =>
      if g.LevelField? { assert LevelOffset(l) != LevelOffset(g.level); }
    case PulseWidthField(a) =>
      if g.PulseWidthField? { assert Axes[AxisIndex(a)] != Axes[AxisIndex(g.axis)]; }
  }

  function Read(p: seq<bv8>, fd: Field): (v: nat)
    requires |p| == OUTPUT_PACKET_SIZE
    ensures v < Capacity(fd)
  {
    match fd
    case FlagField(f) => if GetFlag(p, f) then 1 else 0
    case LevelField(l) => GetLevel(p, l) as nat
    case PulseWidthField(a) => GetPulseWidth(p, a)
  }

  /** The number of distinct values a field holds: 2 to the power of its width. */
  function Capacity(fd: Field): nat
  {
    match fd
    case FlagField(_) => 2
    case LevelField(_) => 0x100
    case PulseWidthField(_) => 0x1_0000
  }

  function Write(p: seq<bv8>, fd: Field, v: nat): (r: seq<bv8>)
    requires |p| == OUTPUT_PACKET_SIZE && v < Capacity(fd)
    ensures |r| == OUTPUT_PACKET_SIZE
  {
    match fd
    case FlagField(f) => SetFlag(p, f, v == 1)
    case LevelField(l) => SetLevel(p, l, ToByte(v))
    case PulseWidthField(a) => SetPulseWidth(p, a, v)
  }

  /** Set-then-get on any field returns the value written. */
  lemma WriteRead(p: seq<bv8>, fd: Field, v: nat)
    requires |p| == OUTPUT_PACKET_SIZE && v < Capacity(fd)
    ensures Read(Write(p, fd, v), fd) == v
  {
  }

  /** Writing one field leaves every other field as it was. */
  lemma {:induction false} WriteKeepsOthers(p: seq<bv8>, fd: Field, g: Field, v: nat)
    requires |p| == OUTPUT_PACKET_SIZE && v < Capacity(fd) && fd != g
    ensures Read(Write(p, fd, v), g) == Read(p, g)
  {
    var r := Write(p, fd, v);
    match fd {
      case FlagField(f) =>
        if g.FlagField? { FlagBitInjective(f, g.flag); }
      case LevelField(l) =>
        match g {
          case FlagField(h) => assert r[FlagBit(h) / 8] == p[FlagBit(h) / 8];
          case LevelField(l') => assert LevelOffset(l) != LevelOffset(l');
          case PulseWidthField(_) =>
        }
      case PulseWidthField(a) =>
        match g {
          case FlagField(h) => assert r[FlagBit(h) / 8] == p[FlagBit(h) / 8];
          case LevelField(_) =>
          case PulseWidthField(a') =>
            assert Axes[AxisIndex(a)] != Axes[AxisIndex(a')];
            assert r[PulseWidthOffset(a')] == p[PulseWidthOffset(a')];
            assert r[PulseWidthOffset(a') + 1] == p[PulseWidthOffset(a') + 1];
        }
    }
  }

  /** Writing back the value just read changes no byte. */
  lemma {:induction false} ReadWrite(p: seq<bv8>, fd: Field)
    requires |p| == OUTPUT_PACKET_SIZE
    ensures Write(p, fd, Read(p, fd)) == p
  {
    match fd
    case FlagField(f) =>
      var r := Write(p, fd, Read(p, fd));
      var n := FlagBit(f);
      assert forall k :: 0 <= k < 8 ==> BitOf(r[n / 8], k) == BitOf(p[n / 8], k) by {
        forall k | 0 <= k < 8 ensures BitOf(r[n / 8], k) == BitOf(p[n / 8], k) {
          assert GetBit(r, 8 * (n / 8) + k) == GetBit(p, 8 * (n / 8) + k);
        }
      }
      BitsDetermineByte(r[n / 8], p[n / 8]);
      assert forall i :: 0 <= i < OUTPUT_PACKET_SIZE ==> r[i] == p[i];
    case LevelField(l) =>
      ByteValueInjective(ToByte(p[LevelOffset(l)] as nat), p[LevelOffset(l)]);
    case PulseWidthField(a) =>
      SetU16GetU16(p, PulseWidthOffset(a));
  }

  /** Enabling the left-stick-X override and writing 1500 us reads back 1500,
   *  whatever else the packet holds.
   */
  lemma OverrideAndPulseWidth(p: seq<bv8>)
    requires |p| == OUTPUT_PACKET_SIZE
    ensures var q := SetPulseWidth(SetFlag(p, OverrideAxis(LStickX), true), LStickX, 1500);
            GetPulseWidth(q, LStickX) == 1500 && GetFlag(q, OverrideAxis(LStickX))
  {
    var q1 := SetFlag(p, OverrideAxis(LStickX), true);
    var q := SetPulseWidth(q1, LStickX, 1500);
    assert q[8] == q1[8];
  }
}
