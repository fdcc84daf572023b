/** The output channels the Servoshock 2 board drives, in the order in which
 *  both packets list them: twelve servo-style axes and eighteen digital buttons.
 */
module Layout {

  /** The twelve pulse-width outputs. */
  datatype Axis =
    | LStickX | LStickY | RStickX | RStickY
    | LTriggerAnalog | RTriggerAnalog
    | LTpadX | LTpadY | RTpadX | RTpadY
    | TiltX | TiltY

  /** The eighteen digital outputs. */
  datatype Button =
    | DPadUp | DPadRight | DPadDown | DPadLeft
    | Triangle | Circle | Cross | Square
    | LBumper | RBumper | LTriggerDigital | RTriggerDigital
    | LStickPress | RStickPress | Share | Options
    | TpadPress | PsButton

  /** The axes in the order of the `*_uS` and `*State_uS` fields and of the axis override bits. */
  const Axes: seq<Axis> :=
    [LStickX, LStickY, RStickX, RStickY, LTriggerAnalog, RTriggerAnalog,
     LTpadX, LTpadY, RTpadX, RTpadY, TiltX, TiltY]

  /** The buttons in the order of the outbound button bits, the button override
   *  bits and the inbound `*State` bits.
   */
  const Buttons: seq<Button> :=
    [DPadUp, DPadRight, DPadDown, DPadLeft, Triangle, Circle, Cross, Square,
     LBumper, RBumper, LTriggerDigital, RTriggerDigital,
     LStickPress, RStickPress, Share, Options, TpadPress, PsButton]

  /** Position of `a` in `Axes`. */
  function AxisIndex(a: Axis): (k: nat)
    ensures k < |Axes| == 12 && Axes[k] == a
  {
    match a
    case LStickX => 0 case LStickY => 1 case RStickX => 2 case RStickY => 3
    case LTriggerAnalog => 4 case RTriggerAnalog => 5
    case LTpadX => 6 case LTpadY => 7 case RTpadX => 8 case RTpadY => 9
    case TiltX => 10 case TiltY => 11
  }

  /** Position of `b` in `Buttons`. */
  function ButtonIndex(b: Button): (k: nat)
    ensures k < |Buttons| == 18 && Buttons[k] == b
  {
    match b
    case DPadUp => 0 case DPadRight => 1 case DPadDown => 2 case DPadLeft => 3
    case Triangle => 4 case Circle => 5 case Cross => 6 case Square => 7
    case LBumper => 8 case RBumper => 9 case LTriggerDigital => 10 case RTriggerDigital => 11
    case LStickPress => 12 case RStickPress => 13 case Share => 14 case Options => 15
    case TpadPress => 16 case PsButton => 17
  }
}
