/** The board window's side of the state exchange with the simulator: the
    input-state text it keeps and re-sends on every user event, and the LED
    and 7-segment widgets it repaints from every output-state text. */
module BoardWindow {
  import opened Bits
  import opened SevenSegment
  import opened BoardCodec

  /** One 7-segment widget (a QLCDNumber): whether its segments are drawn
      filled or only in outline, and the number it displays. */
  datatype DigitView = DigitView(filled: bool, value: int)

  class MainWindow {
    /** The input-state text "<buttons> <switches>" last sent to the
        simulator. */
    var dataToSend: string
    /** The number of LED and digit widgets in the window's layouts. */
    const numLeds: nat
    const numDigits: nat
    /** LED widget ii is lit (green background) or not. */
    var leds: seq<bool>
    /** Digit widget ii. */
    var digits: seq<DigitView>

    /** There is one state per widget in the layouts. */
    ghost predicate Valid()
      reads this
    {
      |leds| == numLeds && |digits| == numDigits
    }

    /** A window whose layouts hold the given numbers of LEDs and digits, as
        they are when they have just been created: the LEDs unlit and the
        digits in outline showing 0. No input state has been sent yet. */
    constructor (numLeds: nat, numDigits: nat)
      ensures Valid()
      ensures this.numLeds == numLeds && this.numDigits == numDigits
      ensures dataToSend == ""
      ensures forall ii :: 0 <= ii < numLeds ==> !leds[ii]
      ensures forall ii :: 0 <= ii < numDigits ==> digits[ii] == DigitView(false, 0)
    {
      this.numLeds := numLeds;
      this.numDigits := numDigits;
      dataToSend := "";
      leds := seq(numLeds, _ => false);
      digits := seq(numDigits, _ => DigitView(false, 0));
    }

    /** `dataChanged`: read the two masks from the last text, negate bit k of
        the button mask for a button event or of the switch mask for a switch
        event, leave both for a mouse event, write the pair back as the new
        text and emit a copy of it. */
    method DataChanged(ev: Event) returns (sent: string)
      requires ev.Button? || ev.Switch? ==> ev.k < 31
      modifies this`dataToSend
      ensures dataToSend == EncodeInput(ApplyEvent(DecodeInput(old(dataToSend)), ev))
      ensures DecodeInput(dataToSend) == ApplyEvent(DecodeInput(old(dataToSend)), ev)
      ensures Canonical(dataToSend)
      ensures !ev.Button? && !ev.Switch? && Canonical(old(dataToSend)) ==>
                dataToSend == old(dataToSend)
      ensures var m := DecodeInput(old(dataToSend));
              NonNegInt32(m.buttons) && NonNegInt32(m.switches) ==>
                NonNegInt32(DecodeInput(dataToSend).buttons) &&
                NonNegInt32(DecodeInput(dataToSend).switches)
      ensures sent == dataToSend
    {
      var st := DecodeInput(dataToSend);
      var buttonData, switchData := st.buttons, st.switches;
      match ev {
        case Button(k) =>
          if Bit(buttonData, k) {
            buttonData := buttonData - Pow2(k);
          } else {
            buttonData := buttonData + Pow2(k);
          }
        case Switch(k) =>
          if Bit(switchData, k) {
            switchData := switchData - Pow2(k);
          } else {
            switchData := switchData + Pow2(k);
          }
        case MouseMove =>
        case MousePress =>
        case MouseRelease =>
      }
      var next := InputState(buttonData, switchData);
      assert next == ApplyEvent(st, ev);
      dataToSend := EncodeInput(next);
      DecodeEncodeInput(next);
      if NonNegInt32(st.buttons) && NonNegInt32(st.switches) {
        ApplyEventNonNegInt32(st, ev);
      }
      sent := dataToSend;
    }

    /** `parseDataReceived`: read the LED mask, the segment byte and the
        anode mask, light LED ii exactly when bit ii of the LED mask is set,
        and set every digit widget from the anode mask: an enabled digit
        (anode bit 0, active low) is filled and shows the decoded segment
        byte, a disabled one is an outline of 8. Every widget is
        rewritten, so nothing of the previous display survives. */
    method ParseDataReceived(data: string)
      requires Valid()
      modifies this`leds, this`digits
      ensures Valid()
      ensures forall ii :: 0 <= ii < numLeds ==> leds[ii] == Bit(DecodeOutput(data).led, ii)
      ensures forall ii :: 0 <= ii < numDigits ==>
                (digits[ii].filled <==> !Bit(DecodeOutput(data).anode, ii))
      ensures forall ii :: 0 <= ii < numDigits ==>
                digits[ii].value ==
                  if digits[ii].filled then DecodeDigit(ToByte(DecodeOutput(data).digit)) else 8
    {
      var o := DecodeOutput(data);
      var led, digit, anode := o.led, o.digit, o.anode;
      var ii := 0;
      while ii < numLeds
        modifies this`leds
        invariant 0 <= ii <= numLeds && |leds| == numLeds
        invariant led == ShiftRight(o.led, ii)
        invariant forall j :: 0 <= j < ii ==> leds[j] == Bit(o.led, j)
      {
        leds := leds[ii := led % 2 == 1];
        ShiftRightStep(o.led, ii);
        led := led / 2;
        ii := ii + 1;
      }
      var num := DecodeDigit(ToByte(digit));
      ii := 0;
      while ii < numDigits
        modifies this`digits
        invariant 0 <= ii <= numDigits && |digits| == numDigits
        invariant anode == ShiftRight(o.anode, ii)
        invariant forall j :: 0 <= j < ii ==> (digits[j].filled <==> !Bit(o.anode, j))
        invariant forall j :: 0 <= j < ii ==>
                    digits[j].value == if digits[j].filled then num else 8
      {
        if anode % 2 == 0 {
          digits := digits[ii := DigitView(true, num)];
        } else {
          digits := digits[ii := DigitView(false, 8)];
        }
        ShiftRightStep(o.anode, ii);
        anode := anode / 2;
        ii := ii + 1;
      }
    }
  }
}
