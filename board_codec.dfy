/** The text states exchanged between the board window and the simulator.
    The window sends "<buttons> <switches>", two bit masks; the simulator
    answers "<led> <digit> <anode>": an LED bit mask, one active-low segment
    byte and an active-low digit-enable mask. */
module BoardCodec {
  import opened Bits
  import opened DecimalText
  import opened FieldText

  /** The bit masks of the push buttons and of the switches. */
  datatype InputState = InputState(buttons: int, switches: int)

  /** The LED mask, the segment byte and the anode (digit enable) mask. */
  datatype OutputState = OutputState(led: int, digit: int, anode: int)

  /** What makes the window re-send its input state: a click on button or
      switch k, or a mouse event on the central widget. */
  datatype Event =
    | Button(k: nat)
    | Switch(k: nat)
    | MouseMove
    | MousePress
    | MouseRelease

  /** `stream << buttonData << " " << switchData`. */
  function EncodeInput(st: InputState): string
  {
    Join([st.buttons, st.switches])
  }

  /** `stream >> buttonData >> switchData`. */
  function DecodeInput(t: string): InputState
  {
    var xs := ReadInts(t, 2);
    InputState(xs[0], xs[1])
  }

  /** The simulator's side of the output format: three numbers separated by
      single spaces. */
  function EncodeOutput(o: OutputState): string
  {
    Join([o.led, o.digit, o.anode])
  }

  /** `stream >> led >> digit >> anode`. */
  function DecodeOutput(t: string): OutputState
  {
    var xs := ReadInts(t, 3);
    OutputState(xs[0], xs[1], xs[2])
  }

  /** Text the window writes reproduces itself when it is read and written
      again. */
  predicate Canonical(t: string)
  {
    EncodeInput(DecodeInput(t)) == t
  }

  /** The mask update of `dataChanged`: a button event negates bit k of the
      button mask and nothing else, a switch event bit k of the switch mask
      and nothing else, and a mouse event changes neither mask. */
  function ApplyEvent(st: InputState, ev: Event): (r: InputState)
    ensures ev.Button? ==>
              r.switches == st.switches &&
              forall j: nat :: Bit(r.buttons, j) == (Bit(st.buttons, j) != (j == ev.k))
    ensures ev.Switch? ==>
              r.buttons == st.buttons &&
              forall j: nat :: Bit(r.switches, j) == (Bit(st.switches, j) != (j == ev.k))
    ensures !ev.Button? && !ev.Switch? ==> r == st
  {
    match ev
    case Button(k) =>
      ToggleAllBits(st.buttons, k);
      st.(buttons := Toggle(st.buttons, k))
    case Switch(k) =>
      ToggleAllBits(st.switches, k);
      st.(switches := Toggle(st.switches, k))
    case _ => st
  }

  /** The input text round trip: reading back what the window writes gives
      the same pair of masks. */
  lemma DecodeEncodeInput(st: InputState)
    ensures DecodeInput(EncodeInput(st)) == st
  {
    var xs := [st.buttons, st.switches];
    ReadJoin(xs);
  }

  /** The output text round trip: the window reads the three numbers the
      simulator writes. */
  lemma DecodeEncodeOutput(o: OutputState)
    ensures DecodeOutput(EncodeOutput(o)) == o
  {
    var xs := [o.led, o.digit, o.anode];
    ReadJoin(xs);
  }

  /** A text without any digit, the empty text among them, reads as two
      empty masks. */
  lemma DecodeInputWithoutDigits(t: string)
    requires NoDigits(t)
    ensures DecodeInput(t) == InputState(0, 0)
  {
    ReadIntsWithoutDigits(t, 2);
  }

  /** A minus sign standing alone is consumed by the first read, which gives
      0, and the second read goes on after it. */
  lemma DecodeInputLoneSign()
    ensures DecodeInput("- 5") == InputState(0, 5)
  {
    var t := "- 5";
    assert SkipSpaces(t) == t;
    ReadLoneSign(t);
    assert t[1..] == " 5";
    assert IntToDecimal(5) == "5";
    ReadIntOfDecimal(" ", 5, "", " 5");
    ReadIntsStep(t, 2, 0, " 5");
    ReadIntsStep(" 5", 1, 5, "");
  }

  /** An output text without any digit reads as three zeros: every LED off,
      every digit enabled, and the segment byte 0. */
  lemma DecodeOutputWithoutDigits(t: string)
    requires NoDigits(t)
    ensures DecodeOutput(t) == OutputState(0, 0, 0)
  {
    ReadIntsWithoutDigits(t, 3);
  }

  /** Whatever the window writes is canonical. */
  lemma EncodedIsCanonical(st: InputState)
    ensures Canonical(EncodeInput(st))
  {
    DecodeEncodeInput(st);
  }

  /** The same button or switch event twice restores the masks. */
  lemma ApplyEventTwice(st: InputState, ev: Event)
    ensures ApplyEvent(ApplyEvent(st, ev), ev) == st
  {
    match ev
    case Button(k) => ToggleInvolution(st.buttons, k);
    case Switch(k) => ToggleInvolution(st.switches, k);
    case _ =>
  }

  /** Button and switch indices below 31 keep non-negative 32-bit masks
      non-negative and in range. */
  lemma ApplyEventNonNegInt32(st: InputState, ev: Event)
    requires NonNegInt32(st.buttons) && NonNegInt32(st.switches)
    requires ev.Button? || ev.Switch? ==> ev.k < 31
    ensures var r := ApplyEvent(st, ev); NonNegInt32(r.buttons) && NonNegInt32(r.switches)
  {
    match ev
    case Button(k) => ToggleNonNegInt32(st.buttons, k);
    case Switch(k) => ToggleNonNegInt32(st.switches, k);
    case _ =>
  }
}
