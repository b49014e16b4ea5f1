# QtVirtualFPGA board window, modelled in Dafny

QtVirtualFPGA is a virtual FPGA development board. A Qt main window shows
push buttons, switches, LEDs and 7-segment digits. It exchanges short texts
with a simulation of the user's hardware design.

The simulator is a child process (a `QProcess`) built from the user's
design, and a `Model` object talks to it over a UDP socket.

- The window sends `"<buttons> <switches>"`, the bit masks of the pressed
  buttons and the set switches.
- The simulator answers `"<led> <digit> <anode>"`. `led` is the LED bit mask.
  `digit` is one active-low segment byte, shared by all digits. `anode` is
  an active-low digit-enable mask.

This project models the three members of `MainWindow` that carry that
exchange, and proves what they do:

- `dataChanged` reads the stored input text. A button or switch event
  negates one bit of the matching mask; a mouse event changes neither mask.
  It then writes the pair back and emits it.
- `parseDataReceived` reads an output text. It lights LED `ii` exactly when
  bit `ii` of the LED mask is set. Each digit whose anode bit is 0 is drawn
  filled with the decoded segment byte; every other digit is an outline
  showing 8.
- `decodeDigit` maps the sixteen segment patterns of the hexadecimal digits
  to 0 .. 15, and any other byte to -1.

Modules:

- `Bits`: bit `k` of a C++ `int` (`(x >> k) & 0x01`) and the single-bit
  negation of `dataChanged`. C++ `int`s are modelled as unbounded integers.
  `>>` is floor division by 2, which is the arithmetic shift compilers use
  on negative values.
- `DecimalText`: one `QTextStream` integer as it is written (`<<`) and read
  (`>>`).
- `FieldText`: space-separated numbers, the shape of both board texts.
- `BoardCodec`: the input and output states and their texts, the events and
  the mask update.
- `SevenSegment`: the segment byte type, the narrowing from `int` to
  `quint8`, and the decoder table.
- `BoardWindow`: the class `MainWindow`. It holds the stored input text and
  the state of every LED and digit widget. `DataChanged` and
  `ParseDataReceived` update them in place.

`parseDataReceived` has no error path. A number that cannot be read becomes
0, and every widget is repainted. `dataChanged` re-sends the whole input
state on every event.

## Model

| member | source | states |
|---|---|---|
| Bits.Toggle | src/mainwindow.cpp:137-149 | The single-bit negation of `dataChanged`. Its contract is stated by ToggleBits, ToggleAllBits, ToggleInvolution, ToggleRange and ToggleNonNegInt32 below. |
| Bits.ToggleBits | src/mainwindow.cpp:137-141 | Negating bit k of a mask flips bit k and keeps every other bit: bit j of the result differs from bit j of the input exactly when j == k. |
| Bits.ToggleAllBits | src/mainwindow.cpp:145-149 | The same, for all bit positions at once. |
| Bits.ToggleInvolution | src/mainwindow.cpp:137-149 | Negating the same bit twice gives back the original mask. |
| Bits.ToggleRange | src/mainwindow.cpp:137-141 | Negating bit k < n of a value in [0, 2^n) keeps it in [0, 2^n). |
| Bits.ToggleNonNegInt32 | src/mainwindow.cpp:137-149 | For k < 31, negating bit k keeps a non-negative 32-bit `int` non-negative and in range. |
| Bits.ShiftRightStep | src/mainwindow.cpp:224 | Shifting right once more after k shifts halves the value, as the loops' `led = led >> 1` and `anode = anode >> 1` do. |
| Bits.ShiftRight | src/mainwindow.cpp:219-236 | `x >> k` as k single shifts. ShiftRightStep and ShiftRightIsDivision state its contract. |
| Bits.ShiftRightIsDivision | src/mainwindow.cpp:219-236 | k right shifts divide by 2^k, rounding down, for negative values too. |
| Bits.Bit | src/mainwindow.cpp:220-228 | Bit k of x, `(x >> k) & 0x01`. BitByDivision and ToggleBits state its contract; ParseDataReceived reads every LED and digit bit through it. |
| Bits.BitByDivision | src/mainwindow.cpp:220-228 | The bit tested after k shifts (`& 0x01`) is the parity of x / 2^k. |
| DecimalText.DigitRunMaximal | src/mainwindow.cpp:132 | The digits a read consumes are all digits, and the character after them is not. |
| DecimalText.SkipSpacesDropsSpaces | src/mainwindow.cpp:132 | A read skips exactly the leading white space and nothing more. |
| DecimalText.DecimalValueOfNat | src/mainwindow.cpp:155 | The decimal digits written for n read back as n. |
| DecimalText.IntToDecimal | src/mainwindow.cpp:155 | `stream << x`: a minus sign exactly when x is negative, then the decimal digits of the magnitude. The digits start with 0 only for the number 0, which is written as `0`. ReadIntOfDecimal states that `>>` reads it back. |
| DecimalText.ReadInt | src/mainwindow.cpp:132 | One `stream >> x`. The text left is always a suffix of the input. ReadIntOfDecimal, ReadLoneSign and ReadIntWithoutDigits state what it reads. |
| DecimalText.ReadLoneSign | src/mainwindow.cpp:132 | A `-` or `+` that no digit follows is consumed and reads as 0. |
| DecimalText.ReadIntWithoutDigits | src/mainwindow.cpp:132 | A text without any digit reads as 0 and leaves a text without digits. |
| DecimalText.ReadNumberOfDecimal | src/mainwindow.cpp:132-155 | A number as `<<` writes it reads back as the same number, with exactly the rest remaining. The rest must start with a non-digit or be empty; after a 0 it must not start with a base prefix letter (`x`, `X`, `b`, `B`). |
| DecimalText.ReadIntOfDecimal | src/mainwindow.cpp:132-155 | The same with white space in front: one `>>` after `<<` gives back the value and leaves exactly the following text, under the same condition on that text. |
| FieldText.ReadJoin | src/mainwindow.cpp:215-218 | Reading n numbers from the text of n space-separated numbers gives back exactly those numbers. |
| FieldText.ReadIntsWithoutDigits | src/mainwindow.cpp:215-218 | Every one of n reads of a text without digits gives 0. |
| BoardCodec.ApplyEvent | src/mainwindow.cpp:134-153 | A button event flips exactly bit k of the button mask and keeps the switch mask. A switch event flips exactly bit k of the switch mask and keeps the button mask. A mouse event keeps both masks. |
| BoardCodec.ApplyEventTwice | src/mainwindow.cpp:134-153 | Applying the same event twice restores both masks. |
| BoardCodec.ApplyEventNonNegInt32 | src/mainwindow.cpp:134-150 | With indices below 31, an event keeps non-negative 32-bit masks non-negative and in range. |
| BoardCodec.EncodeInput | src/mainwindow.cpp:154-155 | The text `"<buttons> <switches>"`. DecodeEncodeInput and EncodedIsCanonical state its contract. |
| BoardCodec.DecodeInput | src/mainwindow.cpp:128-132 | The two masks read from the stored text. DecodeEncodeInput, DecodeInputWithoutDigits and DecodeInputLoneSign state its contract. |
| BoardCodec.DecodeOutput | src/mainwindow.cpp:215-218 | The three numbers read from a received text. DecodeEncodeOutput and DecodeOutputWithoutDigits state its contract. |
| BoardCodec.DecodeEncodeInput | src/mainwindow.cpp:132-155 | The written `"<buttons> <switches>"` text reads back as the same two masks. |
| BoardCodec.DecodeEncodeOutput | src/mainwindow.cpp:215-218 | The three numbers of an output text written with single spaces are read back exactly. |
| BoardCodec.DecodeInputWithoutDigits | src/mainwindow.cpp:128-132 | Any text without a digit, the empty text among them, reads as two zero masks. |
| BoardCodec.DecodeInputLoneSign | src/mainwindow.cpp:132 | `"- 5"` reads as the masks 0 and 5: the lone `-` is consumed by the first read. |
| BoardCodec.DecodeOutputWithoutDigits | src/mainwindow.cpp:215-218 | Any output text without a digit reads as three zeros. |
| BoardCodec.EncodedIsCanonical | src/mainwindow.cpp:154-155 | Any text the window writes reproduces itself when it is read and written again. |
| SevenSegment.DecodeDigit | src/mainwindow.cpp:242-299 | The result is in -1 .. 15. It is -1 exactly when the byte is not one of the sixteen digit patterns; otherwise the digit's pattern is that byte. |
| SevenSegment.DecodePattern | src/mainwindow.cpp:245-293 | The pattern of each digit 0 .. 15 decodes to that digit. |
| SevenSegment.DecodeInjective | src/mainwindow.cpp:245-297 | Two bytes that decode to the same digit other than -1 are the same byte. |
| SevenSegment.ToByte | src/mainwindow.cpp:226 | Passing an `int` as `quint8`. The result is a byte, and a value that already is a byte is kept as is. With ToByteModulo this fixes every result: the value modulo 256. |
| SevenSegment.ToByteModulo | src/mainwindow.cpp:226 | Narrowing an `int` to `quint8` ignores multiples of 256. |
| SevenSegment.DecodeLowByteOnly | src/mainwindow.cpp:226 | The decoded digit depends only on the segment value modulo 256. |
| BoardWindow.MainWindow.constructor | src/mainwindow.cpp:82-106 | The window has one LED and one digit state per widget. The LEDs start unlit, and the digits start in outline showing 0. |
| BoardWindow.MainWindow.DataChanged | src/mainwindow.cpp:122-160 | The new stored text is the encoding of the event applied to the masks read from the old text, and the emitted text is a copy of it. The new text reads back as those masks and is canonical. A mouse event keeps a canonical text unchanged. Non-negative 32-bit masks stay that way. |
| BoardWindow.MainWindow.ParseDataReceived | src/mainwindow.cpp:212-240 | LED ii is lit exactly when bit ii of the LED mask is set. Digit ii is filled exactly when bit ii of the anode mask is 0. A filled digit shows the decoded segment byte; an outline digit shows 8. Every widget is rewritten. |

## Left out

- `configureGroups` is left out, and so is `on_applyConfigButton_clicked`,
  which only calls it. It adds and removes widgets to match the spin boxes,
  which is layout work. The constructor takes the LED and digit counts
  instead, and widgets are never added or removed after that.
- Button and switch indices are not bounded by the number of buttons or
  switches.
- The `MainWindow` constructor's Qt setup and signal connections are left
  out, and so is its destructor.
- `openSettingsWindow` and `openFile` are left out. They run dialogs,
  which is I/O.
- `compileAndRunModel` and `stopModel` are left out. They create and delete
  the `Model` that builds and runs the simulator, which is process control.
- The `Model` class is left out. It starts the simulator as a `QProcess`
  and exchanges the texts with it over a `QUdpSocket`. Its implementation
  is not among the files modelled.
- The `WSLProcess` and `LinuxProcess` classes are left out. They are the
  per-host back ends that build and run the simulator process. The Linux
  one has empty member bodies, and the WSL one's implementation is not
  among the files modelled.
- The `SettingsDialog` class is left out. It supplies the two build
  settings, the simulation delay and the iterations per cycle, as strings
  (`"1"` and `"10"` by default).
- Widget styling is reduced to values. An LED's green style sheet is `true`
  and its empty one `false`. A digit's `Filled` or `Outline` segment style is
  `DigitView.filled`, and its displayed number is `DigitView.value`.
- The widgets are numbered by their layout index, so the right-to-left
  direction of the layouts is not modelled.
- Emitting `sendDataToSend` is modelled as `DataChanged`'s return value. The
  `Model` slot that receives it and passes it on to the simulator is not
  modelled.
- The unused second argument `n` of `dataChanged` is left out.
- The constructor's initialiser list does not set the stored input text,
  and its declaration is not among the files modelled. The model starts
  from the empty text, which reads as two zero masks.
- BoardWindow.MainWindow.DataChanged: requires button and switch indices
  below 31. The bit `1 << 31` sets the sign bit of a 32-bit `int`, and
  larger shifts are undefined in C++.
- DecimalText.ReadInt: reads decimal numbers only. `QTextStream` also
  detects a base prefix: `0x` for hexadecimal, `0b` for binary, and a `0`
  followed by a digit 0-7 for octal. Such texts read differently: `"010"`
  is 8 in Qt and 10 here. The only number `<<` writes that starts with `0`
  is 0 itself. In the board texts a space or the end follows it, so the
  board round trips are not affected. ReadNumberOfDecimal and
  ReadIntOfDecimal exclude a 0 followed by `x`, `X`, `b` or `B`.
- DecimalText.ReadInt: keeps the value it reads exact. Qt casts it to `int`,
  so a value outside the 32-bit range wraps around.
- DecimalText.ReadInt: accepts ASCII digits only. `QChar::isDigit` also
  accepts the other Unicode decimal digits. White space follows
  `QChar::isSpace` as of Unicode 6.3.
- DecimalText.ReadInt: when neither a sign nor a digit follows the white
  space, the read gives 0 and consumes only the white space. The stream's
  error status is not modelled.
- Bits.Bit: models C++ `int`s as unbounded integers. `>>` on a negative
  value is treated as floor division, the arithmetic shift compilers use; the
  C++ standard leaves this implementation-defined before C++20.
