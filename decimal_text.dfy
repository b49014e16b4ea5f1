/** Decimal text of integers, as QTextStream writes and reads them on the
    board-state strings: `stream << x` writes an optional minus sign and the
    decimal digits, and `stream >> x` skips white space and reads them back. */
module DecimalText {

  /** `QChar::isSpace`, the white space QTextStream skips before a number:
      tab, line feed, vertical tab, form feed, carriage return, next line
      (U+0085), and the Unicode space, line and paragraph separators (the
      categories Zs, Zl and Zp as of Unicode 6.3). */
  predicate IsSpace(c: char)
  {
    c == ' ' || '\t' <= c <= '\r' || c == '\U{0085}' || c == '\U{00A0}' ||
    c == '\U{1680}' || '\U{2000}' <= c <= '\U{200A}' || c == '\U{2028}' || c == '\U{2029}' ||
    c == '\U{202F}' || c == '\U{205F}' || c == '\U{3000}'
  }

  /** An ASCII decimal digit. */
  predicate IsDigit(c: char)
  {
    '0' <= c <= '9'
  }

  /** The signs the C locale reads in front of a decimal number. */
  predicate IsSign(c: char)
  {
    c == '-' || c == '+'
  }

  predicate NoDigits(s: string)
  {
    forall i :: 0 <= i < |s| ==> !IsDigit(s[i])
  }

  predicate AllDigits(s: string)
  {
    forall i :: 0 <= i < |s| ==> IsDigit(s[i])
  }

  predicate AllSpaces(s: string)
  {
    forall i :: 0 <= i < |s| ==> IsSpace(s[i])
  }

  function DigitChar(d: nat): (c: char)
    requires d < 10
    ensures IsDigit(c) && DigitValue(c) == d
  {
    (('0' as int) + d) as char
  }

  function DigitValue(c: char): int
  {
    (c as int) - ('0' as int)
  }

  /** The decimal digits of n, most significant first, without leading zeros. */
  function NatToDecimal(n: nat): (s: string)
    ensures |s| >= 1 && AllDigits(s)
    ensures s[0] == '0' ==> n == 0 && s == "0"
  {
    if n < 10 then [DigitChar(n)] else NatToDecimal(n / 10) + [DigitChar(n % 10)]
  }

  /** `stream << x` for a C++ `int` x: a minus sign exactly for a negative
      x, then the digits of the magnitude, which start with 0 only when the
      number is 0. */
  function IntToDecimal(x: int): (s: string)
    ensures |s| >= 1 && !IsSpace(s[0])
    ensures (s[0] == '-') == (x < 0)
    ensures var d := if x < 0 then s[1..] else s;
      |d| >= 1 && AllDigits(d) && (d[0] == '0' ==> x == 0 && d == "0")
  {
    if x < 0 then "-" + NatToDecimal(-x) else NatToDecimal(x)
  }

  /** The number a run of decimal digits stands for. */
  function DecimalValue(ds: string): int
  {
    if ds == [] then 0 else DecimalValue(ds[..|ds| - 1]) * 10 + DigitValue(ds[|ds| - 1])
  }

  /** The length of the longest run of digits that t starts with. */
  function DigitRun(t: string): (n: nat)
    ensures n <= |t|
  {
    if t != [] && IsDigit(t[0]) then 1 + DigitRun(t[1..]) else 0
  }

  /** DigitRun is the longest run: every character in it is a digit, and the
      character after it, if any, is not. */
  lemma {:induction false} DigitRunMaximal(t: string)
    ensures DigitRun(t) <= |t| && AllDigits(t[..DigitRun(t)])
    ensures DigitRun(t) < |t| ==> !IsDigit(t[DigitRun(t)])
  {
    if t != [] && IsDigit(t[0]) {
      DigitRunMaximal(t[1..]);
      assert t[..DigitRun(t)] == [t[0]] + t[1..][..DigitRun(t[1..])];
    }
  }

  /** t without its leading white space. */
  function SkipSpaces(t: string): string
  {
    if t != [] && IsSpace(t[0]) then SkipSpaces(t[1..]) else t
  }

  /** SkipSpaces drops exactly the leading white space: what it drops is all
      white space, and what it keeps is a suffix that does not start with any. */
  lemma {:induction false} SkipSpacesDropsSpaces(t: string)
    ensures var r := SkipSpaces(t);
      |r| <= |t| && r == t[|t| - |r|..] && AllSpaces(t[..|t| - |r|]) &&
      (r == [] || !IsSpace(r[0]))
  {
    if t != [] && IsSpace(t[0]) {
      SkipSpacesDropsSpaces(t[1..]);
      var r := SkipSpaces(t);
      assert t[..|t| - |r|] == [t[0]] + t[1..][..|t[1..]| - |r|];
    }
  }

  /** One `stream >> x` into a C++ `int`: skip white space, then read an
      optional sign and the longest run of decimal digits. A sign with no
      digit after it is consumed and reads as 0. When the text after the
      white space starts with neither a sign nor a digit, x becomes 0 and only
      the white space is consumed. The result is the value read and the text
      left over, which is always a suffix of t. */
  function ReadInt(t: string): (r: (int, string))
    ensures |r.1| <= |t| && r.1 == t[|t| - |r.1|..]
  {
    SkipSpacesDropsSpaces(t);
    ReadNumber(SkipSpaces(t))
  }

  /** The number at the very start of u, with the text after it. */
  function ReadNumber(u: string): (r: (int, string))
    ensures |r.1| <= |u| && r.1 == u[|u| - |r.1|..]
  {
    if |u| >= 1 && IsSign(u[0]) then
      var v := u[1..];
      var n := DigitRun(v);
      var m := DecimalValue(v[..n]);
      (if u[0] == '-' then -m else m, v[n..])
    else if DigitRun(u) > 0 then
      var n := DigitRun(u);
      (DecimalValue(u[..n]), u[n..])
    else
      (0, u)
  }

  /** A sign that no digit follows is consumed and reads as 0, so the next
      read starts after it. */
  lemma ReadLoneSign(u: string)
    requires |u| >= 1 && IsSign(u[0])
    requires |u| == 1 || !IsDigit(u[1])
    ensures ReadNumber(u) == (0, u[1..])
  {
    assert u[1..][..0] == [];
  }

  /** A text without any digit reads as 0, and what is left has no digit
      either. */
  lemma ReadIntWithoutDigits(t: string) returns (rest: string)
    requires NoDigits(t)
    ensures ReadInt(t) == (0, rest) && NoDigits(rest)
  {
    var u := SkipSpaces(t);
    SkipSpacesDropsSpaces(t);
    NoDigitsSuffix(t, u);
    if |u| >= 1 && IsSign(u[0]) {
      assert u[1..][..0] == [];
    }
    rest := ReadInt(t).1;
    NoDigitsSuffix(t, rest);
  }

  /** A suffix of a text without digits has no digits. */
  lemma NoDigitsSuffix(t: string, s: string)
    requires NoDigits(t) && |s| <= |t| && s == t[|t| - |s|..]
    ensures NoDigits(s)
  {
    forall i | 0 <= i < |s| ensures !IsDigit(s[i]) {
      assert s[i] == t[|t| - |s| + i];
    }
  }

  /** Reading the digits of n back gives n. */
  lemma {:induction false} DecimalValueOfNat(n: nat)
    ensures DecimalValue(NatToDecimal(n)) == n
  {
    if n >= 10 {
      var s := NatToDecimal(n / 10);
      DecimalValueOfNat(n / 10);
      assert (s + [DigitChar(n % 10)])[..|s|] == s;
    }
  }

  /** A run of digits followed by a non-digit (or the end) is read exactly. */
  lemma {:induction false} DigitRunOfDigits(p: string, rest: string)
    requires AllDigits(p)
    requires rest == [] || !IsDigit(rest[0])
    ensures DigitRun(p + rest) == |p|
    decreases |p|
  {
    if p != [] {
      assert (p + rest)[0] == p[0];
      assert (p + rest)[1..] == p[1..] + rest;
      DigitRunOfDigits(p[1..], rest);
    } else {
      assert p + rest == rest;
    }
  }

  /** White space in front of a text that does not start with white space is
      skipped exactly. */
  lemma {:induction false} SkipSpacesOfSpaces(sep: string, s: string)
    requires AllSpaces(sep)
    requires s == [] || !IsSpace(s[0])
    ensures SkipSpaces(sep + s) == s
    decreases |sep|
  {
    if sep != [] {
      assert (sep + s)[1..] == sep[1..] + s;
      SkipSpacesOfSpaces(sep[1..], s);
    }
  }

  /** The number `stream << x` writes, followed by text that does not go on
      with a digit, reads back as x and leaves exactly that text. A 0 followed
      by `x`, `X`, `b` or `B` is excluded: `>>` takes that for the prefix of a
      hexadecimal or binary number, which is not modelled. */
  lemma ReadNumberOfDecimal(x: int, rest: string)
    requires rest == [] || !IsDigit(rest[0])
    requires x == 0 && rest != [] ==> rest[0] !in "xXbB"
    ensures ReadNumber(IntToDecimal(x) + rest) == (x, rest)
  {
    var m: nat := if x < 0 then -x else x;
    var d := NatToDecimal(m);
    DecimalValueOfNat(m);
    DigitRunOfDigits(d, rest);
    if x < 0 {
      var u := "-" + d + rest;
      assert u[1..] == d + rest;
      assert (d + rest)[..|d|] == d;
      assert (d + rest)[|d|..] == rest;
    } else {
      assert (d + rest)[..|d|] == d;
      assert (d + rest)[|d|..] == rest;
    }
  }

  /** Round trip of one number: reading white space, the text `stream << x`
      writes, and any text that does not go on with a digit (nor, for 0, with
      a base prefix letter), yields x and leaves exactly that text. */
  lemma ReadIntOfDecimal(sep: string, x: int, rest: string, t: string)
    requires AllSpaces(sep)
    requires rest == [] || !IsDigit(rest[0])
    requires x == 0 && rest != [] ==> rest[0] !in "xXbB"
    requires t == sep + IntToDecimal(x) + rest
    ensures ReadInt(t) == (x, rest)
  {
    var u := IntToDecimal(x) + rest;
    assert t == sep + u;
    SkipSpacesOfSpaces(sep, u);
    ReadNumberOfDecimal(x, rest);
  }
}
