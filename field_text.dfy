/** Several numbers in one text, separated by single spaces: the shape of
    both board-state strings. */
module FieldText {
  import opened DecimalText

  /** Numbers written one after another with a single space between them, as
      `stream << a << " " << b` does. */
  function Join(xs: seq<int>): string
    decreases |xs|
  {
    if |xs| == 0 then ""
    else if |xs| == 1 then IntToDecimal(xs[0])
    else IntToDecimal(xs[0]) + " " + Join(xs[1..])
  }

  /** n successive `stream >> x` reads. */
  function ReadInts(t: string, n: nat): (xs: seq<int>)
    ensures |xs| == n
    decreases n
  {
    if n == 0 then [] else [ReadInt(t).0] + ReadInts(ReadInt(t).1, n - 1)
  }

  /** Reading n > 0 numbers is reading one and then n - 1 from the rest. */
  lemma ReadIntsStep(t: string, n: nat, x: int, rest: string)
    requires n > 0 && ReadInt(t) == (x, rest)
    ensures ReadInts(t, n) == [x] + ReadInts(rest, n - 1)
  {
  }

  /** n zeros. */
  function Zeros(n: nat): seq<int>
  {
    if n == 0 then [] else [0] + Zeros(n - 1)
  }

  /** Every read of a text without digits gives 0. */
  lemma {:induction false} ReadIntsWithoutDigits(t: string, n: nat)
    requires NoDigits(t)
    ensures ReadInts(t, n) == Zeros(n)
    decreases n
  {
    if n > 0 {
      var rest := ReadIntWithoutDigits(t);
      ReadIntsWithoutDigits(rest, n - 1);
      ReadIntsStep(t, n, 0, rest);
    }
  }

  /** The text after the first number of a joined text and the space that
      follows it. */
  function JoinRest(xs: seq<int>): string
    requires |xs| >= 1
  {
    if |xs| == 1 then [] else Join(xs[1..])
  }

  /** The first number of a joined text, and what follows it. */
  lemma JoinFirst(xs: seq<int>) returns (tail: string)
    requires |xs| >= 1
    ensures Join(xs) == IntToDecimal(xs[0]) + tail
    ensures |xs| == 1 ==> tail == []
    ensures |xs| > 1 ==> tail == " " + Join(xs[1..])
  {
    tail := if |xs| == 1 then [] else " " + Join(xs[1..]);
  }

  /** A space in front of a text is skipped by the next read. */
  lemma ReadIntsAfterSpace(u: string, t: string, n: nat)
    requires t == " " + u
    ensures ReadInts(t, n) == ReadInts(u, n)
  {
    assert t[1..] == u;
    assert SkipSpaces(t) == SkipSpaces(u);
  }

  /** The first read of a joined text gives its first number; the reads after
      it see the rest of the numbers. */
  lemma ReadJoinFirst(xs: seq<int>) returns (tail: string)
    requires |xs| >= 1
    ensures ReadInt(Join(xs)) == (xs[0], tail)
    ensures ReadInts(tail, |xs| - 1) == ReadInts(JoinRest(xs), |xs| - 1)
  {
    tail := JoinFirst(xs);
    ghost var t := Join(xs);
    assert t == [] + IntToDecimal(xs[0]) + tail;
    ReadIntOfDecimal([], xs[0], tail, t);
    if |xs| > 1 {
      ReadIntsAfterSpace(Join(xs[1..]), tail, |xs| - 1);
    }
  }

  /** Reading a joined text is reading its first number and then the rest. */
  lemma ReadJoinStep(xs: seq<int>)
    requires |xs| >= 1
    ensures ReadInts(Join(xs), |xs|) == [xs[0]] + ReadInts(JoinRest(xs), |xs| - 1)
  {
    var tail := ReadJoinFirst(xs);
    ReadIntsStep(Join(xs), |xs|, xs[0], tail);
  }

  /** The text `Join` writes reads back as the same numbers. */
  lemma {:induction false} ReadJoin(xs: seq<int>)
    ensures ReadInts(Join(xs), |xs|) == xs
    decreases |xs|
  {
    if |xs| == 1 {
      ReadJoinStep(xs);
    } else if |xs| > 1 {
      var ys := xs[1..];
      ReadJoin(ys);
      ReadJoinStep(xs);
      assert JoinRest(xs) == Join(ys);
      assert [xs[0]] + ys == xs;
    }
  }
}
