/**
 * String helpers shared by the dashboard's components: the decimal rendering
 * of a non-negative number (JavaScript's `Number.prototype.toString()` and
 * template-literal interpolation on integers) and `Array.prototype.join`.
 */
module Text {

  predicate IsDigit(c: char) {
    '0' <= c <= '9'
  }

  function Digit(d: nat): (c: char)
    requires d < 10
    ensures IsDigit(c)
  {
    (48 + d) as char
  }

  function DigitValue(c: char): nat
    requires IsDigit(c)
  {
    (c as int) - 48
  }

  /** Decimal text of `n`, most significant digit first, without leading zeros. */
  function DecimalString(n: nat): (s: string)
    ensures |s| >= 1
    ensures forall i :: 0 <= i < |s| ==> IsDigit(s[i])
    ensures s[0] == '0' ==> n == 0
    ensures n < 10 <==> |s| == 1
  {
    if n < 10 then [Digit(n)] else DecimalString(n / 10) + [Digit(n % 10)]
  }

  /** Value of a string of decimal digits (the empty string reads as 0). */
  function ParseDecimal(s: string): nat
    requires forall i :: 0 <= i < |s| ==> IsDigit(s[i])
  {
    if s == [] then 0 else ParseDecimal(s[..|s| - 1]) * 10 + DigitValue(s[|s| - 1])
  }

  /** Reading back the decimal text gives the number again. */
  lemma {:induction false} DecimalStringRoundTrip(n: nat)
    ensures ParseDecimal(DecimalString(n)) == n
  {
    var s := DecimalString(n);
    if n >= 10 {
      DecimalStringRoundTrip(n / 10);
      assert s[..|s| - 1] == DecimalString(n / 10);
    }
  }

  /** Distinct numbers have distinct decimal texts. */
  lemma DecimalStringInjective(m: nat, n: nat)
    requires DecimalString(m) == DecimalString(n)
    ensures m == n
  {
    DecimalStringRoundTrip(m);
    DecimalStringRoundTrip(n);
  }

  /** `parts.join(sep)`: the parts in order with `sep` between neighbours. */
  function Join(sep: string, parts: seq<string>): string
  {
    if |parts| == 0 then ""
    else if |parts| == 1 then parts[0]
    else parts[0] + sep + Join(sep, parts[1..])
  }

  /** Where the `i`-th part of `Join(sep, parts)` starts: the lengths of the earlier parts plus one separator each. */
  function Offset(sep: string, parts: seq<string>, i: nat): nat
    requires i <= |parts|
  {
    if i == 0 then 0 else |parts[0]| + |sep| + Offset(sep, parts[1..], i - 1)
  }

  /** The join of no parts is empty; otherwise it ends with the last part, which starts at its own offset. */
  lemma {:induction false} JoinLength(sep: string, parts: seq<string>)
    ensures |parts| == 0 ==> Join(sep, parts) == ""
    ensures |parts| > 0 ==> |Join(sep, parts)| == Offset(sep, parts, |parts| - 1) + |parts[|parts| - 1]|
  {
    if |parts| > 1 {
      JoinLength(sep, parts[1..]);
    }
  }

  /** Every part starts where `Offset` says: from there on the join reads as the join of the remaining parts. */
  lemma {:induction false} JoinSuffix(sep: string, parts: seq<string>, i: nat)
    requires i < |parts|
    ensures Offset(sep, parts, i) <= |Join(sep, parts)|
    ensures Join(sep, parts)[Offset(sep, parts, i)..] == Join(sep, parts[i..])
  {
    if i > 0 {
      JoinSuffix(sep, parts[1..], i - 1);
      assert parts[1..][i - 1..] == parts[i..];
      var h := |parts[0]| + |sep|;
      assert Join(sep, parts) == parts[0] + sep + Join(sep, parts[1..]);
      assert Join(sep, parts)[h..] == Join(sep, parts[1..]);
    }
  }

  /**
   * The layout of a join: part `i` sits at `Offset(sep, parts, i)`, and every
   * part but the last is followed by a copy of `sep`, after which the next
   * part starts.
   */
  lemma JoinLayout(sep: string, parts: seq<string>, i: nat)
    requires i < |parts|
    ensures Offset(sep, parts, i) + |parts[i]| <= |Join(sep, parts)|
    ensures Join(sep, parts)[Offset(sep, parts, i)..Offset(sep, parts, i) + |parts[i]|] == parts[i]
    ensures i + 1 < |parts| ==>
      Offset(sep, parts, i + 1) == Offset(sep, parts, i) + |parts[i]| + |sep| <= |Join(sep, parts)|
    ensures i + 1 < |parts| ==>
      Join(sep, parts)[Offset(sep, parts, i) + |parts[i]|..Offset(sep, parts, i + 1)] == sep
  {
    JoinSuffix(sep, parts, i);
    var o := Offset(sep, parts, i);
    var tail := Join(sep, parts[i..]);
    assert Join(sep, parts)[o..] == tail;
    if i + 1 < |parts| {
      assert parts[i..][1..] == parts[i + 1..];
      assert tail == parts[i] + sep + Join(sep, parts[i + 1..]);
      OffsetStep(sep, parts, i);
    } else {
      assert tail == parts[i];
    }
  }

  lemma {:induction false} OffsetStep(sep: string, parts: seq<string>, i: nat)
    requires i < |parts|
    ensures Offset(sep, parts, i + 1) == Offset(sep, parts, i) + |parts[i]| + |sep|
  {
    if i > 0 {
      OffsetStep(sep, parts[1..], i - 1);
    }
  }
}
