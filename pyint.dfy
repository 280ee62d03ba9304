// Python's `int(s)` on a decimal literal and `str(n)` on an integer.

module PyInt {
  import opened Outcomes
  import opened Text

  predicate IsDigit(c: char)
  {
    '0' <= c <= '9'
  }

  /**
   * The digits of a decimal literal as `int()` accepts them: ASCII digits,
   * with single underscores allowed between two digits.
   */
  predicate WellFormedDigits(b: string)
  {
    && |b| > 0
    && forall i :: 0 <= i < |b| && !IsDigit(b[i]) ==>
         b[i] == '_' && 0 < i < |b| - 1 && IsDigit(b[i - 1]) && IsDigit(b[i + 1])
  }

  /** The number that the digits of `b` spell, underscores ignored. */
  function DigitsValue(b: string): nat
  {
    if |b| == 0 then 0
    else
      var c := b[|b| - 1];
      if IsDigit(c) then DigitsValue(b[..|b| - 1]) * 10 + (c as int - '0' as int)
      else DigitsValue(b[..|b| - 1])
  }

  /**
   * The whitespace `int()` skips around a literal: ASCII tab to carriage
   * return and space, and every non-ASCII character `str.isspace` accepts.
   * Unlike `strip()`, it does not skip the separators U+001C to U+001F.
   */
  predicate IsIntSpace(c: char)
  {
    IsSpace(c) && !(0x1C <= c as int <= 0x1F)
  }

  predicate AllIntSpace(s: string)
  {
    forall i :: 0 <= i < |s| ==> IsIntSpace(s[i])
  }

  function IntStripLeft(s: string): string
  {
    if |s| > 0 && IsIntSpace(s[0]) then IntStripLeft(s[1..]) else s
  }

  function IntStripRight(s: string): string
  {
    if |s| > 0 && IsIntSpace(s[|s| - 1]) then IntStripRight(s[..|s| - 1]) else s
  }

  /** The text `int()` reads: `s` without the whitespace it skips at either end. */
  function IntStrip(s: string): string
  {
    IntStripRight(IntStripLeft(s))
  }

  /**
   * Python's `int(s)`: surrounding whitespace is ignored, one optional sign,
   * then a well-formed run of digits; anything else is a `ValueError` (None).
   */
  function ParseInt(s: string): Option<int>
  {
    var t := IntStrip(s);
    var negative := |t| > 0 && t[0] == '-';
    var body := if |t| > 0 && (t[0] == '+' || t[0] == '-') then t[1..] else t;
    if WellFormedDigits(body) then
      var v: int := if negative then 0 - DigitsValue(body) as int else DigitsValue(body);
      Some(v)
    else None
  }

  function DigitChar(d: nat): char
    requires d < 10
  {
    (d + '0' as int) as char
  }

  /** Python's `str(n)` for a natural number: its decimal digits. */
  function NatToString(n: nat): string
  {
    if n < 10 then [DigitChar(n)] else NatToString(n / 10) + [DigitChar(n % 10)]
  }

  /** Python's `str(i)` for an integer. */
  function IntToString(i: int): string
  {
    if i < 0 then "-" + NatToString(-i) else NatToString(i)
  }

  /** The decimal text of `n` is a well-formed literal spelling `n`. */
  lemma {:induction false} NatToStringDigits(n: nat)
    ensures WellFormedDigits(NatToString(n))
    ensures forall i :: 0 <= i < |NatToString(n)| ==> IsDigit(NatToString(n)[i])
    ensures DigitsValue(NatToString(n)) == n
  {
    var s := NatToString(n);
    if n >= 10 {
      NatToStringDigits(n / 10);
      assert s[..|s| - 1] == NatToString(n / 10);
    }
  }

  /** Printed integers carry no surrounding whitespace. */
  lemma IntToStringTrimmed(i: int)
    ensures Strip(IntToString(i)) == IntToString(i)
  {
    var s := IntToString(i);
    var m: nat := if i < 0 then -i else i;
    NatToStringDigits(m);
    var d := NatToString(m);
    assert !IsSpace(d[|d| - 1]) && !IsSpace(d[0]);
    assert s[|s| - 1] == d[|d| - 1];
    assert Trimmed(s);
    StripPadded([], s, []);
    assert [] + s + [] == s;
  }

  /** `int(str(i)) == i`: parsing the printed form of an integer gives it back. */
  lemma ParseIntToString(i: int)
    ensures ParseInt(IntToString(i)) == Some(i)
  {
    var s := IntToString(i);
    var m: nat := if i < 0 then -i else i;
    NatToStringDigits(m);
    var d := NatToString(m);
    assert s[|s| - 1] == d[|d| - 1];
    IntStripPadded([], s, []);
    assert [] + s + [] == s;
    if i < 0 {
      assert s[1..] == d;
      assert s[0] == '-';
    } else {
      assert IsDigit(s[0]);
      assert s == d;
    }
  }

  lemma {:induction false} IntStripLeftPadded(a: string, t: string)
    requires AllIntSpace(a) && (|t| > 0 ==> !IsIntSpace(t[0]))
    ensures IntStripLeft(a + t) == t
    decreases |a|
  {
    if |a| > 0 {
      assert (a + t)[1..] == a[1..] + t;
      IntStripLeftPadded(a[1..], t);
    } else {
      assert a + t == t;
    }
  }

  lemma {:induction false} IntStripRightPadded(t: string, b: string)
    requires AllIntSpace(b) && (|t| > 0 ==> !IsIntSpace(t[|t| - 1]))
    ensures IntStripRight(t + b) == t
    decreases |b|
  {
    if |b| > 0 {
      assert (t + b)[..|t + b| - 1] == t + b[..|b| - 1];
      IntStripRightPadded(t, b[..|b| - 1]);
    } else {
      assert t + b == t;
    }
  }

  /** `int` reads exactly the text inside its whitespace padding. */
  lemma IntStripPadded(a: string, t: string, b: string)
    requires AllIntSpace(a) && AllIntSpace(b)
    requires |t| > 0 && !IsIntSpace(t[0]) && !IsIntSpace(t[|t| - 1])
    ensures IntStrip(a + t + b) == t
  {
    assert a + t + b == a + (t + b);
    IntStripLeftPadded(a, t + b);
    IntStripRightPadded(t, b);
  }

  /**
   * `int` ignores any run of the whitespace it skips around the number:
   * ASCII tab to carriage return and space, and non-ASCII spaces such as
   * U+00A0 or U+3000.
   */
  lemma ParseIntPadded(a: string, i: int, b: string)
    requires AllIntSpace(a) && AllIntSpace(b)
    ensures ParseInt(a + IntToString(i) + b) == Some(i)
  {
    var s := IntToString(i);
    var m: nat := if i < 0 then -i else i;
    NatToStringDigits(m);
    var d := NatToString(m);
    assert s[|s| - 1] == d[|d| - 1];
    IntStripPadded(a, s, b);
    ParseIntToString(i);
  }

  /**
   * A file separator before the digits is not whitespace to `int`:
   * `int("\x1c5")` raises `ValueError`, although `strip()` removes U+001C.
   */
  lemma ParseIntFileSeparator()
    ensures Strip("\U{1C}5") == "5"
    ensures ParseInt("\U{1C}5") == None
  {
    var s := "\U{1C}5";
    assert !IsIntSpace(s[0]) && !IsIntSpace(s[1]);
    IntStripPadded([], s, []);
    assert [] + s + [] == s;
    assert !WellFormedDigits(s);
    assert IsSpace(s[0]) && !IsSpace(s[1]);
    StripPadded(s[..1], s[1..], []);
    assert s[..1] + s[1..] + [] == s;
  }
}
