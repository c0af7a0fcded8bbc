/**
 * The rental record (rental.py): a half-open time interval [start, end)
 * together with the two fields the assignment algorithm updates in place,
 * the list of forbidden items and the assigned item.
 */
module Rentals {
  import opened Wrappers

  class Rental {
    // Never reassigned after construction, hence constants.
    const start: int
    const end: int
    // Items already taken by an overlapping, earlier-processed rental.
    var invalidItems: seq<int>
    // The item this rental is assigned to; None until assigned.
    var item: Option<int>

    /** The construction invariant, `0 < start < end`. */
    predicate Valid() {
      0 < start < end
    }

    /** Building a rental stores the interval as given, with no forbidden items and no item. */
    constructor (start: int, end: int)
      requires 0 < start < end
      ensures Valid()
      ensures this.start == start && this.end == end
      ensures invalidItems == [] && item == None
    {
      this.start := start;
      this.end := end;
      invalidItems := [];
      item := None;
    }

    /** The textual form `<start>-<end>` in decimal; it determines the interval. */
    function ToString(): (s: string)
      requires Valid()
      ensures ParseRange(s) == Some((start, end))
      ensures var k := FindDash(s); k > 0 && Canonical(s[..k]) && Canonical(s[k + 1..])
    {
      TextRoundTrip(start, end);
      FirstDash(Str(start), Str(end));
      assert (Str(start) + "-" + Str(end))[..|Str(start)|] == Str(start);
      assert (Str(start) + "-" + Str(end))[|Str(start)| + 1..] == Str(end);
      Str(start) + "-" + Str(end)
    }
  }

  predicate IsDigit(c: char) {
    '0' <= c <= '9'
  }

  predicate IsDigits(s: string) {
    |s| > 0 && forall i :: 0 <= i < |s| ==> IsDigit(s[i])
  }

  /** A decimal numeral as Python's `str` writes it: digits, and no leading zero unless it is "0". */
  predicate Canonical(t: string) {
    IsDigits(t) && (|t| > 1 ==> t[0] != '0')
  }

  function DigitChar(d: int): (c: char)
    requires 0 <= d < 10
    ensures IsDigit(c) && c as int - '0' as int == d
  {
    ('0' as int + d) as char
  }

  /** The decimal digits of a natural number, most significant first, without leading zeros. */
  function Decimal(n: nat): (s: string)
    ensures Canonical(s)
    decreases n
  {
    if n < 10 then [DigitChar(n)] else Decimal(n / 10) + [DigitChar(n % 10)]
  }

  /** Python's `str` on an integer: a minus sign before the digits of a negative number. */
  function Str(n: int): (s: string)
    ensures n >= 0 ==> Canonical(s) && DigitsValue(s) == n
    ensures n < 0 ==> |s| > 1 && s[0] == '-' && Canonical(s[1..]) && DigitsValue(s[1..]) == -n
  {
    if n < 0 then
      DecimalRoundTrip(-n);
      assert ("-" + Decimal(-n))[1..] == Decimal(-n);
      "-" + Decimal(-n)
    else
      DecimalRoundTrip(n);
      Decimal(n)
  }

  /** The number a string of decimal digits denotes. */
  function DigitsValue(s: string): nat
    requires forall i :: 0 <= i < |s| ==> IsDigit(s[i])
  {
    if |s| == 0 then 0
    else
      assert IsDigit(s[|s| - 1]);
      DigitsValue(s[..|s| - 1]) * 10 + (s[|s| - 1] as int - '0' as int)
  }

  lemma {:induction false} DecimalRoundTrip(n: nat)
    ensures DigitsValue(Decimal(n)) == n
    decreases n
  {
    if n >= 10 {
      var s := Decimal(n);
      assert s[..|s| - 1] == Decimal(n / 10);
      DecimalRoundTrip(n / 10);
    }
  }

  /** Index of the first '-' in s, or -1 when there is none. */
  function FindDash(s: string): (k: int)
    ensures -1 <= k < |s|
    ensures k == -1 ==> forall i :: 0 <= i < |s| ==> s[i] != '-'
    ensures k >= 0 ==> s[k] == '-' && forall i :: 0 <= i < k ==> s[i] != '-'
  {
    if |s| == 0 then -1
    else if s[0] == '-' then 0
    else var k := FindDash(s[1..]); if k == -1 then -1 else k + 1
  }

  /** Reads `<start>-<end>` back: two non-empty digit strings around the first dash. */
  function ParseRange(s: string): Option<(int, int)> {
    var k := FindDash(s);
    if k == -1 then None
    else if !IsDigits(s[..k]) || !IsDigits(s[k + 1..]) then None
    else Some((DigitsValue(s[..k]), DigitsValue(s[k + 1..])))
  }

  lemma FirstDash(a: string, b: string)
    requires IsDigits(a)
    ensures FindDash(a + "-" + b) == |a|
  {
    var s := a + "-" + b;
    assert s[|a|] == '-';
    assert forall i :: 0 <= i < |a| ==> s[i] == a[i] && s[i] != '-';
  }

  lemma ParseJoined(a: string, b: string)
    requires IsDigits(a) && IsDigits(b)
    ensures ParseRange(a + "-" + b) == Some((DigitsValue(a), DigitsValue(b)))
  {
    var s := a + "-" + b;
    FirstDash(a, b);
    assert s[..|a|] == a && s[|a| + 1..] == b;
  }

  /** Two natural numbers written `<a>-<b>` parse back to (a, b). */
  lemma TextRoundTrip(a: nat, b: nat)
    ensures ParseRange(Str(a) + "-" + Str(b)) == Some((a, b))
  {
    ParseJoined(Str(a), Str(b));
  }
}
