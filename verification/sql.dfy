/**
 * How SQLite stores a text parameter bound into a column declared INTEGER.
 *
 * Such a column has INTEGER affinity: text that is a well-formed integer
 * literal fitting in 64 bits is converted to an INTEGER value; any other
 * text is kept as TEXT, and a TEXT value never compares equal to an integer
 * key.  The form fields `case_id` and `assigned_to` reach the database this way.
 */
module Sql {
  import opened Wrappers

  datatype Value = Integer(n: int) | Text(s: string)

  const MinInt64: int := -0x8000_0000_0000_0000
  const MaxInt64: int := 0x7FFF_FFFF_FFFF_FFFF

  predicate IsDigit(c: char) {
    '0' <= c <= '9'
  }

  /** A non-empty run of decimal digits. */
  predicate IsDigits(s: string) {
    |s| > 0 && forall i :: 0 <= i < |s| ==> IsDigit(s[i])
  }

  /** The number a run of decimal digits denotes (leading zeros allowed). */
  function DigitsValue(s: string): nat
    requires forall i :: 0 <= i < |s| ==> IsDigit(s[i])
  {
    if s == [] then 0
    else
      assert IsDigit(s[|s| - 1]);
      10 * DigitsValue(s[..|s| - 1]) + (s[|s| - 1] as int - '0' as int)
  }

  /** An integer literal: an optional sign followed by decimal digits. */
  predicate IsIntegerLiteral(s: string) {
    IsDigits(s) || (|s| > 0 && (s[0] == '-' || s[0] == '+') && IsDigits(s[1..]))
  }

  /** A value that fits a 64-bit SQLite INTEGER (and so can be bound as a parameter). */
  predicate Bindable(n: int) {
    MinInt64 <= n <= MaxInt64
  }

  function ParseInteger(s: string): (r: Option<int>)
    ensures r.Some? <==> IsIntegerLiteral(s)
  {
    if |s| > 0 && s[0] == '-' && IsDigits(s[1..]) then Some(-(DigitsValue(s[1..]) as int))
    else if |s| > 0 && s[0] == '+' && IsDigits(s[1..]) then Some(DigitsValue(s[1..]))
    else if IsDigits(s) then Some(DigitsValue(s))
    else None
  }

  /**
   * The value SQLite stores when the text `s` is written into an INTEGER
   * column: the integer an in-range literal denotes (sign and leading zeros
   * allowed), and otherwise the text itself.
   */
  function IntegerAffinity(s: string): (v: Value)
    ensures !IsIntegerLiteral(s) ==> v == Text(s)
    ensures v.Text? ==> v.s == s
    ensures v.Integer? ==> IsIntegerLiteral(s) && Bindable(v.n) && ParseInteger(s) == Some(v.n)
    ensures IsIntegerLiteral(s) && !Bindable(ParseInteger(s).value) ==> v == Text(s)
    ensures IsDigits(s) && Bindable(DigitsValue(s)) ==> v == Integer(DigitsValue(s))
    ensures |s| > 0 && s[0] == '+' && IsDigits(s[1..]) && Bindable(DigitsValue(s[1..])) ==>
      v == Integer(DigitsValue(s[1..]))
    ensures |s| > 0 && s[0] == '-' && IsDigits(s[1..]) && Bindable(-(DigitsValue(s[1..]) as int)) ==>
      v == Integer(-(DigitsValue(s[1..]) as int))
  {
    match ParseInteger(s)
    case Some(n) => if Bindable(n) then Integer(n) else Text(s)
    case None => Text(s)
  }

  function Digit(d: nat): (c: char)
    requires d < 10
    ensures IsDigit(c) && c as int - '0' as int == d
  {
    ('0' as int + d) as char
  }

  /** The shortest decimal spelling of `n`. */
  function DigitsOf(n: nat): (s: string)
    ensures IsDigits(s)
    ensures n > 0 ==> s[0] != '0'
  {
    if n < 10 then [Digit(n)] else DigitsOf(n / 10) + [Digit(n % 10)]
  }

  /** How a browser submits an integer in a form field, e.g. "-12". */
  function DecimalText(n: int): string
  {
    if n < 0 then "-" + DigitsOf(-n) else DigitsOf(n)
  }

  lemma {:induction false} DigitsRoundTrip(n: nat)
    ensures DigitsValue(DigitsOf(n)) == n
  {
    var s := DigitsOf(n);
    if n < 10 {
      assert s[..|s| - 1] == [];
    } else {
      assert s[..|s| - 1] == DigitsOf(n / 10);
      DigitsRoundTrip(n / 10);
    }
  }

  /** Every 64-bit integer written as text into an INTEGER column is stored as that integer. */
  lemma AffinityRoundTrip(n: int)
    requires Bindable(n)
    ensures IntegerAffinity(DecimalText(n)) == Integer(n)
  {
    var s := DecimalText(n);
    if n < 0 {
      assert s[1..] == DigitsOf(-n);
      DigitsRoundTrip(-n);
    } else {
      assert IsDigit(s[0]);
      DigitsRoundTrip(n);
    }
  }

  function Zeros(k: nat): (s: string)
    ensures |s| == k && forall i :: 0 <= i < k ==> s[i] == '0'
  {
    if k == 0 then [] else Zeros(k - 1) + ['0']
  }

  /** A leading zero adds nothing to the value of a run of digits. */
  lemma {:induction false} LeadingZeroValue(s: string)
    requires forall i :: 0 <= i < |s| ==> IsDigit(s[i])
    ensures DigitsValue(['0'] + s) == DigitsValue(s)
    decreases |s|
  {
    if s == [] {
      assert (['0'] + s)[..0] == [];
    } else {
      var s' := s[..|s| - 1];
      assert (['0'] + s)[..|s|] == ['0'] + s';
      LeadingZeroValue(s');
    }
  }

  lemma {:induction false} ZerosValue(k: nat, s: string)
    requires forall i :: 0 <= i < |s| ==> IsDigit(s[i])
    ensures DigitsValue(Zeros(k) + s) == DigitsValue(s)
  {
    if k == 0 {
      assert Zeros(k) + s == s;
    } else {
      var s' := ['0'] + s;
      assert Zeros(k) + s == Zeros(k - 1) + s';
      ZerosValue(k - 1, s');
      LeadingZeroValue(s);
    }
  }

  /** Zero-padding a decimal spelling keeps it a run of digits with the same value. */
  lemma PaddedDigits(n: nat, zeros: nat)
    ensures IsDigits(Zeros(zeros) + DigitsOf(n))
    ensures DigitsValue(Zeros(zeros) + DigitsOf(n)) == n
  {
    var s := Zeros(zeros) + DigitsOf(n);
    assert forall i :: 0 <= i < |s| ==> IsDigit(s[i]);
    ZerosValue(zeros, DigitsOf(n));
    DigitsRoundTrip(n);
  }

  /** Leading zeros do not change the integer SQLite stores: "007" gives 7. */
  lemma LeadingZerosIgnored(n: nat, zeros: nat)
    requires n <= MaxInt64
    ensures IntegerAffinity(Zeros(zeros) + DigitsOf(n)) == Integer(n)
  {
    PaddedDigits(n, zeros);
  }

  /** Neither does a leading "+": "+7" and "+007" give 7. */
  lemma PlusSignIgnored(n: nat, zeros: nat)
    requires n <= MaxInt64
    ensures IntegerAffinity("+" + (Zeros(zeros) + DigitsOf(n))) == Integer(n)
  {
    var s := Zeros(zeros) + DigitsOf(n);
    PaddedDigits(n, zeros);
    assert ("+" + s)[1..] == s;
  }
}
