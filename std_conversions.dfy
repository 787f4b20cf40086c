/** The two standard-library conversions the version utility relies on:
    `std::stoi` (text to `int`) and `std::stringstream << int` (`int` to text). */
module StdConversions {
  import opened CppInt

  /** The characters `isspace` accepts in the C locale. */
  predicate IsSpace(c: char) {
    c == ' ' || c == '\t' || c == '\n' || c == '\U{0B}' || c == '\U{0C}' || c == '\r'
  }

  predicate IsDigit(c: char) {
    '0' <= c <= '9'
  }

  predicate AllDigits(s: string) {
    forall i :: 0 <= i < |s| ==> IsDigit(s[i])
  }

  function DigitValue(c: char): nat
    requires IsDigit(c)
  {
    c as int - '0' as int
  }

  function DigitChar(n: nat): (c: char)
    requires n < 10
    ensures IsDigit(c) && DigitValue(c) == n
  {
    ('0' as int + n) as char
  }

  /** The number a run of decimal digits denotes, most significant first. */
  function DigitsValue(ds: string): nat
    requires AllDigits(ds)
  {
    if ds == [] then 0 else DigitsValue(ds[..|ds| - 1]) * 10 + DigitValue(ds[|ds| - 1])
  }

  /** The first index at or after `i` that is not white space. */
  function SkipSpaces(s: string, i: nat): (j: nat)
    requires i <= |s|
    decreases |s| - i
    ensures i <= j <= |s|
    ensures forall k :: i <= k < j ==> IsSpace(s[k])
    ensures j < |s| ==> !IsSpace(s[j])
  {
    if i < |s| && IsSpace(s[i]) then SkipSpaces(s, i + 1) else i
  }

  /** The end of the run of digits that starts at `i`. */
  function DigitsEnd(s: string, i: nat): (j: nat)
    requires i <= |s|
    decreases |s| - i
    ensures i <= j <= |s|
    ensures AllDigits(s[i..j])
    ensures j < |s| ==> !IsDigit(s[j])
  {
    if i < |s| && IsDigit(s[i]) then DigitsEnd(s, i + 1) else i
  }

  /** What `std::stoi` does with a string: the value, or the exception it throws. */
  datatype Conversion = Converted(value: int) | InvalidArgument | OutOfRange

  /** `std::stoi(s)`: optional white space, an optional sign, then one or more decimal digits;
      whatever follows the digits is ignored. No digit is `std::invalid_argument`; a value
      outside `int` is `std::out_of_range`. */
  function Stoi(s: string): (r: Conversion)
    ensures r.Converted? ==> InInt(r.value)
  {
    var start := SkipSpaces(s, 0);
    var signed := start < |s| && (s[start] == '-' || s[start] == '+');
    var digitsStart := if signed then start + 1 else start;
    var end := DigitsEnd(s, digitsStart);
    if end == digitsStart then InvalidArgument
    else
      var magnitude: int := DigitsValue(s[digitsStart..end]);
      var n: int := if signed && s[start] == '-' then -magnitude else magnitude;
      if InInt(n) then Converted(n) else OutOfRange
  }

  /** The decimal digits of a natural number, without leading zeros. */
  function NatToString(n: nat): (s: string)
    ensures |s| >= 1 && AllDigits(s)
  {
    if n < 10 then [DigitChar(n)] else NatToString(n / 10) + [DigitChar(n % 10)]
  }

  /** `ss << n`: decimal digits, preceded by '-' when `n` is negative. */
  function IntToString(n: int): (s: string)
    ensures |s| >= 1 && '.' !in s
    ensures n >= 0 <==> AllDigits(s)
    ensures n >= 0 ==> '-' !in s
    ensures n < 0 ==> s[0] == '-' && AllDigits(s[1..])
  {
    if n < 0 then
      var s := "-" + NatToString(-n);
      assert !IsDigit(s[0]);
      s
    else NatToString(n)
  }

  /** Reading the digits back gives the number. */
  lemma {:induction false} DigitsValueOfNatToString(n: nat)
    ensures DigitsValue(NatToString(n)) == n
  {
    if n >= 10 {
      DigitsValueOfNatToString(n / 10);
      var s := NatToString(n);
      assert s[..|s| - 1] == NatToString(n / 10);
    }
  }

  /** The run of digits in `s` from `i` ends exactly at `j`. */
  lemma DigitsEndAt(s: string, i: nat, j: nat)
    requires i <= j <= |s|
    requires AllDigits(s[i..j])
    requires j == |s| || !IsDigit(s[j])
    decreases j - i
    ensures DigitsEnd(s, i) == j
  {
  }

  /** `std::stoi` reads back what `ss << n` wrote, whatever non-digit text follows it. */
  lemma StoiOfIntToString(n: int, rest: string)
    requires InInt(n)
    requires rest == [] || !IsDigit(rest[0])
    ensures Stoi(IntToString(n) + rest) == Converted(n)
  {
    var text := IntToString(n);
    var s := text + rest;
    var digitsStart := if n < 0 then 1 else 0;
    assert s[0] == text[0];
    assert SkipSpaces(s, 0) == 0;
    var digits := NatToString(if n < 0 then -n else n);
    assert text[digitsStart..] == digits;
    assert s[digitsStart..|text|] == digits;
    DigitsEndAt(s, digitsStart, |text|);
    DigitsValueOfNatToString(if n < 0 then -n else n);
  }

  /** Text with no digit after its white space and sign is `std::invalid_argument`. */
  lemma StoiWithoutDigits(s: string)
    requires forall i :: 0 <= i < |s| ==> !IsDigit(s[i])
    ensures Stoi(s) == InvalidArgument
  {
  }
}
