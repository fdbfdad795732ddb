/** Signed 64-bit decimal integers as the retention code reads and writes them
    in partition directory names: Go's `strconv.ParseInt(name, 10, 64)` and
    `fmt.Sprintf("%d", v)`, and the round-trip test built from the two. */
module Decimal {
  import opened Wrappers

  const MinInt64: int := -0x8000_0000_0000_0000
  const MaxInt64: int := 0x7fff_ffff_ffff_ffff

  /** Go's `int64`. */
  type I64 = x: int | MinInt64 <= x <= MaxInt64

  predicate IsDigit(c: char) {
    '0' <= c <= '9'
  }

  predicate AllDigits(s: string) {
    forall i :: 0 <= i < |s| ==> IsDigit(s[i])
  }

  function DigitValue(c: char): (d: nat)
    requires IsDigit(c)
    ensures d < 10
  {
    c as int - '0' as int
  }

  function DigitChar(d: nat): (c: char)
    requires d < 10
    ensures IsDigit(c) && DigitValue(c) == d
  {
    ('0' as int + d) as char
  }

  /** The value of a string of decimal digits, most significant first (leading zeros allowed). */
  function DigitsValue(s: string): nat
    requires AllDigits(s)
  {
    if |s| == 0 then 0 else DigitsValue(s[..|s| - 1]) * 10 + DigitValue(s[|s| - 1])
  }

  /** `strconv.ParseInt(s, 10, 64)`: an optional `+` or `-`, then one or more
      ASCII digits (no underscores in base 10), and a value inside the int64
      range; anything else is an error (`None`). */
  function ParseInt64(s: string): (r: Option<I64>)
    ensures r.Some? ==> 0 < |s|
  {
    if |s| == 0 then None
    else
      var neg := s[0] == '-';
      var body := if s[0] == '+' || s[0] == '-' then s[1..] else s;
      if |body| == 0 || !AllDigits(body) then None
      else
        var u: int := DigitsValue(body);
        if !neg && u > MaxInt64 then None
        else if neg && u > -MinInt64 then None
        else Some(if neg then -u else u)
  }

  /** Shortest decimal spelling of `n`: no sign and no leading zero. */
  function Digits(n: nat): (s: string)
    ensures 0 < |s| && AllDigits(s)
    ensures DigitsValue(s) == n
    ensures s[0] == '0' ==> n == 0 && |s| == 1
  {
    if n < 10 then [DigitChar(n)]
    else
      var p := Digits(n / 10);
      var s := p + [DigitChar(n % 10)];
      assert s[..|s| - 1] == p;
      s
  }

  /** `fmt.Sprintf("%d", v)`. */
  function FormatInt64(v: I64): string {
    var n: int := v;
    if n < 0 then "-" + Digits(-n) else Digits(n)
  }

  /** A directory name counts as a partition when it parses as an int64 AND
      printing that integer gives the name back. */
  predicate IsPartitionName(name: string) {
    match ParseInt64(name)
    case None => false
    case Some(v) => FormatInt64(v) == name
  }

  /** Digits without a superfluous leading zero. */
  predicate CanonicalDigits(s: string) {
    0 < |s| && AllDigits(s) && (s[0] == '0' ==> |s| == 1)
  }

  /** Independent, purely syntactic description of the names `%d` can print:
      canonical digits, optionally preceded by `-` when the number is not 0. */
  predicate CanonicalDecimal(s: string) {
    CanonicalDigits(s) || (1 < |s| && s[0] == '-' && CanonicalDigits(s[1..]) && s[1] != '0')
  }

  function CanonicalValue(s: string): int
    requires CanonicalDecimal(s)
  {
    if CanonicalDigits(s) then DigitsValue(s) else 0 - DigitsValue(s[1..])
  }

  lemma {:induction false} LeadingNonZeroPositive(s: string)
    requires 0 < |s| && AllDigits(s) && s[0] != '0'
    ensures DigitsValue(s) > 0
  {
    if |s| > 1 {
      LeadingNonZeroPositive(s[..|s| - 1]);
    }
  }

  /** Canonical digits are exactly what `Digits` prints for their value. */
  lemma {:induction false} DigitsOfValue(s: string)
    requires CanonicalDigits(s)
    ensures Digits(DigitsValue(s)) == s
  {
    if |s| > 1 {
      var p := s[..|s| - 1];
      assert CanonicalDigits(p);
      LeadingNonZeroPositive(p);
      DigitsOfValue(p);
      var v := DigitsValue(s);
      assert v / 10 == DigitsValue(p);
      assert v % 10 == DigitValue(s[|s| - 1]);
      assert s == p + [s[|s| - 1]];
    }
  }

  /** Parsing what `%d` printed gives the integer back, so every int64 has a
      partition name. */
  lemma FormatParseRoundTrip(v: I64)
    ensures ParseInt64(FormatInt64(v)) == Some(v)
    ensures IsPartitionName(FormatInt64(v))
  {
    var s := FormatInt64(v);
    var n: int := v;
    if n < 0 {
      assert s[1..] == Digits(-n);
    }
  }

  /** What `%d` prints is a canonical spelling of the integer printed. */
  lemma FormatCanonical(v: I64)
    ensures CanonicalDecimal(FormatInt64(v)) && CanonicalValue(FormatInt64(v)) == v
  {
    var n: int := v;
    var s := FormatInt64(v);
    if n < 0 {
      var d := Digits(-n);
      assert s == "-" + d;
      assert s[1..] == d;
      assert !IsDigit(s[0]);
    }
  }

  /** Every partition name is a canonical spelling of an int64. */
  lemma PartitionNameCanonical(name: string)
    requires IsPartitionName(name)
    ensures CanonicalDecimal(name) && MinInt64 <= CanonicalValue(name) <= MaxInt64
  {
    var v := ParseInt64(name).value;
    FormatCanonical(v);
  }

  /** Every canonical spelling of an int64 is a partition name. */
  lemma CanonicalIsPartitionName(name: string)
    requires CanonicalDecimal(name) && MinInt64 <= CanonicalValue(name) <= MaxInt64
    ensures IsPartitionName(name)
  {
    if CanonicalDigits(name) {
      DigitsOfValue(name);
      FormatParseRoundTrip(DigitsValue(name));
    } else {
      var body := name[1..];
      DigitsOfValue(body);
      LeadingNonZeroPositive(body);
      var v: I64 := 0 - DigitsValue(body);
      assert FormatInt64(v) == "-" + body == name;
      FormatParseRoundTrip(v);
    }
  }

  /** The round-trip test accepts exactly the canonical spellings of int64
      values: `"007"`, `"+7"`, `"-0"` and non-numbers are all refused. */
  lemma PartitionNameIsCanonical(name: string)
    ensures IsPartitionName(name) <==>
      CanonicalDecimal(name) && MinInt64 <= CanonicalValue(name) <= MaxInt64
  {
    if IsPartitionName(name) {
      PartitionNameCanonical(name);
    }
    if CanonicalDecimal(name) && MinInt64 <= CanonicalValue(name) <= MaxInt64 {
      CanonicalIsPartitionName(name);
    }
  }

  /** The names the directory scan must leave alone as foreign. */
  lemma ForeignNames()
    ensures !IsPartitionName("007")
    ensures !IsPartitionName("notANumber")
    ensures !IsPartitionName("+7")
    ensures !IsPartitionName("-0")
    ensures !IsPartitionName("")
  {
    PartitionNameIsCanonical("007");
    PartitionNameIsCanonical("notANumber");
    assert !IsDigit("notANumber"[0]);
    PartitionNameIsCanonical("+7");
    assert !IsDigit("+7"[0]);
    PartitionNameIsCanonical("-0");
    assert "-0"[1..] == "0";
    PartitionNameIsCanonical("");
  }
}
