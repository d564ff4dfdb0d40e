/**
 * The memory-size strings accepted by `SetMaxMemory`: a base-10 int64 in
 * the syntax of Go's `strconv.ParseInt(s, 10, 64)` followed by a two-letter
 * unit, `KB`, `MB` or `GB`, each a power of 1000. Multiplication is int64
 * arithmetic and wraps around.
 */
module Size {
  import opened Options

  const MinInt64: int := -0x8000_0000_0000_0000
  const MaxInt64: int := 0x7FFF_FFFF_FFFF_FFFF
  const Two64: int := 0x1_0000_0000_0000_0000

  predicate InInt64(x: int) {
    MinInt64 <= x <= MaxInt64
  }

  /** x reduced to the int64 range modulo 2^64, as two's-complement arithmetic does. */
  function Wrap64(x: int): (r: int)
    ensures InInt64(r)
    ensures (r - x) % Two64 == 0
    ensures InInt64(x) ==> r == x
  {
    (x - MinInt64) % Two64 + MinInt64
  }

  predicate IsDigit(c: char) {
    '0' <= c <= '9'
  }

  predicate AllDigits(s: string) {
    forall i :: 0 <= i < |s| ==> IsDigit(s[i])
  }

  /** The value of a string of decimal digits, most significant first; leading zeros allowed. */
  function DigitsValue(s: string): (v: nat)
    requires AllDigits(s)
    ensures s == [] ==> v == 0
  {
    if s == [] then 0 else DigitsValue(s[..|s| - 1]) * 10 + (s[|s| - 1] - '0') as int
  }

  /**
   * strconv.ParseInt(s, 10, 64): an optional sign, then one or more decimal
   * digits (no base prefix, no underscores), whose value must fit in int64.
   * None stands for the syntax and range errors.
   */
  function ParseInt64(s: string): (r: Option<int>)
    ensures r.Some? ==> InInt64(r.value)
    ensures r.Some? ==> |s| > 0
  {
    if s == [] then None
    else
      var neg := s[0] == '-';
      var body := if s[0] == '-' || s[0] == '+' then s[1..] else s;
      if body == [] || !AllDigits(body) then None
      else
        var d: int := DigitsValue(body);
        var v := if neg then -d else d;
        if InInt64(v) then Some(v) else None
  }

  /**
   * The ceiling a size string denotes, or None when SetMaxMemory refuses it.
   * The last two characters are the unit; the rest must parse as an int64.
   * The multiplications by 1000 are done one at a time in int64, as written.
   */
  function ParseSize(size: string): (r: Option<int>)
    requires |size| >= 2
    ensures r.Some? ==> InInt64(r.value)
    ensures r.Some? ==> size[|size| - 2..] in {"KB", "MB", "GB"}
    ensures ParseInt64(size[..|size| - 2]).None? ==> r.None?
  {
    var numStr, unit := size[..|size| - 2], size[|size| - 2..];
    match ParseInt64(numStr)
    case None => None
    case Some(num) => Scale(num, unit)
  }

  /**
   * num in the given unit, in bytes: multiplied by 1000 once per step
   * above bytes, each product wrapped to int64; None for an unknown unit.
   */
  function Scale(num: int, unit: string): (r: Option<int>)
    ensures r.Some? <==> unit in {"KB", "MB", "GB"}
    ensures r.Some? ==> InInt64(r.value)
  {
    if unit == "KB" then Some(Wrap64(num * 1000))
    else if unit == "MB" then Some(Wrap64(Wrap64(num * 1000) * 1000))
    else if unit == "GB" then Some(Wrap64(Wrap64(Wrap64(num * 1000) * 1000) * 1000))
    else None
  }

  /** The decimal digits of n, without leading zeros. */
  function Digits(n: nat): (s: string)
    ensures |s| > 0 && AllDigits(s)
    ensures |s| > 1 ==> s[0] != '0'
  {
    var d := ['0' + (n % 10) as char];
    if n < 10 then d else Digits(n / 10) + d
  }

  /** strconv.FormatInt(n, 10): the canonical spelling of n. */
  function FormatInt(n: int): (s: string)
    ensures |s| > 0
    ensures n >= 0 ==> AllDigits(s)
    ensures n < 0 ==> s[0] == '-' && AllDigits(s[1..])
  {
    if n < 0 then "-" + Digits(-n) else Digits(n)
  }

  /** A size string with the given ceiling written in the given unit. */
  function FormatSize(n: int, unit: string): (s: string)
    requires unit in {"KB", "MB", "GB"}
    ensures |s| >= 3 && s[|s| - 2..] == unit
  {
    FormatInt(n) + unit
  }

  /** Reading back the digits of n gives n. */
  lemma {:induction false} DigitsRoundTrip(n: nat)
    ensures DigitsValue(Digits(n)) == n
    decreases n
  {
    var s := Digits(n);
    if n >= 10 {
      DigitsRoundTrip(n / 10);
      assert s[..|s| - 1] == Digits(n / 10);
    }
  }

  /** An unsigned digit string parses to its value when that fits in int64. */
  lemma ParseUnsigned(t: string)
    requires |t| > 0 && AllDigits(t)
    ensures ParseInt64(t) == if InInt64(DigitsValue(t)) then Some(DigitsValue(t)) else None
  {
    assert IsDigit(t[0]);
  }

  /** A digit string after a minus sign parses to its negated value when that fits in int64. */
  lemma ParseNegative(t: string, d: int)
    requires |t| > 0 && AllDigits(t) && d == DigitsValue(t)
    ensures ParseInt64("-" + t) == if InInt64(-d) then Some(-d) else None
  {
    var s := "-" + t;
    assert s[0] == '-' && s[1..] == t;
  }

  /** ParseInt64 reads back what FormatInt writes, for every int64. */
  lemma ParseFormatRoundTrip(n: int)
    requires InInt64(n)
    ensures ParseInt64(FormatInt(n)) == Some(n)
  {
    if n < 0 {
      DigitsRoundTrip(-n);
      ParseNegative(Digits(-n), -n);
    } else {
      DigitsRoundTrip(n);
      ParseUnsigned(Digits(n));
    }
  }

  /** A character that is neither a digit nor a leading sign makes ParseInt64 fail. */
  lemma RejectsNonDigit(s: string, i: int)
    requires 0 <= i < |s| && !IsDigit(s[i])
    requires i > 0 || (s[i] != '+' && s[i] != '-')
    ensures ParseInt64(s) == None
  {
    if s[0] == '-' || s[0] == '+' {
      assert s[1..][i - 1] == s[i];
    }
  }

  /** A number without a sign or digits, like "" or "-", does not parse. */
  lemma RejectsBareSign(s: string)
    requires s in {"", "+", "-"}
    ensures ParseInt64(s) == None
  {
  }

  /** A number beyond the int64 range does not parse, however it is spelled. */
  lemma RejectsOutOfRange(n: int)
    requires !InInt64(n)
    ensures ParseInt64(FormatInt(n)) == None
  {
    if n < 0 {
      DigitsRoundTrip(-n);
      ParseNegative(Digits(-n), -n);
    } else {
      DigitsRoundTrip(n);
      ParseUnsigned(Digits(n));
    }
  }

  /** n in the given unit, in bytes, computed exactly. */
  function Bytes(n: int, unit: string): int {
    if unit == "KB" then n * 1000 else if unit == "MB" then n * 1000_000 else n * 1000_000_000
  }

  /**
   * Whenever the product does not overflow, ParseSize reads a number
   * written with a unit as the number times 1000, 1000^2 or 1000^3.
   */
  lemma ParseSizeRoundTrip(n: int, unit: string)
    requires unit in {"KB", "MB", "GB"} && InInt64(Bytes(n, unit))
    ensures ParseSize(FormatSize(n, unit)) == Some(Bytes(n, unit))
  {
    ParseSizeScales(n, unit);
    ScaleExact(n, unit);
  }

  /** Without overflow the stepwise wrapped products are the exact one. */
  lemma ScaleExact(n: int, unit: string)
    requires unit in {"KB", "MB", "GB"} && InInt64(Bytes(n, unit))
    ensures InInt64(n) && Scale(n, unit) == Some(Bytes(n, unit))
  {
    var kb := n * 1000;
    var mb := kb * 1000;
    if unit == "MB" {
      assert mb == n * 1000_000;
    } else if unit == "GB" {
      assert mb * 1000 == n * 1000_000_000;
    }
  }

  /** A unit other than KB, MB and GB is refused even when the number parses. */
  lemma RejectsUnknownUnit(size: string)
    requires |size| >= 2 && size[|size| - 2..] !in {"KB", "MB", "GB"}
    ensures ParseSize(size) == None
  {
  }

  /** Any int64 written with a unit reads back as the number scaled to bytes, wrapped to int64. */
  lemma ParseSizeScales(n: int, unit: string)
    requires InInt64(n) && unit in {"KB", "MB", "GB"}
    ensures ParseSize(FormatSize(n, unit)) == Scale(n, unit)
  {
    var s := FormatSize(n, unit);
    assert s[..|s| - 2] == FormatInt(n);
    ParseFormatRoundTrip(n);
  }

  /** A value less than one 2^64 turn above the int64 range wraps to itself minus 2^64. */
  lemma WrapsOnce(x: int)
    requires MaxInt64 < x < MaxInt64 + Two64
    ensures Wrap64(x) == x - Two64
  {
    var a := x - MinInt64;
    assert Two64 <= a < 2 * Two64;
    assert a % Two64 == a - Two64;
  }

  /** So "9223372036854776KB", just past the int64 range, is read as a negative ceiling. */
  lemma OverflowWraps()
    ensures ParseSize(FormatSize(9223372036854776, "KB")) == Some(MinInt64 + 192)
  {
    ParseSizeScales(9223372036854776, "KB");
    WrapsOnce(9223372036854776 * 1000);
  }
}
