/** Rust's decimal integer text: `str::parse` for the primitive integer types
    (`from_str_radix` with radix 10) and their `to_string`. Integers are
    unbounded here; a target type is given by its `min` and `max`, and a type is
    signed exactly when its `min` is below zero. */
module Decimal {
  import opened Wrappers

  /** The kinds of `ParseIntError` that decimal parsing can produce. */
  datatype IntErrorKind = Empty | InvalidDigit | PosOverflow | NegOverflow

  /** The `Display` text of a `ParseIntError` of each kind. */
  function Message(k: IntErrorKind): (msg: string) {
    match k
    case Empty => "cannot parse integer from empty string"
    case InvalidDigit => "invalid digit found in string"
    case PosOverflow => "number too large to fit in target type"
    case NegOverflow => "number too small to fit in target type"
  }

  predicate IsDigit(c: char) {
    '0' <= c <= '9'
  }

  function DigitValue(c: char): (d: nat)
    requires IsDigit(c)
  {
    c as int - '0' as int
  }

  function DigitChar(d: nat): (c: char)
    requires d < 10
    ensures IsDigit(c) && DigitValue(c) == d
  {
    ('0' as int + d) as char
  }

  predicate AllDigits(s: string) {
    forall i :: 0 <= i < |s| ==> IsDigit(s[i])
  }

  /** The number a string of digits denotes, most significant digit first. */
  function Value(ds: string): (n: nat)
    requires AllDigits(ds)
  {
    if ds == [] then 0 else Value(ds[..|ds| - 1]) * 10 + DigitValue(ds[|ds| - 1])
  }

  /** The mathematical reading of a decimal literal: one or more digits after an
      optional `+`, or after a `-` when negative numbers are allowed. */
  function Reading(s: string, signed: bool): (m: Option<int>) {
    if |s| >= 2 && s[0] == '+' && AllDigits(s[1..]) then Some(Value(s[1..]))
    else if |s| >= 2 && s[0] == '-' && signed && AllDigits(s[1..]) then Some(-(Value(s[1..]) as int))
    else if |s| >= 1 && AllDigits(s) then Some(Value(s))
    else None
  }

  /** The digit loop for a non-negative number: each character is checked to be a
      digit before the accumulator is multiplied by ten and the digit added, and
      the first step that passes `max` stops with `PosOverflow`. */
  function ScanPositive(ds: string, acc: nat, max: int): (r: Result<int, IntErrorKind>)
    requires acc <= max
    ensures r.Ok? ==> acc <= r.value <= max
    ensures r.Err? ==> r.error == InvalidDigit || r.error == PosOverflow
  {
    if ds == [] then Ok(acc)
    else if !IsDigit(ds[0]) then Err(InvalidDigit)
    else if acc * 10 + DigitValue(ds[0]) > max then Err(PosOverflow)
    else ScanPositive(ds[1..], acc * 10 + DigitValue(ds[0]), max)
  }

  /** The digit loop after a `-`: the accumulator counts down from zero, and the
      first step that passes `min` stops with `NegOverflow`. */
  function ScanNegative(ds: string, acc: int, min: int): (r: Result<int, IntErrorKind>)
    requires min <= acc <= 0
    ensures r.Ok? ==> min <= r.value <= acc
    ensures r.Err? ==> r.error == InvalidDigit || r.error == NegOverflow
  {
    if ds == [] then Ok(acc)
    else if !IsDigit(ds[0]) then Err(InvalidDigit)
    else if acc * 10 - DigitValue(ds[0]) < min then Err(NegOverflow)
    else ScanNegative(ds[1..], acc * 10 - DigitValue(ds[0]), min)
  }

  /** `str::parse` into an integer type with range `min..=max`: the empty string
      is `Empty`; a lone sign is `InvalidDigit`; a leading `+` is skipped, and so
      is a leading `-` for a signed type, which then counts downwards. */
  function ParseInt(s: string, min: int, max: int): (r: Result<int, IntErrorKind>)
    requires min <= 0 <= max
    ensures r.Ok? ==> min <= r.value <= max
    ensures r == Err(Empty) <==> s == []
  {
    if s == [] then Err(Empty)
    else if |s| == 1 && (s[0] == '+' || s[0] == '-') then Err(InvalidDigit)
    else if s[0] == '+' then ScanPositive(s[1..], 0, max)
    else if s[0] == '-' && min < 0 then ScanNegative(s[1..], 0, min)
    else ScanPositive(s, 0, max)
  }

  /** `to_string` of a non-negative integer: its digits without leading zeros. */
  function NatToDecimal(n: nat): (ds: string)
    ensures |ds| >= 1 && AllDigits(ds) && Value(ds) == n
    ensures |ds| > 1 ==> ds[0] != '0'
  {
    if n < 10 then [DigitChar(n)]
    else
      var ds := NatToDecimal(n / 10) + [DigitChar(n % 10)];
      assert ds[..|ds| - 1] == NatToDecimal(n / 10);
      ds
  }

  /** `to_string` of any integer: a `-` before the digits of a negative number. */
  function FormatInt(n: int): (s: string)
    ensures n >= 0 ==> |s| >= 1 && AllDigits(s) && Value(s) == n
    ensures n < 0 ==> |s| >= 2 && s[0] == '-' && AllDigits(s[1..]) && Value(s[1..]) == -n
    ensures n >= 0 && |s| > 1 ==> s[0] != '0'
    ensures n < 0 && |s| > 2 ==> s[1] != '0'
  {
    if n < 0 then
      var ds := NatToDecimal(-n);
      assert ("-" + ds)[1..] == ds;
      "-" + ds
    else NatToDecimal(n)
  }

  /** A longer prefix of a digit string never denotes a smaller number. */
  lemma {:induction false} ValueOfPrefix(s: string, k: nat)
    requires AllDigits(s) && k <= |s|
    ensures Value(s[..k]) <= Value(s)
    decreases |s|
  {
    if k < |s| {
      var t := s[..|s| - 1];
      assert t[..k] == s[..k];
      ValueOfPrefix(t, k);
    } else {
      assert s[..k] == s;
    }
  }

  /** Appending a digit multiplies the value so far by ten and adds the digit. */
  lemma ValueStep(s: string, i: nat)
    requires i < |s| && AllDigits(s[..i]) && IsDigit(s[i])
    ensures AllDigits(s[..i + 1])
    ensures Value(s[..i + 1]) == Value(s[..i]) * 10 + DigitValue(s[i])
  {
    assert s[..i + 1][..i] == s[..i];
  }

  /** Started after `i` characters with their value, the positive loop accepts
      exactly the digit strings whose value fits, returns that value, and on an
      all-digit string can only fail by overflow. */
  lemma {:induction false} ScanPositiveReads(s: string, i: nat, max: int)
    requires i <= |s| && AllDigits(s[..i]) && Value(s[..i]) <= max
    ensures var r := ScanPositive(s[i..], Value(s[..i]), max);
      && (r.Ok? <==> AllDigits(s) && Value(s) <= max)
      && (r.Ok? ==> r.value == Value(s))
      && (AllDigits(s) && r.Err? ==> r.error == PosOverflow)
    decreases |s| - i
  {
    if i == |s| {
      assert s[..i] == s;
    } else {
      assert s[i..][1..] == s[i + 1..];
      if IsDigit(s[i]) {
        ValueStep(s, i);
        if Value(s[..i + 1]) <= max {
          ScanPositiveReads(s, i + 1, max);
        } else if AllDigits(s) {
          ValueOfPrefix(s, i + 1);
        }
      }
    }
  }

  /** The same for the loop after a `-`, which reads the negated value. */
  lemma {:induction false} ScanNegativeReads(s: string, i: nat, min: int)
    requires i <= |s| && AllDigits(s[..i]) && min <= -(Value(s[..i]) as int)
    ensures var r := ScanNegative(s[i..], -(Value(s[..i]) as int), min);
      && (r.Ok? <==> AllDigits(s) && min <= -(Value(s) as int))
      && (r.Ok? ==> r.value == -(Value(s) as int))
      && (AllDigits(s) && r.Err? ==> r.error == NegOverflow)
    decreases |s| - i
  {
    if i == |s| {
      assert s[..i] == s;
    } else {
      assert s[i..][1..] == s[i + 1..];
      if IsDigit(s[i]) {
        ValueStep(s, i);
        if min <= -(Value(s[..i + 1]) as int) {
          ScanNegativeReads(s, i + 1, min);
        } else if AllDigits(s) {
          ValueOfPrefix(s, i + 1);
        }
      }
    }
  }

  /** `ParseInt` succeeds exactly on the decimal literals whose reading lies in
      `min..=max`, and returns that reading. */
  lemma ParseIntMeansReading(s: string, min: int, max: int)
    requires min <= 0 <= max
    ensures var r := ParseInt(s, min, max);
      var m := Reading(s, min < 0);
      && (r.Ok? <==> m.Some? && min <= m.value <= max)
      && (r.Ok? ==> r.value == m.value)
  {
    if |s| >= 2 {
      var t := s[1..];
      assert t[..0] == [] && t[0..] == t;
      assert s[..0] == [] && s[0..] == s;
      if s[0] == '+' {
        ScanPositiveReads(t, 0, max);
      } else if s[0] == '-' && min < 0 {
        ScanNegativeReads(t, 0, min);
      } else {
        ScanPositiveReads(s, 0, max);
      }
    } else if |s| == 1 && !(s[0] == '+' || s[0] == '-') {
      assert s[..0] == [] && s[0..] == s;
      ScanPositiveReads(s, 0, max);
    }
  }

  /** The text of every integer reads back as that integer when its type is
      signed, and as that integer or nothing (when negative) when it is not. */
  lemma FormatIntReads(n: int)
    ensures Reading(FormatInt(n), true) == Some(n)
    ensures Reading(FormatInt(n), false) == if n < 0 then None else Some(n)
  {
    if n < 0 {
      var s := FormatInt(n);
      assert s[1..] == NatToDecimal(-n);
      assert !IsDigit(s[0]);
    }
  }

  /** Round trip and range check: the text of an integer in `min..=max` parses
      back to it; the text of one outside fails with the error Rust reports. */
  lemma ParseFormatInt(n: int, min: int, max: int)
    requires min <= 0 <= max
    ensures min <= n <= max ==> ParseInt(FormatInt(n), min, max) == Ok(n)
    ensures n > max ==> ParseInt(FormatInt(n), min, max) == Err(PosOverflow)
    ensures n < min < 0 ==> ParseInt(FormatInt(n), min, max) == Err(NegOverflow)
    ensures n < min == 0 ==> ParseInt(FormatInt(n), min, max) == Err(InvalidDigit)
  {
    var s := FormatInt(n);
    if n < 0 {
      var ds := s[1..];
      assert ds[..0] == [] && ds[0..] == ds;
      if min < 0 {
        ScanNegativeReads(ds, 0, min);
      }
    } else {
      assert s[..0] == [] && s[0..] == s;
      ScanPositiveReads(s, 0, max);
    }
  }
}
