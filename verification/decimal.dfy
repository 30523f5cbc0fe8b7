/** Decimal text of integers, as Rust's standard library reads and writes it:
    `str::parse::<i64>` (used for number literals) and `usize::to_string`
    (used for the `line` metadata of every node). */
module Decimal {
  import opened Base

  const I64Min: int := -0x8000_0000_0000_0000
  const I64Max: int := 0x7FFF_FFFF_FFFF_FFFF

  predicate InI64(n: int) {
    I64Min <= n <= I64Max
  }

  /** The kinds of Rust's `ParseIntError`. */
  datatype IntErrorKind = Empty | InvalidDigit | PosOverflow | NegOverflow

  /** The `Display` text of each `ParseIntError` kind. */
  function ErrorText(k: IntErrorKind): string {
    match k
    case Empty => "cannot parse integer from empty string"
    case InvalidDigit => "invalid digit found in string"
    case PosOverflow => "number too large to fit in target type"
    case NegOverflow => "number too small to fit in target type"
  }

  predicate IsDigit(c: char) {
    '0' <= c <= '9'
  }

  function DigitValue(c: char): nat
    requires IsDigit(c)
  {
    c as int - '0' as int
  }

  function DigitChar(d: nat): (c: char)
    requires d < 10
    ensures IsDigit(c) && DigitValue(c) == d
  {
    ('0' as int + d) as char
  }

  predicate AllDigits(s: string) {
    forall i :: 0 <= i < |s| ==> IsDigit(s[i])
  }

  /** Positional value of a digit string: the last digit is the units. */
  function DigitsValue(s: string): nat
    requires AllDigits(s)
  {
    if |s| == 0 then 0 else DigitsValue(s[..|s| - 1]) * 10 + DigitValue(s[|s| - 1])
  }

  predicate IsSign(c: char) {
    c == '+' || c == '-'
  }

  /** Reference grammar of an integer literal that `i64::from_str` reads:
      an optional `+` or `-` followed by at least one ASCII digit. */
  predicate WellFormedInt(s: string) {
    if |s| > 0 && IsSign(s[0]) then |s| > 1 && AllDigits(s[1..]) else |s| > 0 && AllDigits(s)
  }

  /** The mathematical value a well-formed literal denotes. */
  function IntValue(s: string): int
    requires WellFormedInt(s)
  {
    if s[0] == '-' then -(DigitsValue(s[1..]) as int)
    else if s[0] == '+' then DigitsValue(s[1..])
    else DigitsValue(s)
  }

  /** `str::parse::<i64>`: a leading sign is taken off (a lone sign is an
      invalid digit), then the digits are consumed left to right; each one
      is checked to be a digit first and then the running value is checked
      to stay inside `i64`, so whichever fault comes first is reported. */
  function ParseI64(s: string): Result<int, IntErrorKind> {
    if |s| == 0 then Err(Empty)
    else if IsSign(s[0]) && |s| == 1 then Err(InvalidDigit)
    else if IsSign(s[0]) then Accumulate(s[1..], 0, s[0] == '-')
    else Accumulate(s, 0, false)
  }

  /** The digit loop of `from_str_radix`: `acc` is the value read so far,
      accumulated downwards for a negative literal. */
  function Accumulate(ds: string, acc: int, negative: bool): Result<int, IntErrorKind>
    decreases |ds|
  {
    if |ds| == 0 then Ok(acc)
    else if !IsDigit(ds[0]) then Err(InvalidDigit)
    else
      var next := if negative then acc * 10 - DigitValue(ds[0]) else acc * 10 + DigitValue(ds[0]);
      if next > I64Max then Err(PosOverflow)
      else if next < I64Min then Err(NegOverflow)
      else Accumulate(ds[1..], next, negative)
  }

  /** `usize::to_string`: shortest decimal text, no sign, no leading zero. */
  function ShowNat(n: nat): (s: string)
    ensures |s| > 0 && AllDigits(s)
    ensures |s| > 1 ==> s[0] != '0'
  {
    if n < 10 then [DigitChar(n)] else ShowNat(n / 10) + [DigitChar(n % 10)]
  }

  /** `i64::to_string`: a minus sign in front of a negative value. */
  function ShowInt(n: int): (s: string)
    ensures WellFormedInt(s)
  {
    if n < 0 then "-" + ShowNat(-n) else ShowNat(n)
  }

  /* ---------------------------------------------------------------------- */
  /* Properties                                                              */

  lemma {:induction false} ShowNatValue(n: nat)
    ensures DigitsValue(ShowNat(n)) == n
  {
    if n >= 10 {
      var s := ShowNat(n);
      assert s[..|s| - 1] == ShowNat(n / 10);
      ShowNatValue(n / 10);
    }
  }

  /** The text `ShowInt` renders denotes the number it was given. */
  lemma ShowIntValue(n: int)
    ensures IntValue(ShowInt(n)) == n
  {
    var s := ShowInt(n);
    if n < 0 {
      assert s[1..] == ShowNat(-n);
      ShowNatValue(-n);
    } else {
      ShowNatValue(n);
    }
  }

  /** Rendering then reading back is the identity on every `i64`. */
  lemma ShowIntRoundTrip(n: int)
    requires InI64(n)
    ensures ParseI64(ShowInt(n)) == Ok(n)
  {
    ShowIntValue(n);
    ParseI64Complete(ShowInt(n));
  }

  /** Appending one digit scales the positional value by ten. */
  lemma DigitsValueSnoc(s: string, c: char)
    requires AllDigits(s) && IsDigit(c)
    ensures AllDigits(s + [c])
    ensures DigitsValue(s + [c]) == DigitsValue(s) * 10 + DigitValue(c)
  {
    assert (s + [c])[..|s + [c]| - 1] == s;
  }

  /** A prefix of a digit string never has a larger value. */
  lemma {:induction false} DigitsValuePrefix(s: string, k: nat)
    requires AllDigits(s) && k <= |s|
    ensures AllDigits(s[..k]) && DigitsValue(s[..k]) <= DigitsValue(s)
    decreases |s|
  {
    if k < |s| {
      var p := s[..|s| - 1];
      assert p[..k] == s[..k];
      DigitsValuePrefix(p, k);
    } else {
      assert s[..k] == s;
    }
  }

  function Signed(v: nat, negative: bool): int {
    if negative then -(v as int) else v
  }

  /** One turn of the digit loop over a digit string, when the value read
      after that turn still fits: it moves on to the next prefix. */
  lemma AccumulateStep(ds: string, k: nat, negative: bool)
    requires AllDigits(ds) && k < |ds|
    requires InI64(Signed(DigitsValue(ds[..k + 1]), negative))
    ensures AllDigits(ds[..k]) && AllDigits(ds[..k + 1])
    ensures Accumulate(ds[k..], Signed(DigitsValue(ds[..k]), negative), negative)
            == Accumulate(ds[k + 1..], Signed(DigitsValue(ds[..k + 1]), negative), negative)
  {
    assert ds[..k] + [ds[k]] == ds[..k + 1];
    DigitsValueSnoc(ds[..k], ds[k]);
    assert ds[k..][1..] == ds[k + 1..];
  }

  /** The digit loop, started after the prefix `ds[..k]` has been read
      without fault, returns the signed value of the whole string. */
  lemma {:induction false} AccumulateDigits(ds: string, k: nat, negative: bool)
    requires AllDigits(ds) && k <= |ds|
    requires InI64(Signed(DigitsValue(ds), negative))
    ensures AllDigits(ds[..k])
    ensures Accumulate(ds[k..], Signed(DigitsValue(ds[..k]), negative), negative)
            == Ok(Signed(DigitsValue(ds), negative))
    decreases |ds| - k
  {
    if k == |ds| {
      assert ds[..k] == ds;
      assert ds[k..] == [];
    } else {
      DigitsValuePrefix(ds, k + 1);
      AccumulateStep(ds, k, negative);
      AccumulateDigits(ds, k + 1, negative);
    }
  }

  /** If some prefix of the digits already leaves `i64`, the digit loop
      reports the overflow in the direction of the sign. */
  lemma {:induction false} AccumulateOverflow(ds: string, k: nat, negative: bool)
    requires AllDigits(ds) && k < |ds|
    requires InI64(Signed(DigitsValue(ds[..k]), negative))
    requires !InI64(Signed(DigitsValue(ds), negative))
    ensures Accumulate(ds[k..], Signed(DigitsValue(ds[..k]), negative), negative)
            == Err(if negative then NegOverflow else PosOverflow)
    decreases |ds| - k
  {
    if k + 1 == |ds| {
      assert ds[..k] + [ds[k]] == ds;
      DigitsValueSnoc(ds[..k], ds[k]);
      assert ds[k..][1..] == [];
    } else if InI64(Signed(DigitsValue(ds[..k + 1]), negative)) {
      AccumulateStep(ds, k, negative);
      AccumulateOverflow(ds, k + 1, negative);
    } else {
      assert ds[..k] + [ds[k]] == ds[..k + 1];
      DigitsValueSnoc(ds[..k], ds[k]);
    }
  }

  /** Reading a well-formed literal: the value when it fits, the overflow
      in the literal's direction otherwise. */
  lemma ParseI64Complete(s: string)
    requires WellFormedInt(s)
    ensures InI64(IntValue(s)) ==> ParseI64(s) == Ok(IntValue(s))
    ensures !InI64(IntValue(s)) ==> ParseI64(s) == Err(if s[0] == '-' then NegOverflow else PosOverflow)
  {
    var ds := if IsSign(s[0]) then s[1..] else s;
    var negative := s[0] == '-';
    assert IntValue(s) == Signed(DigitsValue(ds), negative);
    assert ds[..0] == [];
    assert ds[0..] == ds;
    if InI64(IntValue(s)) {
      AccumulateDigits(ds, 0, negative);
    } else {
      AccumulateOverflow(ds, 0, negative);
    }
  }

  /** Whatever the digit loop accepts consists of digits only. */
  lemma {:induction false} AccumulateSound(ds: string, acc: int, negative: bool)
    requires Accumulate(ds, acc, negative).Ok?
    ensures AllDigits(ds)
    decreases |ds|
  {
    if |ds| > 0 {
      var next := if negative then acc * 10 - DigitValue(ds[0]) else acc * 10 + DigitValue(ds[0]);
      AccumulateSound(ds[1..], next, negative);
      assert forall i :: 1 <= i < |ds| ==> ds[i] == ds[1..][i - 1];
    }
  }

  /** The digit loop only ever reports a digit or an overflow fault. */
  lemma {:induction false} AccumulateNeverEmpty(ds: string, acc: int, negative: bool)
    ensures Accumulate(ds, acc, negative) != Err(Empty)
    decreases |ds|
  {
    if |ds| > 0 && IsDigit(ds[0]) {
      var next := if negative then acc * 10 - DigitValue(ds[0]) else acc * 10 + DigitValue(ds[0]);
      AccumulateNeverEmpty(ds[1..], next, negative);
    }
  }

  /** `ParseI64` succeeds exactly on the well-formed literals whose value
      fits in `i64`, and then returns that value. */
  lemma ParseI64Spec(s: string)
    ensures ParseI64(s).Ok? <==> WellFormedInt(s) && InI64(IntValue(s))
    ensures ParseI64(s).Ok? ==> ParseI64(s).value == IntValue(s)
    ensures ParseI64(s) == Err(Empty) <==> s == ""
  {
    if ParseI64(s).Ok? {
      if IsSign(s[0]) {
        AccumulateSound(s[1..], 0, s[0] == '-');
      } else {
        AccumulateSound(s, 0, false);
      }
    }
    if WellFormedInt(s) {
      ParseI64Complete(s);
    }
    if |s| > 0 {
      if IsSign(s[0]) && |s| > 1 {
        AccumulateNeverEmpty(s[1..], 0, s[0] == '-');
      } else if !IsSign(s[0]) {
        AccumulateNeverEmpty(s, 0, false);
      }
    }
  }
}
