/** The validating parser of _crates/src/te.rs: `f1` refuses any input of
    three bytes or more and otherwise parses it as a signed decimal `i32`. */
module Te {
  import opened Common

  /** The kinds of `ParseIntError` that parsing an `i32` can produce. */
  datatype IntErrorKind = Empty | InvalidDigit | PosOverflow | NegOverflow

  /** `enum MyError`. */
  datatype MyError =
    | ParseError(kind: IntErrorKind)
    | LengthError(input: string, len: nat)
    | Unknown

  /** Bytes taken by `c` in UTF-8. */
  function Utf8Width(c: char): (w: nat)
    ensures 1 <= w <= 4
    ensures w == 1 <==> c as int < 0x80
  {
    if c as int < 0x80 then 1
    else if c as int < 0x800 then 2
    else if c as int < 0x1_0000 then 3
    else 4
  }

  /** `str::len`: the length in bytes of the UTF-8 encoding. */
  function ByteLen(s: string): (n: nat)
    ensures n >= |s|
  {
    if s == [] then 0 else Utf8Width(s[0]) + ByteLen(s[1..])
  }

  predicate IsDigit(c: char)
  {
    '0' <= c <= '9'
  }

  predicate AllDigits(ds: string)
  {
    forall i :: 0 <= i < |ds| ==> IsDigit(ds[i])
  }

  function DigitValue(c: char): (d: nat)
    requires IsDigit(c)
    ensures d < 10
  {
    (c as int) - ('0' as int)
  }

  function DigitChar(d: nat): (c: char)
    requires d < 10
    ensures IsDigit(c) && DigitValue(c) == d
  {
    ('0' as int + d) as char
  }

  function Pow10(n: nat): (p: nat)
    ensures p >= 1
  {
    if n == 0 then 1 else 10 * Pow10(n - 1)
  }

  /** The digit loop of `i32::from_str`: from left to right, stop at the first
      character that is not a decimal digit, or at the first step whose
      running value leaves the `i32` range. */
  function Accumulate(ds: string, acc: int, positive: bool): (r: Result<i32, IntErrorKind>)
    requires I32_MIN <= acc <= I32_MAX
    ensures r.Ok? ==> AllDigits(ds)
    ensures r.Err? ==> r.error != Empty
    decreases |ds|
  {
    if ds == [] then Ok(acc as i32)
    else if !IsDigit(ds[0]) then Err(InvalidDigit)
    else
      var next := if positive then acc * 10 + DigitValue(ds[0]) else acc * 10 - DigitValue(ds[0]);
      if next < I32_MIN || next > I32_MAX then Err(if positive then PosOverflow else NegOverflow)
      else Accumulate(ds[1..], next, positive)
  }

  /** `s.parse::<i32>()`: empty input, a lone sign, a non-digit or a value
      out of range is an error; one leading `+` or `-` is accepted. */
  function ParseI32(s: string): (r: Result<i32, IntErrorKind>)
    ensures r == Err(Empty) <==> s == []
    ensures s == "+" || s == "-" ==> r == Err(InvalidDigit)
    ensures r.Ok? ==> IsDecimal(s)
  {
    if s == [] then Err(Empty)
    else if (s[0] == '+' || s[0] == '-') && |s| == 1 then Err(InvalidDigit)
    else if s[0] == '+' then Accumulate(s[1..], 0, true)
    else if s[0] == '-' then Accumulate(s[1..], 0, false)
    else Accumulate(s, 0, true)
  }

  // An independent reading of decimal notation, from the last digit back.

  /** The number written by a run of decimal digits. */
  function DecimalValue(ds: string): nat
    requires AllDigits(ds)
  {
    if ds == [] then 0 else DecimalValue(ds[..|ds| - 1]) * 10 + DigitValue(ds[|ds| - 1])
  }

  /** An optional sign followed by at least one decimal digit. */
  predicate IsDecimal(s: string)
  {
    && s != []
    && if s[0] == '+' || s[0] == '-' then |s| >= 2 && AllDigits(s[1..]) else AllDigits(s)
  }

  /** The signed number a decimal string denotes. */
  function SignedValue(s: string): int
    requires IsDecimal(s)
  {
    if s[0] == '-' then -(DecimalValue(s[1..]) as int)
    else if s[0] == '+' then DecimalValue(s[1..])
    else DecimalValue(s)
  }

  /** Moving a factor of ten across a sum. */
  lemma ShiftByTen(a: nat, p: nat, r: nat, l: nat)
    ensures (a * p + r) * 10 + l == a * (10 * p) + (r * 10 + l)
  {
  }

  /** Splitting off the first digit instead of the last. */
  lemma {:induction false} DecimalValueFirst(ds: string)
    requires AllDigits(ds) && ds != []
    ensures DecimalValue(ds) == DigitValue(ds[0]) * Pow10(|ds| - 1) + DecimalValue(ds[1..])
    decreases |ds|
  {
    var n := |ds|;
    if n > 1 {
      var init := ds[..n - 1];
      var tail := ds[1..];
      DecimalValueFirst(init);
      assert init[0] == ds[0];
      assert tail[..n - 2] == init[1..];
      assert tail[n - 2] == ds[n - 1];
      assert DecimalValue(tail) == DecimalValue(init[1..]) * 10 + DigitValue(ds[n - 1]);
      ShiftByTen(DigitValue(ds[0]), Pow10(n - 2), DecimalValue(init[1..]), DigitValue(ds[n - 1]));
    } else {
      assert ds[..0] == [] && ds[1..] == [];
    }
  }

  /** A run of `n` digits denotes less than 10^n. */
  lemma {:induction false} DecimalValueBound(ds: string)
    requires AllDigits(ds)
    ensures DecimalValue(ds) < Pow10(|ds|)
    decreases |ds|
  {
    if ds != [] {
      DecimalValueBound(ds[..|ds| - 1]);
    }
  }

  /** One step of the digit loop, unfolded. */
  lemma AccumulateStep(ds: string, acc: int, positive: bool)
    requires ds != [] && IsDigit(ds[0])
    requires I32_MIN <= acc <= I32_MAX
    ensures var next := if positive then acc * 10 + DigitValue(ds[0]) else acc * 10 - DigitValue(ds[0]);
            Accumulate(ds, acc, positive)
              == if next < I32_MIN || next > I32_MAX then Err(if positive then PosOverflow else NegOverflow)
                 else Accumulate(ds[1..], next, positive)
  {
  }

  /** The running value shifted by one more digit. */
  lemma ShiftOneDigit(acc: int, d: nat, p: nat, rest: nat, positive: bool)
    ensures var next := if positive then acc * 10 + d else acc * 10 - d;
            (if positive then acc * (10 * p) + (d * p + rest) else acc * (10 * p) - (d * p + rest))
              == (if positive then next * p + rest else next * p - rest)
  {
    assert acc * (10 * p) == (acc * 10) * p;
    assert (acc * 10 + d) * p == (acc * 10) * p + d * p;
    assert (acc * 10 - d) * p == (acc * 10) * p - d * p;
  }

  /** Scaling by a positive power keeps a value on its side of the range. */
  lemma ScaledStaysOut(next: int, p: nat, rest: nat, positive: bool)
    requires p >= 1
    requires positive ==> next > I32_MAX
    requires !positive ==> next < I32_MIN
    ensures positive ==> next * p + rest > I32_MAX
    ensures !positive ==> next * p - rest < I32_MIN
  {
    if positive {
      assert next * p >= next * 1;
    } else {
      assert next * p <= next * 1;
    }
  }

  /** The digit loop computes `acc` shifted left by the digits plus their
      value (minus it, for a negative number), and fails with the overflow
      of its sign exactly when that leaves the `i32` range. */
  lemma {:induction false} AccumulateValue(ds: string, acc: int, positive: bool)
    requires AllDigits(ds)
    requires I32_MIN <= acc <= I32_MAX
    requires positive ==> acc >= 0
    requires !positive ==> acc <= 0
    ensures var v := if positive then acc * Pow10(|ds|) + DecimalValue(ds)
                     else acc * Pow10(|ds|) - DecimalValue(ds);
            && (Accumulate(ds, acc, positive).Ok? <==> I32_MIN <= v <= I32_MAX)
            && (Accumulate(ds, acc, positive).Ok? ==> Accumulate(ds, acc, positive).value as int == v)
            && (Accumulate(ds, acc, positive).Err? ==>
                  Accumulate(ds, acc, positive).error == (if positive then PosOverflow else NegOverflow))
    decreases |ds|
  {
    if ds == [] {
      return;
    }
    var d := DigitValue(ds[0]);
    var rest := ds[1..];
    var p := Pow10(|ds| - 1);
    var next := if positive then acc * 10 + d else acc * 10 - d;
    DecimalValueFirst(ds);
    ShiftOneDigit(acc, d, p, DecimalValue(rest), positive);
    AccumulateStep(ds, acc, positive);
    if I32_MIN <= next <= I32_MAX {
      AccumulateValue(rest, next, positive);
    } else {
      ScaledStaysOut(next, p, DecimalValue(rest), positive);
    }
  }

  /** Digits and signs take one byte each. */
  lemma {:induction false} AsciiByteLen(s: string)
    requires forall i :: 0 <= i < |s| ==> s[i] as int < 0x80
    ensures ByteLen(s) == |s|
    decreases |s|
  {
    if s != [] {
      AsciiByteLen(s[1..]);
    }
  }

  /** `parse::<i32>` accepts exactly the decimal strings whose number fits an
      `i32`, and gives that number. */
  lemma ParseI32Correct(s: string)
    ensures ParseI32(s).Ok? <==> IsDecimal(s) && I32_MIN <= SignedValue(s) <= I32_MAX
    ensures ParseI32(s).Ok? ==> ParseI32(s).value as int == SignedValue(s)
  {
    if s != [] && !((s[0] == '+' || s[0] == '-') && |s| == 1) {
      var digits := if s[0] == '+' || s[0] == '-' then s[1..] else s;
      var positive := s[0] != '-';
      if AllDigits(digits) {
        AccumulateValue(digits, 0, positive);
      }
    }
  }

  /** A reference decimal writer for naturals, used to state the round
      trips of the parser: the shortest run of digits denoting `n`. */
  function ShowNat(n: nat): (s: string)
    ensures s != [] && AllDigits(s)
    ensures DecimalValue(s) == n
  {
    if n < 10 then [DigitChar(n)]
    else
      var init := ShowNat(n / 10);
      var s := init + [DigitChar(n % 10)];
      assert s[..|s| - 1] == init;
      s
  }

  /** The reference decimal writer for `i32`: a minus sign before the digits
      of a negative number, no sign otherwise. */
  function ShowI32(v: i32): (s: string)
    ensures IsDecimal(s) && SignedValue(s) == v as int
  {
    if v < 0 then "-" + ShowNat(-(v as int)) else ShowNat(v as int)
  }

  /** Parsing what the reference writer writes gives the number back. */
  lemma ParseShowRoundTrip(v: i32)
    ensures ParseI32(ShowI32(v)) == Ok(v)
  {
    ParseI32Correct(ShowI32(v));
  }

  /** A short input holds at most a sign and one digit, or two digits. */
  lemma ShortDecimalRange(s: string)
    requires |s| <= 2 && IsDecimal(s)
    ensures -9 <= SignedValue(s) <= 99
  {
    if s[0] == '+' || s[0] == '-' {
      DecimalValueBound(s[1..]);
    } else {
      DecimalValueBound(s);
      assert Pow10(|s|) <= 100;
    }
  }

  /** `f1`: an input of three bytes or more is refused with a `LengthError`
      carrying the input and its byte length, before any parsing; a shorter
      one is parsed as an `i32`, a parse failure being wrapped as a
      `ParseError`. `Unknown` is never produced, and the only numbers that
      can come out lie in -9..99. */
  function F1(s: string): (r: Result<i32, MyError>)
    ensures r.Err? && r.error.LengthError? <==> ByteLen(s) >= 3
    ensures ByteLen(s) >= 3 ==> r == Err(LengthError(s, ByteLen(s)))
    ensures ByteLen(s) < 3 ==> (r.Ok? <==> ParseI32(s).Ok?)
    ensures ByteLen(s) < 3 && r.Ok? ==> r.value == ParseI32(s).value
    ensures ByteLen(s) < 3 && r.Err? ==> r.error == ParseError(ParseI32(s).error)
    ensures !(r.Err? && r.error.Unknown?)
    ensures r.Ok? ==> -9 <= r.value as int <= 99
  {
    if ByteLen(s) >= 3 then Err(LengthError(s, ByteLen(s)))
    else
      ParseI32Correct(s);
      if IsDecimal(s) then ShortDecimalRange(s); Lift(ParseI32(s))
      else Lift(ParseI32(s))
  }

  /** The `map_err` of `f1`: a parse error is wrapped as `ParseError`. */
  function Lift(p: Result<i32, IntErrorKind>): (r: Result<i32, MyError>)
    ensures r.Ok? <==> p.Ok?
    ensures r.Ok? ==> r.value == p.value
    ensures r.Err? ==> r.error.ParseError? && r.error.kind == p.error
  {
    match p
    case Ok(v) => Ok(v)
    case Err(k) => Err(ParseError(k))
  }

  /** `f1` gives back every number it can produce, written by the
      reference writer `ShowI32`. */
  lemma F1RoundTrip(v: i32)
    requires -9 <= v <= 99
    ensures F1(ShowI32(v)) == Ok(v)
  {
    var s := ShowI32(v);
    if v < 0 {
      assert s == "-" + [DigitChar(-(v as int))];
    } else if v < 10 {
      assert s == [DigitChar(v as int)];
    } else {
      assert ShowNat(v as int / 10) == [DigitChar(v as int / 10)];
      assert s == [DigitChar(v as int / 10)] + [DigitChar(v as int % 10)];
    }
    AsciiByteLen(s);
    ParseShowRoundTrip(v);
  }

  /** The three cases of the unit test `test_f1`. */
  lemma F1Examples()
    ensures F1("12") == Ok(12)
    ensures F1("123") == Err(LengthError("123", 3))
    ensures F1("ab") == Err(ParseError(InvalidDigit))
  {
    assert ByteLen("12") == 2;
    assert ByteLen("123") == 3;
    assert ByteLen("ab") == 2;
    assert ParseI32("12") == Ok(12) by {
      ParseShowRoundTrip(12);
      assert ShowI32(12) == "12";
    }
  }
}
