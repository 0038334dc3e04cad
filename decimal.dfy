/** Decimal text of Rust's `i64`: `Display` (used by `format!` and `write!`) and
    `str::parse::<i64>` (the `FromStr` implementation). */
module Decimal {
  import opened Wrappers
  import opened Machine

  predicate IsDigit(c: char) { '0' <= c <= '9' }

  predicate AllDigits(s: string) {
    forall i :: 0 <= i < |s| ==> IsDigit(s[i])
  }

  function DigitChar(d: int): (c: char)
    requires 0 <= d < 10
    ensures IsDigit(c)
  {
    ('0' as int + d) as char
  }

  function DigitValue(c: char): (d: int)
    requires IsDigit(c)
    ensures 0 <= d < 10
  {
    c as int - '0' as int
  }

  /** The value of a digit string read left to right, starting from `acc`. This is the
      order in which the parser consumes digits. */
  function Accumulate(acc: nat, s: string): nat
    requires AllDigits(s)
    decreases |s|
  {
    if s == [] then acc else Accumulate(acc * 10 + DigitValue(s[0]), s[1..])
  }

  /** Shortest decimal text of a natural number, no sign, no leading zeros. */
  function NatToText(n: nat): (s: string)
    ensures |s| > 0 && AllDigits(s)
    ensures s[0] == '0' ==> n == 0
  {
    if n < 10 then [DigitChar(n)] else NatToText(n / 10) + [DigitChar(n % 10)]
  }

  /** `format!("{}", v)` for an `i64`: a leading '-' for negatives, then the digits. */
  function I64ToText(v: int64): (s: string)
    ensures |s| > 0
    ensures forall i :: 0 <= i < |s| ==> IsDigit(s[i]) || (i == 0 && s[i] == '-')
    ensures s[0] == '-' <==> v < 0
  {
    if v < 0 then "-" + NatToText(-(v as int)) else NatToText(v)
  }

  /** The error kinds of Rust's `ParseIntError`. */
  datatype ParseIntError = Empty | InvalidDigit | PosOverflow | NegOverflow {
    /** The `Display` text of each kind. */
    function Message(): string {
      match this
      case Empty => "cannot parse integer from empty string"
      case InvalidDigit => "invalid digit found in string"
      case PosOverflow => "number too large to fit in target type"
      case NegOverflow => "number too small to fit in target type"
    }
  }

  /** The digit loop of `i64::from_str`. Rust accumulates a negative number downwards
      and checks each step against `i64::MIN`; accumulating the magnitude and checking
      it against `bound` (2^63 - 1 for '+', 2^63 for '-') fails at exactly the same
      digit. At each digit the "invalid digit" test comes before the overflow test. */
  function ScanDigits(s: string, magnitude: nat, bound: nat, overflow: ParseIntError): (r: Result<nat, ParseIntError>)
    requires magnitude <= bound
    ensures r.Ok? ==> magnitude <= r.value <= bound
    ensures r.Err? ==> r.error == InvalidDigit || r.error == overflow
    decreases |s|
  {
    if s == [] then Ok(magnitude)
    else if !IsDigit(s[0]) then Err(InvalidDigit)
    else
      var next := magnitude * 10 + DigitValue(s[0]);
      if next > bound then Err(overflow) else ScanDigits(s[1..], next, bound, overflow)
  }

  /** `s.parse::<i64>()`: an optional '+' or '-', then at least one ASCII digit. */
  function ParseI64(s: string): (r: Result<int64, ParseIntError>)
    ensures r.Err? && r.error == Empty <==> s == []
  {
    if s == [] then Err(Empty)
    else if (s[0] == '+' || s[0] == '-') && |s| == 1 then Err(InvalidDigit)
    else if s[0] == '-' then
      match ScanDigits(s[1..], 0, TWO_63, NegOverflow)
      case Ok(m) => var v: int64 := -(m as int); Ok(v)
      case Err(e) => Err(e)
    else
      var digits := if s[0] == '+' then s[1..] else s;
      match ScanDigits(digits, 0, TWO_63 - 1, PosOverflow)
      case Ok(m) => Ok(m)
      case Err(e) => Err(e)
  }

  // ----- properties -----

  lemma {:induction false} AccumulateAtLeast(acc: nat, s: string)
    requires AllDigits(s)
    ensures Accumulate(acc, s) >= acc
    decreases |s|
  {
    if s != [] {
      AccumulateAtLeast(acc * 10 + DigitValue(s[0]), s[1..]);
    }
  }

  lemma {:induction false} AccumulateSnoc(acc: nat, s: string, c: char)
    requires AllDigits(s) && IsDigit(c)
    ensures AllDigits(s + [c])
    ensures Accumulate(acc, s + [c]) == Accumulate(acc, s) * 10 + DigitValue(c)
    decreases |s|
  {
    if s == [] {
      assert [c][1..] == [];
    } else {
      assert (s + [c])[1..] == s[1..] + [c];
      AccumulateSnoc(acc * 10 + DigitValue(s[0]), s[1..], c);
    }
  }

  /** The digits of `NatToText(n)` read back give `n`. */
  lemma {:induction false} NatToTextValue(n: nat)
    ensures Accumulate(0, NatToText(n)) == n
  {
    if n < 10 {
      assert NatToText(n)[1..] == [];
    } else {
      NatToTextValue(n / 10);
      AccumulateSnoc(0, NatToText(n / 10), DigitChar(n % 10));
    }
  }

  /** The digit loop succeeds on a digit string whose value stays within the bound,
      and returns that value. */
  lemma {:induction false} ScanDigitsValue(s: string, magnitude: nat, bound: nat, overflow: ParseIntError)
    requires AllDigits(s) && magnitude <= bound && Accumulate(magnitude, s) <= bound
    ensures ScanDigits(s, magnitude, bound, overflow) == Ok(Accumulate(magnitude, s))
    decreases |s|
  {
    if s != [] {
      var next := magnitude * 10 + DigitValue(s[0]);
      AccumulateAtLeast(next, s[1..]);
      ScanDigitsValue(s[1..], next, bound, overflow);
    }
  }

  /** Round trip: parsing the text of any `i64` gives it back. */
  lemma ParseI64OfText(v: int64)
    ensures ParseI64(I64ToText(v)) == Ok(v)
  {
    var s := I64ToText(v);
    if v < 0 {
      var m: nat := -(v as int);
      var digits := NatToText(m);
      assert s == "-" + digits && s[1..] == digits;
      NatToTextValue(m);
      ScanDigitsValue(digits, 0, TWO_63, NegOverflow);
      assert ScanDigits(s[1..], 0, TWO_63, NegOverflow) == Ok(m);
    } else {
      var digits := NatToText(v);
      assert s == digits;
      NatToTextValue(v);
      ScanDigitsValue(digits, 0, TWO_63 - 1, PosOverflow);
      assert ScanDigits(s, 0, TWO_63 - 1, PosOverflow) == Ok(v as nat);
    }
  }

  /** Whatever the digit loop accepts is a digit string, read as its value. */
  lemma {:induction false} ScanDigitsSound(s: string, magnitude: nat, bound: nat, overflow: ParseIntError)
    requires magnitude <= bound
    ensures ScanDigits(s, magnitude, bound, overflow).Ok? ==>
      AllDigits(s) && ScanDigits(s, magnitude, bound, overflow).value == Accumulate(magnitude, s)
    decreases |s|
  {
    if s != [] && IsDigit(s[0]) {
      var next := magnitude * 10 + DigitValue(s[0]);
      if next <= bound {
        ScanDigitsSound(s[1..], next, bound, overflow);
        if ScanDigits(s, magnitude, bound, overflow).Ok? {
          assert s == [s[0]] + s[1..];
        }
      }
    }
  }

  /** A digit string whose value exceeds the bound fails with the overflow error. */
  lemma {:induction false} ScanDigitsOverflow(s: string, magnitude: nat, bound: nat, overflow: ParseIntError)
    requires magnitude <= bound && AllDigits(s) && Accumulate(magnitude, s) > bound
    ensures ScanDigits(s, magnitude, bound, overflow) == Err(overflow)
    decreases |s|
  {
    if s != [] {
      var next := magnitude * 10 + DigitValue(s[0]);
      if next <= bound {
        ScanDigitsOverflow(s[1..], next, bound, overflow);
      }
    }
  }

  /** The digits after an optional leading sign. */
  function Unsigned(s: string): string {
    if s != [] && (s[0] == '+' || s[0] == '-') then s[1..] else s
  }

  /** What `parse::<i64>` accepts and what it returns, for every text: an optional
      sign, then a nonempty digit string (leading zeros allowed) whose value fits;
      the value is that of the digits, negated after '-'. A digit string that does
      not fit fails with `PosOverflow`, or with `NegOverflow` after '-'. */
  lemma ParseI64Sound(s: string)
    ensures var digits, negative := Unsigned(s), s != [] && s[0] == '-';
      var bound := if negative then TWO_63 else TWO_63 - 1;
      && (ParseI64(s).Ok? <==> digits != [] && AllDigits(digits) && Accumulate(0, digits) <= bound)
      && (ParseI64(s).Ok? ==>
            ParseI64(s).value as int == if negative then -(Accumulate(0, digits) as int) else Accumulate(0, digits))
      && (digits != [] && AllDigits(digits) && Accumulate(0, digits) > bound ==>
            ParseI64(s) == Err(if negative then NegOverflow else PosOverflow))
  {
    if s != [] && !((s[0] == '+' || s[0] == '-') && |s| == 1) {
      var digits := Unsigned(s);
      var negative := s[0] == '-';
      var bound := if negative then TWO_63 else TWO_63 - 1;
      var overflow := if negative then NegOverflow else PosOverflow;
      ScanDigitsSound(digits, 0, bound, overflow);
      if AllDigits(digits) {
        if Accumulate(0, digits) <= bound {
          ScanDigitsValue(digits, 0, bound, overflow);
        } else {
          ScanDigitsOverflow(digits, 0, bound, overflow);
        }
      }
    }
  }

  /** Texts `Display` never writes are accepted too: a '+' sign and leading zeros. */
  lemma ParseI64NonCanonical()
    ensures ParseI64("+5") == Ok(5) && ParseI64("007") == Ok(7) && ParseI64("-0") == Ok(0)
  {
    ParseI64Sound("+5");
    ParseI64Sound("007");
    ParseI64Sound("-0");
    assert Unsigned("+5") == "5" && Unsigned("-0") == "0";
  }

  /** A character that is not a digit stops the digit loop with an error. */
  lemma {:induction false} ScanDigitsRejectsNonDigit(s: string, magnitude: nat, bound: nat, overflow: ParseIntError, k: nat)
    requires magnitude <= bound && k < |s| && !IsDigit(s[k])
    ensures ScanDigits(s, magnitude, bound, overflow).Err?
    decreases |s|
  {
    if IsDigit(s[0]) {
      var next := magnitude * 10 + DigitValue(s[0]);
      if next <= bound {
        ScanDigitsRejectsNonDigit(s[1..], next, bound, overflow, k - 1);
      }
    }
  }

  /** Only a leading sign may be other than a digit: any other character makes the
      parse fail (so a ':' inside the text is rejected). */
  lemma ParseI64RejectsNonDigit(s: string, k: nat)
    requires k < |s| && !IsDigit(s[k])
    requires k == 0 ==> s[0] != '+' && s[0] != '-'
    ensures ParseI64(s).Err?
    ensures ParseI64(s).error == InvalidDigit ||
            ParseI64(s).error == (if s[0] == '-' then NegOverflow else PosOverflow)
  {
    if s[0] == '-' || s[0] == '+' {
      if |s| > 1 {
        var bound := if s[0] == '-' then TWO_63 else TWO_63 - 1;
        var overflow := if s[0] == '-' then NegOverflow else PosOverflow;
        ScanDigitsRejectsNonDigit(s[1..], 0, bound, overflow, k - 1);
      }
    } else {
      ScanDigitsRejectsNonDigit(s, 0, TWO_63 - 1, PosOverflow, k);
    }
  }

  /** The digit loop stops at the first character that is not a digit with
      `InvalidDigit`, when the digits before it stay within the bound. */
  lemma {:induction false} ScanDigitsInvalidDigit(s: string, magnitude: nat, bound: nat, overflow: ParseIntError, k: nat)
    requires magnitude <= bound && k < |s| && !IsDigit(s[k])
    requires AllDigits(s[..k]) && Accumulate(magnitude, s[..k]) <= bound
    ensures ScanDigits(s, magnitude, bound, overflow) == Err(InvalidDigit)
    decreases k
  {
    if k > 0 {
      var next := magnitude * 10 + DigitValue(s[0]);
      assert s[..k][1..] == s[1..][..k - 1];
      AccumulateAtLeast(next, s[1..][..k - 1]);
      ScanDigitsInvalidDigit(s[1..], next, bound, overflow, k - 1);
    }
  }

  /** The digit loop fails with the overflow error as soon as the digits read so far
      exceed the bound, whatever follows them. */
  lemma {:induction false} ScanDigitsOverflowPrefix(s: string, magnitude: nat, bound: nat, overflow: ParseIntError, k: nat)
    requires magnitude <= bound && k <= |s|
    requires AllDigits(s[..k]) && Accumulate(magnitude, s[..k]) > bound
    ensures ScanDigits(s, magnitude, bound, overflow) == Err(overflow)
    decreases k
  {
    assert s[..k][0] == s[0];
    var next := magnitude * 10 + DigitValue(s[0]);
    if next <= bound {
      assert s[..k][1..] == s[1..][..k - 1];
      ScanDigitsOverflowPrefix(s[1..], next, bound, overflow, k - 1);
    }
  }

  /** A non-digit after the optional sign gives `InvalidDigit` when the digits before
      it fit in an `i64`. */
  lemma ParseI64InvalidDigit(s: string, k: nat)
    requires var digits := Unsigned(s);
      k < |digits| && !IsDigit(digits[k]) && AllDigits(digits[..k]) && Accumulate(0, digits[..k]) <= TWO_63 - 1
    ensures ParseI64(s) == Err(InvalidDigit)
  {
    var digits := Unsigned(s);
    var bound := if s[0] == '-' then TWO_63 else TWO_63 - 1;
    var overflow := if s[0] == '-' then NegOverflow else PosOverflow;
    ScanDigitsInvalidDigit(digits, 0, bound, overflow, k);
  }

  /** `InvalidDigit` is not reported for every text with a non-digit: when the digits
      before it already overflow (any number from 2^63 up, then 'x'), the overflow is
      reported instead. */
  lemma ParseI64OverflowBeforeNonDigit(n: nat)
    requires n >= TWO_63
    ensures var s := NatToText(n) + "x";
      !IsDigit(s[|s| - 1]) && ParseI64(s) == Err(PosOverflow)
  {
    var t := NatToText(n);
    var s := t + "x";
    NatToTextValue(n);
    assert s[..|t|] == t;
    assert s[0] == t[0];
    ScanDigitsOverflowPrefix(s, 0, TWO_63 - 1, PosOverflow, |t|);
  }
}
