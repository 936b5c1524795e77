/** Decimal text of integers: Go's `strconv.Itoa` and `strconv.Atoi`. */
module Decimal {
  import opened Bytes

  const ZERO: Byte := 48
  const MINUS: Byte := 45
  const PLUS: Byte := 43

  function Digits(n: nat): (s: Bytes)
    ensures s != [] && forall c :: c in s ==> IsDigit(c)
  {
    if n < 10 then [ZERO + n] else Digits(n / 10) + [ZERO + n % 10]
  }

  /** `strconv.Itoa`, and the other `strconv.Format*` calls in base ten. */
  function Itoa(n: int): (s: Bytes)
    ensures s != []
  {
    if n < 0 then [MINUS] + Digits(-n) else Digits(n)
  }

  predicate IsDigit(c: Byte) {
    ZERO <= c <= ZERO + 9
  }

  datatype Parsed = Number(n: int) | NotANumber

  function FromDigits(s: Bytes): Parsed
  {
    if s == [] then Number(0)
    else if !IsDigit(s[|s| - 1]) then NotANumber
    else match FromDigits(s[..|s| - 1])
      case NotANumber => NotANumber
      case Number(n) => Number(10 * n + (s[|s| - 1] - ZERO))
  }

  /** `strconv.Atoi`: an optional sign, then at least one digit, within the range of a 64-bit int. */
  function Atoi(s: Bytes): Parsed {
    var digits := if s != [] && s[0] in {PLUS, MINUS} then s[1..] else s;
    if digits == [] then NotANumber
    else match FromDigits(digits)
      case NotANumber => NotANumber
      case Number(n) =>
        var v := if s[0] == MINUS then -n else n;
        if -0x8000_0000_0000_0000 <= v < 0x8000_0000_0000_0000 then Number(v) else NotANumber
  }

  lemma {:induction false} DigitsRoundTrip(n: nat)
    ensures FromDigits(Digits(n)) == Number(n)
  {
    if n < 10 {
      assert Digits(n)[..0] == [];
    } else {
      DigitsRoundTrip(n / 10);
      assert Digits(n)[..|Digits(n)| - 1] == Digits(n / 10);
    }
  }

  lemma ItoaRoundTrip(n: int)
    ensures Atoi(Itoa(n)) == Number(n) <==> -0x8000_0000_0000_0000 <= n < 0x8000_0000_0000_0000
  {
    if n < 0 {
      DigitsRoundTrip(-n);
      assert Itoa(n)[1..] == Digits(-n);
    } else {
      DigitsRoundTrip(n);
      assert IsDigit(Digits(n)[0]);
    }
  }

  lemma {:induction false} LeadingZero(s: Bytes)
    ensures FromDigits([ZERO] + s) == FromDigits(s)
  {
    var z := [ZERO] + s;
    if s == [] {
      assert z[..0] == [];
    } else {
      assert z[..|z| - 1] == [ZERO] + s[..|s| - 1];
      LeadingZero(s[..|s| - 1]);
    }
  }

  lemma {:induction false} FromDigitsIff(s: Bytes)
    ensures FromDigits(s).Number? <==> forall c :: c in s ==> IsDigit(c)
  {
    if s != [] {
      FromDigitsIff(s[..|s| - 1]);
      assert s == s[..|s| - 1] + [s[|s| - 1]];
    }
  }

  /** Zeros may lead, and a sign may stand before them. */
  lemma AtoiForms(zeros: nat, n: int)
    requires 0 <= n < 0x8000_0000_0000_0000
    ensures var s := seq(zeros, _ => ZERO) + Digits(n);
            Atoi(s) == Atoi([PLUS] + s) == Number(n) && Atoi([MINUS] + s) == Number(-n)
  {
    hide Digits, FromDigits;
    var s := seq(zeros, _ => ZERO) + Digits(n);
    ZerosLead(zeros, n);
    assert Digits(n)[0] in Digits(n);
    assert s[0] == if zeros > 0 then ZERO else Digits(n)[0];
    assert ([PLUS] + s)[1..] == s == ([MINUS] + s)[1..];
  }

  lemma {:induction false} ZerosLead(zeros: nat, n: nat)
    ensures FromDigits(seq(zeros, _ => ZERO) + Digits(n)) == Number(n)
  {
    if zeros == 0 {
      DigitsRoundTrip(n);
      assert seq(0, _ => ZERO) + Digits(n) == Digits(n);
    } else {
      ZerosLead(zeros - 1, n);
      LeadingZero(seq(zeros - 1, _ => ZERO) + Digits(n));
      assert seq(zeros, _ => ZERO) + Digits(n) == [ZERO] + (seq(zeros - 1, _ => ZERO) + Digits(n));
    }
  }

  /** Only a sign, or none, and at least one digit make a number. */
  lemma AtoiReads(s: Bytes)
    requires Atoi(s).Number?
    ensures s != []
    ensures var digits := if s[0] == PLUS || s[0] == MINUS then s[1..] else s;
            digits != [] && forall c :: c in digits ==> IsDigit(c)
  {
    FromDigitsIff(s);
    FromDigitsIff(s[1..]);
  }
}
