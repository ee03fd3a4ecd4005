/** printf_int (libc/stdio/printf.c:11-34): decimal digits, most significant first, by a power of
    ten. */
module Printf {
  import opened Division
  import opened Numerals

  function Pow10(k: nat): nat {
    if k == 0 then 1 else 10 * Pow10(k - 1)
  }

  lemma {:induction false} Pow10Positive(k: nat)
    ensures Pow10(k) >= 1
  {
    if k > 0 {
      Pow10Positive(k - 1);
    }
  }

  /** The digits of `i` that the printing loop emits from the power 10^k down. */
  function HighFirst(i: nat, k: nat): string
    requires i < Pow10(k + 1)
  {
    Pow10Positive(k);
    if k == 0 then [DigitChar(i)]
    else
      HighDigit(i, k);
      [DigitChar(Quot(i, Pow10(k)))] + HighFirst(Rest(i, Pow10(k)), k - 1)
  }

  lemma HighDigit(i: nat, k: nat)
    requires i < Pow10(k + 1)
    ensures Pow10(k) >= 1 && Quot(i, Pow10(k)) <= 9
  {
    Pow10Positive(k);
    QuotRestProduct(i, Pow10(k));
    if Quot(i, Pow10(k)) > 9 {
      MulMonotone(10, Quot(i, Pow10(k)), Pow10(k));
    }
  }

  /** The same digits, with leading zeros, taken from the other end. */
  function Padded(i: nat, k: nat): string {
    if k == 0 then [DigitChar(Rest(i, 10))] else Padded(Quot(i, 10), k - 1) + [DigitChar(Rest(i, 10))]
  }

  lemma QuotRestUnique(n: nat, b: nat, q: nat, r: nat)
    requires n == q * b + r && r < b
    ensures Quot(n, b) == q && Rest(n, b) == r
  {
    DivUnique(n, b, q, r);
    QuotRest(n, b);
  }

  lemma Regroup(a: nat, r: nat, p: nat, q: nat, s: nat)
    requires a == q * p + s
    ensures a * 10 + r == q * (10 * p) + (s * 10 + r)
  {
    assert q * (10 * p) == 10 * (q * p);
  }

  /** Splitting off the first digit and the last digit commute. */
  lemma SplitDigits(i: nat, p: nat)
    requires p >= 1
    ensures Quot(i, 10 * p) == Quot(Quot(i, 10), p)
    ensures Quot(Rest(i, 10 * p), 10) == Rest(Quot(i, 10), p)
    ensures Rest(Rest(i, 10 * p), 10) == Rest(i, 10)
  {
    var a, r := Quot(i, 10), Rest(i, 10);
    var q, s := Quot(a, p), Rest(a, p);
    QuotRestProduct(i, 10);
    QuotRestProduct(a, p);
    Regroup(a, r, p, q, s);
    QuotRestUnique(i, 10 * p, q, s * 10 + r);
    QuotRestUnique(s * 10 + r, 10, s, r);
  }

  lemma PowerStep(i: nat, k: nat)
    requires i < Pow10(k + 1) && k > 0
    ensures Quot(i, 10) < Pow10(k)
    ensures Pow10(k) == 10 * Pow10(k - 1) && Pow10(k - 1) >= 1
  {
    Pow10Positive(k - 1);
    QuotRestProduct(i, 10);
  }

  /** The last digit emitted is the remainder by ten; those before it are the digits of the quotient. */
  lemma {:induction false} HighFirstAppend(i: nat, k: nat)
    requires i < Pow10(k + 1) && k > 0
    ensures Quot(i, 10) < Pow10(k)
    ensures HighFirst(i, k) == HighFirst(Quot(i, 10), k - 1) + [DigitChar(Rest(i, 10))]
  {
    PowerStep(i, k);
    SplitDigits(i, Pow10(k - 1));
    HighDigit(i, k);
    if k > 1 {
      HighDigit(Quot(i, 10), k - 1);
      HighFirstAppend(Rest(i, Pow10(k)), k - 1);
    }
  }

  /** Both orders give the same digits. */
  lemma {:induction false} HighFirstIsPadded(i: nat, k: nat)
    requires i < Pow10(k + 1)
    ensures HighFirst(i, k) == Padded(i, k)
  {
    if k > 0 {
      HighFirstAppend(i, k);
      HighFirstIsPadded(Quot(i, 10), k - 1);
    }
  }

  /** Without leading zeros the padded digits are the numeral. */
  lemma {:induction false} PaddedIsDigits(i: nat, k: nat)
    requires i < Pow10(k + 1) && (k > 0 ==> Pow10(k) <= i)
    ensures Padded(i, k) == Digits(i, 10)
  {
    QuotRestProduct(i, 10);
    if k > 0 {
      Pow10Positive(k - 1);
      PaddedIsDigits(Quot(i, 10), k - 1);
    }
  }

  /** The test `(i/f) > 0`. */
  method Reaches(i: nat, f: nat) returns (b: bool)
    requires f > 0
    ensures b <==> f <= i
  {
    b := i / f > 0;
    QuotRest(i, f);
  }

  /** The first loop: the largest power of ten that is at most `i`, or 1. C leaves the overflow of
      `f *= 10` undefined, which is reported by `defined`. */
  method FindPower(i: nat) returns (defined: bool, f: nat, ghost k: nat)
    requires i <= INT_MAX
    ensures defined <==> i < Pow10(9)
    ensures defined ==> f == Pow10(k) && i < Pow10(k + 1) && (k > 0 ==> Pow10(k) <= i)
  {
    f, k := 1, 0;
    var more := Reaches(i, f);
    while more
      invariant k <= 9 && f == Pow10(k) && f >= 1
      invariant more <==> f <= i
      invariant k > 0 ==> Pow10(k - 1) <= i
      decreases 9 - k
    {
      if 10 * f > INT_MAX {
        return false, f, k;
      }
      f := 10 * f;
      k := k + 1;
      more := Reaches(i, f);
    }
    f := f / 10;
    if f == 0 {
      f := 1;
    }
    k := if k > 0 then k - 1 else 0;
    defined := true;
  }

  /** The digits still to be emitted. */
  ghost function Remaining(i: nat, k: int): string
    requires -1 <= k && (k >= 0 ==> i < Pow10(k + 1))
  {
    if k < 0 then [] else HighFirst(i, k)
  }

  /** One round of the second loop: the first digit and what is left. */
  method FirstDigit(i: nat, f: nat, ghost k: nat) returns (d: nat, rest: nat)
    requires f == Pow10(k) > 0 && i < Pow10(k + 1)
    ensures d <= 9 && rest < Pow10(k)
    ensures Remaining(i, k) == [DigitChar(d)] + Remaining(rest, k - 1)
  {
    QuotRest(i, f);
    QuotRestProduct(i, f);
    HighDigit(i, k);
    d := i / f;
    rest := i - d * f;
  }

  lemma MoveOne(out: string, c: char, after: string)
    ensures out + ([c] + after) == (out + [c]) + after
  {}

  lemma NextPower(k: nat)
    ensures Pow10(k) / 10 == if k == 0 then 0 else Pow10(k - 1)
    ensures k > 0 ==> Pow10(k - 1) > 0
  {
    if k > 0 {
      Pow10Positive(k - 1);
    }
  }

  /** The second loop: emit the digits from the power 10^k down. */
  method EmitDigits(number: nat, power: nat, ghost exponent: nat) returns (out: string)
    requires power == Pow10(exponent) && number < Pow10(exponent + 1)
    ensures out == HighFirst(number, exponent)
  {
    var i: nat, f: nat := number, power;
    ghost var k: int := exponent;
    ghost var todo := HighFirst(number, exponent);
    out := [];
    Pow10Positive(exponent);
    while f > 0
      invariant -1 <= k && f == (if k < 0 then 0 else Pow10(k)) && (k >= 0 ==> i < Pow10(k + 1) && f > 0)
      invariant todo == Remaining(i, k) && out + todo == HighFirst(number, exponent)
      decreases k
    {
      var d;
      d, i := FirstDigit(i, f, k);
      MoveOne(out, DigitChar(d), Remaining(i, k - 1));
      out := out + [(48 + d) as char];
      NextPower(k);
      f := f / 10;
      k := k - 1;
      todo := Remaining(i, k);
    }
  }

  /** printf_int, with putchar appending to `out`. It is defined in C exactly for |i| < 10^9, and then
      prints what itoa(i, 10) writes. */
  method PrintfInt(number: int32) returns (defined: bool, out: string)
    ensures defined <==> -1_000_000_000 < number < 1_000_000_000
    ensures defined ==> out == Numeral(number, 10) == ItoaText(number, 10)
  {
    out := [];
    var i: int := number;
    if i < 0 {
      out := out + ['-'];
      if i == -INT_MAX - 1 {
        return false, out;
      }
      i := i * -1;
    }
    assert Pow10(9) == 1_000_000_000;
    var f;
    ghost var k;
    defined, f, k := FindPower(i);
    if defined {
      var digits := EmitDigits(i, f, k);
      out := out + digits;
      HighFirstIsPadded(i, k);
      PaddedIsDigits(i, k);
      ItoaIsNumeral(number, 10);
    }
  }
}
