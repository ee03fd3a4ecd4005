/** Number printing in libc: numerals and itoa (libc/stdlib/itoa.c). */
module Numerals {
  import opened Common
  import opened Division

  const INT_MAX: int := 0x7FFF_FFFF
  type int32 = x: int | -INT_MAX - 1 <= x <= INT_MAX

  // ---------------------------------------------------------------- what a numeral means

  predicate Base(base: int) {
    2 <= base <= 36
  }

  function DigitChar(d: nat): char
    requires d < 36
  {
    if d > 9 then (d - 10 + 97) as char else (d + 48) as char
  }

  function DigitValue(c: char): Option<nat> {
    if '0' <= c <= '9' then Some(c as int - 48)
    else if 'a' <= c <= 'z' then Some(c as int - 97 + 10)
    else None
  }

  /** The value of a string of digits, or none if some character is not a digit of the base. */
  function ParseDigits(s: string, base: nat): Option<int> {
    if s == [] then Some(0)
    else
      match (ParseDigits(s[..|s| - 1], base), DigitValue(s[|s| - 1]))
      case (Some(v), Some(d)) => if d < base then Some(v * base + d) else None
      case _ => None
  }

  /** The value of a numeral with an optional sign. */
  function Parse(s: string, base: nat): Option<int> {
    if s == [] then None
    else if s[0] == '-' then
      match ParseDigits(s[1..], base)
      case Some(v) => if |s| > 1 then Some(-v) else None
      case None => None
    else ParseDigits(s, base)
  }

  /** The numeral of `n`, most significant digit first. */
  function Digits(n: nat, base: nat): (s: string)
    requires Base(base)
    ensures s != []
  {
    if n < base then [DigitChar(n)] else Digits(Quot(n, base), base) + [DigitChar(Rest(n, base))]
  }

  function Numeral(i: int, base: nat): string
    requires Base(base)
  {
    if i < 0 then "-" + Digits(-i, base) else Digits(i, base)
  }

  lemma DigitCharIs(d: nat)
    requires d < 36
    ensures DigitChar(d) == "0123456789abcdefghijklmnopqrstuvwxyz"[d]
  {}

  lemma DigitRoundTrip(d: nat)
    requires d < 36
    ensures DigitValue(DigitChar(d)) == Some(d)
  {}

  lemma ParseAppend(s: string, d: nat, base: nat, v: int)
    requires d < base <= 36 && ParseDigits(s, base) == Some(v)
    ensures ParseDigits(s + [DigitChar(d)], base) == Some(v * base + d)
  {
    DigitRoundTrip(d);
    assert (s + [DigitChar(d)])[..|s|] == s;
  }

  lemma {:induction false} DigitsParse(n: nat, base: nat)
    requires Base(base)
    ensures ParseDigits(Digits(n, base), base) == Some(n)
    ensures Digits(n, base)[0] != '-'
  {
    if n < base {
      ParseAppend([], n, base, 0);
      assert [] + [DigitChar(n)] == Digits(n, base);
    } else {
      DigitsParse(Quot(n, base), base);
      ParseAppend(Digits(Quot(n, base), base), Rest(n, base), base, Quot(n, base));
      QuotRestProduct(n, base);
    }
  }

  /** Every numeral parses back to its number. */
  lemma NumeralParses(i: int, base: nat)
    requires Base(base)
    ensures Parse(Numeral(i, base), base) == Some(i)
  {
    if i < 0 {
      DigitsParse(-i, base);
      assert Numeral(i, base)[1..] == Digits(-i, base);
    } else {
      DigitsParse(i, base);
    }
  }

  // ---------------------------------------------------------------- itoa

  /** C division truncates toward zero. */
  function CDiv(a: int, b: int): int
    requires b > 0
  {
    if a >= 0 then Quot(a, b) else 0 - Quot(-a, b)
  }

  function CRem(a: int, b: int): int
    requires b > 0
  {
    if a >= 0 then Rest(a, b) else 0 - Rest(-a, b)
  }

  /** The character itoa stores for a remainder; for a negative one it is not a digit. */
  function RemChar(r: int): char
    requires -36 < r < 36
  {
    if r > 9 then (r - 10 + 97) as char else (r + 48) as char
  }

  /** The characters itoa produces, least significant first. */
  function LowFirst(num: int, base: nat): string
    requires Base(base)
    decreases if num < 0 then -num else num
  {
    if num == 0 then []
    else [RemChar(CRem(num, base))] + LowFirst(CDiv(num, base), base)
  }

  function Mirror(s: string): (r: string)
    ensures |r| == |s| && forall k :: 0 <= k < |s| ==> r[k] == s[|s| - 1 - k]
  {
    seq(|s|, k requires 0 <= k < |s| => s[|s| - 1 - k])
  }

  /** What itoa stores before it reverses the buffer. */
  function Stored(num: int, base: nat): string
    requires Base(base)
  {
    if num < 0 && base == 10 then LowFirst(-num, base) + "-" else LowFirst(num, base)
  }

  /** The string itoa leaves in the buffer. */
  function ItoaText(num: int, base: nat): string
    requires Base(base)
  {
    if num == 0 then "0" else Mirror(Stored(num, base))
  }

  lemma MirrorPrepend(c: char, s: string)
    ensures Mirror([c] + s) == Mirror(s) + [c]
  {}

  lemma MirrorAppend(s: string, c: char)
    ensures Mirror(s + [c]) == [c] + Mirror(s)
  {}

  lemma {:induction false} LowFirstMirrors(n: nat, base: nat)
    requires Base(base) && n > 0
    ensures Mirror(LowFirst(n, base)) == Digits(n, base)
  {
    var q, c := Quot(n, base), DigitChar(Rest(n, base));
    MirrorPrepend(c, LowFirst(q, base));
    if n < base {
      assert Mirror([]) + [c] == [c];
    } else {
      LowFirstMirrors(q, base);
    }
  }

  /** itoa writes the numeral of every non-negative number, and in base 10 of every negative one. */
  lemma ItoaIsNumeral(num: int, base: nat)
    requires Base(base) && (num >= 0 || base == 10)
    ensures ItoaText(num, base) == Numeral(num, base)
  {
    if num > 0 {
      LowFirstMirrors(num, base);
    } else if num < 0 {
      LowFirstMirrors(-num, base);
      MirrorAppend(LowFirst(-num, base), '-');
    }
  }

  /** Of a negative number, itoa stores no character above '0'. */
  lemma {:induction false} NegativeLowChars(num: int, base: nat)
    requires Base(base) && num <= 0
    ensures forall c :: c in LowFirst(num, base) ==> c <= '0'
    decreases -num
  {
    if num < 0 {
      NegativeLowChars(CDiv(num, base), base);
    }
  }

  lemma {:induction false} LowCharsParse(s: string, base: nat)
    requires forall c :: c in s ==> c <= '0'
    ensures ParseDigits(s, base) == None || ParseDigits(s, base) == Some(0)
  {
    if s != [] {
      var t, c := s[..|s| - 1], s[|s| - 1];
      assert forall c :: c in t ==> c in s;
      LowCharsParse(t, base);
      assert c in s;
      assert DigitValue(c) == None || DigitValue(c) == Some(0);
    }
  }

  /** itoa's string parses back to its argument exactly for the non-negative numbers and, in base 10, the
      negative ones above the least int, whose negation C leaves undefined. For other negative numbers the
      source says they are considered unsigned; the code stores characters that are no digits. */
  lemma ItoaRoundTrip(num: int32, base: nat)
    requires Base(base) && (base == 10 ==> num >= -INT_MAX)
    ensures Parse(ItoaText(num, base), base) == Some(num) <==> num >= 0 || base == 10
  {
    if num >= 0 || base == 10 {
      ItoaIsNumeral(num, base);
      NumeralParses(num, base);
    } else {
      var s := ItoaText(num, base);
      NegativeLowChars(num, base);
      assert forall c :: c in s ==> c in LowFirst(num, base);
      LowCharsParse(s, base);
      if s != [] {
        assert forall c :: c in s[1..] ==> c in s;
        LowCharsParse(s[1..], base);
      }
    }
  }

  /** The characters of -n are as far below '0' as the digits of n are above it. */
  ghost predicate Below(s: string, t: string) {
    |s| == |t| && forall k :: 0 <= k < |s| ==>
      DigitValue(t[k]).Some? && DigitValue(t[k]).value <= 48 && s[k] == (48 - DigitValue(t[k]).value) as char
  }

  lemma {:induction false} LowFirstNegative(n: nat, base: nat)
    requires Base(base)
    ensures Below(LowFirst(0 - n, base), LowFirst(n, base))
  {
    if n > 0 {
      LowFirstNegative(Quot(n, base), base);
      DigitRoundTrip(Rest(n, base));
    }
  }

  lemma BelowMirrored(s: string, t: string)
    requires Below(s, t)
    ensures Below(Mirror(s), Mirror(t))
  {}

  /** What itoa writes of a negative number in a base other than 10. */
  lemma NegativeText(num: int, base: nat)
    requires Base(base) && -INT_MAX - 1 <= num < 0 && base != 10
    ensures Below(ItoaText(num, base), Digits(-num, base))
  {
    LowFirstNegative(-num, base);
    BelowMirrored(LowFirst(num, base), LowFirst(-num, base));
    LowFirstMirrors(-num, base);
  }

  lemma MinusOneInHex()
    ensures ItoaText(-1, 16) == "/"
  {
    assert LowFirst(-1, 16) == ['/'];
  }

  /** reverse: swap in place from both ends. */
  method ReverseInPlace(str: array<char>, length: nat)
    requires length <= str.Length
    modifies str
    ensures str[..length] == Mirror(old(str[..length]))
    ensures forall k :: length <= k < str.Length ==> str[k] == old(str[k])
  {
    var start, end := 0, length - 1;
    while start < end
      invariant 0 <= start && end == length - 1 - start && start <= end + 2
      invariant forall k :: 0 <= k < str.Length ==>
                  str[k] == if k < start || end < k < length then old(str[length - 1 - k]) else old(str[k])
    {
      var c := str[start];
      str[start] := str[end];
      str[end] := c;
      start := start + 1;
      end := end - 1;
    }
  }

  /** The remainder and quotient that one round of the digit loop computes. */
  method DivRem(num: int, base: nat) returns (rem: int, quot: int)
    requires Base(base) && num != 0
    ensures -36 < rem < 36 && LowFirst(num, base) == [RemChar(rem)] + LowFirst(quot, base)
    ensures if num > 0 then 0 <= quot < num else num < quot <= 0
  {
    // the operators of C: both round toward zero
    rem := if num >= 0 then num % base else -(-num % base);
    quot := if num >= 0 then num / base else -(-num / base);
    QuotRest(if num >= 0 then num else -num, base);
  }

  /** The digit loop of itoa: store the remainders from index 0 on. */
  method StoreRemainders(num: int, str: array<char>, base: nat) returns (i: nat)
    requires Base(base) && |LowFirst(num, base)| <= str.Length
    modifies str
    ensures i == |LowFirst(num, base)| <= str.Length
    ensures forall k :: 0 <= k < i ==> str[k] == LowFirst(num, base)[k]
    ensures forall k :: i <= k < str.Length ==> str[k] == old(str[k])
  {
    i := 0;
    var n := num;
    ghost var low := LowFirst(num, base);
    while n != 0
      invariant i <= |low| <= str.Length && LowFirst(n, base) == low[i..]
      invariant forall k :: 0 <= k < i ==> str[k] == low[k]
      invariant forall k :: i <= k < str.Length ==> str[k] == old(str[k])
      decreases if n < 0 then -n else n
    {
      var rem, quot := DivRem(n, base);
      RestOf(low, i, RemChar(rem), LowFirst(quot, base));
      str[i] := if rem > 9 then (rem - 10 + 'a' as int) as char else (rem + '0' as int) as char;
      i := i + 1;
      n := quot;
    }
  }

  lemma RestOf(low: string, i: nat, c: char, rest: string)
    requires i <= |low| && low[i..] == [c] + rest
    ensures i < |low| && low[i] == c && low[i + 1..] == rest
  {
    assert low[i] == low[i..][0];
    assert low[i..][1..] == low[i + 1..];
  }

  /** The digits and the sign. */
  method StoreAll(num: int, str: array<char>, base: nat) returns (i: nat)
    requires Base(base) && |Stored(num, base)| <= str.Length
    modifies str
    ensures i == |Stored(num, base)| <= str.Length
    ensures forall k :: 0 <= k < i ==> str[k] == Stored(num, base)[k]
    ensures forall k :: i <= k < str.Length ==> str[k] == old(str[k])
  {
    if num < 0 && base == 10 {
      i := StoreRemainders(-num, str, base);
      str[i] := '-';
      i := i + 1;
    } else {
      i := StoreRemainders(num, str, base);
    }
  }

  /** itoa. Negating the least int is undefined in C, so base 10 excludes it. */
  method Itoa(num: int32, str: array<char>, base: nat)
    requires Base(base) && (base == 10 ==> num >= -INT_MAX)
    requires |ItoaText(num, base)| < str.Length
    modifies str
    ensures var n := |ItoaText(num, base)|;
            && str[..n] == ItoaText(num, base) && str[n] == '\0'
            && forall k :: n < k < str.Length ==> str[k] == old(str[k])
  {
    if num == 0 {
      str[0] := '0';
      str[1] := '\0';
    } else {
      var i := StoreAll(num, str, base);
      str[i] := '\0';
      assert str[..i] == Stored(num, base);
      ReverseInPlace(str, i);
    }
  }
}
