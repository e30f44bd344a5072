/**
  Numbers in text, after lib/string.c: strtoul and strtol, and the number
  conversions of vsnprintf with all their flags.  A string ends at its last
  character; what lies behind reads as NUL.
 */
module Strings {
  import opened Arithmetic
  import opened Frames
  import opened Sequences

  const ULONG_MAX: nat := 0xFFFF_FFFF_FFFF_FFFF
  const LONG_MAX: nat := 0x7FFF_FFFF_FFFF_FFFF
  const LONG_MIN: int := -0x8000_0000_0000_0000
  const INT_MAX: nat := 0x7FFF_FFFF

  const NUL: char := 0 as char

  function At(s: string, i: nat): char {
    if i < |s| then s[i] else NUL
  }

  predicate IsSpace(c: char) {
    c == ' ' || c == '\t'
  }

  predicate IsDigit(c: char) {
    '0' <= c <= '9'
  }

  predicate IsXDigit(c: char) {
    IsDigit(c) || 'A' <= c <= 'F' || 'a' <= c <= 'f'
  }

  /** No base has this digit. */
  const NO_DIGIT: nat := INT_MAX + 1

  function DigitOf(c: char): nat {
    if IsDigit(c) then (c - '0') as nat
    else if 'A' <= c <= 'Z' then (c - 'A') as nat + 10
    else if 'a' <= c <= 'z' then (c - 'a') as nat + 10
    else NO_DIGIT
  }

  // ---- what a string says ----------------------------------------------

  function SkipSpace(s: string, i: nat): (j: nat)
    requires i <= |s|
    ensures i <= j <= |s|
    decreases |s| - i
  {
    if IsSpace(At(s, i)) then SkipSpace(s, i + 1) else i
  }

  /** The first place from `i` on that is no digit of the base. */
  function DigitsEnd(s: string, i: nat, base: nat): (j: nat)
    requires i <= |s| && base <= INT_MAX
    ensures i <= j <= |s|
    decreases |s| - i
  {
    if DigitOf(At(s, i)) < base then DigitsEnd(s, i + 1, base) else i
  }

  /** The value of the digits s[from..to]. */
  function Number(s: string, from: nat, to: nat, base: nat): nat
    requires from <= to <= |s|
  {
    if from == to then 0 else base * Number(s, from, to - 1, base) + DigitOf(s[to - 1])
  }

  /** Sign and base of a number, and where its digits start. */
  datatype Head = Head(neg: bool, base: nat, at: nat)

  predicate HexPrefix(s: string, i: nat, base: nat, strict: bool) {
    && (base == 0 || base == 16) && At(s, i) == '0' && (At(s, i + 1) == 'x' || At(s, i + 1) == 'X')
    && (strict ==> IsXDigit(At(s, i + 2)))
  }

  /** Where the number starts, behind its sign. */
  function SignEnd(s: string): (j: nat)
    ensures j <= |s|
  {
    var i := SkipSpace(s, 0);
    if At(s, i) == '-' || At(s, i) == '+' then i + 1 else i
  }

  /** The base of a number without the prefix "0x". */
  function PlainBase(s: string, base: nat): nat {
    if base != 0 then base else if At(s, SignEnd(s)) == '0' then 8 else 10
  }

  /** strtol is strict: it takes "0x" for a prefix only before a hexadecimal digit. */
  function HeadOf(s: string, base: nat, strict: bool): (h: Head)
    ensures h.at <= |s|
    ensures 1 <= h.base && (base <= INT_MAX ==> h.base <= INT_MAX) && (base != 1 && base <= 36 ==> 2 <= h.base <= 36)
  {
    var neg := At(s, SkipSpace(s, 0)) == '-';
    var j := SignEnd(s);
    if HexPrefix(s, j, base, strict) then Head(neg, 16, j + 2) else Head(neg, PlainBase(s, base), j)
  }

  function EndOf(s: string, h: Head): (j: nat)
    requires h.at <= |s| && h.base <= INT_MAX
    ensures h.at <= j <= |s|
  {
    DigitsEnd(s, h.at, h.base)
  }

  function ValueOf(s: string, h: Head): nat
    requires h.at <= |s| && h.base <= INT_MAX
  {
    Number(s, h.at, EndOf(s, h), h.base)
  }

  // ---- strtoul and strtol ----------------------------------------------

  /** The digits below cutoff * base + cutlim, as the guard of the loop decides it. */
  lemma Cutoff(limit: nat, base: nat, acc: nat, c: nat)
    requires c < base
    ensures acc > limit / base || (acc == limit / base && c > limit % base) <==> base * acc + c > limit
  {
    var q, r := limit / base, limit % base;
    assert limit == base * q + r;
    if acc > q {
      MulMono(base, q + 1, acc);
      assert base * (q + 1) == base * q + base;
    } else if acc < q {
      MulMono(base, acc + 1, q);
      assert base * (acc + 1) == base * acc + base;
    }
  }

  lemma MulMono(b: nat, x: nat, y: nat)
    requires x <= y
    ensures b * x <= b * y
  {
    assert b * y == b * x + b * (y - x);
  }

  /** The loop both share: the value of the digits, or that it is above the limit. */
  method Accumulate(s: string, at: nat, base: nat, limit: nat) returns (over: bool, acc: nat, end: nat)
    requires at <= |s| && 1 <= base <= INT_MAX
    ensures end == DigitsEnd(s, at, base)
    ensures over <==> Number(s, at, end, base) > limit
    ensures !over ==> acc == Number(s, at, end, base)
  {
    over, acc, end := false, 0, at;
    while DigitOf(At(s, end)) < base
      invariant at <= end <= |s| && DigitsEnd(s, at, base) == DigitsEnd(s, end, base)
      invariant over <==> Number(s, at, end, base) > limit
      invariant !over ==> acc == Number(s, at, end, base)
      decreases |s| - end
    {
      over, acc := NextDigit(s, at, end, base, limit, over, acc);
      end := end + 1;
    }
  }

  /** One round of it, with the limit split into cutoff and cutlim. */
  method NextDigit(s: string, ghost at: nat, end: nat, base: nat, limit: nat, over: bool, acc: nat)
    returns (over': bool, acc': nat)
    requires at <= end < |s| && DigitOf(s[end]) < base <= INT_MAX
    requires over <==> Number(s, at, end, base) > limit
    requires !over ==> acc == Number(s, at, end, base)
    ensures over' <==> Number(s, at, end + 1, base) > limit
    ensures !over' ==> acc' == Number(s, at, end + 1, base)
  {
    var c, cutoff, cutlim := DigitOf(s[end]), limit / base, limit % base;
    OneDigit(Number(s, at, end, base), Number(s, at, end + 1, base), base, limit, over, acc, c);
    if over || acc > cutoff || (acc == cutoff && c > cutlim) {
      over', acc' := true, acc;
    } else {
      over', acc' := false, base * acc + c;
    }
  }

  lemma OneDigit(n: nat, m: nat, base: nat, limit: nat, over: bool, acc: nat, c: nat)
    requires c < base && m == base * n + c && if over then n > limit else acc == n <= limit
    ensures over || acc > limit / base || (acc == limit / base && c > limit % base) <==> m > limit
    ensures !over ==> base * acc + c == m
  {
    if over {
      Larger(n, base, c, limit);
    } else {
      Cutoff(limit, base, acc, c);
    }
  }

  lemma Larger(n: nat, base: nat, c: nat, limit: nat)
    requires n > limit && base >= 1
    ensures base * n + c > limit
  {
    MulMono(n, 1, base);
  }

  /** Everything before the digits. */
  method ParseHead(s: string, base: nat, strict: bool) returns (h: Head)
    ensures h == HeadOf(s, base, strict)
  {
    var i := 0;
    while IsSpace(At(s, i))
      invariant i <= |s| && SkipSpace(s, 0) == SkipSpace(s, i)
      decreases |s| - i
    {
      i := i + 1;
    }
    var neg := false;
    if At(s, i) == '-' {
      neg, i := true, i + 1;
    } else if At(s, i) == '+' {
      i := i + 1;
    }
    h := Head(neg, base, i);
    if HexPrefix(s, i, base, strict) {
      h := Head(neg, 16, i + 2);
    }
    if h.base == 0 {
      h := h.(base := if At(s, i) == '0' then 8 else 10);
    }
  }

  function Saturated(neg: bool, n: nat): nat {
    if n > ULONG_MAX then ULONG_MAX else if neg then (ULONG_MAX + 1 - n) % (ULONG_MAX + 1) else n
  }

  function Clamped(neg: bool, n: nat): int {
    var v: int := n;
    if neg then (if v > -LONG_MIN then LONG_MIN else -v) else if v > LONG_MAX then LONG_MAX else v
  }

  /**
    strtoul: the value of the digits, or ULONG_MAX if it is larger; negated
    modulo 2^64 after a minus sign.  `end` is where the digits end, or 0 if
    there are none.  Any base will do; no digit is below a negative one.
   */
  method Strtoul(s: string, base: int) returns (value: nat, end: nat)
    requires base <= INT_MAX
    ensures base < 0 ==> value == 0 && end == 0
    ensures base >= 0 ==>
      var h := HeadOf(s, base, false);
      value == Saturated(h.neg, ValueOf(s, h)) && end == if EndOf(s, h) == h.at then 0 else EndOf(s, h)
  {
    if base < 0 {
      return 0, 0;
    }
    var over, acc, e;
    var h := ParseHead(s, base, false);
    over, acc, e := Accumulate(s, h.at, h.base, ULONG_MAX);
    if over {
      value := ULONG_MAX;
    } else if h.neg {
      value := (ULONG_MAX + 1 - acc) % (ULONG_MAX + 1);
    } else {
      value := acc;
    }
    end := if e == h.at then 0 else e;
  }

  /**
    strtol: the value of the digits with its sign, or the end of the range
    that it lies beyond.  Nothing is converted for a base that there is not.
   */
  method Strtol(s: string, base: int) returns (value: int, end: nat)
    ensures base < 0 || base == 1 || base > 36 ==> value == 0 && end == 0
    ensures base == 0 || 2 <= base <= 36 ==>
      var h := HeadOf(s, base, true);
      value == Clamped(h.neg, ValueOf(s, h)) && end == if EndOf(s, h) == h.at then 0 else EndOf(s, h)
    ensures LONG_MIN <= value <= LONG_MAX
  {
    if base < 0 {
      return 0, 0;
    }
    var over, acc, e;
    var h := ParseHead(s, base, true);
    if h.base < 2 || h.base > 36 {
      return 0, 0;
    }
    var limit := if h.neg then LONG_MAX + 1 else LONG_MAX;
    over, acc, e := Accumulate(s, h.at, h.base, limit);
    value := acc;
    if over {
      value := if h.neg then LONG_MIN else LONG_MAX;
    } else if h.neg {
      value := -value;
    }
    end := if e == h.at then 0 else e;
  }

  /** A digit of the base follows the sign. */
  predicate StartsNumber(s: string, base: nat) {
    DigitOf(At(s, SignEnd(s))) < PlainBase(s, base)
  }

  /** "0x" without a hexadecimal digit behind it. */
  predicate BarePrefix(s: string, base: nat) {
    HexPrefix(s, SignEnd(s), base, false) && !HexPrefix(s, SignEnd(s), base, true)
  }

  /**
    strtol converts something exactly if a digit follows the sign, as section
    7.22.1.4 of ISO C11 has it; strtoul misses the "0" of a bare "0x".
   */
  lemma Converts(s: string, base: nat)
    requires base == 0 || 2 <= base <= 36
    ensures var h := HeadOf(s, base, true); EndOf(s, h) > h.at <==> StartsNumber(s, base)
    ensures var h := HeadOf(s, base, false); EndOf(s, h) > h.at <==> StartsNumber(s, base) && !BarePrefix(s, base)
  {
    HexDigit(At(s, SignEnd(s) + 2));
  }

  lemma HexDigit(c: char)
    ensures IsXDigit(c) <==> DigitOf(c) < 16
  {
  }

  /** "0x" alone. */
  lemma BarePrefixMissed()
    ensures BarePrefix("0x", 0) && StartsNumber("0x", 0)
    ensures var h := HeadOf("0x", 0, false); EndOf("0x", h) == h.at
  {
    assert At("0x", 0) == '0' && At("0x", 1) == 'x' && At("0x", 2) == NUL;
    assert SkipSpace("0x", 0) == 0;
    Converts("0x", 0);
  }

  // ---- what does not matter for the value ------------------------------

  lemma {:induction false} DigitsShift(c: char, s: string, i: nat, base: nat)
    requires i <= |s| && base <= INT_MAX
    ensures DigitsEnd([c] + s, i + 1, base) == DigitsEnd(s, i, base) + 1
    decreases |s| - i
  {
    assert At([c] + s, i + 1) == At(s, i);
    if DigitOf(At(s, i)) < base {
      DigitsShift(c, s, i + 1, base);
    }
  }

  lemma {:induction false} NumberShift(c: char, s: string, from: nat, to: nat, base: nat)
    requires from <= to <= |s|
    ensures Number([c] + s, from + 1, to + 1, base) == Number(s, from, to, base)
  {
    if from < to {
      NumberShift(c, s, from, to - 1, base);
    }
  }

  lemma {:induction false} SpaceShift(c: char, s: string, i: nat)
    requires i <= |s|
    ensures SkipSpace([c] + s, i + 1) == SkipSpace(s, i) + 1
    decreases |s| - i
  {
    assert At([c] + s, i + 1) == At(s, i);
    if IsSpace(At(s, i)) {
      SpaceShift(c, s, i + 1);
    }
  }

  /** Read with one character more in front, the number is the same but for its sign. */
  ghost predicate SameNumber(c: char, s: string, base: nat, strict: bool, neg: bool)
    requires base <= INT_MAX
  {
    var h, h' := HeadOf(s, base, strict), HeadOf([c] + s, base, strict);
    h' == Head(neg, h.base, h.at + 1) && EndOf([c] + s, h') == EndOf(s, h) + 1 && ValueOf([c] + s, h') == ValueOf(s, h)
  }

  lemma FromSameHead(c: char, s: string, base: nat, strict: bool, neg: bool)
    requires base <= INT_MAX
    requires var h := HeadOf(s, base, strict); HeadOf([c] + s, base, strict) == Head(neg, h.base, h.at + 1)
    ensures SameNumber(c, s, base, strict, neg)
  {
    var h := HeadOf(s, base, strict);
    DigitsShift(c, s, h.at, h.base);
    NumberShift(c, s, h.at, EndOf(s, h), h.base);
  }

  lemma PrefixShift(c: char, s: string, i: nat, base: nat, strict: bool)
    ensures HexPrefix([c] + s, i + 1, base, strict) <==> HexPrefix(s, i, base, strict)
    ensures At([c] + s, i + 1) == At(s, i)
  {
    assert At([c] + s, i + 1) == At(s, i) && At([c] + s, i + 2) == At(s, i + 1) && At([c] + s, i + 3) == At(s, i + 2);
  }

  /** Spaces and tabs in front are skipped, and so is a plus sign; a minus sign only negates. */
  lemma FrontSkipped(c: char, s: string, base: nat, strict: bool)
    requires base <= INT_MAX
    ensures c == ' ' || c == '\t' ==> SameNumber(c, s, base, strict, HeadOf(s, base, strict).neg)
    ensures c in ['+', '-'] && At(s, 0) !in [' ', '\t', '+', '-'] ==> SameNumber(c, s, base, strict, c == '-')
  {
    var t := [c] + s;
    assert At(t, 0) == c;
    if c == ' ' || c == '\t' {
      SpaceShift(c, s, 0);
      PrefixShift(c, s, SkipSpace(s, 0), base, strict);
      PrefixShift(c, s, SignEnd(s), base, strict);
      FromSameHead(c, s, base, strict, HeadOf(s, base, strict).neg);
    } else if c in ['+', '-'] && At(s, 0) !in [' ', '\t', '+', '-'] {
      assert SkipSpace(t, 0) == 0 && SignEnd(t) == 1 && SignEnd(s) == 0;
      PrefixShift(c, s, 0, base, strict);
      FromSameHead(c, s, base, strict, c == '-');
    }
  }

  // ---- ksprintn --------------------------------------------------------

  function Quot(x: nat, m: nat): nat
    requires m > 0
  {
    x / m
  }

  function Rem(x: nat, m: nat): (r: nat)
    requires m > 0
    ensures r < m
  {
    x % m
  }

  /** hex2ascii_data, and toupper of it. */
  function DigitChar(d: nat, upper: bool): char
    requires d < 36
  {
    if d < 10 then '0' + d as char else (if upper then 'A' else 'a') + (d - 10) as char
  }

  function DigitsOf(num: nat, base: nat, upper: bool): (ds: string)
    requires 2 <= base <= 36
    ensures ds != []
  {
    if num < base then [DigitChar(num, upper)]
    else
      Quotient(num, base);
      DigitsOf(Quot(num, base), base, upper) + [DigitChar(Rem(num, base), upper)]
  }

  function Reversed(s: string): (r: string)
    ensures |r| == |s|
  {
    if s == [] then [] else [s[|s| - 1]] + Reversed(s[..|s| - 1])
  }

  lemma ReversedNext(s: string, c: char)
    ensures Reversed(s + [c]) == [c] + Reversed(s)
  {
    assert (s + [c])[..|s|] == s;
  }

  /** 64 digits are enough for 64 bits, so that nbuf[MAXNBUF] is. */
  lemma {:induction false} DigitsFit(num: nat, base: nat, upper: bool, k: nat)
    requires 2 <= base <= 36 && k >= 1 && num < Pow2(k)
    ensures |DigitsOf(num, base, upper)| <= k
  {
    if num >= base {
      Quotient(num, base);
      assert Pow2(k) == 2 * Pow2(k - 1);
      DigitsFit(Quot(num, base), base, upper, k - 1);
    }
  }

  lemma Quotient(num: nat, base: nat)
    requires base >= 2
    ensures num < base ==> Quot(num, base) == 0 && Rem(num, base) == num
    ensures num >= base ==> 1 <= Quot(num, base) <= num / 2
  {
    if num < base {
      DivisionUnique(num, base, 0, num);
    } else {
      QuotientHalves(num, base, Quot(num, base), Rem(num, base));
    }
  }

  lemma QuotientHalves(num: nat, base: nat, q: nat, r: nat)
    requires base >= 2 && num >= base && num == base * q + r && r < base
    ensures 1 <= q <= num / 2
  {
    MulMono(q, 2, base);
  }

  const MAXNBUF: nat := 65

  /** ksprintn: the digits, the last one first, behind the NUL at the start of the buffer. */
  method Ksprintn(num: nat, base: nat, upper: bool) returns (nbuf: string)
    requires num <= ULONG_MAX && 2 <= base <= 36
    ensures 1 + |nbuf| <= MAXNBUF && Reversed(nbuf) == DigitsOf(num, base, upper)
  {
    LastDigit(num, base, upper, "");
    nbuf := [DigitChar(Rem(num, base), upper)];
    var rest := Quot(num, base);
    while rest != 0
      invariant Written(rest, base, upper, nbuf) == DigitsOf(num, base, upper)
      decreases rest
    {
      LastDigit(rest, base, upper, nbuf);
      nbuf := nbuf + [DigitChar(Rem(rest, base), upper)];
      rest := Quot(rest, base);
    }
    WordDigits(num, base, upper);
  }

  /** The digits still to come, and those in the buffer. */
  ghost function Written(rest: nat, base: nat, upper: bool, nbuf: string): string
    requires 2 <= base <= 36
  {
    (if rest == 0 then "" else DigitsOf(rest, base, upper)) + Reversed(nbuf)
  }

  lemma LastDigit(rest: nat, base: nat, upper: bool, nbuf: string)
    requires 2 <= base <= 36
    ensures Written(Quot(rest, base), base, upper, nbuf + [DigitChar(Rem(rest, base), upper)])
         == DigitsOf(rest, base, upper) + Reversed(nbuf)
    ensures rest > 0 ==> Quot(rest, base) < rest
  {
    var c := DigitChar(Rem(rest, base), upper);
    FirstDigit(rest, base, upper);
    ReversedNext(nbuf, c);
    if Quot(rest, base) == 0 {
      assert "" + Reversed(nbuf + [c]) == [c] + Reversed(nbuf);
    } else {
      Assoc(DigitsOf(Quot(rest, base), base, upper), [c], Reversed(nbuf));
    }
  }

  lemma WordDigits(num: nat, base: nat, upper: bool)
    requires num <= ULONG_MAX && 2 <= base <= 36
    ensures |DigitsOf(num, base, upper)| <= 64
  {
    Pow2Of64();
    DigitsFit(num, base, upper, 64);
  }

  lemma FirstDigit(num: nat, base: nat, upper: bool)
    requires 2 <= base <= 36
    ensures Quot(num, base) == 0 ==> DigitsOf(num, base, upper) == [DigitChar(Rem(num, base), upper)]
    ensures Quot(num, base) != 0 ==>
      DigitsOf(num, base, upper) == DigitsOf(Quot(num, base), base, upper) + [DigitChar(Rem(num, base), upper)]
    ensures num > 0 ==> Quot(num, base) < num
  {
    Quotient(num, base);
  }

  lemma Pow2Of64()
    ensures Pow2(64) == ULONG_MAX + 1
  {
    assert Pow2(8) == 0x100;
    assert Pow2(16) == 0x1_0000;
    assert Pow2(24) == 0x100_0000;
    assert Pow2(32) == 0x1_0000_0000;
    assert Pow2(40) == 0x100_0000_0000;
    assert Pow2(48) == 0x1_0000_0000_0000;
    assert Pow2(56) == 0x100_0000_0000_0000;
    assert Pow2(64) == 0x1_0000_0000_0000_0000;
  }

  // ---- the number conversions of vsnprintf -----------------------------

  /** The flags of a conversion: `zero` is the padding character '0', `dwidth` the precision. */
  datatype Spec = Spec(base: nat, signed: bool, upper: bool, sharp: bool, ladjust: bool, zero: bool, width: int,
                       dwidth: int)

  function Repeat(c: char, n: int): (s: string)
    ensures |s| == if n > 0 then n else 0
    ensures forall i :: 0 <= i < |s| ==> s[i] == c
  {
    if n <= 0 then [] else Repeat(c, n - 1) + [c]
  }

  predicate Negative(num: nat, f: Spec) {
    f.signed && num > LONG_MAX
  }

  /** The argument without its sign; -(intmax_t)num of the least number is that number's own word. */
  function Magnitude(num: nat, f: Spec): nat
    requires num <= ULONG_MAX
  {
    if Negative(num, f) then ULONG_MAX + 1 - num else num
  }

  function Prefix(mag: nat, f: Spec): string {
    if !f.sharp || mag == 0 then "" else if f.base == 8 then "0" else if f.base == 16 then "0x" else ""
  }

  function Sign(neg: bool): string {
    if neg then "-" else ""
  }

  /** How many zeros stand before the digits, and how many spaces around the number. */
  function Zeros(digits: nat, tmp: nat, f: Spec): int {
    (if !f.ladjust && f.zero then f.width - tmp else f.dwidth) - digits
  }

  function Spaces(digits: nat, tmp: nat, f: Spec): int {
    var zeros := Zeros(digits, tmp, f);
    f.width - (tmp + digits + if zeros > 0 then zeros else 0)
  }

  /** What a conversion prints. */
  function NumberText(num: nat, f: Spec): string
    requires num <= ULONG_MAX && 2 <= f.base <= 36
  {
    var neg, mag := Negative(num, f), Magnitude(num, f);
    var ds, tmp := DigitsOf(mag, f.base, f.upper), |Prefix(mag, f)| + |Sign(neg)|;
    var zeros, spaces := Zeros(|ds|, tmp, f), Spaces(|ds|, tmp, f);
    Field(if f.ladjust then 0 else spaces, neg, Prefix(mag, f), Repeat('0', zeros) + ds,
          if f.ladjust then spaces else 0)
  }

  /** The same without the spaces behind it. */
  function UpToDigits(num: nat, f: Spec): string
    requires num <= ULONG_MAX && 2 <= f.base <= 36
  {
    var neg, mag := Negative(num, f), Magnitude(num, f);
    var ds, tmp := DigitsOf(mag, f.base, f.upper), |Prefix(mag, f)| + |Sign(neg)|;
    var zeros, spaces := Zeros(|ds|, tmp, f), Spaces(|ds|, tmp, f);
    Field(if f.ladjust then 0 else spaces, neg, Prefix(mag, f), Repeat('0', zeros) + ds, 0)
  }

  function Field(lead: int, neg: bool, prefix: string, body: string, tail: int): string {
    Repeat(' ', lead) + Sign(neg) + prefix + body + Repeat(' ', tail)
  }

  /** The output of vsnprintf: no more than `cap` bytes are ever written. */
  class Sink {
    const cap: nat
    var str: string
    var size: nat
    var retval: nat
    /** All characters handed to PCHAR. */
    ghost var text: string

    ghost predicate Valid()
      reads this
    {
      && retval == |text| && |str| + size == cap && |str| <= |text| && str == text[..|str|]
      && (|str| < |text| ==> size <= 1) && (cap > 0 ==> size > 0)
    }

    constructor (cap: nat)
      ensures Valid() && this.cap == cap && text == ""
    {
      this.cap, str, size, retval, text := cap, "", cap, 0, "";
    }

    /** PCHAR */
    method PChar(c: char)
      requires Valid()
      modifies this
      ensures Valid() && text == old(text) + [c]
    {
      if size >= 2 {
        str := str + [c];
        size := size - 1;
      }
      retval := retval + 1;
      text := text + [c];
    }

    method Pad(c: char, n: int)
      requires Valid()
      modifies this
      ensures Valid() && text == old(text) + Repeat(c, n)
    {
      var i := 0;
      while i < n
        invariant Valid() && 0 <= i && (i <= n || i == 0) && text == old(text) + Repeat(c, i)
      {
        PChar(c);
        i := i + 1;
      }
      assert n < 0 ==> Repeat(c, n) == Repeat(c, 0);
    }

    /** The end of the format: the string is closed if there is any room at all. */
    method Finish() returns (buffer: string)
      requires Valid()
      ensures |buffer| <= cap
      ensures cap == 0 ==> buffer == ""
      ensures 0 < cap <= |text| ==> buffer == text[..cap - 1] + [NUL]
      ensures cap > |text| ==> buffer == text + [NUL]
    {
      buffer := str;
      if size >= 1 {
        buffer := str + [NUL];
      }
    }

    /**
      The label `number` of vsnprintf.  It comes to an end exactly if the
      buffer has room for all up to the last digit, and for a NUL.
     */
    method PrintNumber(word: nat, f: Spec) returns (stuck: bool)
      requires Valid() && word <= ULONG_MAX && 2 <= f.base <= 36
      modifies this
      ensures Valid() && (stuck <==> |old(text)| + |UpToDigits(word, f)| >= cap)
      ensures !stuck ==> text == old(text) + NumberText(word, f)
    {
      var num, neg := word, false;
      if f.signed && num > LONG_MAX {
        neg, num := true, ULONG_MAX + 1 - num;
      }
      var nbuf := Ksprintn(num, f.base, f.upper);
      var width, dwidth := Layout(num, neg, |nbuf|, f);
      stuck := PrintParts(num, neg, nbuf, width, dwidth, f);
    }

    /** What it prints, piece by piece. */
    method PrintParts(num: nat, neg: bool, nbuf: string, width: int, dwidth: int, f: Spec) returns (stuck: bool)
      requires Valid() && nbuf != []
      modifies this
      ensures Valid()
      ensures stuck <==> |old(text)| + |Field(if f.ladjust then 0 else width, neg, Prefix(num, f),
                                             Repeat('0', dwidth) + Reversed(nbuf), 0)| >= cap
      ensures !stuck ==>
        text == old(text) + Field(if f.ladjust then 0 else width, neg, Prefix(num, f),
                                  Repeat('0', dwidth) + Reversed(nbuf), if f.ladjust then width else 0)
    {
      var lead, tail := if f.ladjust then 0 else width, if f.ladjust then width else 0;
      Pad(' ', lead);
      PrintSign(neg);
      PrintPrefix(num, f);
      Pad('0', dwidth);
      stuck := PrintBackwards(nbuf);
      if stuck {
        return;
      }
      Pad(' ', tail);
      Pieces(old(text), Repeat(' ', lead), Sign(neg), Prefix(num, f), Repeat('0', dwidth), Reversed(nbuf),
             Repeat(' ', tail));
    }

    method PrintSign(neg: bool)
      requires Valid()
      modifies this
      ensures Valid() && text == old(text) + Sign(neg)
    {
      if neg {
        PChar('-');
      }
    }

    method PrintPrefix(num: nat, f: Spec)
      requires Valid()
      modifies this
      ensures Valid() && text == old(text) + Prefix(num, f)
    {
      if f.sharp && num != 0 {
        if f.base == 8 {
          PChar('0');
        } else if f.base == 16 {
          PChar('0');
          PChar('x');
        }
      }
    }

    /**
      The digits.  PCHAR does not evaluate its argument without room for it,
      and so does not step over the digit either: the loop never ends.
     */
    method PrintBackwards(nbuf: string) returns (stuck: bool)
      requires Valid()
      modifies this
      ensures Valid()
      ensures stuck <==> nbuf != [] && |old(text)| + |nbuf| >= cap
      ensures !stuck ==> text == old(text) + Reversed(nbuf)
    {
      var p := |nbuf|;
      stuck := false;
      assert nbuf[..p] == nbuf;
      while p > 0
        invariant 0 <= p <= |nbuf| && Valid() && text + Reversed(nbuf[..p]) == old(text) + Reversed(nbuf)
        invariant |text| + p == |old(text)| + |nbuf| && (p < |nbuf| ==> |text| < cap)
      {
        if size < 2 {
          stuck := true;
          return;
        }
        assert nbuf[..p][..p - 1] == nbuf[..p - 1];
        PChar(nbuf[p - 1]);
        p := p - 1;
      }
    }
  }

  lemma Pieces(t: string, a: string, b: string, c: string, d: string, e: string, g: string)
    ensures t + a + b + c + d + e + g == t + (a + b + c + (d + e) + g)
  {
  }

  /** The arithmetic on width and precision. */
  method Layout(num: nat, neg: bool, n: nat, f: Spec) returns (width: int, dwidth: int)
    ensures var tmp := |Prefix(num, f)| + |Sign(neg)|; width == Spaces(n, tmp, f) && dwidth == Zeros(n, tmp, f)
  {
    var tmp := 0;
    width, dwidth := f.width, f.dwidth;
    if f.sharp && num != 0 {
      if f.base == 8 {
        tmp := tmp + 1;
      } else if f.base == 16 {
        tmp := tmp + 2;
      }
    }
    if neg {
      tmp := tmp + 1;
    }
    if !f.ladjust && f.zero {
      dwidth := width - tmp;
    }
    width := width - (tmp + if dwidth > n then dwidth else n);
    dwidth := dwidth - n;
  }

  // ---- printing and reading back ---------------------------------------

  lemma DigitRoundTrip(d: nat, upper: bool)
    requires d < 36
    ensures DigitOf(DigitChar(d, upper)) == d
  {
  }

  predicate AllDigits(s: string, base: nat) {
    forall i :: 0 <= i < |s| ==> DigitOf(s[i]) < base
  }

  /** The digits printed stand for the number. */
  lemma {:induction false} DigitsMean(num: nat, base: nat, upper: bool)
    requires 2 <= base <= 36
    ensures var ds := DigitsOf(num, base, upper); AllDigits(ds, base) && Number(ds, 0, |ds|, base) == num
  {
    FirstDigit(num, base, upper);
    DigitRoundTrip(Rem(num, base), upper);
    Quotient(num, base);
    if num < base {
      OneMore("", DigitChar(num, upper), 0, num, base);
    } else {
      DigitsMean(Quot(num, base), base, upper);
      OneMore(DigitsOf(Quot(num, base), base, upper), DigitChar(Rem(num, base), upper), Quot(num, base), num, base);
    }
  }

  lemma OneMore(front: string, c: char, q: nat, num: nat, base: nat)
    requires base >= 2 && AllDigits(front, base) && Number(front, 0, |front|, base) == q
    requires q == Quot(num, base) && DigitOf(c) == Rem(num, base)
    ensures AllDigits(front + [c], base) && Number(front + [c], 0, |front| + 1, base) == num
  {
    var ds := front + [c];
    NumberWithin(ds, 0, front, |front|, base);
    DivMod(num, base, q, DigitOf(c));
  }

  lemma DivMod(num: nat, base: nat, q: nat, r: nat)
    requires base > 0 && q == Quot(num, base) && r == Rem(num, base)
    ensures base * q + r == num && r < base
  {
  }

  /** A number has the same value wherever it stands. */
  lemma {:induction false} NumberWithin(s: string, at: nat, ds: string, n: nat, base: nat)
    requires n <= |ds| && at + n <= |s| && s[at..at + n] == ds[..n]
    ensures Number(s, at, at + n, base) == Number(ds, 0, n, base)
  {
    if n > 0 {
      assert s[at..at + n][..n - 1] == s[at..at + n - 1] && ds[..n][..n - 1] == ds[..n - 1];
      assert s[at..at + n][n - 1] == ds[..n][n - 1];
      NumberWithin(s, at, ds, n - 1, base);
    }
  }

  /** Leading zeros do not count. */
  lemma {:induction false} ZerosBefore(zs: string, ds: string, n: nat, base: nat)
    requires n <= |ds| && forall i :: 0 <= i < |zs| ==> zs[i] == '0'
    ensures Number(zs + ds, 0, |zs| + n, base) == Number(ds, 0, n, base)
  {
    if n > 0 {
      ZerosBefore(zs, ds, n - 1, base);
    } else {
      AllZero(zs + ds, |zs|, base);
    }
  }

  lemma {:induction false} AllZero(s: string, n: nat, base: nat)
    requires n <= |s| && forall i :: 0 <= i < n ==> s[i] == '0'
    ensures Number(s, 0, n, base) == 0
  {
    if n > 0 {
      AllZero(s, n - 1, base);
    }
  }

  /** The digits end where the body does. */
  lemma {:induction false} BodyEnds(s: string, at: nat, body: string, i: nat, base: nat)
    requires base <= 36 && AllDigits(body, base) && i <= |body| && at + |body| <= |s| && s[at..at + |body|] == body
    requires DigitOf(At(s, at + |body|)) >= base
    ensures DigitsEnd(s, at + i, base) == at + |body|
    decreases |body| - i
  {
    if i < |body| {
      assert s[at + i] == s[at..at + |body|][i];
      BodyEnds(s, at, body, i + 1, base);
    }
  }

  lemma {:induction false} SpacesSkipped(s: string, n: nat, i: nat)
    requires i <= n <= |s| && (forall k :: 0 <= k < n ==> s[k] == ' ') && !IsSpace(At(s, n))
    ensures SkipSpace(s, i) == n
    decreases n - i
  {
    if i < n {
      SpacesSkipped(s, n, i + 1);
    }
  }

  /**
    In `s` spaces reach up to `a`, sign and prefix up to `at`, and then comes
    the body, with a space or nothing behind.
   */
  ghost predicate Laid(s: string, a: nat, neg: bool, hex: bool, body: string, at: nat) {
    && at == a + (if neg then 1 else 0) + (if hex then 2 else 0) && at + |body| <= |s|
    && (forall k :: 0 <= k < a ==> s[k] == ' ')
    && (neg ==> s[a] == '-') && (hex ==> s[at - 2] == '0' && s[at - 1] == 'x')
    && s[at..at + |body|] == body && (At(s, at + |body|) == ' ' || At(s, at + |body|) == NUL)
  }

  function HexText(hex: bool): string {
    if hex then "0x" else ""
  }

  lemma FieldLaid(lead: int, neg: bool, hex: bool, body: string, tail: int) returns (a: nat, at: nat)
    ensures Laid(Field(lead, neg, HexText(hex), body, tail), a, neg, hex, body, at)
  {
    a := |Repeat(' ', lead)|;
    at := a + |Sign(neg)| + |HexText(hex)|;
  }

  /** Reading finds the sign, skips the prefix and comes to the body. */
  lemma HeadLaid(s: string, a: nat, neg: bool, hex: bool, body: string, at: nat, base: nat, strict: bool)
    requires Laid(s, a, neg, hex, body, at) && 2 <= base <= 36 && body != [] && AllDigits(body, base) &&
      (hex ==> base == 16)
    ensures HeadOf(s, base, strict) == Head(neg, base, at)
  {
    var j := if neg then a + 1 else a;
    assert At(s, at) == body[0] && (|body| > 1 ==> At(s, at + 1) == body[1]) by {
      assert s[at..at + |body|][0] == s[at] && (|body| > 1 ==> s[at..at + |body|][1] == s[at + 1]);
    }
    HexDigit(At(s, at));
    SpacesSkipped(s, a, 0);
    assert SignEnd(s) == j;
    assert HexPrefix(s, j, base, strict) <==> hex;
  }

  /** It stops behind the body, with the value of that. */
  lemma BodyLaid(s: string, a: nat, neg: bool, hex: bool, body: string, at: nat, base: nat)
    requires Laid(s, a, neg, hex, body, at) && 2 <= base <= 36 && AllDigits(body, base)
    ensures DigitsEnd(s, at, base) == at + |body| && Number(s, at, at + |body|, base) == Number(body, 0, |body|, base)
  {
    BodyStops(s, at, body, base);
    BodyValue(s, at, body, base);
  }

  lemma BodyStops(s: string, at: nat, body: string, base: nat)
    requires 2 <= base <= 36 && AllDigits(body, base) && at + |body| <= |s| && s[at..at + |body|] == body
    requires At(s, at + |body|) == ' ' || At(s, at + |body|) == NUL
    ensures DigitsEnd(s, at, base) == at + |body|
  {
    BodyEnds(s, at, body, 0, base);
  }

  lemma BodyValue(s: string, at: nat, body: string, base: nat)
    requires at + |body| <= |s| && s[at..at + |body|] == body
    ensures Number(s, at, at + |body|, base) == Number(body, 0, |body|, base)
  {
    assert body[..|body|] == body;
    NumberWithin(s, at, body, |body|, base);
  }

  lemma FieldRead(lead: int, neg: bool, hex: bool, body: string, tail: int, base: nat, strict: bool, mag: nat)
    requires 2 <= base <= 36 && Means(body, base, mag) && (hex ==> base == 16)
    ensures ReadsAs(Field(lead, neg, HexText(hex), body, tail), base, strict, neg, mag)
  {
    var s := Field(lead, neg, HexText(hex), body, tail);
    var a, at := FieldLaid(lead, neg, hex, body, tail);
    HeadLaid(s, a, neg, hex, body, at, base, strict);
    BodyLaid(s, a, neg, hex, body, at, base);
  }

  /** strtoul or strtol reads the string as this number. */
  ghost predicate ReadsAs(s: string, base: nat, strict: bool, neg: bool, value: nat)
    requires 2 <= base <= 36
  {
    var h := HeadOf(s, base, strict);
    h.neg == neg && h.base == base && EndOf(s, h) > h.at && ValueOf(s, h) == value
  }

  lemma OctalPrefix(lead: int, neg: bool, body: string, tail: int)
    ensures Field(lead, neg, "0", body, tail) == Field(lead, neg, "", "0" + body, tail)
  {
  }

  /** Whatever its flags, a printed number is read back with its sign and its digits. */
  lemma PrintedRead(num: nat, f: Spec, strict: bool)
    requires num <= ULONG_MAX && 2 <= f.base <= 36
    ensures ReadsAs(NumberText(num, f), f.base, strict, Negative(num, f), Magnitude(num, f))
  {
    var mag := Magnitude(num, f);
    var lead, zeros, tail := TextIsField(num, f);
    var zs, ds := Repeat('0', zeros), DigitsOf(mag, f.base, f.upper);
    DigitsMean(mag, f.base, f.upper);
    ZerosMean(zs, ds, f.base, mag);
    PartsRead(lead, Negative(num, f), Prefix(mag, f), zs + ds, tail, f.base, strict, mag, NumberText(num, f));
  }

  lemma TextIsField(num: nat, f: Spec) returns (lead: int, zeros: int, tail: int)
    requires num <= ULONG_MAX && 2 <= f.base <= 36
    ensures zeros == Padding(num, f)
    ensures var mag := Magnitude(num, f);
            NumberText(num, f) == Field(lead, Negative(num, f), Prefix(mag, f),
                                        Repeat('0', zeros) + DigitsOf(mag, f.base, f.upper), tail)
  {
    var mag := Magnitude(num, f);
    var n, tmp := |DigitsOf(mag, f.base, f.upper)|, |Prefix(mag, f)| + |Sign(Negative(num, f))|;
    zeros := Zeros(n, tmp, f);
    lead := if f.ladjust then 0 else Spaces(n, tmp, f);
    tail := if f.ladjust then Spaces(n, tmp, f) else 0;
  }

  /** These digits stand for this number. */
  ghost predicate Means(body: string, base: nat, mag: nat) {
    body != [] && AllDigits(body, base) && Number(body, 0, |body|, base) == mag
  }

  lemma ZerosMean(zs: string, ds: string, base: nat, mag: nat)
    requires base >= 2 && Means(ds, base, mag) && forall i :: 0 <= i < |zs| ==> zs[i] == '0'
    ensures Means(zs + ds, base, mag)
  {
    ZerosBefore(zs, ds, |ds|, base);
  }

  lemma PartsRead(lead: int, neg: bool, prefix: string, body: string, tail: int, base: nat, strict: bool, mag: nat,
                  text: string)
    requires 2 <= base <= 36 && Means(body, base, mag) && text == Field(lead, neg, prefix, body, tail)
    requires prefix == "" || prefix == "0" || (prefix == "0x" && base == 16)
    ensures ReadsAs(text, base, strict, neg, mag)
  {
    if prefix == "0" {
      OctalPrefix(lead, neg, body, tail);
      ZerosMean("0", body, base, mag);
      FieldRead(lead, neg, false, "0" + body, tail, base, strict, mag);
    } else {
      FieldRead(lead, neg, prefix == "0x", body, tail, base, strict, mag);
    }
  }

  // ---- reading back without being told the base ------------------------

  /** How many zeros a conversion puts before the digits. */
  function Padding(num: nat, f: Spec): int
    requires num <= ULONG_MAX && 2 <= f.base <= 36
  {
    var mag := Magnitude(num, f);
    Zeros(|DigitsOf(mag, f.base, f.upper)|, |Prefix(mag, f)| + |Sign(Negative(num, f))|, f)
  }

  /**
    The text shows its base: octal and hexadecimal numbers by their prefix,
    octal ones also by padding zeros, and decimal ones by having none.
   */
  predicate ShowsBase(num: nat, f: Spec)
    requires num <= ULONG_MAX && 2 <= f.base <= 36
  {
    || Magnitude(num, f) == 0
    || (f.sharp && (f.base == 8 || f.base == 16))
    || (f.base == 10 && Padding(num, f) <= 0)
    || (f.base == 8 && Padding(num, f) > 0)
  }

  /** With base 0 strtoul or strtol reads the string as this number. */
  ghost predicate ReadsPlain(s: string, strict: bool, neg: bool, value: nat) {
    var h := HeadOf(s, 0, strict);
    h.neg == neg && EndOf(s, h) > h.at && ValueOf(s, h) == value
  }

  /** A number starts with a zero only if it is one. */
  lemma {:induction false} FirstIsNoZero(num: nat, base: nat, upper: bool)
    requires 2 <= base <= 36 && num > 0
    ensures DigitsOf(num, base, upper)[0] != '0'
  {
    Quotient(num, base);
    if num >= base {
      FirstIsNoZero(Quot(num, base), base, upper);
    }
  }

  /** Without a prefix a first zero means octal, and any other first digit decimal. */
  lemma HeadPlain(s: string, a: nat, neg: bool, hex: bool, body: string, at: nat, base: nat, strict: bool)
    requires Laid(s, a, neg, hex, body, at) && body != [] && AllDigits(body, base)
    requires base == if hex then 16 else if body[0] == '0' then 8 else 10
    ensures HeadOf(s, 0, strict) == Head(neg, base, at)
  {
    var j := if neg then a + 1 else a;
    assert At(s, at) == body[0] && (|body| > 1 ==> At(s, at + 1) == body[1]) by {
      assert s[at..at + |body|][0] == s[at] && (|body| > 1 ==> s[at..at + |body|][1] == s[at + 1]);
    }
    HexDigit(At(s, at));
    SpacesSkipped(s, a, 0);
    assert SignEnd(s) == j;
    assert HexPrefix(s, j, 0, strict) <==> hex;
  }

  lemma FieldPlain(lead: int, neg: bool, hex: bool, body: string, tail: int, base: nat, strict: bool, mag: nat)
    requires Means(body, base, mag) && base == if hex then 16 else if body[0] == '0' then 8 else 10
    ensures ReadsPlain(Field(lead, neg, HexText(hex), body, tail), strict, neg, mag)
  {
    var s := Field(lead, neg, HexText(hex), body, tail);
    var a, at := FieldLaid(lead, neg, hex, body, tail);
    HeadPlain(s, a, neg, hex, body, at, base, strict);
    BodyLaid(s, a, neg, hex, body, at, base);
  }

  lemma PartsPlain(lead: int, neg: bool, prefix: string, body: string, tail: int, base: nat, strict: bool, mag: nat,
                   text: string)
    requires Means(body, base, mag) && text == Field(lead, neg, prefix, body, tail)
    requires prefix == "0x" ==> base == 16
    requires prefix == "0" ==> base == 8
    requires prefix == "" ==> base == if body[0] == '0' then 8 else 10
    requires prefix in {"", "0", "0x"}
    ensures ReadsPlain(text, strict, neg, mag)
  {
    if prefix == "0" {
      OctalPrefix(lead, neg, body, tail);
      ZerosMean("0", body, base, mag);
      FieldPlain(lead, neg, false, "0" + body, tail, base, strict, mag);
    } else {
      FieldPlain(lead, neg, prefix == "0x", body, tail, base, strict, mag);
    }
  }

  lemma ZeroMeans(zs: string, base: nat)
    requires zs != [] && base >= 1 && forall i :: 0 <= i < |zs| ==> zs[i] == '0'
    ensures Means(zs, base, 0)
  {
    AllZero(zs, |zs|, base);
  }

  /** A number whose text shows its base is read back without being told it. */
  lemma PrintedReadPlain(num: nat, f: Spec, strict: bool)
    requires num <= ULONG_MAX && 2 <= f.base <= 36 && ShowsBase(num, f)
    ensures ReadsPlain(NumberText(num, f), strict, Negative(num, f), Magnitude(num, f))
  {
    var mag := Magnitude(num, f);
    var lead, zeros, tail := TextIsField(num, f);
    var zs, ds := Repeat('0', zeros), DigitsOf(mag, f.base, f.upper);
    DigitsMean(mag, f.base, f.upper);
    ZerosMean(zs, ds, f.base, mag);
    if mag == 0 {
      assert ds == "0";
      ZeroMeans(zs + ds, 8);
      PartsPlain(lead, Negative(num, f), "", zs + ds, tail, 8, strict, mag, NumberText(num, f));
    } else {
      FirstIsNoZero(mag, f.base, f.upper);
      PartsPlain(lead, Negative(num, f), Prefix(mag, f), zs + ds, tail, f.base, strict, mag, NumberText(num, f));
    }
  }

  lemma FieldTail(num: nat, f: Spec)
    requires num <= ULONG_MAX && 2 <= f.base <= 36
    ensures |UpToDigits(num, f)| <= |NumberText(num, f)|
  {
  }

  /** printf("%d", 7) into one byte: there is no room for the digit, and the loop over the digits does not end. */
  method NoRoomForDigit(sink: Sink) returns (stuck: bool)
    requires sink.Valid() && sink.cap == 1 && sink.text == ""
    modifies sink
    ensures stuck
  {
    var f := Spec(10, true, false, false, false, false, 0, 0);
    assert DigitsOf(7, 10, false) == ['0' + 7 as char];
    assert UpToDigits(7, f) == "7";
    stuck := sink.PrintNumber(7, f);
  }

  /** The word that holds a long. */
  function WordOf(x: int): nat
    requires LONG_MIN <= x <= LONG_MAX
  {
    if x < 0 then x + ULONG_MAX + 1 else x
  }

  /** snprintf of a number into a buffer that is large enough. */
  method Print(word: nat, f: Spec, cap: nat) returns (text: string)
    requires word <= ULONG_MAX && 2 <= f.base <= 36 && cap > |NumberText(word, f)|
    ensures text == NumberText(word, f)
  {
    var sink := new Sink(cap);
    var stuck := sink.PrintNumber(word, f);
    FieldTail(word, f);
    var buffer := sink.Finish();
    text := buffer[..|buffer| - 1];
  }

  /** strtoul of an unsigned number printed with any flags; with base 0 if its text shows the base. */
  method PrintThenStrtoul(num: nat, f: Spec, base: nat, cap: nat) returns (value: nat)
    requires num <= ULONG_MAX && 2 <= f.base <= 36 && !f.signed && cap > |NumberText(num, f)|
    requires base == f.base || (base == 0 && ShowsBase(num, f))
    ensures value == num
  {
    var end;
    var text := Print(num, f, cap);
    if base == 0 {
      PrintedReadPlain(num, f, false);
    } else {
      PrintedRead(num, f, false);
    }
    value, end := Strtoul(text, base);
  }

  /** strtol of a signed number printed with any flags, the least one included; with base 0 likewise. */
  method PrintThenStrtol(x: int, f: Spec, base: nat, cap: nat) returns (value: int)
    requires LONG_MIN <= x <= LONG_MAX && 2 <= f.base <= 36 && f.signed && cap > |NumberText(WordOf(x), f)|
    requires base == f.base || (base == 0 && ShowsBase(WordOf(x), f))
    ensures value == x
  {
    var end;
    var text := Print(WordOf(x), f, cap);
    if base == 0 {
      PrintedReadPlain(WordOf(x), f, true);
    } else {
      PrintedRead(WordOf(x), f, true);
    }
    value, end := Strtol(text, base);
  }
}
