/**
  The bit tricks of include/lib.h behind the slab sizes: next_power_of_two
  on 32-bit words, and log2.
 */
module Bits {
  import opened Frames

  /** A machine word, lowest bit first. */
  type Word = seq<bool>

  function BitsOf(n: nat, width: nat): (w: Word)
    ensures |w| == width
    decreases width, n
  {
    if width == 0 then [] else [n % 2 == 1] + BitsOf(n / 2, width - 1)
  }

  function Value(w: Word): nat {
    if w == [] then 0 else (if w[0] then 1 else 0) + 2 * Value(w[1..])
  }

  /** n |= n >> k */
  function Smear(w: Word, k: nat): (r: Word)
    ensures |r| == |w|
  {
    seq(|w|, i requires 0 <= i < |w| => w[i] || (i + k < |w| && w[i + k]))
  }

  function Fill(w: Word): (r: Word)
    ensures |r| == |w|
  {
    Smear(Smear(Smear(Smear(Smear(w, 1), 2), 4), 8), 16)
  }

  /** next_power_of_two, in 32 bits. */
  function NextPowerOfTwo(n: nat): nat {
    Filled32(BitsOf((n - 1) % 0x1_0000_0000, 32))
  }

  /** The word filled below its highest bit, plus 1. */
  function Filled32(w: Word): nat {
    (Value(Fill(w)) + 1) % 0x1_0000_0000
  }

  /** 31 - __builtin_clz(value), and 0 for 0. */
  function Log2(value: nat): nat {
    if value <= 1 then 0 else 1 + Log2(value / 2)
  }

  // ---- words and numbers -----------------------------------------------

  lemma {:induction false} ValueOfBits(n: nat, width: nat)
    requires n < Pow2(width)
    ensures Value(BitsOf(n, width)) == n
  {
    if width > 0 {
      ValueOfBits(n / 2, width - 1);
    }
  }

  /** The highest set bit is `h`. */
  predicate Top(w: Word, h: nat) {
    h < |w| && w[h] && forall j :: h < j < |w| ==> !w[j]
  }

  lemma {:induction false} TopOf(w: Word) returns (h: nat)
    requires Value(w) >= 1
    ensures Top(w, h)
  {
    if Value(w[1..]) >= 1 {
      h := TopOf(w[1..]);
      h := h + 1;
      assert forall j :: h < j < |w| ==> w[j] == w[1..][j - 1];
    } else {
      h := 0;
      ZeroValue(w[1..]);
      assert forall j :: 0 < j < |w| ==> w[j] == w[1..][j - 1];
    }
  }

  lemma {:induction false} ZeroValue(w: Word)
    ensures Value(w) == 0 <==> forall j :: 0 <= j < |w| ==> !w[j]
  {
    if w != [] {
      ZeroValue(w[1..]);
      assert forall j :: 0 < j < |w| ==> w[j] == w[1..][j - 1];
    }
  }

  /** The top bit tells the value up to a factor of two, and all of it if the bits below are set. */
  lemma {:induction false} ValueByTop(w: Word, h: nat)
    requires Top(w, h)
    ensures Pow2(h) <= Value(w) < 2 * Pow2(h)
    ensures (forall j :: 0 <= j <= h ==> w[j]) ==> Value(w) == 2 * Pow2(h) - 1
  {
    var rest := w[1..];
    if h == 0 {
      ZeroValue(rest);
    } else {
      assert Top(rest, h - 1) && (forall j :: 0 < j < |w| ==> w[j] == rest[j - 1]);
      ValueByTop(rest, h - 1);
      if forall j :: 0 <= j <= h ==> w[j] {
        assert forall j :: 0 <= j <= h - 1 ==> rest[j] == w[j + 1];
      }
    }
  }

  // ---- next_power_of_two -----------------------------------------------

  /** The `n` bits from bit `h` down are set. */
  predicate Ones(w: Word, h: nat, n: nat) {
    h < |w| && forall j :: 0 <= j <= h < j + n ==> w[j]
  }

  /** Once `n` bits from the top down are set, n |= n >> n sets twice as many. */
  lemma SmearDoubles(w: Word, h: nat, n: nat)
    requires Top(w, h) && Ones(w, h, n) && n >= 1
    ensures Top(Smear(w, n), h) && Ones(Smear(w, n), h, 2 * n)
  {
  }

  /** The five steps set all bits below the top one. */
  lemma Filled(w: Word, h: nat)
    requires |w| == 32 && Top(w, h)
    ensures Value(Fill(w)) == 2 * Pow2(h) - 1
  {
    SmearDoubles(w, h, 1);
    SmearDoubles(Smear(w, 1), h, 2);
    SmearDoubles(Smear(Smear(w, 1), 2), h, 4);
    SmearDoubles(Smear(Smear(Smear(w, 1), 2), 4), h, 8);
    SmearDoubles(Smear(Smear(Smear(Smear(w, 1), 2), 4), 8), h, 16);
    ValueByTop(Fill(w), h);
  }

  lemma Pow2Of32()
    ensures Pow2(32) == 0x1_0000_0000 && Pow2(31) == 0x8000_0000
  {
    assert Pow2(8) == 256;
    assert Pow2(16) == 65536;
    assert Pow2(24) == 0x100_0000;
    assert Pow2(32) == 0x1_0000_0000;
  }

  /** `p` is the least power of two that is not below `n`. */
  ghost predicate RoundsUpTo(n: nat, p: nat, k: nat) {
    p == Pow2(k) && n <= p && p < 2 * n
  }

  /** What the last increment makes of the filled word. */
  lemma Wraps(n: nat, m: nat, h: nat, v: nat)
    requires n < 0x1_0000_0000 && n != 1 && m == (n - 1) % 0x1_0000_0000
    requires Pow2(h) <= m < 2 * Pow2(h) == v + 1
    ensures 1 <= n <= 0x8000_0000 ==> h <= 30 && RoundsUpTo(n, (v + 1) % 0x1_0000_0000, h + 1)
    ensures n == 0 || n > 0x8000_0000 ==> (v + 1) % 0x1_0000_0000 == 0
  {
    Pow2Of32();
    if h >= 32 {
      Pow2Monotonic(32, h);
    } else if h == 31 {
      assert v + 1 == 0x1_0000_0000;
    } else {
      Pow2Monotonic(h + 1, 31);
      assert v + 1 == Pow2(h + 1) <= 0x8000_0000;
    }
  }

  /**
    next_power_of_two gives the least power of two not below its argument,
    up to 2^31; at 0 and above 2^31 it wraps to 0.
   */
  lemma RoundUp(n: nat) returns (k: nat)
    requires n < 0x1_0000_0000
    ensures 1 <= n <= 0x8000_0000 ==> k <= 31 && RoundsUpTo(n, NextPowerOfTwo(n), k)
    ensures n == 0 || n > 0x8000_0000 ==> NextPowerOfTwo(n) == 0
  {
    var m := (n - 1) % 0x1_0000_0000;
    WordOf(m);
    var w := BitsOf(m, 32);
    k := RoundUpWord(n, w, m, Value(Fill(w)));
  }

  lemma WordOf(m: nat)
    requires m < 0x1_0000_0000
    ensures Value(BitsOf(m, 32)) == m
  {
    Pow2Of32();
    ValueOfBits(m, 32);
  }

  lemma RoundUpWord(n: nat, w: Word, m: nat, v: nat) returns (k: nat)
    requires n < 0x1_0000_0000 && |w| == 32 && m == Value(w) == (n - 1) % 0x1_0000_0000 && v == Value(Fill(w))
    ensures 1 <= n <= 0x8000_0000 ==> k <= 31 && RoundsUpTo(n, (v + 1) % 0x1_0000_0000, k)
    ensures n == 0 || n > 0x8000_0000 ==> (v + 1) % 0x1_0000_0000 == 0
  {
    if n == 1 {
      FillZero(w, v);
      k := 0;
    } else {
      k := RoundUpMore(n, w, m, v);
    }
  }

  lemma RoundUpMore(n: nat, w: Word, m: nat, v: nat) returns (k: nat)
    requires n < 0x1_0000_0000 && n != 1 && |w| == 32 && m == Value(w) == (n - 1) % 0x1_0000_0000 && v == Value(Fill(w))
    ensures 1 <= n <= 0x8000_0000 ==> k <= 31 && RoundsUpTo(n, (v + 1) % 0x1_0000_0000, k)
    ensures n == 0 || n > 0x8000_0000 ==> (v + 1) % 0x1_0000_0000 == 0
  {
    var h := TopOf(w);
    k := h + 1;
    FilledWord(w, h);
    Wraps(n, m, h, v);
  }

  lemma FilledWord(w: Word, h: nat)
    requires |w| == 32 && Top(w, h)
    ensures Value(Fill(w)) + 1 == 2 * Pow2(h) && Pow2(h) <= Value(w) < 2 * Pow2(h)
  {
    Filled(w, h);
    ValueByTop(w, h);
  }

  lemma SmearZero(w: Word, k: nat)
    requires forall j :: 0 <= j < |w| ==> !w[j]
    ensures Smear(w, k) == w
  {
  }

  lemma FillZero(w: Word, v: nat)
    requires Value(w) == 0 && v == Value(Fill(w))
    ensures v == 0
  {
    ZeroValue(w);
    SmearZero(w, 1);
    SmearZero(w, 2);
    SmearZero(w, 4);
    SmearZero(w, 8);
    SmearZero(w, 16);
    assert Fill(w) == w;
  }

  /** log2 of a power of two is its exponent. */
  lemma {:induction false} LogOfPow2(k: nat)
    ensures Log2(Pow2(k)) == k
  {
    if k > 0 {
      LogOfPow2(k - 1);
    }
  }

  /** w & v is 0 */
  predicate NoCommonBit(w: Word, v: Word)
    requires |w| == |v|
  {
    forall j :: 0 <= j < |w| ==> !(w[j] && v[j])
  }

  /** n & (n - 1) is 0 exactly for the powers of two. */
  lemma {:induction false} PowerTest(n: nat, width: nat)
    requires 1 <= n < Pow2(width)
    ensures NoCommonBit(BitsOf(n, width), BitsOf(n - 1, width)) <==> IsPower(n)
  {
    var w, v := BitsOf(n, width), BitsOf(n - 1, width);
    var h := n / 2;
    assert w[1..] == BitsOf(h, width - 1) && v[1..] == BitsOf((n - 1) / 2, width - 1);
    CommonBits(w, v);
    if n == 1 {
      assert NoCommonBit(w[1..], v[1..]) by {
        ZeroWord(width - 1);
      }
    } else {
      HalfPower(n, h);
      if n == 2 * h {
        assert (n - 1) / 2 == h - 1;
        PowerTest(h, width - 1);
      } else {
        assert (n - 1) / 2 == h;
        SelfCommon(h, width - 1);
      }
    }
  }

  ghost predicate IsPower(n: nat) {
    n == Pow2(Log2(n))
  }

  lemma HalfPower(n: nat, h: nat)
    requires n >= 2 && h == n / 2
    ensures IsPower(n) <==> n == 2 * h && IsPower(h)
  {
  }

  lemma CommonBits(w: Word, v: Word)
    requires |w| == |v| >= 1
    ensures NoCommonBit(w, v) <==> !(w[0] && v[0]) && NoCommonBit(w[1..], v[1..])
  {
    if !(w[0] && v[0]) && NoCommonBit(w[1..], v[1..]) {
      forall j | 0 < j < |w| ensures !(w[j] && v[j]) {
        assert !(w[1..][j - 1] && v[1..][j - 1]);
      }
    }
    if NoCommonBit(w, v) {
      forall j | 0 <= j < |w| - 1 ensures !(w[1..][j] && v[1..][j]) {
        assert !(w[j + 1] && v[j + 1]);
      }
    }
  }

  lemma {:induction false} ZeroWord(width: nat)
    ensures forall j :: 0 <= j < width ==> !BitsOf(0, width)[j]
  {
    if width > 0 {
      ZeroWord(width - 1);
    }
  }

  lemma SelfCommon(n: nat, width: nat)
    requires 1 <= n < Pow2(width)
    ensures !NoCommonBit(BitsOf(n, width), BitsOf(n, width))
  {
    ValueOfBits(n, width);
    ZeroValue(BitsOf(n, width));
  }
}
