/**
  Virtual addresses: table indices, canonical form and pages, after
  include/arch/x86/pagetable.h and is_canon_va.
 */
module Address {
  import opened Arithmetic
  import opened PageTable

  /** l4_table_index to l1_table_index. */
  function IxOf(va: nat): Path {
    [va / 0x80_0000_0000 % 512, va / 0x4000_0000 % 512, va / 0x20_0000 % 512, va / 0x1000 % 512]
  }

  /** Bits 63 to 48 repeat bit 47. */
  predicate Canonical(va: nat) {
    va < 0x8000_0000_0000 || 0xFFFF_8000_0000_0000 <= va < 0x1_0000_0000_0000_0000
  }

  /** PAGE_SIZE << order for the three orders a page table entry can map. */
  function SizeAt(depth: nat): nat
    requires depth <= 3
  {
    if depth == 3 then 0x1000 else if depth == 2 then 0x20_0000 else if depth == 1 then 0x4000_0000 else 0x80_0000_0000
  }

  /** va % SizeAt(depth) == 0, with the sizes written out to keep the arithmetic linear. */
  predicate AlignedTo(va: nat, depth: nat)
    requires depth <= 3
  {
    if depth == 3 then va % 0x1000 == 0
    else if depth == 2 then va % 0x20_0000 == 0
    else if depth == 1 then va % 0x4000_0000 == 0
    else va % 0x80_0000_0000 == 0
  }

  /** Each page number is the next larger page's number with one more index as its last digit. */
  lemma Digits(va: nat, depth: nat)
    requires 1 <= depth <= 3
    ensures va / SizeAt(depth) == 512 * (va / SizeAt(depth - 1)) + IxOf(va)[depth]
  {
    match depth {
      case 1 => DivTwice(va, 0x4000_0000);
      case 2 => DivTwice(va, 0x20_0000);
      case 3 => DivTwice(va, 0x1000);
    }
  }

  lemma DivTwice(x: nat, m: nat)
    requires m > 0
    ensures x / m == 512 * (x / (512 * m)) + x / m % 512
  {
    var y, r := x / m, x % m;
    Regroup(x, m, y / 512, y % 512, r);
    DivisionUnique(x, 512 * m, y / 512, m * (y % 512) + r);
  }

  lemma Regroup(x: nat, m: nat, q: nat, s: nat, r: nat)
    requires s < 512 && r < m && x == m * (512 * q + s) + r
    ensures m * s + r < 512 * m && x == (512 * m) * q + (m * s + r)
  {
    assert m * (512 * q + s) == m * (512 * q) + m * s;
    assert m * (512 * q) == (512 * m) * q;
    assert m * s <= m * 511;
  }

  /** Canonical addresses with the same L4 index agree in the bits above it. */
  lemma TopDigit(va: nat, va': nat)
    requires Canonical(va) && Canonical(va')
    ensures va / 0x80_0000_0000 % 512 == va' / 0x80_0000_0000 % 512 <==> va / 0x80_0000_0000 == va' / 0x80_0000_0000
  {
    SignBits(va);
    SignBits(va');
  }

  lemma SignBits(va: nat)
    requires Canonical(va)
    ensures var n := va / 0x80_0000_0000;
            (n < 256 && n % 512 == n) || (0x1FF_FF00 <= n && n % 512 == n - 0x1FF_FE00 && n % 512 >= 256)
  {
  }

  /** Two canonical addresses lie in one page of a size exactly if their indices down to its table agree. */
  lemma {:induction false} SamePage(va: nat, va': nat, depth: nat)
    requires Canonical(va) && Canonical(va') && depth <= 3
    ensures IxOf(va)[..depth + 1] == IxOf(va')[..depth + 1] <==> va / SizeAt(depth) == va' / SizeAt(depth)
  {
    var ix, ix' := IxOf(va), IxOf(va');
    assert ix[..depth + 1] == ix[..depth] + [ix[depth]] && ix'[..depth + 1] == ix'[..depth] + [ix'[depth]];
    if depth == 0 {
      TopDigit(va, va');
    } else {
      SamePage(va, va', depth - 1);
      Digits(va, depth);
      Digits(va', depth);
      DigitsUnique(va / SizeAt(depth - 1), ix[depth], va' / SizeAt(depth - 1), ix'[depth]);
      SplitAgree(ix, ix', depth);
    }
  }

  lemma SplitAgree(ix: Path, ix': Path, depth: nat)
    requires depth <= 3
    ensures ix[..depth + 1] == ix'[..depth + 1] <==> ix[..depth] == ix'[..depth] && ix[depth] == ix'[depth]
  {
    assert ix[..depth + 1] == ix[..depth] + [ix[depth]] && ix'[..depth + 1] == ix'[..depth] + [ix'[depth]];
    if ix[..depth + 1] == ix'[..depth + 1] {
      assert ix[..depth] == ix[..depth + 1][..depth];
      assert ix[depth] == ix[..depth + 1][depth];
    }
  }

  lemma DigitsUnique(a: int, i: int, a': int, i': int)
    requires 0 <= i < 512 && 0 <= i' < 512
    ensures 512 * a + i == 512 * a' + i' <==> a == a' && i == i'
  {
  }
}
