/** Legacy GDT segment descriptors, packed and decoded. */
module Segments {
  import opened ByteStrings
  import opened Bits

  /** `_gdt_descriptor`, or by or. */
  function DescriptorValue(base: nat, limit: nat, access: nat, gran: nat): (d: nat) {
    var d0 := limit % 0x1_0000;
    var d1 := BitOr(d0, base % 0x100_0000 * 0x1_0000);
    var d2 := BitOr(d1, access % 0x100 * 0x100_0000_0000);
    var d3 := BitOr(d2, limit / 0x1_0000 % 0x10 * 0x1_0000_0000_0000);
    var d4 := BitOr(d3, gran % 0x10 * 0x10_0000_0000_0000);
    BitOr(d4, base / 0x100_0000 % 0x100 * 0x100_0000_0000_0000)
  }

  function Descriptor(base: nat, limit: nat, access: nat, gran: nat): (b: Bytes)
    ensures |b| == 8
  {
    LE(DescriptorValue(base, limit, access, gran), 8)
  }

  /** The fields of a descriptor as the processor reads them (Intel SDM volume 3A, section 3.4.5). */
  function DescriptorBase(d: nat): (b: nat) {
    d / 0x1_0000 % 0x100_0000 + d / 0x100_0000_0000_0000 % 0x100 * 0x100_0000
  }

  function DescriptorLimit(d: nat): (l: nat) {
    d % 0x1_0000 + d / 0x1_0000_0000_0000 % 0x10 * 0x1_0000
  }

  function DescriptorAccess(d: nat): (a: nat) {
    d / 0x100_0000_0000 % 0x100
  }

  function DescriptorGran(d: nat): (g: nat) {
    d / 0x10_0000_0000_0000 % 0x10
  }

  /** Or-ing a shifted field above the bits already set adds it. */
  lemma OrAbove(low: nat, field: nat, k: nat)
    requires low < Pow2(k)
    ensures BitOr(low, field * Pow2(k)) == low + field * Pow2(k)
  {
    BitOrComm(low, field * Pow2(k));
    BitOrAdd(field, low, k);
    assert Pow2(k) * field == field * Pow2(k);
  }

  lemma Pow2Plus8(k: nat)
    ensures Pow2(k + 8) == 0x100 * Pow2(k)
  {
    assert Pow2(k + 4) == 16 * Pow2(k) by {
      assert Pow2(k + 2) == 4 * Pow2(k);
    }
    assert Pow2(k + 8) == 16 * Pow2(k + 4) by {
      assert Pow2(k + 6) == 4 * Pow2(k + 4);
    }
  }

  lemma ShiftConstants()
    ensures Pow2(16) == 0x1_0000 && Pow2(40) == 0x100_0000_0000 && Pow2(48) == 0x1_0000_0000_0000
    ensures Pow2(52) == 0x10_0000_0000_0000 && Pow2(56) == 0x100_0000_0000_0000
  {
    hide Pow2;
    ShiftConstantsLow();
    Pow2Plus8(8);
    Pow2Plus8(16);
    Pow2Plus8(24);
    Pow2Plus8(32);
    Pow2Plus8(40);
    Pow2Plus8(48);
    Pow2Plus8(4);
    Pow2Plus8(12);
    Pow2Plus8(20);
    Pow2Plus8(28);
    Pow2Plus8(36);
    Pow2Plus8(44);
  }

  lemma ShiftConstantsLow()
    ensures Pow2(8) == 0x100 && Pow2(4) == 16
  {
  }

  /** Every descriptor decodes to the fields it was made from, cut to their widths. */
  lemma DescriptorDecodes(base: nat, limit: nat, access: nat, gran: nat)
    ensures var d := FromLE(Descriptor(base, limit, access, gran));
            && DescriptorBase(d) == base % 0x1_0000_0000 && DescriptorLimit(d) == limit % 0x10_0000
            && DescriptorAccess(d) == access % 0x100 && DescriptorGran(d) == gran % 0x10
  {
    DescriptorFields(base, limit, access, gran);
    LE64(DescriptorValue(base, limit, access, gran));
    hide DescriptorValue, FromLE, LE;
    TwoParts(base, 0x100_0000, 0x100);
    TwoParts(limit, 0x1_0000, 0x10);
  }

  /** The packed value, field by field. */
  lemma DescriptorFields(base: nat, limit: nat, access: nat, gran: nat)
    ensures var d := DescriptorValue(base, limit, access, gran);
            && d < 0x1_0000_0000_0000_0000
            && d % 0x1_0000 == limit % 0x1_0000 && d / 0x1_0000 % 0x100_0000 == base % 0x100_0000
            && d / 0x100_0000_0000 % 0x100 == access % 0x100
            && d / 0x1_0000_0000_0000 % 0x10 == limit / 0x1_0000 % 0x10
            && d / 0x10_0000_0000_0000 % 0x10 == gran % 0x10
            && d / 0x100_0000_0000_0000 % 0x100 == base / 0x100_0000 % 0x100
  {
    hide BitOr;
    var f0, f1, f2 := limit % 0x1_0000, base % 0x100_0000, access % 0x100;
    var f3, f4, f5 := limit / 0x1_0000 % 0x10, gran % 0x10, base / 0x100_0000 % 0x100;
    DescriptorSum(f0, f1, f2, f3, f4, f5);
    SplitFields(DescriptorValue(base, limit, access, gran), f0, f1, f2, f3, f4, f5);
  }

  lemma TwoParts(x: nat, k: nat, m: nat)
    requires k > 0 && m > 0
    ensures x % k + x / k % m * k == x % (k * m)
  {
    var q := x / k;
    var hi, lo := q / m, q % m;
    assert x == k * (m * hi + lo) + x % k;
    assert k * (m * hi + lo) == k * m * hi + k * lo by {
      assert k * (m * hi) == k * m * hi;
    }
    assert k * lo + x % k < k * m by {
      MulAtLeast(k, m - lo);
      assert k * (m - lo) == k * m - k * lo;
    }
    ModUnique(x, k * m, hi, k * lo + x % k);
  }

  lemma DescriptorSum(f0: nat, f1: nat, f2: nat, f3: nat, f4: nat, f5: nat)
    requires f0 < 0x1_0000 && f1 < 0x100_0000 && f2 < 0x100 && f3 < 0x10 && f4 < 0x10 && f5 < 0x100
    ensures var a := f0 + f1 * 0x1_0000;
            var b := a + f2 * 0x100_0000_0000;
            var c := b + f3 * 0x1_0000_0000_0000;
            var e := c + f4 * 0x10_0000_0000_0000;
            && BitOr(f0, f1 * 0x1_0000) == a && BitOr(a, f2 * 0x100_0000_0000) == b
            && BitOr(b, f3 * 0x1_0000_0000_0000) == c && BitOr(c, f4 * 0x10_0000_0000_0000) == e
            && BitOr(e, f5 * 0x100_0000_0000_0000) == e + f5 * 0x100_0000_0000_0000
  {
    hide BitOr, Pow2;
    ShiftConstants();
    var a := f0 + f1 * 0x1_0000;
    var b := a + f2 * 0x100_0000_0000;
    var c := b + f3 * 0x1_0000_0000_0000;
    var e := c + f4 * 0x10_0000_0000_0000;
    OrAbove(f0, f1, 16);
    OrAbove(a, f2, 40);
    OrAbove(b, f3, 48);
    OrAbove(c, f4, 52);
    OrAbove(e, f5, 56);
  }

  /** Cutting the field of size `m` at position `k` out of a number. */
  lemma FieldAt(d: nat, k: nat, m: nat, low: nat, f: nat, rest: nat)
    requires d == k * (f + m * rest) + low && low < k && f < m
    ensures d / k % m == f
  {
    ModUnique(d, k, f + m * rest, low);
    ModUnique(f + m * rest, m, rest, f);
  }

  lemma SplitFields(d: nat, f0: nat, f1: nat, f2: nat, f3: nat, f4: nat, f5: nat)
    requires f0 < 0x1_0000 && f1 < 0x100_0000 && f2 < 0x100 && f3 < 0x10 && f4 < 0x10 && f5 < 0x100
    requires d == f0 + f1 * 0x1_0000 + f2 * 0x100_0000_0000 + f3 * 0x1_0000_0000_0000 + f4 * 0x10_0000_0000_0000
                  + f5 * 0x100_0000_0000_0000
    ensures d < 0x1_0000_0000_0000_0000
    ensures d % 0x1_0000 == f0 && d / 0x1_0000 % 0x100_0000 == f1 && d / 0x100_0000_0000 % 0x100 == f2
    ensures d / 0x1_0000_0000_0000 % 0x10 == f3 && d / 0x10_0000_0000_0000 % 0x10 == f4
            && d / 0x100_0000_0000_0000 % 0x100 == f5
  {
    var t5 := f5;
    var t4 := f4 + 0x10 * t5;
    var t3 := f3 + 0x10 * t4;
    var t2 := f2 + 0x100 * t3;
    ModUnique(d, 0x1_0000, f1 + 0x100_0000 * t2, f0);
    FieldAt(d, 0x1_0000, 0x100_0000, f0, f1, t2);
    FieldAt(d, 0x100_0000_0000, 0x100, f0 + f1 * 0x1_0000, f2, t3);
    FieldAt(d, 0x1_0000_0000_0000, 0x10, f0 + f1 * 0x1_0000 + f2 * 0x100_0000_0000, f3, t4);
    FieldAt(d, 0x10_0000_0000_0000, 0x10, f0 + f1 * 0x1_0000 + f2 * 0x100_0000_0000 + f3 * 0x1_0000_0000_0000, f4, t5);
    FieldAt(d, 0x100_0000_0000_0000, 0x100, d - f5 * 0x100_0000_0000_0000, f5, 0);
  }
}
