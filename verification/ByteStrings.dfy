/** Byte strings, little-endian integers, Python slices and the 8-byte padding helpers. */
module ByteStrings {
  type Byte = x: int | 0 <= x < 0x100
  type Bytes = seq<Byte>

  type U8 = x: int | 0 <= x < 0x100
  type U16 = x: int | 0 <= x < 0x1_0000
  type U32 = x: int | 0 <= x < 0x1_0000_0000
  type U64 = x: int | 0 <= x < 0x1_0000_0000_0000_0000

  datatype Option<+T> = None | Some(value: T)

  datatype Result<+T, +E> = Ok(value: T) | Err(error: E)

  function Min(a: int, b: int): (m: int) {
    if a < b then a else b
  }

  /** `n` copies of `x`. */
  function Repeat<T>(x: T, n: nat): (s: seq<T>)
    ensures |s| == n && forall i :: 0 <= i < n ==> s[i] == x
  {
    seq(n, _ => x)
  }

  function Zeros(n: nat): (s: Bytes)
    ensures |s| == n && forall i :: 0 <= i < n ==> s[i] == 0
  {
    Repeat(0, n)
  }

  /** Python's `s[lo:hi]` for non-negative bounds: both ends are clamped. */
  function Slice<T>(s: seq<T>, lo: nat, hi: nat): (r: seq<T>)
    ensures lo <= hi <= |s| ==> r == s[lo..hi]
    ensures lo <= |s| <= hi ==> r == s[lo..]
  {
    var h := if hi <= |s| then hi else |s|;
    if lo <= h then s[lo..h] else []
  }

  /** Slicing a slice from its start. */
  lemma SubSlice(p: Bytes, off: nat, n: nat, k: nat)
    requires k <= n && off + n <= |p|
    ensures Slice(p, off, off + k) == p[off..off + n][..k]
  {
  }

  /** `raw.rstrip(b"\x00")`. */
  function StripNuls(raw: Bytes): (s: Bytes) {
    if raw != [] && raw[|raw| - 1] == 0 then StripNuls(raw[..|raw| - 1]) else raw
  }

  /** `b"".join(chunks)`. */
  function Join(chunks: seq<Bytes>): (r: Bytes) {
    if chunks == [] then [] else chunks[0] + Join(chunks[1..])
  }

  lemma {:induction false} JoinAppend(a: seq<Bytes>, b: seq<Bytes>)
    ensures Join(a + b) == Join(a) + Join(b)
  {
    if a == [] {
      assert a + b == b;
    } else {
      assert (a + b)[1..] == a[1..] + b;
      JoinAppend(a[1..], b);
    }
  }

  lemma JoinOne(c: Bytes)
    ensures Join([c]) == c
  {
    assert [c][1..] == [];
  }

  /** Cutting a concatenation at its seams. */
  lemma Cut<T>(a: seq<T>, b: seq<T>, c: seq<T>, p: seq<T>)
    requires p == a + b + c
    ensures p[..|a|] == a && p[|a|..|a| + |b|] == b && p[|a| + |b|..] == c
  {
  }

  lemma MulStep(a: int, b: int)
    ensures (a + 1) * b == a * b + b
  {
  }

  // ---------------------------------------------------------------- struct

  function Pow256(n: nat): (p: nat)
    ensures p >= 1
  {
    if n == 0 then 1 else 256 * Pow256(n - 1)
  }

  lemma Pow256Values()
    ensures Pow256(1) == 0x100 && Pow256(2) == 0x1_0000
    ensures Pow256(4) == 0x1_0000_0000
    ensures Pow256(8) == 0x1_0000_0000_0000_0000
  {
    assert Pow256(3) == 0x100_0000;
    assert Pow256(5) == 0x100_0000_0000;
    assert Pow256(6) == 0x1_0000_0000_0000;
    assert Pow256(7) == 0x100_0000_0000_0000;
  }

  /** The low `width` bytes of `v`, least significant first. */
  function LE(v: nat, width: nat): (b: Bytes)
    ensures |b| == width
    decreases width, v
  {
    if width == 0 then [] else [v % 256] + LE(v / 256, width - 1)
  }

  /** `int.from_bytes(b, "little")`. */
  function FromLE(b: Bytes): (v: nat) {
    if b == [] then 0 else b[0] + 256 * FromLE(b[1..])
  }

  /** Writing `width` bytes and reading them back keeps the value modulo 256^width. */
  lemma {:induction false} LERoundTrip(v: nat, width: nat)
    ensures FromLE(LE(v, width)) == v % Pow256(width)
    decreases width, v
  {
    if width > 0 {
      LERoundTrip(v / 256, width - 1);
      assert LE(v, width)[1..] == LE(v / 256, width - 1);
      ModSplit(v, Pow256(width - 1));
    }
  }

  lemma ModSplit(v: nat, p: nat)
    requires p >= 1
    ensures v % 256 + 256 * ((v / 256) % p) == v % (256 * p)
  {
    var q, r := v / 256 / p, v / 256 % p;
    assert v / 256 == p * q + r;
    assert v == 256 * p * q + (256 * r + v % 256) by {
      assert 256 * (p * q) == 256 * p * q;
    }
    ModUnique(v, 256 * p, q, 256 * r + v % 256);
  }

  lemma ModUnique(v: int, m: int, q: int, r: int)
    requires 0 <= r < m && v == m * q + r
    ensures v % m == r && v / m == q
  {
    var d := v / m - q;
    assert v == m * (v / m) + v % m;
    assert m * d == r - v % m by {
      assert m * (v / m) - m * q == m * d;
    }
    if d > 0 {
      MulAtLeast(m, d);
    } else if d < 0 {
      MulAtLeast(m, -d);
    }
  }

  lemma MulAtLeast(a: int, b: int)
    requires a >= 0 && b >= 1
    ensures a * b >= a && a * -b <= -a
  {
    assert a * b == a + a * (b - 1);
  }

  /** Fields of the usual widths survive pack and unpack when they fit. */
  lemma LEFits(v: nat, width: nat)
    requires v < Pow256(width)
    ensures FromLE(LE(v, width)) == v
  {
    LERoundTrip(v, width);
    ModUnique(v, Pow256(width), 0, v);
  }

  lemma LE16(v: U16) ensures FromLE(LE(v, 2)) == v { Pow256Values(); LEFits(v, 2); }
  lemma LE32(v: U32) ensures FromLE(LE(v, 4)) == v { Pow256Values(); LEFits(v, 4); }
  lemma LE64(v: U64) ensures FromLE(LE(v, 8)) == v { Pow256Values(); LEFits(v, 8); }

  lemma {:induction false} FromLEBound(b: Bytes)
    ensures FromLE(b) < Pow256(|b|)
  {
    if b != [] {
      FromLEBound(b[1..]);
    }
  }

  /** `struct.unpack` of one little-endian field. */
  function Get16(b: Bytes): (v: U16)
    requires |b| == 2
    ensures v == FromLE(b)
  {
    FromLEBound(b); Pow256Values();
    FromLE(b)
  }

  function Get32(b: Bytes): (v: U32)
    requires |b| == 4
    ensures v == FromLE(b)
  {
    FromLEBound(b); Pow256Values();
    FromLE(b)
  }

  function Get64(b: Bytes): (v: U64)
    requires |b| == 8
    ensures v == FromLE(b)
  {
    FromLEBound(b); Pow256Values();
    FromLE(b)
  }

  // --------------------------------------------------------------- padding

  function Pad8(n: nat): (p: nat)
    ensures n <= p < n + 8 && p % 8 == 0
  {
    (n + 7) / 8 * 8
  }

  function PadBytes(data: Bytes): (r: Bytes)
    ensures |r| == Pad8(|data|) && r[..|data|] == data
  {
    data + Zeros(Pad8(|data|) - |data|)
  }

  /** `encode_string` of a string given by its UTF-8 bytes. */
  function EncodeString(s: Bytes): (r: Bytes)
    ensures |r| == Pad8(|s| + 1)
  {
    PadBytes(s + [0])
  }

  /** Padding a string whose head is already 8-aligned only pads its tail. */
  lemma PadSplit(a: Bytes, b: Bytes)
    requires |a| % 8 == 0
    ensures PadBytes(a + b) == a + PadBytes(b)
  {
    var q := |a| / 8;
    assert |a| == 8 * q;
    assert Pad8(|a| + |b|) == |a| + Pad8(|b|);
  }

  lemma PadSplit2(a: Bytes, b: Bytes, c: Bytes)
    requires |a| % 8 == 0 && |b| % 8 == 0
    ensures PadBytes(a + b + c) == a + b + PadBytes(c)
  {
    PadSplit(a + b, c);
  }
}
