/** The two ways a loaded region becomes flat memory. */
module Materialise {
  import opened ByteStrings
  import Bits
  import PageMap
  import opened MemoryRegions
  import opened Spans
  import opened Memory

  /** Page `p` of the region holds address `a`. */
  predicate PageHas(r: EmuRegion, p: int, a: int)
    requires p in r.pages
  {
    p <= a < p + |r.pages[p]|
  }

  ghost predicate InPages(r: EmuRegion, a: int) {
    exists p :: p in r.pages && PageHas(r, p, a)
  }

  /** The captured byte at `a`. */
  ghost function PageByte(r: EmuRegion, a: int): (b: Byte)
    requires InPages(r, a)
  {
    var p :| p in r.pages && PageHas(r, p, a);
    r.pages[p][a - p]
  }

  /** Pages lie inside the region and do not overlap. */
  ghost predicate WellFormed(r: EmuRegion) {
    && (forall p :: p in r.pages ==> r.base <= p && p + |r.pages[p]| <= r.base + r.size)
    && (forall p, q :: p in r.pages && q in r.pages && p < q ==> p + |r.pages[p]| <= q)
  }

  /** The region's byte at `a`: the captured one, or zero. */
  ghost function ByteAt(r: EmuRegion, a: int): (b: Byte) {
    if InPages(r, a) then PageByte(r, a) else 0
  }

  lemma PageByteUnique(r: EmuRegion, p: int, a: int)
    requires WellFormed(r) && p in r.pages && PageHas(r, p, a)
    ensures InPages(r, a) && PageByte(r, a) == r.pages[p][a - p]
  {
    var q :| q in r.pages && PageHas(r, q, a) && PageByte(r, a) == r.pages[q][a - q];
  }

  /** `_contiguous`: the region as one byte string, uncaptured bytes zero. */
  method Contiguous(r: EmuRegion) returns (image: Bytes)
    requires WellFormed(r)
    ensures |image| == r.size && forall i :: 0 <= i < r.size ==> image[i] == ByteAt(r, r.base + i)
  {
    hide SoFar, PageHas, ByteAt;
    var buf := new Byte[r.size](_ => 0);
    var todo := r.pages.Keys;
    ghost var done: set<int> := {};
    BufferStarts(r, buf[..]);
    while todo != {}
      invariant fresh(buf) && buf.Length == r.size && todo + done == r.pages.Keys && todo !! done
      invariant BufferHolds(r, buf[..], done)
      decreases |todo|
    {
      PickOne(todo);
      var p :| p in todo;
      ghost var before := buf[..];
      CopyInto(buf, p - r.base, r.pages[p]);
      BufferGrows(r, before, buf[..], done, p);
      todo, done := todo - {p}, done + {p};
    }
    image := buf[..];
    forall i | 0 <= i < r.size ensures image[i] == ByteAt(r, r.base + i) {
      SoFarAll(r, done, r.base + i, 0);
    }
  }

  /** The buffer after the pages in `done` have been copied into it. */
  ghost predicate BufferHolds(r: EmuRegion, buf: Bytes, done: set<int>)
    requires done <= r.pages.Keys
  {
    |buf| == r.size && forall i :: 0 <= i < r.size ==> buf[i] == SoFar(r, done, r.base + i, 0)
  }

  lemma BufferStarts(r: EmuRegion, buf: Bytes)
    requires |buf| == r.size && forall i :: 0 <= i < r.size ==> buf[i] == 0
    ensures BufferHolds(r, buf, {})
  {
    forall i | 0 <= i < r.size ensures buf[i] == SoFar(r, {}, r.base + i, 0) {
      SoFarNone(r, r.base + i, 0);
    }
  }

  lemma BufferGrows(r: EmuRegion, before: Bytes, after: Bytes, done: set<int>, p: int)
    requires WellFormed(r) && done <= r.pages.Keys && p in r.pages && BufferHolds(r, before, done)
             && |after| == |before|
    requires var off := p - r.base; var data := r.pages[p];
             forall i :: 0 <= i < |after| ==> after[i] == if off <= i < off + |data| then data[i - off] else before[i]
    ensures BufferHolds(r, after, done + {p})
  {
    hide SoFar, PageHas;
    forall i | 0 <= i < r.size ensures after[i] == SoFar(r, done + {p}, r.base + i, 0) {
      SoFarAdd(r, done, p, r.base + i, 0);
      PageHasOffset(r, p, i);
    }
  }

  lemma PickOne(s: set<int>)
    requires s != {}
    ensures exists p :: p in s
  {
    if !(exists p :: p in s) {
    }
  }

  /** `buf[off:off + len(data)] = data`. */
  method CopyInto(buf: array<Byte>, off: nat, data: Bytes)
    requires off + |data| <= buf.Length
    modifies buf
    ensures forall i :: 0 <= i < buf.Length ==> buf[i] == if off <= i < off + |data| then data[i - off] else old(buf[i])
  {
    for k := 0 to |data|
      invariant forall i :: 0 <= i < buf.Length ==> buf[i] == if off <= i < off + k then data[i - off] else old(buf[i])
    {
      buf[off + k] := data[k];
    }
  }

  lemma PageHasOffset(r: EmuRegion, p: int, i: int)
    requires p in r.pages
    ensures PageHas(r, p, r.base + i) <==> p - r.base <= i < p - r.base + |r.pages[p]|
  {
  }

  lemma SoFarNone(r: EmuRegion, a: int, before: Byte)
    ensures SoFar(r, {}, a, before) == before
  {
  }

  /** The byte at `a` once the pages in `done` have been written over `before`. */
  ghost function SoFar(r: EmuRegion, done: set<int>, a: int, before: Byte): (b: Byte)
    requires done <= r.pages.Keys
  {
    if exists p :: p in done && PageHas(r, p, a) then
      var p :| p in done && PageHas(r, p, a);
      r.pages[p][a - p]
    else before
  }

  /** Any page that holds `a` gives the same byte. */
  lemma SoFarIs(r: EmuRegion, done: set<int>, p: int, a: int, before: Byte)
    requires WellFormed(r) && done <= r.pages.Keys && p in done && PageHas(r, p, a)
    ensures SoFar(r, done, a, before) == r.pages[p][a - p]
  {
    var q :| q in done && PageHas(r, q, a) && SoFar(r, done, a, before) == r.pages[q][a - q];
  }

  lemma SoFarAdd(r: EmuRegion, done: set<int>, p: int, a: int, before: Byte)
    requires WellFormed(r) && done <= r.pages.Keys && p in r.pages
    ensures SoFar(r, done + {p}, a, before) == if PageHas(r, p, a) then r.pages[p][a - p] else SoFar(r, done, a, before)
  {
    if PageHas(r, p, a) {
      SoFarIs(r, done + {p}, p, a, before);
    } else if exists q :: q in done && PageHas(r, q, a) {
      var q :| q in done && PageHas(r, q, a);
      SoFarIs(r, done, q, a, before);
      SoFarIs(r, done + {p}, q, a, before);
    }
  }

  lemma SoFarAll(r: EmuRegion, done: set<int>, a: int, before: Byte)
    requires WellFormed(r) && done == r.pages.Keys
    ensures SoFar(r, done, a, before) == if InPages(r, a) then PageByte(r, a) else before
    ensures before == 0 ==> SoFar(r, done, a, before) == ByteAt(r, a)
  {
    if InPages(r, a) {
      var p :| p in done && PageHas(r, p, a) && SoFar(r, done, a, before) == r.pages[p][a - p];
      PageByteUnique(r, p, a);
    }
  }

  /** The page-aligned span a region occupies. */
  function RegionSpan(r: EmuRegion): (s: Span)
    ensures s.lo <= r.base && r.base + r.size <= s.hi && s.lo % PAGE == 0 && s.hi % PAGE == 0 && 0 <= s.lo
  {
    Span(r.base / PAGE * PAGE, AlignUp(r.base + r.size))
  }

  /** Some byte of the region lies in the 4096-byte page of `a`. */
  predicate InPageOf(r: EmuRegion, a: int) {
    r.base / 0x1000 <= a / 0x1000 && a / 0x1000 * 0x1000 < r.base + r.size
  }

  /** The span is the region's pages and nothing more. */
  lemma SpanIsPages(r: EmuRegion, a: int)
    ensures In(RegionSpan(r), a) <==> InPageOf(r, a)
  {
  }

  function RegionSpans(rs: seq<EmuRegion>): (s: seq<Span>)
    ensures |s| == |rs| && forall i :: 0 <= i < |rs| ==> s[i] == RegionSpan(rs[i])
  {
    seq(|rs|, i requires 0 <= i < |rs| => RegionSpan(rs[i]))
  }

  ghost predicate Inside(r: EmuRegion, a: int) {
    r.base <= a < r.base + r.size
  }

  ghost predicate Disjoint(rs: seq<EmuRegion>) {
    forall i, j :: 0 <= i < j < |rs| ==> rs[i].base + rs[i].size <= rs[j].base || rs[j].base + rs[j].size <= rs[i].base
  }

  /** The address space's bookkeeping: sorted, page-aligned, non-empty, pairwise gapped. */
  ghost predicate GoodSpans(spans: seq<Span>) {
    Gapped(spans) && NonEmpty(spans) && Aligned(spans) && forall i :: 0 <= i < |spans| ==> spans[i].lo >= 0
  }

  lemma CoalescedAligned(spans: seq<Span>)
    requires Aligned(spans) && NonEmpty(Coalesced(spans)) && forall i :: 0 <= i < |spans| ==> spans[i].lo >= 0
    ensures GoodSpans(Coalesced(spans))
  {
    CoalescedFacts(spans);
    hide Coalesced, Gapped;
    var out := Coalesced(spans);
    forall i | 0 <= i < |out| ensures out[i].lo % PAGE == 0 && out[i].hi % PAGE == 0 && out[i].lo >= 0 {
      EdgesAligned(spans, out, i);
    }
  }

  /** A span of the coalesced list starts where some input span starts and ends where some ends. */
  lemma EdgesAligned(spans: seq<Span>, out: seq<Span>, i: nat)
    requires Aligned(spans) && forall k :: 0 <= k < |spans| ==> spans[k].lo >= 0
    requires i < |out| && Gapped(out) && NonEmpty(out)
    requires forall a :: Covers(out, a) <==> Covers(spans, a)
    ensures out[i].lo % PAGE == 0 && out[i].hi % PAGE == 0 && out[i].lo >= 0
  {
    var s := out[i];
    assert In(out[i], s.lo) && In(out[i], s.hi - 1);
    assert Covers(out, s.lo) && Covers(out, s.hi - 1);
    assert !Covers(out, s.lo - 1) && !Covers(out, s.hi);
    assert Covers(spans, s.lo) && Covers(spans, s.hi - 1) && !Covers(spans, s.lo - 1) && !Covers(spans, s.hi);
    var k :| 0 <= k < |spans| && In(spans[k], s.lo);
    assert !In(spans[k], s.lo - 1);
    var l :| 0 <= l < |spans| && In(spans[l], s.hi - 1);
    assert !In(spans[l], s.hi);
  }

  // ---------------------------------------------------- regions as parsed

  /** `k` pages from `addr` on end here. */
  function PagesEnd(addr: int, pageSize: nat, k: nat): (e: int)
    decreases k
  {
    if k == 0 then addr else PagesEnd(addr + pageSize, pageSize, k - 1)
  }

  lemma {:induction false} PagesEndIs(addr: int, pageSize: nat, k: nat)
    ensures PagesEnd(addr, pageSize, k) == addr + k * pageSize
    decreases k
  {
    if k > 0 {
      PagesEndIs(addr + pageSize, pageSize, k - 1);
      MulStep(k - 1, pageSize);
    }
  }

  ghost predicate PagesFit(m: map<int, Bytes>, lo: int, hi: int) {
    && (forall p :: p in m ==> lo <= p && p + |m[p]| <= hi)
    && (forall p, q :: p in m && q in m && p < q ==> p + |m[p]| <= q)
  }

  lemma {:induction false} PagesEndMonotone(addr: int, pageSize: nat, k: nat)
    ensures PagesEnd(addr, pageSize, k) >= addr
    decreases k
  {
    if k > 0 {
      PagesEndMonotone(addr + pageSize, pageSize, k - 1);
    }
  }

  lemma {:induction false} PagesFromFit(psm: Bytes, data: Bytes, addr: int, pageSize: nat, n: nat, i: nat, off: nat)
    requires i <= n <= 4 * |psm| && pageSize > 0
    ensures PagesFit(PagesFrom(psm, data, addr, pageSize, n, i, off), addr, PagesEnd(addr, pageSize, n - i))
    decreases n - i
  {
    hide PageMap.PageStateAt;
    if i < n {
      PagesFromFit(psm, data, addr + pageSize, pageSize, n, i + 1, off + pageSize);
      PagesFromFit(psm, data, addr + pageSize, pageSize, n, i + 1, off);
      PagesEndMonotone(addr + pageSize, pageSize, n - i - 1);
    }
  }

  lemma ShiftRightBound(size: nat, k: nat)
    ensures ShiftRight(size, k) * Bits.Pow2(k) <= size
  {
    if k > 0 {
      ShiftRightBound(size / 2, k - 1);
      var q, p := ShiftRight(size / 2, k - 1), Bits.Pow2(k - 1);
      assert q * (2 * p) == 2 * (q * p);
    }
  }

  /** Every region the loader produces is well formed. */
  lemma ParsedWellFormed(payload: Bytes)
    requires ParsedRegion(payload).Some?
    ensures WellFormed(ParsedRegion(payload).value)
  {
    hide ShiftRight, Bits.Pow2, StateMapOf, DataOf, PagesFrom;
    var n, pageSize := PageCount(payload), Bits.Pow2(payload[18]);
    var base := FromLE(payload[0..8]);
    PagesFromFit(StateMapOf(payload, n), DataOf(payload, n), base, pageSize, n, 0, 0);
    PagesEndIs(base, pageSize, n);
    ShiftRightBound(FromLE(payload[8..16]), payload[18]);
  }

  // ------------------------------------------------------- many regions

  /** Memory after writing the regions in order over zeros: the last one to hold `a` decides. */
  ghost function OverlayAt(rs: seq<EmuRegion>, a: int): (b: Byte) {
    if rs == [] then 0
    else
      var last := rs[|rs| - 1];
      if InPages(last, a) then PageByte(last, a) else OverlayAt(rs[..|rs| - 1], a)
  }

  /** For disjoint regions, memory inside a region is that region's own image. */
  lemma {:induction false} OverlayIsByteAt(rs: seq<EmuRegion>, k: nat, a: int)
    requires Disjoint(rs) && (forall i :: 0 <= i < |rs| ==> WellFormed(rs[i])) && k < |rs| && Inside(rs[k], a)
    ensures OverlayAt(rs, a) == ByteAt(rs[k], a)
    decreases |rs|
  {
    var n := |rs| - 1;
    if k < n {
      OutsidePages(rs[n], a);
      OverlayIsByteAt(rs[..n], k, a);
    } else if !InPages(rs[n], a) {
      OverlayElsewhere(rs[..n], a);
    }
  }

  lemma OutsidePages(r: EmuRegion, a: int)
    requires WellFormed(r) && !Inside(r, a)
    ensures !InPages(r, a)
  {
  }

  lemma {:induction false} OverlayElsewhere(rs: seq<EmuRegion>, a: int)
    requires (forall i :: 0 <= i < |rs| ==> WellFormed(rs[i])) && forall i :: 0 <= i < |rs| ==> !Inside(rs[i], a)
    ensures OverlayAt(rs, a) == 0
    decreases |rs|
  {
    if rs != [] {
      OutsidePages(rs[|rs| - 1], a);
      OverlayElsewhere(rs[..|rs| - 1], a);
    }
  }

  /** The two materialisers agree on every region of a disjoint list, byte for byte. */
  lemma MaterialisersAgree(rs: seq<EmuRegion>, mem: Mem, k: nat, image: Bytes)
    requires Disjoint(rs) && (forall i :: 0 <= i < |rs| ==> WellFormed(rs[i])) && k < |rs|
    requires Mapped(mem, rs[k].base, rs[k].size) && forall a :: a in mem ==> mem[a] == OverlayAt(rs, a)
    requires |image| == rs[k].size && forall i :: 0 <= i < rs[k].size ==> image[i] == ByteAt(rs[k], rs[k].base + i)
    ensures Load(mem, rs[k].base, rs[k].size) == image
  {
    hide OverlayAt, ByteAt, WellFormed, Disjoint;
    forall i | 0 <= i < rs[k].size ensures mem[rs[k].base + i] == image[i] {
      OverlayIsByteAt(rs, k, rs[k].base + i);
    }
  }
}
