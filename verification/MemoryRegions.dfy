/** MemoryRegion blocks: the writer's payload layout and the loader's parser. */
module MemoryRegions {
  import opened ByteStrings
  import opened Bits
  import opened PageMap

  datatype MemoryRegion = MemoryRegion(
    baseAddr: nat, regionSize: nat, protection: U8, regionType: U8, pageSize: int, timestampNs: U64,
    pageStates: seq<PageState>, pageDataChunks: seq<Bytes>)

  datatype RegionError =
    | PageSizeNotPowerOfTwo
    | SizeNotPageMultiple
    | PageCountMismatch
    | PageSizeLog2OutOfRange
    | FieldTooWide

  function PageSizeLog2(pageSize: nat): (n: int) {
    BitLength(pageSize) - 1
  }

  /** The checks of `write_memory_region`, in its order; the last is `struct.pack`'s own. */
  function RegionCheck(r: MemoryRegion): (e: Option<RegionError>)
    ensures e.None? ==>
              r.pageSize > 0 && 10 <= PageSizeLog2(r.pageSize) <= 40 && r.pageSize == Pow2(PageSizeLog2(r.pageSize))
    ensures e.None? ==> r.baseAddr < 0x1_0000_0000_0000_0000 && r.regionSize < 0x1_0000_0000_0000_0000
  {
    if r.pageSize <= 0 || BitAnd(r.pageSize, r.pageSize - 1) != 0 then
      Some(PageSizeNotPowerOfTwo)
    else if r.regionSize % r.pageSize != 0 then
      Some(SizeNotPageMultiple)
    else if |r.pageStates| != r.regionSize / r.pageSize then
      Some(PageCountMismatch)
    else if !(10 <= PageSizeLog2(r.pageSize) <= 40) then
      Some(PageSizeLog2OutOfRange)
    else if r.baseAddr >= 0x1_0000_0000_0000_0000 || r.regionSize >= 0x1_0000_0000_0000_0000 then
      Some(FieldTooWide)
    else
      PowerOfTwoTest(r.pageSize);
      None
  }

  /** The first check refuses exactly the page sizes that are no power of two. */
  lemma PageSizeCheck(r: MemoryRegion)
    ensures RegionCheck(r) == Some(PageSizeNotPowerOfTwo) <==> !exists k: nat :: r.pageSize == Pow2(k)
  {
    if r.pageSize > 0 {
      PowerOfTwoTest(r.pageSize);
      forall k: nat | r.pageSize == Pow2(k) ensures r.pageSize == Pow2(BitLength(r.pageSize) - 1) {
        BitLengthOf(k);
      }
      if r.pageSize == Pow2(BitLength(r.pageSize) - 1) {
        var k: nat := BitLength(r.pageSize) - 1;
        assert r.pageSize == Pow2(k);
      }
    }
  }

  /** The other checks, for pages of 2^k bytes: which error comes first, and what is accepted. */
  lemma RegionAccepted(r: MemoryRegion, k: nat)
    requires r.pageSize == Pow2(k)
    ensures var e, whole := RegionCheck(r), |r.pageStates| * r.pageSize == r.regionSize;
            && (e == Some(SizeNotPageMultiple) <==> r.regionSize % r.pageSize != 0)
            && (e == Some(PageCountMismatch) <==> r.regionSize % r.pageSize == 0 && !whole)
            && (e == Some(PageSizeLog2OutOfRange) <==> whole && !(10 <= k <= 40))
            && (e == None <==> whole && 10 <= k <= 40 && r.baseAddr < 0x1_0000_0000_0000_0000
                               && r.regionSize < 0x1_0000_0000_0000_0000)
  {
    LogOf(r.pageSize, k);
    hide Pow2, BitLength, BitAnd, PageSizeLog2;
    PagesFill(|r.pageStates|, r.pageSize, r.regionSize);
  }

  lemma LogOf(pageSize: nat, k: nat)
    requires pageSize == Pow2(k)
    ensures pageSize > 0 && BitAnd(pageSize, pageSize - 1) == 0 && PageSizeLog2(pageSize) == k
  {
    BitLengthOf(k);
    PowerOfTwoTest(pageSize);
  }

  lemma PagesFill(n: nat, pageSize: nat, size: nat)
    requires pageSize > 0
    ensures n * pageSize == size <==> size % pageSize == 0 && n == size / pageSize
  {
    if n * pageSize == size {
      ModUnique(size, pageSize, n, 0);
    }
  }

  lemma RegionSizeOf(r: MemoryRegion)
    requires RegionCheck(r).None?
    ensures r.regionSize == |r.pageStates| * r.pageSize
  {
    hide BitAnd, PageSizeLog2, Pow2;
    PagesFill(|r.pageStates|, r.pageSize, r.regionSize);
  }

  function RegionHeader(r: MemoryRegion): (h: Bytes)
    requires RegionCheck(r).None?
    ensures |h| == 32
  {
    LE(r.baseAddr, 8) + LE(r.regionSize, 8) + [r.protection, r.regionType, PageSizeLog2(r.pageSize)] + Zeros(5)
    + LE(r.timestampNs, 8)
  }

  function RegionPayload(r: MemoryRegion): (p: Bytes)
    requires RegionCheck(r).None?
  {
    RegionHeader(r) + PadBytes(EncodedMap(r.pageStates)) + Join(r.pageDataChunks)
  }

  // ---------------------------------------------------------------- loader

  /** A region as the loader sees it: `pages` maps a page address to its bytes. */
  datatype EmuRegion = EmuRegion(
    base: nat, size: nat, protection: U8, pageSize: nat, regionType: U8, pages: map<int, Bytes>)

  function PageAddr(base: int, pageSize: nat, i: nat): (a: int) {
    base + i * pageSize
  }

  /** `size >> k`. */
  function ShiftRight(size: nat, k: nat): (n: nat) {
    if k == 0 then size else ShiftRight(size / 2, k - 1)
  }

  lemma {:induction false} ShiftRightMultiple(n: nat, k: nat)
    ensures ShiftRight(n * Pow2(k), k) == n
  {
    if k > 0 {
      assert n * Pow2(k) == 2 * (n * Pow2(k - 1));
      ShiftRightMultiple(n, k - 1);
    }
  }

  /**
   * The loader's loop from page `i` on: `addr` is the address of page `i` and `off` the offset at
   * which the next captured page's bytes start.
   */
  function PagesFrom(psm: Bytes, data: Bytes, addr: int, pageSize: nat, n: nat, i: nat, off: nat): (m: map<int, Bytes>)
    requires i <= n <= 4 * |psm|
    decreases n - i
  {
    if i == n then map[]
    else if PageStateAt(psm, i) == Code(CAPTURED) then
      map[addr := Slice(data, off, off + pageSize)]
      + PagesFrom(psm, data, addr + pageSize, pageSize, n, i + 1, off + pageSize)
    else PagesFrom(psm, data, addr + pageSize, pageSize, n, i + 1, off)
  }

  function PageCount(payload: Bytes): (n: nat)
    requires |payload| >= 32
  {
    ShiftRight(FromLE(payload[8..16]), payload[18])
  }

  /** The state map bytes and the data bytes behind the 32-byte header. */
  function StateMapOf(payload: Bytes, n: nat): (psm: Bytes) {
    Slice(payload, 32, 32 + Pad8((n + 3) / 4))
  }

  function DataOf(payload: Bytes, n: nat): (data: Bytes) {
    Slice(payload, 32 + Pad8((n + 3) / 4), |payload|)
  }

  function ParsedPages(payload: Bytes, n: nat, pageSize: nat): (m: map<int, Bytes>)
    requires |payload| >= 32 && n <= 4 * |StateMapOf(payload, n)|
  {
    PagesFrom(StateMapOf(payload, n), DataOf(payload, n), FromLE(payload[0..8]), pageSize, n, 0, 0)
  }

  /** `_parse_region`; None where Python raises (short header, or a page beyond the state map). */
  function ParsedRegion(payload: Bytes): (r: Option<EmuRegion>) {
    if |payload| < 32 then None
    else
      var n, pageSize := PageCount(payload), Pow2(payload[18]);
      if n > 4 * |StateMapOf(payload, n)| then None
      else
        Some(EmuRegion(FromLE(payload[0..8]), FromLE(payload[8..16]), payload[16], pageSize, payload[17],
                       ParsedPages(payload, n, pageSize)))
  }

  /**
   * On arbitrary bytes: a payload is taken exactly when its header is whole and the part of the state map that is
   * there has a place for every page; what is read of the header.
   */
  lemma ParsedRegionMeans(p: Bytes)
    ensures ParsedRegion(p).Some? <==>
            |p| >= 32 && (var n := PageCount(p); n <= 4 * Min(Pad8((n + 3) / 4), |p| - 32))
    ensures ParsedRegion(p).Some? ==>
              var r := ParsedRegion(p).value;
              && r.base == FromLE(p[0..8]) && r.size == FromLE(p[8..16]) && r.protection == p[16]
              && r.regionType == p[17] && r.pageSize == Pow2(p[18])
  {
    hide FromLE, Pow2, ParsedPages, PageCount, Pad8;
    if |p| >= 32 {
      var len := Pad8((PageCount(p) + 3) / 4);
      assert |Slice(p, 32, 32 + len)| == Min(len, |p| - 32);
    }
  }

  method ParseRegion(payload: Bytes) returns (r: Option<EmuRegion>)
    ensures r == ParsedRegion(payload)
  {
    if |payload| < 32 {
      return None;
    }
    var base, size := FromLE(payload[0..8]), FromLE(payload[8..16]);
    var pageSize := Pow2(payload[18]);
    var npages := ShiftRight(size, payload[18]);
    var psm, data := StateMapOf(payload, npages), DataOf(payload, npages);
    var pages := ParsePages(psm, data, base, pageSize, npages);
    r := if pages.None? then None else Some(EmuRegion(base, size, payload[16], pageSize, payload[17], pages.value));
  }

  /** The page loop of `_parse_region`. */
  method ParsePages(psm: Bytes, data: Bytes, base: int, pageSize: nat, npages: nat) returns (r: Option<map<int, Bytes>>)
    ensures r.None? <==> npages > 4 * |psm|
    ensures r.Some? ==> r.value == PagesFrom(psm, data, base, pageSize, npages, 0, 0)
  {
    hide PageStateAt;
    var pages: map<int, Bytes> := map[];
    var captured := 0;
    var i := 0;
    while i < npages
      invariant i <= npages && i <= 4 * |psm|
      invariant captured * pageSize >= 0
      invariant npages <= 4 * |psm| ==>
                  pages + PagesFrom(psm, data, base + i * pageSize, pageSize, npages, i, captured * pageSize)
                  == PagesFrom(psm, data, base, pageSize, npages, 0, 0)
    {
      if i / 4 >= |psm| {
        return None;
      }
      MulStep(i, pageSize);
      if PageStateAt(psm, i) == Code(CAPTURED) {
        var off := captured * pageSize;
        pages := pages[base + i * pageSize := Slice(data, off, off + pageSize)];
        MulStep(captured, pageSize);
        captured := captured + 1;
      }
      i := i + 1;
    }
    r := Some(pages);
  }

  // ------------------------------------------------------------ round trip

  /** The data section of a region: the bytes of its captured pages, `page(i)` being those of page `i`. */
  function CapturedData(page: nat -> Bytes, states: seq<PageState>, first: nat): (d: Bytes)
    decreases |states|
  {
    if states == [] then []
    else (if states[0].CAPTURED? then page(first) else []) + CapturedData(page, states[1..], first + 1)
  }

  /** `pages` holds exactly the captured pages from page `from` on, each zero-padded to 8 bytes. */
  ghost predicate ExactPages(
    pages: map<int, Bytes>, base: int, pageSize: nat, states: seq<PageState>, page: nat -> Bytes, from: nat) {
    && (forall a :: a in pages ==>
          exists i :: from <= i < |states| && states[i].CAPTURED? && a == PageAddr(base, pageSize, i))
    && (forall i :: from <= i < |states| && states[i].CAPTURED? ==>
          PageAddr(base, pageSize, i) in pages && pages[PageAddr(base, pageSize, i)] == PadBytes(page(i)))
  }

  /** Only the last captured page may be short. */
  ghost predicate PageLengths(page: nat -> Bytes, states: seq<PageState>, pageSize: nat) {
    && (forall i :: 0 <= i < |states| && states[i].CAPTURED? ==> |page(i)| <= pageSize)
    && (forall i, j :: 0 <= i < j < |states| && states[i].CAPTURED? && states[j].CAPTURED? ==> |page(i)| == pageSize)
  }

  lemma {:induction false} NoneCaptured(page: nat -> Bytes, states: seq<PageState>, first: nat)
    requires forall j :: 0 <= j < |states| ==> !states[j].CAPTURED?
    ensures CapturedData(page, states, first) == []
    decreases |states|
  {
    if states != [] {
      NoneCaptured(page, states[1..], first + 1);
    }
  }

  lemma PageAddrMonotone(base: int, pageSize: nat, i: nat, j: nat)
    requires i < j && pageSize > 0
    ensures PageAddr(base, pageSize, i) < PageAddr(base, pageSize, j)
  {
    MulAtLeast(pageSize, j - i);
    assert j * pageSize == i * pageSize + pageSize * (j - i);
  }

  lemma PadAligned(b: Bytes)
    requires |b| % 8 == 0
    ensures PadBytes(b) == b
  {
    PadSplit(b, []);
  }

  lemma ExactPagesNone(base: int, pageSize: nat, states: seq<PageState>, page: nat -> Bytes, i: nat)
    requires forall j :: i <= j < |states| ==> !states[j].CAPTURED?
    ensures ExactPages(map[], base, pageSize, states, page, i)
  {
  }

  lemma ExactPagesSkip(m: map<int, Bytes>, base: int, pageSize: nat, states: seq<PageState>, page: nat -> Bytes, i: nat)
    requires i < |states| && !states[i].CAPTURED?
    requires ExactPages(m, base, pageSize, states, page, i + 1)
    ensures ExactPages(m, base, pageSize, states, page, i)
  {
  }

  lemma ExactPagesAdd(
    m: map<int, Bytes>, base: int, pageSize: nat, states: seq<PageState>, page: nat -> Bytes, i: nat, bytes: Bytes)
    requires i < |states| && states[i].CAPTURED? && pageSize > 0
    requires bytes == PadBytes(page(i))
    requires ExactPages(m, base, pageSize, states, page, i + 1)
    ensures ExactPages(map[PageAddr(base, pageSize, i) := bytes] + m, base, pageSize, states, page, i)
  {
    forall k | i < k < |states| ensures PageAddr(base, pageSize, i) != PageAddr(base, pageSize, k) {
      PageAddrMonotone(base, pageSize, i, k);
    }
  }

  /** PagesFrom on the page states themselves rather than their packed form. */
  function PagesOf(states: seq<PageState>, data: Bytes, addr: int, pageSize: nat, off: nat): (m: map<int, Bytes>)
    decreases |states|
  {
    if states == [] then map[]
    else if states[0].CAPTURED? then
      map[addr := Slice(data, off, off + pageSize)]
      + PagesOf(states[1..], data, addr + pageSize, pageSize, off + pageSize)
    else PagesOf(states[1..], data, addr + pageSize, pageSize, off)
  }

  lemma {:induction false} PagesFromStates(
    psm: Bytes, states: seq<PageState>, data: Bytes, addr: int, pageSize: nat, i: nat, off: nat)
    requires i <= |states| <= 4 * |psm|
    requires forall k :: 0 <= k < |states| ==> PageStateAt(psm, k) == Code(states[k])
    ensures PagesFrom(psm, data, addr, pageSize, |states|, i, off) == PagesOf(states[i..], data, addr, pageSize, off)
    decreases |states| - i
  {
    if i < |states| {
      assert states[i..][1..] == states[i + 1..];
      var off' := if states[i].CAPTURED? then off + pageSize else off;
      PagesFromStates(psm, states, data, addr + pageSize, pageSize, i + 1, off');
      assert PageStateAt(psm, i) == Code(CAPTURED) <==> states[i].CAPTURED?;
    }
  }

  lemma {:induction false} PagesOfExact(
    data: Bytes, base: int, pageSize: nat, states: seq<PageState>, page: nat -> Bytes, i: nat, off: nat)
    requires pageSize > 0 && pageSize % 8 == 0
    requires i <= |states|
    requires PageLengths(page, states, pageSize)
    requires off <= |data|
    requires data[off..] == PadBytes(CapturedData(page, states[i..], i))
    ensures ExactPages(PagesOf(states[i..], data, PageAddr(base, pageSize, i), pageSize, off), base, pageSize, states,
                       page, i)
    decreases |states| - i
  {
    hide ExactPages, PageAddr, PageLengths;
    if i < |states| {
      PageAddrNext(base, pageSize, i);
      var addr := PageAddr(base, pageSize, i);
      assert states[i..][1..] == states[i + 1..];
      if !states[i].CAPTURED? {
        PagesOfExact(data, base, pageSize, states, page, i + 1, off);
        ExactPagesSkip(PagesOf(states[i + 1..], data, addr + pageSize, pageSize, off), base, pageSize, states, page, i);
      } else {
        PageCutOff(data, off, pageSize, states, page, i);
        var m := PagesOf(states[i + 1..], data, addr + pageSize, pageSize, off + pageSize);
        if CapturedAfter(states, i) {
          PagesOfExact(data, base, pageSize, states, page, i + 1, off + pageSize);
        } else {
          PagesOfNone(states[i + 1..], data, addr + pageSize, pageSize, off + pageSize);
          ExactPagesNone(base, pageSize, states, page, i + 1);
        }
        ExactPagesAdd(m, base, pageSize, states, page, i, Slice(data, off, off + pageSize));
      }
    } else {
      ExactPagesNone(base, pageSize, states, page, i);
    }
  }

  lemma PageAddrNext(base: int, pageSize: nat, i: nat)
    ensures PageAddr(base, pageSize, i + 1) == PageAddr(base, pageSize, i) + pageSize
  {
    MulStep(i, pageSize);
  }

  ghost predicate CapturedAfter(states: seq<PageState>, i: nat) {
    exists j :: i < j < |states| && states[j].CAPTURED?
  }

  lemma {:induction false} PagesOfNone(states: seq<PageState>, data: Bytes, addr: int, pageSize: nat, off: nat)
    requires forall j :: 0 <= j < |states| ==> !states[j].CAPTURED?
    ensures PagesOf(states, data, addr, pageSize, off) == map[]
    decreases |states|
  {
    if states != [] {
      PagesOfNone(states[1..], data, addr + pageSize, pageSize, off);
    }
  }

  /** The slice read for captured page `i` is its padded bytes, and the rest follows it. */
  lemma PageCutOff(data: Bytes, off: nat, pageSize: nat, states: seq<PageState>, page: nat -> Bytes, i: nat)
    requires pageSize % 8 == 0
    requires i < |states| && states[i].CAPTURED?
    requires PageLengths(page, states, pageSize)
    requires off <= |data|
    requires data[off..] == PadBytes(CapturedData(page, states[i..], i))
    ensures Slice(data, off, off + pageSize) == PadBytes(page(i))
    ensures CapturedAfter(states, i) ==>
              off + pageSize <= |data| && data[off + pageSize..] == PadBytes(CapturedData(page, states[i + 1..], i + 1))
  {
    assert states[i..][1..] == states[i + 1..];
    var rest := CapturedData(page, states[i + 1..], i + 1);
    assert CapturedData(page, states[i..], i) == page(i) + rest;
    if CapturedAfter(states, i) {
      PadSplit(page(i), rest);
      PadAligned(page(i));
      assert data[off + pageSize..] == data[off..][pageSize..];
      assert data[off..off + pageSize] == data[off..][..pageSize];
    } else {
      NoneCaptured(page, states[i + 1..], i + 1);
      assert page(i) + rest == page(i);
      PadWithin(page(i), pageSize);
    }
  }

  lemma PadWithin(b: Bytes, n: nat)
    requires |b| <= n && n % 8 == 0
    ensures |PadBytes(b)| <= n
  {
  }

  lemma Pow2Multiple8(k: nat)
    requires k >= 10
    ensures Pow2(k) % 8 == 0
  {
    assert Pow2(k) == 8 * Pow2(k - 3) by {
      assert Pow2(k - 1) == 2 * Pow2(k - 2);
    }
  }

  lemma RegionHeaderFields(r: MemoryRegion, rest: Bytes)
    requires RegionCheck(r).None?
    ensures var p := RegionHeader(r) + rest;
            FromLE(p[0..8]) == r.baseAddr && FromLE(p[8..16]) == r.regionSize
            && p[16] == r.protection && p[17] == r.regionType && p[18] == PageSizeLog2(r.pageSize)
            && FromLE(p[24..32]) == r.timestampNs
  {
    CutRegionHeader(LE(r.baseAddr, 8), LE(r.regionSize, 8), [r.protection, r.regionType, PageSizeLog2(r.pageSize)],
                    Zeros(5), LE(r.timestampNs, 8), rest);
    LE64(r.baseAddr);
    LE64(r.regionSize);
    LE64(r.timestampNs);
  }

  lemma CutRegionHeader(a: Bytes, b: Bytes, c: Bytes, d: Bytes, e: Bytes, rest: Bytes)
    requires |a| == 8 && |b| == 8 && |c| == 3 && |d| == 5 && |e| == 8
    ensures var p := a + b + c + d + e + rest;
            p[24..32] == e && p[0..8] == a && p[8..16] == b && p[16] == c[0] && p[17] == c[1] && p[18] == c[2]
  {
  }

  /** What the loader must recover from a region written with data `page(i)` for each captured page. */
  ghost predicate Recovered(e: EmuRegion, r: MemoryRegion, page: nat -> Bytes) {
    && e.base == r.baseAddr && e.size == r.regionSize && e.pageSize == r.pageSize
    && e.protection == r.protection && e.regionType == r.regionType
    && ExactPages(e.pages, r.baseAddr, r.pageSize, r.pageStates, page, 0)
  }

  /** Where the parser finds the parts of a written, padded payload. */
  lemma PayloadLayout(r: MemoryRegion)
    requires RegionCheck(r).None?
    ensures var p := PadBytes(RegionPayload(r));
            && |p| >= 32 && FromLE(p[0..8]) == r.baseAddr && FromLE(p[8..16]) == r.regionSize
            && p[16] == r.protection && p[17] == r.regionType && p[18] == PageSizeLog2(r.pageSize)
            && FromLE(p[24..32]) == r.timestampNs
            && StateMapOf(p, |r.pageStates|) == PadBytes(EncodedMap(r.pageStates))
            && DataOf(p, |r.pageStates|) == PadBytes(Join(r.pageDataChunks))
  {
    var psm := PadBytes(EncodedMap(r.pageStates));
    var data := PadBytes(Join(r.pageDataChunks));
    var p := PadBytes(RegionPayload(r));
    PadSplit2(RegionHeader(r), psm, Join(r.pageDataChunks));
    LayoutParts(RegionHeader(r), psm, data, |r.pageStates|);
    RegionHeaderFields(r, psm + data);
  }

  lemma LayoutParts(head: Bytes, psm: Bytes, data: Bytes, n: nat)
    requires |head| == 32 && |psm| == Pad8((n + 3) / 4)
    ensures var p := head + psm + data;
            p == head + (psm + data) && StateMapOf(p, n) == psm && DataOf(p, n) == data
  {
    var q := Pad8((n + 3) / 4);
    Cut(head, psm, data, head + psm + data);
  }

  lemma PageCountOf(r: MemoryRegion)
    requires RegionCheck(r).None?
    ensures ShiftRight(r.regionSize, PageSizeLog2(r.pageSize)) == |r.pageStates|
  {
    RegionSizeOf(r);
    ShiftRightMultiple(|r.pageStates|, PageSizeLog2(r.pageSize));
  }

  lemma StateMapReadBack(states: seq<PageState>)
    ensures var psm := PadBytes(EncodedMap(states));
            |states| <= 4 * |psm| && forall k :: 0 <= k < |states| ==> PageStateAt(psm, k) == Code(states[k])
  {
    var map_ := EncodedMap(states);
    var psm := PadBytes(map_);
    forall k | 0 <= k < |states| ensures PageStateAt(psm, k) == Code(states[k]) {
      MapRoundTrip(states, k);
      assert psm[k / 4] == psm[..|map_|][k / 4];
    }
  }

  /** Page fidelity of the format: padding, the packed map and the implied offsets lose nothing. */
  lemma RegionRoundTrip(r: MemoryRegion, page: nat -> Bytes)
    requires RegionCheck(r).None?
    requires PageLengths(page, r.pageStates, r.pageSize)
    requires Join(r.pageDataChunks) == CapturedData(page, r.pageStates, 0)
    ensures ParsedRegion(PadBytes(RegionPayload(r))).Some?
    ensures Recovered(ParsedRegion(PadBytes(RegionPayload(r))).value, r, page)
  {
    PayloadLayout(r);
    PageCountOf(r);
    StateMapReadBack(r.pageStates);
    Pow2Multiple8(PageSizeLog2(r.pageSize));
    assert r.pageStates[0..] == r.pageStates;
    var data := PadBytes(Join(r.pageDataChunks));
    PagesFromStates(PadBytes(EncodedMap(r.pageStates)), r.pageStates, data, r.baseAddr, r.pageSize, 0, 0);
    PagesOfExact(data, r.baseAddr, r.pageSize, r.pageStates, page, 0, 0);
  }
}
