/** What the enricher reads of a slice, and how it compares with what the loader makes of the same bytes. */
module EnrichView {
  import opened ByteStrings
  import opened Bits
  import opened PageMap
  import opened MemoryRegions
  import opened Integrity
  import opened Compression
  import opened Blocks
  import opened BlockStream
  import opened Modules
  import opened Threads
  import opened Writer
  import opened SliceFile
  import opened Loader

  // ---------------------------------------------------------- region parser

  /** A region as the enricher sees it: only its first page, when captured. */
  datatype ThinRegion = ThinRegion(base: nat, size: nat, firstPage: Option<Bytes>)

  /** `_parse_memory_region_for_enrich`; None where it raises. */
  function ParsedThinRegion(p: Bytes): (r: Option<ThinRegion>) {
    if |p| < 19 then None
    else
      var base, size := FromLE(p[0..8]), FromLE(p[8..16]);
      var pageSize := Pow2(p[18]);
      if size % pageSize != 0 then Some(ThinRegion(base, size, None))
      else
        var n := size / pageSize;
        var psm := StateMapOf(p, n);
        if n == 0 || |psm| == 0 then Some(ThinRegion(base, size, None))
        else
          var code := PageStateAt(psm, 0);
          if code == 3 then None
          else Some(ThinRegion(base, size,
                               if code == Code(CAPTURED) then Some(Slice(DataOf(p, n), 0, pageSize)) else None))
  }

  lemma {:induction false} ShiftRightIsDivision(a: nat, k: nat)
    ensures ShiftRight(a, k) == a / Pow2(k)
  {
    if k > 0 {
      ShiftRightIsDivision(a / 2, k - 1);
      var p := Pow2(k - 1);
      var q, r := a / 2 / p, a / 2 % p;
      assert a == 2 * p * q + (2 * r + a % 2) by {
        assert 2 * (p * q) == 2 * p * q;
      }
      ModUnique(a, 2 * p, q, 2 * r + a % 2);
    } else {
      assert a / 1 == a;
    }
  }

  lemma {:induction false} PagesFromKeys(psm: Bytes, data: Bytes, addr: int, pageSize: nat, n: nat, i: nat, off: nat)
    requires i <= n <= 4 * |psm|
    ensures forall a :: a in PagesFrom(psm, data, addr, pageSize, n, i, off) ==> a >= addr
    decreases n - i
  {
    hide PageStateAt;
    if i < n {
      PagesFromKeys(psm, data, addr + pageSize, pageSize, n, i + 1, off + pageSize);
      PagesFromKeys(psm, data, addr + pageSize, pageSize, n, i + 1, off);
    }
  }

  /** The loader's view of the first page. */
  function FirstPage(e: EmuRegion): (p: Option<Bytes>) {
    if e.base in e.pages then Some(e.pages[e.base]) else None
  }

  lemma FirstPageOf(psm: Bytes, data: Bytes, base: int, pageSize: nat, n: nat)
    requires 0 < n <= 4 * |psm| && pageSize > 0
    ensures var m := PagesFrom(psm, data, base, pageSize, n, 0, 0);
            && (base in m <==> PageStateAt(psm, 0) == Code(CAPTURED))
            && (base in m ==> m[base] == Slice(data, 0, pageSize))
  {
    hide PageStateAt;
    PagesFromKeys(psm, data, base + pageSize, pageSize, n, 1, pageSize);
    PagesFromKeys(psm, data, base + pageSize, pageSize, n, 1, 0);
  }

  /**
   * Wherever both parsers succeed they agree on base and size, and on the first page exactly when
   * the size is a whole number of pages or the loader has no first page either.
   */
  lemma RegionParsersAgree(p: Bytes)
    requires ParsedRegion(p).Some? && ParsedThinRegion(p).Some?
    ensures var e, t := ParsedRegion(p).value, ParsedThinRegion(p).value;
            && e.base == t.base && e.size == t.size
            && (t.firstPage == FirstPage(e) <==> e.size % e.pageSize == 0 || FirstPage(e).None?)
  {
    hide PageStateAt, ShiftRight, Pow2;
    ShiftRightIsDivision(FromLE(p[8..16]), p[18]);
    var n := PageCount(p);
    if n > 0 {
      FirstPageOf(StateMapOf(p, n), DataOf(p, n), FromLE(p[0..8]), Pow2(p[18]), n);
    }
  }

  /**
   * On arbitrary bytes: parsing raises exactly on a short header or, for a whole number of pages, on a first page of
   * an unknown state. There is a first page exactly when the size is a whole, positive number of pages and its state
   * is 0; its bytes come right behind the padded state map.
   */
  lemma ThinRegionMeans(p: Bytes)
    ensures ParsedThinRegion(p).None? <==>
            |p| < 19 || (|p| > 32 && p[32] >= 0xC0 && FromLE(p[8..16]) > 0 && FromLE(p[8..16]) % Pow2(p[18]) == 0)
    ensures ParsedThinRegion(p).Some? ==>
              var t, size, pageSize := ParsedThinRegion(p).value, FromLE(p[8..16]), Pow2(p[18]);
              && t.base == FromLE(p[0..8]) && t.size == size
              && (t.firstPage.Some? <==> |p| > 32 && p[32] < 0x40 && size > 0 && size % pageSize == 0)
              && (t.firstPage.Some? ==>
                    var at := 32 + Pad8((size / pageSize + 3) / 4); t.firstPage.value == Slice(p, at, at + pageSize))
  {
    hide Pow2, FromLE, PageStateAt, StateMapOf, DataOf;
    if |p| >= 19 {
      var size, pageSize := FromLE(p[8..16]), Pow2(p[18]);
      var n := size / pageSize;
      PagePositive(size, pageSize);
      if size % pageSize == 0 && n > 0 {
        FirstState(p, n);
        DataStart(p, n, pageSize);
      }
    }
  }

  lemma PagePositive(size: nat, pageSize: nat)
    requires pageSize > 0
    ensures size % pageSize == 0 ==> (size / pageSize > 0 <==> size > 0)
  {
  }

  lemma FirstState(p: Bytes, n: nat)
    requires n > 0
    ensures |StateMapOf(p, n)| > 0 <==> |p| > 32
    ensures |p| > 32 ==> PageStateAt(StateMapOf(p, n), 0) == p[32] / 64
  {
    hide Weight;
    WeightValues();
    assert Weight(0) == Pow2(6);
  }

  lemma DataStart(p: Bytes, n: nat, pageSize: nat)
    ensures var at := 32 + Pad8((n + 3) / 4); Slice(DataOf(p, n), 0, pageSize) == Slice(p, at, at + pageSize)
  {
    hide Pad8;
    SliceTwice(p, 32 + Pad8((n + 3) / 4), pageSize);
  }

  lemma SliceTwice(p: Bytes, at: nat, n: nat)
    ensures Slice(Slice(p, at, |p|), 0, n) == Slice(p, at, at + n)
  {
  }

  /** A region of one page and one byte, its first page captured. */
  function OddRegion(): (p: Bytes)
    ensures |p| == 40
  {
    LE(0, 8) + LE(1025, 8) + [0, 0, 10] + Zeros(21)
  }

  /** An accepted payload on which the parsers disagree: the loader has a first page, the enricher none. */
  lemma OddSizeDisagrees()
    ensures var e, t := ParsedRegion(OddRegion()), ParsedThinRegion(OddRegion());
            && e.Some? && t.Some? && FirstPage(e.value).Some? && t.value.firstPage == None
  {
    hide OddRegion, FromLE, PageStateAt, ShiftRight, Pow2, PagesFrom, StateMapOf, DataOf;
    var p := OddRegion();
    OddFields();
    ThousandTwentyFour();
    ShiftRightIsDivision(1025, 10);
    OddMap();
    FirstPageOf(StateMapOf(p, 1), DataOf(p, 1), 0, 1024, 1);
  }

  lemma OddFields()
    ensures var p := OddRegion(); FromLE(p[0..8]) == 0 && FromLE(p[8..16]) == 1025 && p[18] == 10
  {
    hide LE, FromLE;
    Cut(LE(0, 8), LE(1025, 8), [0, 0, 10] + Zeros(21), OddRegion());
    LE64(1025);
    LE64(0);
  }

  lemma ThousandTwentyFour()
    ensures Pow2(10) == 1024
  {
    assert Pow2(5) == 32;
  }

  lemma OddMap()
    ensures |StateMapOf(OddRegion(), 1)| == 8 && PageStateAt(StateMapOf(OddRegion(), 1), 0) == Code(CAPTURED)
  {
    hide LE;
    assert StateMapOf(OddRegion(), 1)[0] == 0;
  }

  /** Same base, size and first page. */
  predicate SameRegion(t: ThinRegion, e: EmuRegion) {
    t.base == e.base && t.size == e.size && t.firstPage == FirstPage(e)
  }

  /** Every written region is accepted by both parsers, and both see the same of it. */
  lemma WrittenRegion(r: MemoryRegion)
    requires RegionCheck(r).None?
    ensures var p := PadBytes(RegionPayload(r));
            && ParsedRegion(p).Some? && ParsedThinRegion(p).Some?
            && ParsedRegion(p).value.size % ParsedRegion(p).value.pageSize == 0
            && SameRegion(ParsedThinRegion(p).value, ParsedRegion(p).value)
  {
    hide PageStateAt, ShiftRight, Pow2, PadBytes, RegionPayload, FromLE, EncodedMap, RegionCheck, PagesFrom, StateMapOf;
    hide DataOf;
    var p := PadBytes(RegionPayload(r));
    PayloadLayout(r);
    PageCountOf(r);
    StateMapReadBack(r.pageStates);
    WholeSize(r);
    RegionParsersAgree(p);
  }

  lemma WholeSize(r: MemoryRegion)
    requires RegionCheck(r).None?
    ensures r.pageSize > 0 && r.regionSize % r.pageSize == 0 && r.regionSize / r.pageSize == |r.pageStates|
    ensures r.pageSize == Pow2(PageSizeLog2(r.pageSize))
  {
    hide PageSizeLog2, Pow2;
  }

  // ------------------------------------------------------------- slice view

  /** What `_load_slice` collects: modules, thin regions and the offset of the EndOfCapture block. */
  datatype SliceView = SliceView(modules: seq<ModuleEntry>, regions: seq<ThinRegion>, eocStart: Option<nat>)

  const EMPTY_VIEW := SliceView([], [], None)

  /** What one block adds to the view; None where its parser raises. */
  function ViewRecord(v: SliceView, rec: BlockRecord): (r: Option<SliceView>) {
    if rec.btype == MODULE_ENTRY then
      match ParsedEntry(rec.payload)
      case None => None
      case Some(entry) => Some(v.(modules := v.modules + [entry]))
    else if rec.btype == MEMORY_REGION then
      match ParsedThinRegion(rec.payload)
      case None => None
      case Some(region) => Some(v.(regions := v.regions + [region]))
    else if rec.btype == END_OF_CAPTURE then Some(v.(eocStart := Some(rec.start)))
    else Some(v)
  }

  function ViewRecords(v: SliceView, records: seq<BlockRecord>): (r: Option<SliceView>)
    decreases |records|
  {
    if records == [] then Some(v)
    else
      match ViewRecord(v, records[0])
      case None => None
      case Some(next) => ViewRecords(next, records[1..])
  }

  /** `_load_slice`; None where it raises. */
  function Viewed(c: Codec, file: Bytes): (r: Option<SliceView>) {
    var it := Iterated(c, file);
    var v := ViewRecords(EMPTY_VIEW, it.records);
    if it.error.Some? || v.None? || v.value.eocStart.None? then None else v
  }

  method LoadSliceView(c: Codec, file: Bytes) returns (r: Option<SliceView>)
    ensures r == Viewed(c, file)
  {
    hide ViewRecord, Iterated;
    var records, error := IterateBlocks(c, file);
    var view := EMPTY_VIEW;
    for i := 0 to |records|
      invariant ViewRecords(view, records[i..]) == ViewRecords(EMPTY_VIEW, records)
    {
      assert records[i..][1..] == records[i + 1..];
      var next := ViewRecord(view, records[i]);
      if next.None? {
        return None;
      }
      view := next.value;
    }
    r := if error.Some? || view.eocStart.None? then None else Some(view);
  }

  lemma {:induction false} ViewAppend(v: SliceView, a: seq<BlockRecord>, b: seq<BlockRecord>)
    ensures ViewRecords(v, a + b) == var m := ViewRecords(v, a); if m.None? then None else ViewRecords(m.value, b)
    decreases |a|
  {
    hide ViewRecord;
    if a == [] {
      assert a + b == b;
    } else {
      assert (a + b)[1..] == a[1..] + b && (a + b)[0] == a[0];
      var next := ViewRecord(v, a[0]);
      if next.Some? {
        ViewAppend(next.value, a[1..], b);
      }
    }
  }

  ghost predicate NoneEnds(records: seq<BlockRecord>) {
    forall i :: 0 <= i < |records| ==> records[i].btype != END_OF_CAPTURE
  }

  /** Only the last block of an iteration can be an EndOfCapture block. */
  lemma {:induction false} EndIsLast(c: Codec, f: Bytes, pos: nat)
    requires pos <= |f|
    ensures var r := IterateFrom(c, f, pos).records; r != [] ==> NoneEnds(r[..|r| - 1])
    decreases |f| - pos
  {
    hide ReadBlock;
    var s := ReadBlock(c, f, pos);
    if s.Got? && s.rec.btype != END_OF_CAPTURE {
      EndIsLast(c, f, s.rec.end);
      var r, rest := IterateFrom(c, f, pos).records, IterateFrom(c, f, s.rec.end).records;
      assert rest != [] ==> r[..|r| - 1] == [s.rec] + rest[..|rest| - 1];
    }
  }

  lemma {:induction false} NoEnd(v: SliceView, records: seq<BlockRecord>)
    requires ViewRecords(v, records).Some? && NoneEnds(records)
    ensures ViewRecords(v, records).value.eocStart == v.eocStart
    decreases |records|
  {
    hide ParsedEntry, ParsedThinRegion;
    if records != [] {
      NoEnd(ViewRecord(v, records[0]).value, records[1..]);
    }
  }

  /** The cut point is the start of the last block, an EndOfCapture block. */
  lemma ViewedEnd(c: Codec, file: Bytes)
    requires Viewed(c, file).Some?
    ensures var it, v := Iterated(c, file), Viewed(c, file).value;
            var n := |it.records| - 1;
            && it.error.None? && n >= 0 && it.records[n].btype == END_OF_CAPTURE
            && v.eocStart == Some(it.records[n].start)
            && ViewRecords(EMPTY_VIEW, it.records[..n]) == Some(v.(eocStart := None))
  {
    hide ReadBlock, ParsedEntry, ParsedThinRegion, HeaderError, IterateFrom, ViewRecords;
    var recs := Iterated(c, file).records;
    NothingViewed();
    assert recs != [];
    EndIsLast(c, file, HEADER_SIZE);
    var n := |recs| - 1;
    assert recs == recs[..n] + [recs[n]];
    ViewAppend(EMPTY_VIEW, recs[..n], [recs[n]]);
    NoEnd(EMPTY_VIEW, recs[..n]);
    OneViewed(ViewRecords(EMPTY_VIEW, recs[..n]).value, recs[n]);
    if recs[n].btype != END_OF_CAPTURE {
      NoEnd(EMPTY_VIEW, recs);
    }
  }

  lemma ViewOfRecords(c: Codec, file: Bytes, v: SliceView)
    requires Iterated(c, file).error.None? && ViewRecords(EMPTY_VIEW, Iterated(c, file).records) == Some(v)
             && v.eocStart.Some?
    ensures Viewed(c, file) == Some(v)
  {
  }

  lemma NothingViewed()
    ensures ViewRecords(EMPTY_VIEW, []) == Some(EMPTY_VIEW)
  {
  }

  lemma OneViewed(v: SliceView, rec: BlockRecord)
    ensures ViewRecords(v, [rec]) == ViewRecord(v, rec)
  {
    assert [rec][1..] == [];
  }

  // --------------------------------------------------- the view and the image

  ghost predicate RegionsMatch(ts: seq<ThinRegion>, es: seq<EmuRegion>) {
    |ts| == |es| && forall k :: 0 <= k < |ts| ==> RegionMatches(ts[k], es[k])
  }

  /** Same base and size, and the same first page exactly when the size is whole or the loader has none. */
  predicate RegionMatches(t: ThinRegion, e: EmuRegion) {
    && t.base == e.base && t.size == e.size && e.pageSize > 0
    && (t.firstPage == FirstPage(e) <==> (e.size % e.pageSize == 0 || FirstPage(e).None?))
  }

  ghost predicate ModulesMatch(ms: seq<ModuleEntry>, es: seq<EmuModule>) {
    |ms| == |es| && forall k :: 0 <= k < |ms| ==> ms[k].baseAddr == es[k].base && ms[k].moduleSize == es[k].size
  }

  ghost predicate ViewMatches(v: SliceView, img: SliceImage) {
    RegionsMatch(v.regions, img.regions) && ModulesMatch(v.modules, img.modules)
  }

  lemma MatchOne(v: SliceView, img: SliceImage, rec: BlockRecord)
    requires ViewMatches(v, img) && ViewRecord(v, rec).Some? && AddRecord(img, rec).Some?
    ensures ViewMatches(ViewRecord(v, rec).value, AddRecord(img, rec).value)
  {
    hide ParsedRegion, ParsedThinRegion, ParsedThread, ParsedModule, ParsedEntry, FirstPage;
    if rec.btype == MEMORY_REGION {
      RegionParsersAgree(rec.payload);
      PageSizePositive(rec.payload);
    } else if rec.btype == MODULE_ENTRY {
      ParsersAgree(rec.payload);
    }
  }

  lemma PageSizePositive(p: Bytes)
    requires ParsedRegion(p).Some?
    ensures ParsedRegion(p).value.pageSize > 0
  {
  }

  /** Whatever file both load, the enricher and the loader see the same regions and modules. */
  lemma {:induction false} MatchRecords(v: SliceView, img: SliceImage, records: seq<BlockRecord>)
    requires ViewMatches(v, img) && ViewRecords(v, records).Some? && AddRecords(img, records).Some?
    ensures ViewMatches(ViewRecords(v, records).value, AddRecords(img, records).value)
    decreases |records|
  {
    hide ViewRecord, AddRecord, ViewMatches;
    if records != [] {
      MatchOne(v, img, records[0]);
      MatchRecords(ViewRecord(v, records[0]).value, AddRecord(img, records[0]).value, records[1..]);
    }
  }

  lemma ViewIsImage(c: Codec, file: Bytes)
    requires Viewed(c, file).Some? && LoadedImage(c, file).Some?
    ensures ViewMatches(Viewed(c, file).value, LoadedImage(c, file).value)
  {
    hide ViewRecords, AddRecords, Iterated;
    MatchRecords(EMPTY_VIEW, EmptyImage(file), Iterated(c, file).records);
  }

  // --------------------------------------------------------- written slices

  /** Regions and modules are laid out as the writer does; module hashes have their 32 bytes. */
  ghost predicate WrittenBlock(b: Block) {
    && (b.btype == MEMORY_REGION ==> exists r :: RegionCheck(r).None? && b.payload == RegionPayload(r))
    && (b.btype == MODULE_ENTRY ==> exists m :: ModuleFits(m) && |m.diskHash| == 32 && b.payload == ModulePayload(m))
  }

  ghost predicate AllWritten(blocks: seq<Block>) {
    forall i :: 0 <= i < |blocks| ==> WrittenBlock(blocks[i])
  }

  /** Every region of an image has a whole number of pages. */
  ghost predicate AllWhole(es: seq<EmuRegion>) {
    forall k :: 0 <= k < |es| ==> es[k].pageSize > 0 && es[k].size % es[k].pageSize == 0
  }

  lemma ViewWrittenOne(c: Codec, b: Block, pos: nat, v: SliceView)
    requires Writable(c, b) && WrittenBlock(b)
    ensures ViewRecord(v, RecordOf(c, b, pos)).Some?
    ensures b.btype == END_OF_CAPTURE || v.eocStart.Some? ==> ViewRecord(v, RecordOf(c, b, pos)).value.eocStart.Some?
  {
    hide BlockBytes, Writable, ParsedRegion, ParsedThinRegion, ParsedModule, ParsedEntry, RegionPayload, ModulePayload;
    hide PadBytes;
    hide RegionCheck;
    if b.btype == MEMORY_REGION {
      var r :| RegionCheck(r).None? && b.payload == RegionPayload(r);
      WrittenRegion(r);
    } else if b.btype == MODULE_ENTRY {
      var m :| ModuleFits(m) && |m.diskHash| == 32 && b.payload == ModulePayload(m);
      WrittenParsed(m);
    }
  }

  lemma {:induction false} ViewWritten(c: Codec, blocks: seq<Block>, pos: nat, v: SliceView)
    requires AllWritable(c, blocks) && AllWritten(blocks) && |blocks| > 0
             && blocks[|blocks| - 1].btype == END_OF_CAPTURE
    ensures var r := ViewRecords(v, RecordsOf(c, blocks, pos)); r.Some? && r.value.eocStart.Some?
    decreases |blocks|
  {
    hide BlockBytes, Writable, ViewRecord, WrittenBlock;
    var b := blocks[0];
    ViewWrittenOne(c, b, pos, v);
    var next := ViewRecord(v, RecordOf(c, b, pos)).value;
    assert RecordsOf(c, blocks, pos)[1..] == RecordsOf(c, blocks[1..], RecordOf(c, b, pos).end);
    if |blocks| > 1 {
      ViewWritten(c, blocks[1..], RecordOf(c, b, pos).end, next);
    } else {
      assert blocks[1..] == [];
    }
  }

  lemma WholeOne(c: Codec, b: Block, pos: nat, img: SliceImage)
    requires Writable(c, b) && WrittenBlock(b) && AllWhole(img.regions) && AddRecord(img, RecordOf(c, b, pos)).Some?
    ensures AllWhole(AddRecord(img, RecordOf(c, b, pos)).value.regions)
  {
    hide BlockBytes, Writable, ParsedRegion, ParsedThinRegion, ParsedModule, ParsedThread, RegionPayload, ModulePayload;
    hide PadBytes;
    hide RegionCheck, ModuleFits, SameRegion;
    if b.btype == MEMORY_REGION {
      var r :| RegionCheck(r).None? && b.payload == RegionPayload(r);
      WrittenRegion(r);
      PageSizePositive(PadBytes(b.payload));
    }
  }

  lemma {:induction false} WholeWritten(c: Codec, blocks: seq<Block>, pos: nat, img: SliceImage)
    requires AllWritable(c, blocks) && AllWritten(blocks) && AllWhole(img.regions)
    requires AddRecords(img, RecordsOf(c, blocks, pos)).Some?
    ensures AllWhole(AddRecords(img, RecordsOf(c, blocks, pos)).value.regions)
    decreases |blocks|
  {
    hide BlockBytes, Writable, AddRecord, WrittenBlock, AllWhole;
    if blocks != [] {
      var b := blocks[0];
      assert RecordsOf(c, blocks, pos)[1..] == RecordsOf(c, blocks[1..], RecordOf(c, b, pos).end);
      WholeOne(c, b, pos, img);
      WholeWritten(c, blocks[1..], RecordOf(c, b, pos).end, AddRecord(img, RecordOf(c, b, pos)).value);
    }
  }

  /** Region for region and module for module, the view is the image. */
  ghost predicate ViewEquals(v: SliceView, img: SliceImage) {
    && ModulesMatch(v.modules, img.modules)
    && |v.regions| == |img.regions| && forall k :: 0 <= k < |v.regions| ==> SameRegion(v.regions[k], img.regions[k])
  }

  /** The enricher reads every finished slice of written blocks, and sees of it what the loader sees. */
  lemma WrittenViewed(c: Codec, h: FileHeader, blocks: seq<Block>)
    requires CodecOk(c) && AllWritable(c, blocks) && Closed(blocks) && ReadableHeader(h) && AllWritten(blocks)
    ensures var file := BaseHeader(h, 64) + Stream(c, blocks);
            && Viewed(c, file).Some?
            && (LoadedImage(c, file).Some? ==> ViewEquals(Viewed(c, file).value, LoadedImage(c, file).value))
  {
    hide BaseHeader, Stream, BlockBytes, Writable, Iterated, AddRecords, ViewRecords, RecordsOf, CodecOk, WrittenBlock;
    var file := BaseHeader(h, 64) + Stream(c, blocks);
    FileRoundTrip(c, h, blocks);
    ViewWritten(c, blocks, HEADER_SIZE, EMPTY_VIEW);
    if LoadedImage(c, file).Some? {
      ViewIsImage(c, file);
      WholeWritten(c, blocks, HEADER_SIZE, EmptyImage(file));
    }
  }
}
