/** Loading a slice file into an image: regions, threads and modules, in block order. */
module Loader {
  import opened ByteStrings
  import opened Integrity
  import opened Compression
  import opened Blocks
  import opened BlockStream
  import opened MemoryRegions
  import opened Threads
  import opened Modules
  import opened Writer
  import opened SliceFile

  datatype SliceImage = SliceImage(
    arch: nat, os: nat, regions: seq<EmuRegion>, threads: seq<EmuThread>, modules: seq<EmuModule>)

  const UNKNOWN_OS := 0xFFFF

  function ArchCode(code: nat): (a: nat) {
    if code <= 11 then code else UNKNOWN_ARCH
  }

  function OsCode(code: nat): (o: nat) {
    if code <= 9 then code else UNKNOWN_OS
  }

  /** What one block adds to the image; None where its parser raises. */
  function AddRecord(img: SliceImage, rec: BlockRecord): (r: Option<SliceImage>) {
    if rec.btype == MEMORY_REGION then
      match ParsedRegion(rec.payload)
      case None => None
      case Some(region) => Some(img.(regions := img.regions + [region]))
    else if rec.btype == THREAD_CONTEXT then
      match ParsedThread(rec.payload, img.arch)
      case None => None
      case Some(thread) => Some(img.(threads := img.threads + [thread]))
    else if rec.btype == MODULE_ENTRY then
      match ParsedModule(rec.payload)
      case None => None
      case Some(mod_) => Some(img.(modules := img.modules + [mod_]))
    else Some(img)
  }

  function AddRecords(img: SliceImage, records: seq<BlockRecord>): (r: Option<SliceImage>)
    decreases |records|
  {
    if records == [] then Some(img)
    else
      match AddRecord(img, records[0])
      case None => None
      case Some(next) => AddRecords(next, records[1..])
  }

  function EmptyImage(file: Bytes): (img: SliceImage)
    requires |file| >= 0x34
  {
    SliceImage(ArchCode(Get16(file[0x32..0x34])), OsCode(Get16(file[0x30..0x32])), [], [], [])
  }

  /** `load_slice`; None where it raises. */
  function LoadedImage(c: Codec, file: Bytes): (r: Option<SliceImage>) {
    if |file| < 0x34 || file[..8] != FILE_MAGIC then None
    else
      var it := Iterated(c, file);
      var img := AddRecords(EmptyImage(file), it.records);
      if it.error.Some? then None else img
  }

  /** On arbitrary bytes: a slice loads exactly when its header is whole enough and everything iterated parses. */
  lemma LoadedMeans(c: Codec, file: Bytes)
    ensures LoadedImage(c, file).Some? <==>
            |file| >= 0x3E && Iterated(c, file).error.None?
            && AddRecords(EmptyImage(file), Iterated(c, file).records).Some?
  {
    hide AddRecords, IterateFrom, FromLE;
    HeaderMeans(file);
  }

  method LoadSlice(c: Codec, file: Bytes) returns (r: Option<SliceImage>)
    ensures r == LoadedImage(c, file)
  {
    hide AddRecord, Iterated, EmptyImage;
    if |file| < 0x34 || file[..8] != FILE_MAGIC {
      return None;
    }
    var image := EmptyImage(file);
    var records, error := IterateBlocks(c, file);
    for i := 0 to |records|
      invariant AddRecords(image, records[i..]) == AddRecords(EmptyImage(file), records)
    {
      assert records[i..][1..] == records[i + 1..];
      var next := AddRecord(image, records[i]);
      if next.None? {
        return None;
      }
      image := next.value;
    }
    r := if error.Some? then None else Some(image);
  }

  // ------------------------------------------------ images of written blocks

  /** The image part a written block must yield. */
  ghost predicate Parses(b: Block, arch: nat) {
    && (b.btype == MEMORY_REGION ==> ParsedRegion(PadBytes(b.payload)).Some?)
    && (b.btype == THREAD_CONTEXT ==> ParsedThread(PadBytes(b.payload), arch).Some?)
    && (b.btype == MODULE_ENTRY ==> ParsedModule(PadBytes(b.payload)).Some?)
  }

  ghost predicate AllParse(blocks: seq<Block>, arch: nat) {
    forall i :: 0 <= i < |blocks| ==> Parses(blocks[i], arch)
  }

  ghost function RegionPart(b: Block): (r: seq<EmuRegion>)
    requires b.btype == MEMORY_REGION ==> ParsedRegion(PadBytes(b.payload)).Some?
  {
    if b.btype == MEMORY_REGION then [ParsedRegion(PadBytes(b.payload)).value] else []
  }

  ghost function ThreadPart(b: Block, arch: nat): (r: seq<EmuThread>)
    requires Parses(b, arch)
  {
    if b.btype == THREAD_CONTEXT then [ParsedThread(PadBytes(b.payload), arch).value] else []
  }

  ghost function ModulePart(b: Block): (r: seq<EmuModule>)
    requires b.btype == MODULE_ENTRY ==> ParsedModule(PadBytes(b.payload)).Some?
  {
    if b.btype == MODULE_ENTRY then [ParsedModule(PadBytes(b.payload)).value] else []
  }

  ghost function RegionsOf(blocks: seq<Block>, arch: nat): (r: seq<EmuRegion>)
    requires AllParse(blocks, arch)
  {
    if blocks == [] then [] else assert Parses(blocks[0], arch); RegionPart(blocks[0]) + RegionsOf(blocks[1..], arch)
  }

  ghost function ThreadsOf(blocks: seq<Block>, arch: nat): (r: seq<EmuThread>)
    requires AllParse(blocks, arch)
  {
    if blocks == [] then [] else ThreadPart(blocks[0], arch) + ThreadsOf(blocks[1..], arch)
  }

  ghost function ModulesOf(blocks: seq<Block>, arch: nat): (r: seq<EmuModule>)
    requires AllParse(blocks, arch)
  {
    if blocks == [] then [] else assert Parses(blocks[0], arch); ModulePart(blocks[0]) + ModulesOf(blocks[1..], arch)
  }

  ghost function Extend(img: SliceImage, rs: seq<EmuRegion>, ts: seq<EmuThread>, ms: seq<EmuModule>): (r: SliceImage)
    ensures r.arch == img.arch && r.os == img.os
  {
    img.(regions := img.regions + rs, threads := img.threads + ts, modules := img.modules + ms)
  }

  lemma ExtendNothing(img: SliceImage)
    ensures Extend(img, [], [], []) == img
  {
    assert img.regions + [] == img.regions && img.threads + [] == img.threads && img.modules + [] == img.modules;
  }

  lemma AddOne(c: Codec, b: Block, pos: nat, img: SliceImage)
    requires Writable(c, b) && Parses(b, img.arch)
    ensures AddRecord(img, RecordOf(c, b, pos))
            == Some(Extend(img, RegionPart(b), ThreadPart(b, img.arch), ModulePart(b)))
  {
    hide BlockBytes, Writable, ParsedRegion, ParsedThread, ParsedModule;
    assert img.regions + [] == img.regions && img.threads + [] == img.threads && img.modules + [] == img.modules;
  }

  lemma ExtendTwice(
    img: SliceImage, r1: seq<EmuRegion>, t1: seq<EmuThread>, m1: seq<EmuModule>, r2: seq<EmuRegion>, t2: seq<EmuThread>,
    m2: seq<EmuModule>)
    ensures Extend(Extend(img, r1, t1, m1), r2, t2, m2) == Extend(img, r1 + r2, t1 + t2, m1 + m2)
  {
  }

  lemma {:induction false} AddWritten(c: Codec, blocks: seq<Block>, pos: nat, img: SliceImage)
    requires AllWritable(c, blocks) && AllParse(blocks, img.arch)
    ensures AddRecords(img, RecordsOf(c, blocks, pos))
            == Some(Extend(img, RegionsOf(blocks, img.arch), ThreadsOf(blocks, img.arch), ModulesOf(blocks, img.arch)))
    decreases |blocks|
  {
    hide BlockBytes, Writable, AddRecord, RegionPart, ThreadPart, ModulePart, Extend;
    var arch := img.arch;
    if blocks == [] {
      ExtendNothing(img);
    } else {
      var b := blocks[0];
      assert Parses(b, arch);
      AddOne(c, b, pos, img);
      hide Parses;
      var next := Extend(img, RegionPart(b), ThreadPart(b, arch), ModulePart(b));
      assert RecordsOf(c, blocks, pos)[1..] == RecordsOf(c, blocks[1..], RecordOf(c, b, pos).end);
      ExtendTwice(img, RegionPart(b), ThreadPart(b, arch), ModulePart(b),
                  RegionsOf(blocks[1..], arch), ThreadsOf(blocks[1..], arch), ModulesOf(blocks[1..], arch));
      AddWritten(c, blocks[1..], RecordOf(c, b, pos).end, next);
    }
  }

  /** Loading a finished slice gives the parts of its blocks, in block order. */
  lemma LoadWritten(c: Codec, h: FileHeader, blocks: seq<Block>)
    requires CodecOk(c) && AllWritable(c, blocks) && Closed(blocks) && ReadableHeader(h)
    requires AllParse(blocks, ArchCode(h.archType))
    ensures var arch := ArchCode(h.archType);
            LoadedImage(c, BaseHeader(h, 64) + Stream(c, blocks))
            == Some(SliceImage(arch, OsCode(h.osType), RegionsOf(blocks, arch), ThreadsOf(blocks, arch),
                               ModulesOf(blocks, arch)))
    ensures ArchCode(h.archType) == if h.archType < 12 then h.archType else 0xFFFF
    ensures OsCode(h.osType) == if h.osType < 10 then h.osType else 0xFFFF
  {
    hide BaseHeader, BlockBytes, Writable, Iterated, AddRecords, RegionsOf, ThreadsOf, ModulesOf;
    var file := BaseHeader(h, 64) + Stream(c, blocks);
    var arch := ArchCode(h.archType);
    FileRoundTrip(c, h, blocks);
    BaseHeaderFields(h, 64, Stream(c, blocks));
    assert file[..8] == file[0..8];
    AddWritten(c, blocks, HEADER_SIZE, EmptyImage(file));
    assert [] + RegionsOf(blocks, arch) == RegionsOf(blocks, arch);
    assert [] + ThreadsOf(blocks, arch) == ThreadsOf(blocks, arch);
    assert [] + ModulesOf(blocks, arch) == ModulesOf(blocks, arch);
  }
}
