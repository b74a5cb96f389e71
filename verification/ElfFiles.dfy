/** ELF files laid out by the gABI, and what build-id extraction finds in them. */
module ElfFiles {
  import opened ByteStrings
  import opened ElfNotes

  /** The fields of an ELF header behind its identification. */
  datatype FileHead = FileHead(
    etype: U16, machine: U16, version: U32, entry: U64, phoff: U64, shoff: U64, flags: U32, ehsize: U16,
    phentsize: U16, phnum: U16, shentsize: U16, shnum: U16, shstrndx: U16)

  datatype ProgramHead = ProgramHead(
    ptype: U32, flags: U32, offset: U64, vaddr: U64, paddr: U64, filesz: U64, memsz: U64, align: U64)

  /** Addresses, offsets and sizes have 8 bytes in 64-bit files and 4 in others. */
  function WordSize(is64: bool): (w: nat) {
    if is64 then 8 else 4
  }

  predicate HeadFits(h: FileHead, is64: bool) {
    is64 || (h.entry < 0x1_0000_0000 && h.phoff < 0x1_0000_0000 && h.shoff < 0x1_0000_0000)
  }

  predicate ProgramFits(p: ProgramHead, is64: bool) {
    is64 || (p.offset < 0x1_0000_0000 && p.vaddr < 0x1_0000_0000 && p.paddr < 0x1_0000_0000
             && p.filesz < 0x1_0000_0000 && p.memsz < 0x1_0000_0000 && p.align < 0x1_0000_0000)
  }

  /** Magic, class and byte order; `more` is the rest of the identification. */
  function Ident(is64: bool, little: bool, more: Bytes): (b: Bytes)
    requires |more| == 10
    ensures |b| == 16
  {
    [0x7F, 0x45, 0x4C, 0x46, if is64 then 2 else 1, if little then 1 else 2] + more
  }

  /** The ELF header ("ELF Header", chapter 4 of the System V gABI). */
  function EncodeHead(h: FileHead, is64: bool, little: bool, more: Bytes): (b: Bytes)
    requires |more| == 10
    ensures |b| == if is64 then 64 else 52
  {
    var w := WordSize(is64);
    Ident(is64, little, more) + Pack(h.etype, 2, little) + Pack(h.machine, 2, little) + Pack(h.version, 4, little)
    + Pack(h.entry, w, little) + Pack(h.phoff, w, little) + Pack(h.shoff, w, little) + Pack(h.flags, 4, little)
    + Pack(h.ehsize, 2, little) + Pack(h.phentsize, 2, little) + Pack(h.phnum, 2, little)
    + Pack(h.shentsize, 2, little) + Pack(h.shnum, 2, little) + Pack(h.shstrndx, 2, little)
  }

  /** A program header ("Program Header", chapter 5); in 64-bit files the flags come second. */
  function EncodeProgram(p: ProgramHead, is64: bool, little: bool): (b: Bytes)
    ensures |b| == EntrySize(is64)
  {
    if is64 then
      Pack(p.ptype, 4, little) + Pack(p.flags, 4, little) + Pack(p.offset, 8, little) + Pack(p.vaddr, 8, little)
      + Pack(p.paddr, 8, little) + Pack(p.filesz, 8, little) + Pack(p.memsz, 8, little) + Pack(p.align, 8, little)
    else
      Pack(p.ptype, 4, little) + Pack(p.offset, 4, little) + Pack(p.vaddr, 4, little) + Pack(p.paddr, 4, little)
      + Pack(p.filesz, 4, little) + Pack(p.memsz, 4, little) + Pack(p.flags, 4, little) + Pack(p.align, 4, little)
  }

  /** Program header `i` lies at its place in the table. */
  ghost predicate ProgramAt(
    data: Bytes, h: FileHead, i: nat, p: ProgramHead, is64: bool, little: bool)
  {
    var at := h.phoff + i * h.phentsize;
    && ProgramFits(p, is64) && 0 <= at && at + EntrySize(is64) <= |data|
    && data[at..at + EntrySize(is64)] == EncodeProgram(p, is64, little)
  }

  /** An ELF file with these program headers: the header first, the table anywhere, whatever lies between and behind. */
  ghost predicate ElfFile(
    data: Bytes, h: FileHead, ps: seq<ProgramHead>, is64: bool, little: bool, more: Bytes)
  {
    && |more| == 10 && HeadFits(h, is64) && EncodeHead(h, is64, little, more) <= data
    && |ps| == h.phnum > 0 && h.phentsize >= EntrySize(is64) && h.phoff + h.phentsize * h.phnum <= |data|
    && forall i :: 0 <= i < |ps| ==> ProgramAt(data, h, i, ps[i], is64, little)
  }

  lemma CutHead(
    a: Bytes, b: Bytes, c: Bytes, d: Bytes, e: Bytes, f: Bytes, g: Bytes, h: Bytes, i: Bytes, j: Bytes, k: Bytes,
    l: Bytes, m: Bytes, n: Bytes, rest: Bytes, w: nat)
    requires |a| == 16 && |b| == 2 && |c| == 2 && |d| == 4 && |e| == |f| == |g| == w && |h| == 4 && |i| == 2
    requires |j| == 2 && |k| == 2
    ensures var p := a + b + c + d + e + f + g + h + i + j + k + l + m + n + rest;
            && |p| >= 34 + 3 * w && p[..16] == a && p[24 + w..24 + 2 * w] == f
            && p[30 + 3 * w..32 + 3 * w] == j && p[32 + 3 * w..34 + 3 * w] == k
  {
  }

  lemma CutProgram64(a: Bytes, b: Bytes, c: Bytes, d: Bytes, e: Bytes, f: Bytes, g: Bytes, h: Bytes)
    requires |a| == 4 && |b| == 4 && |c| == 8 && |d| == 8 && |e| == 8 && |f| == 8
    ensures var p := a + b + c + d + e + f + g + h; |p| >= 40 && p[0..4] == a && p[8..16] == c && p[32..40] == f
  {
  }

  lemma CutProgram32(a: Bytes, b: Bytes, c: Bytes, d: Bytes, e: Bytes, f: Bytes, g: Bytes, h: Bytes)
    requires |a| == 4 && |b| == 4 && |c| == 4 && |d| == 4 && |e| == 4
    ensures var p := a + b + c + d + e + f + g + h; |p| >= 20 && p[0..4] == a && p[4..8] == b && p[16..20] == e
  {
  }

  /** The parts of the header the extraction reads. */
  lemma HeadParts(data: Bytes, h: FileHead, is64: bool, little: bool, more: Bytes)
    requires |more| == 10 && EncodeHead(h, is64, little, more) <= data
    ensures var w := WordSize(is64);
            && |data| >= (if is64 then 64 else 52) && data[..16] == Ident(is64, little, more)
            && data[24 + w..24 + 2 * w] == Pack(h.phoff, w, little)
            && data[30 + 3 * w..32 + 3 * w] == Pack(h.phentsize, 2, little)
            && data[32 + 3 * w..34 + 3 * w] == Pack(h.phnum, 2, little)
  {
    hide Pack, Ident;
    var w, head := WordSize(is64), EncodeHead(h, is64, little, more);
    var rest := data[|head|..];
    assert data == head + rest;
    CutHead(Ident(is64, little, more), Pack(h.etype, 2, little), Pack(h.machine, 2, little), Pack(h.version, 4, little),
            Pack(h.entry, w, little), Pack(h.phoff, w, little), Pack(h.shoff, w, little), Pack(h.flags, 4, little),
            Pack(h.ehsize, 2, little), Pack(h.phentsize, 2, little), Pack(h.phnum, 2, little),
            Pack(h.shentsize, 2, little), Pack(h.shnum, 2, little), Pack(h.shstrndx, 2, little), rest, w);
  }

  lemma WordFits(v: U64, is64: bool)
    requires is64 || v < 0x1_0000_0000
    ensures v < Pow256(WordSize(is64))
  {
    Pow256Values();
  }

  /** The header of an ELF file is read back, in both classes and byte orders. */
  lemma HeaderReadBack(data: Bytes, h: FileHead, ps: seq<ProgramHead>, is64: bool, little: bool, more: Bytes)
    requires ElfFile(data, h, ps, is64, little, more)
    ensures Header(data) == Some(Elf(is64, little, h.phoff, h.phentsize, h.phnum))
  {
    hide Pack, Unpack, EncodeHead, ProgramAt;
    HeadParts(data, h, is64, little, more);
    IdentRead(data, is64, little, more);
    WordFits(h.phoff, is64);
    Pow256Values();
    PackFits(h.phoff, WordSize(is64), little);
    PackFits(h.phentsize, 2, little);
    PackFits(h.phnum, 2, little);
  }

  lemma IdentRead(data: Bytes, is64: bool, little: bool, more: Bytes)
    requires |more| == 10 && |data| >= 16 && data[..16] == Ident(is64, little, more)
    ensures data[..4] == [0x7F, 0x45, 0x4C, 0x46]
    ensures data[4] == (if is64 then 2 else 1) && data[5] == if little then 1 else 2
  {
    var id := Ident(is64, little, more);
    assert data[..4] == data[..16][..4];
    assert data[4] == data[..16][4] && data[5] == data[..16][5];
  }

  /** Type, file offset and file size of every program header are read back. */
  lemma ProgramReadBack(
    data: Bytes, h: FileHead, ps: seq<ProgramHead>, is64: bool, little: bool, more: Bytes, i: nat)
    requires ElfFile(data, h, ps, is64, little, more) && i < |ps|
    ensures var elf := Elf(is64, little, h.phoff, h.phentsize, h.phnum);
            Header(data) == Some(elf) && Ph(data, elf, i) == Segment(ps[i].ptype, ps[i].offset, ps[i].filesz)
  {
    HeaderReadBack(data, h, ps, is64, little, more);
    hide Header, EncodeHead, Pack, Unpack;
    assert ProgramAt(data, h, i, ps[i], is64, little);
    ProgramFields(data, h.phoff + i * h.phentsize, ps[i], is64, little);
  }

  lemma ProgramFields(data: Bytes, at: nat, p: ProgramHead, is64: bool, little: bool)
    requires ProgramFits(p, is64) && at + EntrySize(is64) <= |data|
    requires data[at..at + EntrySize(is64)] == EncodeProgram(p, is64, little)
    ensures var elf := Elf(is64, little, 0, 0, 0); SegmentAt(data, elf, at) == Segment(p.ptype, p.offset, p.filesz)
  {
    hide Pack, Unpack, EncodeProgram;
    var e, w := EncodeProgram(p, is64, little), WordSize(is64);
    ProgramParts(p, is64, little);
    WordFits(p.offset, is64);
    WordFits(p.filesz, is64);
    Pow256Values();
    PackFits(p.ptype, 4, little);
    PackFits(p.offset, w, little);
    PackFits(p.filesz, w, little);
    Inner(data, at, EntrySize(is64), 0, 4);
    if is64 {
      Inner(data, at, 56, 8, 16);
      Inner(data, at, 56, 32, 40);
    } else {
      Inner(data, at, 32, 4, 8);
      Inner(data, at, 32, 16, 20);
    }
  }

  lemma Inner(data: Bytes, at: nat, n: nat, i: nat, j: nat)
    requires at + n <= |data| && i <= j <= n
    ensures data[at + i..at + j] == data[at..at + n][i..j]
  {
    var x, y := data[at + i..at + j], data[at..at + n][i..j];
    assert |x| == |y|;
    forall k | 0 <= k < |x| ensures x[k] == y[k] {
      assert x[k] == data[at + i + k];
    }
  }

  lemma ProgramParts(p: ProgramHead, is64: bool, little: bool)
    ensures var e, w := EncodeProgram(p, is64, little), WordSize(is64);
            && e[0..4] == Pack(p.ptype, 4, little)
            && (is64 ==> e[8..16] == Pack(p.offset, w, little) && e[32..40] == Pack(p.filesz, w, little))
            && (!is64 ==> e[4..8] == Pack(p.offset, w, little) && e[16..20] == Pack(p.filesz, w, little))
  {
    hide Pack;
    if is64 {
      CutProgram64(Pack(p.ptype, 4, little), Pack(p.flags, 4, little), Pack(p.offset, 8, little),
                   Pack(p.vaddr, 8, little), Pack(p.paddr, 8, little), Pack(p.filesz, 8, little),
                   Pack(p.memsz, 8, little), Pack(p.align, 8, little));
    } else {
      CutProgram32(Pack(p.ptype, 4, little), Pack(p.offset, 4, little), Pack(p.vaddr, 4, little),
                   Pack(p.paddr, 4, little), Pack(p.filesz, 4, little), Pack(p.memsz, 4, little),
                   Pack(p.flags, 4, little), Pack(p.align, 4, little));
    }
  }

  // ---------------------------------------------------------------- build ids

  /** A build id: a note of vendor "GNU" and type 3 with a descriptor. */
  predicate GnuBuildId(n: Note) {
    n.name == [0x47, 0x4E, 0x55] && n.ntype == 3 && n.desc != []
  }

  /** Segment `p` is a PT_NOTE segment that holds exactly these notes. */
  ghost predicate HoldsNotes(data: Bytes, p: ProgramHead, ns: seq<Note>, little: bool) {
    && p.ptype == 4 && p.offset + p.filesz <= |data| && (forall n :: n in ns ==> Encodable(n))
    && data[p.offset..p.offset + p.filesz] == EncodeNotes(ns, little)
  }

  lemma GnuIsBuildId(n: Note)
    ensures GnuBuildId(n) <==> BuildIdNote(n)
  {
  }

  /** The first build id of a list of notes, by its place. */
  lemma FirstOf(ns: seq<Note>, k: nat)
    requires k < |ns| && GnuBuildId(ns[k]) && forall m :: 0 <= m < k ==> !GnuBuildId(ns[m])
    ensures FirstBuildId(ns) == Some(ns[k].desc)
  {
    hide GnuBuildId, BuildIdNote;
    forall m | 0 <= m < |ns| ensures GnuBuildId(ns[m]) <==> BuildIdNote(ns[m]) {
      GnuIsBuildId(ns[m]);
    }
    FirstBuildIdMeans(ns, ns[k].desc);
  }

  /** A program header of another type, or a note segment inside the file in which the walk finds no build id. */
  ghost predicate Skipped(data: Bytes, p: ProgramHead, little: bool) {
    p.ptype == 4 ==>
      && p.offset + p.filesz <= |data|
      && var ns := NotesFrom(data[p.offset..p.offset + p.filesz], 0, little);
         forall m :: 0 <= m < |ns| ==> !GnuBuildId(ns[m])
  }

  /** Such a segment of encoded notes, none of them a build id. */
  lemma OtherNotesSkipped(data: Bytes, p: ProgramHead, ns: seq<Note>, little: bool)
    requires HoldsNotes(data, p, ns, little) && forall m :: 0 <= m < |ns| ==> !GnuBuildId(ns[m])
    ensures Skipped(data, p, little)
  {
    hide EncodeNotes, NotesFrom, Encodable, GnuBuildId;
    NotesRoundTrip(ns, little);
  }

  lemma SkippedPasses(
    data: Bytes, h: FileHead, ps: seq<ProgramHead>, is64: bool, little: bool, more: Bytes, j: nat)
    requires ElfFile(data, h, ps, is64, little, more) && j < |ps| && Skipped(data, ps[j], little)
    ensures var elf := Elf(is64, little, h.phoff, h.phentsize, h.phnum);
            Header(data) == Some(elf) && Passed(data, elf, j)
  {
    hide Header, ElfFile, Ph, NotesFrom, GnuBuildId, BuildIdNote, FirstBuildId, Passed, ProgramAt, EncodeHead;
    var elf := Elf(is64, little, h.phoff, h.phentsize, h.phnum);
    ElfShape(data, h, ps, is64, little, more);
    ProgramReadBack(data, h, ps, is64, little, more, j);
    PassesIf(data, elf, j, ps[j].ptype, ps[j].offset, ps[j].filesz);
    if ps[j].ptype == 4 {
      var ns := NotesFrom(data[ps[j].offset..ps[j].offset + ps[j].filesz], 0, little);
      forall m | 0 <= m < |ns| ensures !BuildIdNote(ns[m]) {
        GnuIsBuildId(ns[m]);
      }
      FirstBuildIdMeans(ns, []);
    }
  }

  /** A segment of encoded notes yields the descriptor of its first build id. */
  lemma NotesYield(
    data: Bytes, h: FileHead, ps: seq<ProgramHead>, is64: bool, little: bool, more: Bytes, i: nat, ns: seq<Note>,
    k: nat)
    requires ElfFile(data, h, ps, is64, little, more) && i < |ps| && HoldsNotes(data, ps[i], ns, little)
    requires forall j: nat :: j < i ==> Skipped(data, ps[j], little)
    requires k < |ns| && GnuBuildId(ns[k]) && forall m :: 0 <= m < k ==> !GnuBuildId(ns[m])
    ensures var elf := Elf(is64, little, h.phoff, h.phentsize, h.phnum);
            Header(data) == Some(elf) && i < elf.phnum && Yields(data, elf, i, ns[k].desc)
  {
    hide Header, ElfFile, Ph, EncodeNotes, NotesFrom, Encodable, Passed, GnuBuildId, FirstBuildId, Skipped, EncodeHead;
    hide Yields;
    var elf := Elf(is64, little, h.phoff, h.phentsize, h.phnum);
    ElfShape(data, h, ps, is64, little, more);
    ProgramReadBack(data, h, ps, is64, little, more, i);
    forall j: nat | j < i ensures Passed(data, elf, j) {
      SkippedPasses(data, h, ps, is64, little, more, j);
    }
    NotesRoundTrip(ns, little);
    FirstOf(ns, k);
    YieldsIf(data, elf, i, ps[i].offset, ps[i].filesz, ns[k].desc);
  }

  lemma ElfShape(data: Bytes, h: FileHead, ps: seq<ProgramHead>, is64: bool, little: bool, more: Bytes)
    requires ElfFile(data, h, ps, is64, little, more)
    ensures |ps| == h.phnum > 0
  {
  }

  lemma PassesIf(data: Bytes, elf: Elf, j: nat, ptype: nat, offset: nat, filesz: nat)
    requires Header(data) == Some(elf) && j < elf.phnum && Ph(data, elf, j) == Segment(ptype, offset, filesz)
    ensures Passed(data, elf, j)
            <==> (ptype == 4 ==> offset + filesz <= |data|
                                 && FirstBuildId(NotesFrom(data[offset..offset + filesz], 0, elf.little)) == None)
  {
    hide Header, Ph, NotesFrom, FirstBuildId;
  }

  lemma YieldsIf(data: Bytes, elf: Elf, i: nat, offset: nat, filesz: nat, d: Bytes)
    requires Header(data) == Some(elf) && i < elf.phnum && Ph(data, elf, i) == Segment(4, offset, filesz)
    requires offset + filesz <= |data| && (forall j: nat :: j < i ==> Passed(data, elf, j))
    requires FirstBuildId(NotesFrom(data[offset..offset + filesz], 0, elf.little)) == Some(d)
    ensures Yields(data, elf, i, d)
  {
    hide Header, Ph, NotesFrom, FirstBuildId, Passed;
  }

  /**
   * From the layout of the file to the build id, in both classes and byte orders, wherever table and segment lie:
   * behind program headers that are skipped, the descriptor of the segment's first build id is what the extraction
   * returns.
   */
  lemma BuildIdFound(
    data: Bytes, h: FileHead, ps: seq<ProgramHead>, is64: bool, little: bool, more: Bytes, i: nat, ns: seq<Note>,
    k: nat, r: Option<Bytes>)
    requires ElfFile(data, h, ps, is64, little, more) && i < |ps| && HoldsNotes(data, ps[i], ns, little)
    requires forall j: nat :: j < i ==> Skipped(data, ps[j], little)
    requires k < |ns| && GnuBuildId(ns[k]) && forall m :: 0 <= m < k ==> !GnuBuildId(ns[m])
    ensures IsBuildId(data, r) <==> r == Some(ns[k].desc)
  {
    hide Header, ElfFile, Ph, EncodeNotes, NotesFrom, Encodable, Passed, GnuBuildId, FirstBuildId, Skipped, HoldsNotes;
    hide Yields;
    var elf := Elf(is64, little, h.phoff, h.phentsize, h.phnum);
    NotesYield(data, h, ps, is64, little, more, i, ns, k);
    OneYield(data, elf, i, ns[k].desc, r);
  }

  /** What some program header yields is the whole answer. */
  lemma OneYield(data: Bytes, elf: Elf, i: nat, d: Bytes, r: Option<Bytes>)
    requires Header(data) == Some(elf) && i < elf.phnum && Yields(data, elf, i, d)
    ensures IsBuildId(data, r) <==> r == Some(d)
  {
    hide Header, Ph, BuildIdOf, Passed;
    YieldingStops(data, elf, i, d);
    forall j: nat, e | j < elf.phnum && Yields(data, elf, j, e) ensures e == d {
      FirstStopDecides(data, elf, i, j, e);
      YieldingStops(data, elf, j, e);
    }
  }

  /**
   * Nothing is returned when every program header is skipped, nor when the first that is not is a note segment that
   * reaches beyond the data.
   */
  lemma NoBuildId(
    data: Bytes, h: FileHead, ps: seq<ProgramHead>, is64: bool, little: bool, more: Bytes, i: nat, r: Option<Bytes>)
    requires ElfFile(data, h, ps, is64, little, more) && i <= |ps|
    requires forall j: nat :: j < i ==> Skipped(data, ps[j], little)
    requires i < |ps| ==> ps[i].ptype == 4 && ps[i].offset + ps[i].filesz > |data|
    ensures IsBuildId(data, r) <==> r == None
  {
    hide Header, ElfFile, Ph, NotesFrom, Passed, FirstBuildId, Skipped, Yields, EncodeHead;
    var elf := Elf(is64, little, h.phoff, h.phentsize, h.phnum);
    ElfShape(data, h, ps, is64, little, more);
    HeaderReadBack(data, h, ps, is64, little, more);
    forall j: nat | j < i ensures Passed(data, elf, j) {
      SkippedPasses(data, h, ps, is64, little, more, j);
    }
    if i < |ps| {
      ProgramReadBack(data, h, ps, is64, little, more, i);
      PassesIf(data, elf, i, ps[i].ptype, ps[i].offset, ps[i].filesz);
    }
    forall j: nat, d | j < elf.phnum ensures !Yields(data, elf, j, d) {
      if i < |ps| {
        NoYield(data, elf, i, j, d);
      } else {
        PassedYieldsNot(data, elf, j, d);
      }
    }
  }

  lemma PassedYieldsNot(data: Bytes, elf: Elf, j: nat, d: Bytes)
    requires Header(data) == Some(elf) && j < elf.phnum && Passed(data, elf, j)
    ensures !Yields(data, elf, j, d)
  {
    hide Header, Ph, BuildIdOf;
  }

  /** A note segment beyond the data ends the search. */
  lemma NoYield(data: Bytes, elf: Elf, i: nat, j: nat, d: Bytes)
    requires Header(data) == Some(elf) && i < elf.phnum && j < elf.phnum
    requires Ph(data, elf, i).ptype == 4 && !InBounds(data, Ph(data, elf, i))
    requires forall m: nat :: m < i ==> Passed(data, elf, m)
    ensures !Yields(data, elf, j, d)
  {
    hide Header, Ph, BuildIdOf;
    if j < i {
      assert Passed(data, elf, j);
    } else {
      assert !Passed(data, elf, i);
    }
  }

  // ---------------------------------------------------------------- any bytes

  /** The number in two, four or eight bytes of the data, in the byte order the identification names. */
  function Number(data: Bytes, from: nat, to: nat): (v: nat)
    requires 5 < |data| && from <= to <= |data|
  {
    Unpack(data[from..to], data[5] == 1)
  }

  /**
   * On arbitrary bytes a header is accepted exactly with the magic, a known class and byte order, and a program header
   * table that is not empty, has entries of at least the class's size and lies within the data.
   */
  lemma HeaderAccepted(data: Bytes)
    ensures Header(data).Some? <==>
            && |data| >= 52 && data[..4] == [0x7F, 0x45, 0x4C, 0x46] && data[5] in {1, 2}
            && ((data[4] == 2 && |data| >= 64 && Number(data, 54, 56) >= 56 && Number(data, 56, 58) > 0
                 && Number(data, 32, 40) + Number(data, 54, 56) * Number(data, 56, 58) <= |data|)
                || (data[4] == 1 && Number(data, 42, 44) >= 32 && Number(data, 44, 46) > 0
                    && Number(data, 28, 32) + Number(data, 42, 44) * Number(data, 44, 46) <= |data|))
  {
    hide Unpack;
  }
}
