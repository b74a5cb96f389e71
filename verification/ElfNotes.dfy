/** ELF notes: a bounds-safe walk over arbitrary bytes, inverse to their encoding, and build-id extraction. */
module ElfNotes {
  import opened ByteStrings

  // ------------------------------------------------------------ byte order

  function Reversed(b: Bytes): (r: Bytes)
    ensures |r| == |b|
  {
    if b == [] then [] else Reversed(b[1..]) + [b[0]]
  }

  lemma {:induction false} ReversedLast(b: Bytes, x: Byte)
    ensures Reversed(b + [x]) == [x] + Reversed(b)
  {
    if b != [] {
      assert (b + [x])[1..] == b[1..] + [x];
      ReversedLast(b[1..], x);
    } else {
      assert [x][1..] == [];
    }
  }

  lemma {:induction false} ReversedTwice(b: Bytes)
    ensures Reversed(Reversed(b)) == b
  {
    if b != [] {
      ReversedLast(Reversed(b[1..]), b[0]);
      ReversedTwice(b[1..]);
    }
  }

  /** `struct.unpack` of an unsigned field in the given byte order. */
  function Unpack(b: Bytes, little: bool): (v: nat) {
    FromLE(if little then b else Reversed(b))
  }

  function Pack(v: nat, width: nat, little: bool): (b: Bytes)
    ensures |b| == width
  {
    if little then LE(v, width) else Reversed(LE(v, width))
  }

  lemma PackFits(v: nat, width: nat, little: bool)
    requires v < Pow256(width)
    ensures Unpack(Pack(v, width, little), little) == v
  {
    LEFits(v, width);
    ReversedTwice(LE(v, width));
  }

  lemma PackRoundTrip(v: U32, little: bool)
    ensures Unpack(Pack(v, 4, little), little) == v
  {
    Pow256Values();
    PackFits(v, 4, little);
  }

  function Field(b: Bytes, off: nat, width: nat, little: bool): (v: nat)
    requires off + width <= |b|
  {
    Unpack(b[off..off + width], little)
  }

  // --------------------------------------------------------------- the walk

  /** `name` is the raw vendor name with its trailing NULs removed. */
  datatype Note = Note(name: Bytes, ntype: nat, desc: Bytes)

  function Pad4(n: nat): (p: nat)
    ensures n <= p < n + 4 && p % 4 == 0
  {
    (n + 3) / 4 * 4
  }

  /** Where the descriptor of the note at `off` starts. */
  function DescStart(b: Bytes, off: nat, little: bool): (d: nat)
    requires off + 12 <= |b|
  {
    off + 12 + Pad4(Field(b, off, 4, little))
  }

  /** The note at `off` is complete. */
  predicate NoteFits(b: Bytes, off: nat, little: bool) {
    off + 12 <= |b|
    && var namesz, descsz := Field(b, off, 4, little), Field(b, off + 4, 4, little);
    namesz <= |b| && descsz <= |b| && off + 12 + namesz <= |b| && DescStart(b, off, little) + descsz <= |b|
  }

  function NoteAt(b: Bytes, off: nat, little: bool): (n: Note)
    requires NoteFits(b, off, little)
  {
    var namesz, descsz, d := Field(b, off, 4, little), Field(b, off + 4, 4, little), DescStart(b, off, little);
    Note(StripNuls(b[off + 12..off + 12 + namesz]), Field(b, off + 8, 4, little), b[d..d + descsz])
  }

  function NextNote(b: Bytes, off: nat, little: bool): (o: nat)
    requires off + 12 <= |b|
    ensures o > off
  {
    DescStart(b, off, little) + Pad4(Field(b, off + 4, 4, little))
  }

  function NotesFrom(b: Bytes, off: nat, little: bool): (ns: seq<Note>)
    decreases |b| - off
  {
    if NoteFits(b, off, little) then [NoteAt(b, off, little)] + NotesFrom(b, NextNote(b, off, little), little) else []
  }

  lemma NothingLeft(b: Bytes, little: bool)
    ensures forall off: nat :: off + 12 > |b| ==> NotesFrom(b, off, little) == []
  {
  }

  /** The note at `off`, when it is complete, and the notes behind it. */
  lemma NotesUnfold(b: Bytes, off: nat, little: bool)
    requires off + 12 <= |b|
    ensures var namesz, descsz := Field(b, off, 4, little), Field(b, off + 4, 4, little);
            var d := off + 12 + Pad4(namesz);
            if namesz > |b| || descsz > |b| || off + 12 + namesz > |b| || d + descsz > |b| then
              NotesFrom(b, off, little) == []
            else
              NotesFrom(b, off, little)
              == [Note(StripNuls(b[off + 12..off + 12 + namesz]), Field(b, off + 8, 4, little), b[d..d + descsz])]
                 + NotesFrom(b, d + Pad4(descsz), little)
  {
    hide Field, StripNuls, Pad4;
  }

  /** `parse_elf_notes`, run to its end. */
  method ParseElfNotes(b: Bytes, little: bool) returns (notes: seq<Note>)
    ensures notes == NotesFrom(b, 0, little)
  {
    hide Field, StripNuls, Pad4, NotesFrom;
    notes := [];
    assert forall off: nat :: off + 12 > |b| ==> NotesFrom(b, off, little) == [] by {
      NothingLeft(b, little);
    }
    var offset: nat, total := 0, |b|;
    while offset + 12 <= total
      invariant notes + NotesFrom(b, offset, little) == NotesFrom(b, 0, little)
      decreases total - offset
    {
      ghost var start, before := offset, notes;
      NotesUnfold(b, offset, little);
      var namesz, descsz := Field(b, offset, 4, little), Field(b, offset + 4, 4, little);
      var ntype := Field(b, offset + 8, 4, little);
      offset := offset + 12;
      if namesz > total || descsz > total {
        return;
      }
      var nameEnd := offset + namesz;
      if nameEnd > total {
        return;
      }
      var name := StripNuls(b[offset..nameEnd]);
      var descStart := offset + Pad4(namesz);
      var descEnd := descStart + descsz;
      if descEnd > total {
        return;
      }
      var note := Note(name, ntype, b[descStart..descEnd]);
      notes := notes + [note];
      offset := descStart + Pad4(descsz);
      assert before + ([note] + NotesFrom(b, offset, little)) == notes + NotesFrom(b, offset, little);
    }
  }

  /** `d` is a 4-aligned slice of `b` at `lo`. */
  predicate SliceAt(b: Bytes, d: Bytes, lo: nat) {
    lo % 4 == 0 && lo + |d| <= |b| && b[lo..lo + |d|] == d
  }

  lemma NoteBounds(b: Bytes, off: nat, little: bool)
    requires off % 4 == 0 && NoteFits(b, off, little)
    ensures off < DescStart(b, off, little) && NextNote(b, off, little) % 4 == 0
    ensures SliceAt(b, NoteAt(b, off, little).desc, DescStart(b, off, little))
  {
    var p, q := Pad4(Field(b, off, 4, little)), Pad4(Field(b, off + 4, 4, little));
    assert p % 4 == 0 && q % 4 == 0;
    hide Field, StripNuls, Pad4;
    Aligned4(off, p, q);
  }

  lemma Aligned4(off: nat, p: nat, q: nat)
    requires off % 4 == 0 && p % 4 == 0 && q % 4 == 0
    ensures (off + 12 + p) % 4 == 0 && (off + 12 + p + q) % 4 == 0
  {
  }

  /** On every byte string every descriptor is an in-bounds slice. */
  lemma {:induction false} DescriptorInBounds(b: Bytes, off: nat, little: bool, i: nat) returns (lo: nat)
    requires off % 4 == 0 && i < |NotesFrom(b, off, little)|
    ensures off < lo && SliceAt(b, NotesFrom(b, off, little)[i].desc, lo)
    decreases |b| - off
  {
    hide Field, Pad4, NextNote, NoteFits, NoteAt;
    NoteBounds(b, off, little);
    if i == 0 {
      lo := DescStart(b, off, little);
    } else {
      lo := DescriptorInBounds(b, NextNote(b, off, little), little, i - 1);
    }
  }

  // ----------------------------------------------------------------- encoding

  function PadTo4(b: Bytes): (r: Bytes)
    ensures |r| == Pad4(|b|)
  {
    b + Zeros(Pad4(|b|) - |b|)
  }

  /** A note as the gABI lays it out: NUL-terminated name, name and descriptor padded to 4 bytes. */
  function EncodeNote(n: Note, little: bool): (b: Bytes)
    ensures |b| == 12 + Pad4(|n.name| + 1) + Pad4(|n.desc|)
  {
    Pack(|n.name| + 1, 4, little) + Pack(|n.desc|, 4, little) + Pack(n.ntype, 4, little) + PadTo4(n.name + [0])
    + PadTo4(n.desc)
  }

  function EncodeNotes(ns: seq<Note>, little: bool): (b: Bytes) {
    if ns == [] then [] else EncodeNote(ns[0], little) + EncodeNotes(ns[1..], little)
  }

  /** The fields fit their widths and the name has no trailing NUL of its own. */
  predicate Encodable(n: Note) {
    |n.name| + 1 < 0x1_0000_0000 && |n.desc| < 0x1_0000_0000 && n.ntype < 0x1_0000_0000
    && (n.name == [] || n.name[|n.name| - 1] != 0)
  }

  lemma SliceShift(pre: Bytes, e: Bytes, rest: Bytes, i: nat, j: nat)
    requires i <= j <= |e|
    ensures (pre + e + rest)[|pre| + i..|pre| + j] == e[i..j]
  {
  }

  lemma FiveParts(a: Bytes, b: Bytes, c: Bytes, d: Bytes, f: Bytes)
    ensures var e := a + b + c + d + f;
            && e[..|a|] == a && e[|a|..|a| + |b|] == b && e[|a| + |b|..|a| + |b| + |c|] == c
            && e[|a| + |b| + |c|..|a| + |b| + |c| + |d|] == d && e[|a| + |b| + |c| + |d|..] == f
  {
  }

  lemma SliceOfSlice(e: Bytes, lo: nat, hi: nat, m: nat)
    requires lo <= hi <= |e| && lo + m <= hi
    ensures e[lo..lo + m] == e[lo..hi][..m]
  {
  }

  /** Where the parts of an encoded note are. */
  lemma NoteParts(n: Note, little: bool)
    ensures var e, d := EncodeNote(n, little), 12 + Pad4(|n.name| + 1);
            && e[0..4] == Pack(|n.name| + 1, 4, little) && e[4..8] == Pack(|n.desc|, 4, little)
            && e[8..12] == Pack(n.ntype, 4, little)
            && e[12..12 + (|n.name| + 1)] == n.name + [0] && e[d..d + |n.desc|] == n.desc
  {
    hide Pack, Pad4, PadTo4;
    var e, d := EncodeNote(n, little), 12 + Pad4(|n.name| + 1);
    var name, desc := PadTo4(n.name + [0]), PadTo4(n.desc);
    FiveParts(Pack(|n.name| + 1, 4, little), Pack(|n.desc|, 4, little), Pack(n.ntype, 4, little), name, desc);
    SliceOfSlice(e, 12, d, |n.name| + 1);
    SliceOfSlice(e, d, |e|, |n.desc|);
    PaddedHead(n.name + [0]);
    PaddedHead(n.desc);
    assert e[d..] == e[d..|e|];
  }

  lemma PaddedHead(b: Bytes)
    ensures PadTo4(b)[..|b|] == b
  {
  }

  /** The fields of a note encoded between other bytes. */
  lemma FieldsEncoded(pre: Bytes, n: Note, rest: Bytes, little: bool)
    requires Encodable(n)
    ensures var b, o := pre + EncodeNote(n, little) + rest, |pre|;
            && o + 12 + Pad4(|n.name| + 1) + Pad4(|n.desc|) <= |b|
            && Field(b, o, 4, little) == |n.name| + 1
            && Field(b, o + 4, 4, little) == |n.desc|
            && Field(b, o + 8, 4, little) == n.ntype
            && b[o + 12..o + 12 + (|n.name| + 1)] == n.name + [0]
            && var d := o + 12 + Pad4(|n.name| + 1); b[d..d + |n.desc|] == n.desc
  {
    hide Pack, Unpack, Pad4, EncodeNote;
    var e, d := EncodeNote(n, little), 12 + Pad4(|n.name| + 1);
    NoteParts(n, little);
    PackRoundTrip(|n.name| + 1, little);
    PackRoundTrip(|n.desc|, little);
    PackRoundTrip(n.ntype, little);
    SliceShift(pre, e, rest, 0, 4);
    SliceShift(pre, e, rest, 4, 8);
    SliceShift(pre, e, rest, 8, 12);
    SliceShift(pre, e, rest, 12, 12 + (|n.name| + 1));
    SliceShift(pre, e, rest, d, d + |n.desc|);
  }

  lemma StripTerminator(name: Bytes)
    requires name == [] || name[|name| - 1] != 0
    ensures StripNuls(name + [0]) == name
  {
    assert (name + [0])[..|name|] == name;
  }

  lemma NoteRoundTrip(pre: Bytes, n: Note, rest: Bytes, little: bool)
    requires Encodable(n)
    ensures var b, o := pre + EncodeNote(n, little) + rest, |pre|;
            NoteFits(b, o, little) && NoteAt(b, o, little) == n && NextNote(b, o, little) == o + |EncodeNote(n, little)|
  {
    hide Field, StripNuls, Pad4, EncodeNote;
    FieldsEncoded(pre, n, rest, little);
    StripTerminator(n.name);
  }

  lemma {:induction false} NotesRoundTripAt(pre: Bytes, ns: seq<Note>, little: bool)
    requires forall n :: n in ns ==> Encodable(n)
    ensures NotesFrom(pre + EncodeNotes(ns, little), |pre|, little) == ns
    decreases |ns|
  {
    hide NoteAt, NextNote, EncodeNote, Encodable;
    var b := pre + EncodeNotes(ns, little);
    if ns != [] {
      var first, rest := EncodeNote(ns[0], little), EncodeNotes(ns[1..], little);
      assert b == pre + first + rest;
      NoteRoundTrip(pre, ns[0], rest, little);
      NotesRoundTripAt(pre + first, ns[1..], little);
    }
  }

  /** Any list of padded notes parses back to itself, in both byte orders. */
  lemma NotesRoundTrip(ns: seq<Note>, little: bool)
    requires forall n :: n in ns ==> Encodable(n)
    ensures NotesFrom(EncodeNotes(ns, little), 0, little) == ns
  {
    NotesRoundTripAt([], ns, little);
    assert [] + EncodeNotes(ns, little) == EncodeNotes(ns, little);
  }

  // ---------------------------------------------------------------- build id

  const PT_NOTE := 4
  const NT_GNU_BUILD_ID := 3
  const GNU: Bytes := [0x47, 0x4E, 0x55]

  datatype Elf = Elf(is64: bool, little: bool, phoff: nat, entsize: nat, phnum: nat)

  function EntrySize(is64: bool): (n: nat) {
    if is64 then 56 else 32
  }

  function RawHeader(data: Bytes): (h: Elf)
    requires |data| >= 52 && (data[4] == 2 ==> |data| >= 64)
  {
    var little := data[5] == 1;
    if data[4] == 2 then Elf(true, little, Field(data, 32, 8, little), Field(data, 54, 2, little),
                             Field(data, 56, 2, little))
    else Elf(false, little, Field(data, 28, 4, little), Field(data, 42, 2, little), Field(data, 44, 2, little))
  }

  /** The header, when it is an ELF header whose program header table lies within the data. */
  function Header(data: Bytes): (h: Option<Elf>)
    ensures h.Some? ==>
              h.value.entsize >= EntrySize(h.value.is64) && h.value.phoff + h.value.entsize * h.value.phnum <= |data|
  {
    if |data| < 52 || data[..4] != [0x7F, 0x45, 0x4C, 0x46] || (data[4] != 1 && data[4] != 2)
       || (data[5] != 1 && data[5] != 2) || (data[4] == 2 && |data| < 64) then None
    else
      var h := RawHeader(data);
      var total := h.entsize * h.phnum;
      if h.entsize < EntrySize(h.is64) || h.phnum == 0 || total > |data| || h.phoff + total > |data| then None
      else Some(h)
  }

  datatype Segment = Segment(ptype: nat, offset: nat, filesz: nat)

  function SegmentAt(data: Bytes, h: Elf, entry: nat): (s: Segment)
    requires entry + EntrySize(h.is64) <= |data|
  {
    if h.is64 then
      Segment(Field(data, entry, 4, h.little), Field(data, entry + 8, 8, h.little),
              Field(data, entry + 32, 8, h.little))
    else
      Segment(Field(data, entry, 4, h.little), Field(data, entry + 4, 4, h.little),
              Field(data, entry + 16, 4, h.little))
  }

  lemma EntryInBounds(data: Bytes, h: Elf, i: nat)
    requires h.entsize >= EntrySize(h.is64) && h.phoff + h.entsize * h.phnum <= |data| && i < h.phnum
    ensures 0 <= h.phoff + i * h.entsize && h.phoff + i * h.entsize + EntrySize(h.is64) <= |data|
  {
    hide EntrySize;
    MulStep(i, h.entsize);
    MulMonotone(i + 1, h.phnum, h.entsize);
    MulMonotone(0, i, h.entsize);
  }

  lemma MulMonotone(a: nat, b: nat, c: nat)
    requires a <= b
    ensures a * c <= b * c && 0 * c == 0
  {
    assert b * c == a * c + (b - a) * c;
  }

  /** Program header `i`. */
  function Ph(data: Bytes, h: Elf, i: nat): (s: Segment)
    requires Header(data) == Some(h) && i < h.phnum
  {
    EntryInBounds(data, h, i);
    SegmentAt(data, h, h.phoff + i * h.entsize)
  }

  predicate BuildIdNote(n: Note) {
    n.ntype == NT_GNU_BUILD_ID && n.name == GNU && n.desc != []
  }

  /** Descriptor of the first build-id note. */
  function FirstBuildId(ns: seq<Note>): (d: Option<Bytes>) {
    if ns == [] then None else if BuildIdNote(ns[0]) then Some(ns[0].desc) else FirstBuildId(ns[1..])
  }

  lemma {:induction false} FirstBuildIdMeans(ns: seq<Note>, d: Bytes)
    ensures FirstBuildId(ns) == Some(d) <==>
            exists k :: 0 <= k < |ns| && BuildIdNote(ns[k]) && ns[k].desc == d
                        && forall j :: 0 <= j < k ==> !BuildIdNote(ns[j])
    ensures FirstBuildId(ns) == None <==> forall k :: 0 <= k < |ns| ==> !BuildIdNote(ns[k])
  {
    hide BuildIdNote;
    if ns != [] {
      FirstBuildIdMeans(ns[1..], d);
      assert forall k :: 0 < k < |ns| ==> ns[1..][k - 1] == ns[k];
    }
  }

  predicate InBounds(data: Bytes, s: Segment) {
    s.offset + s.filesz <= |data|
  }

  function BuildIdOf(data: Bytes, h: Elf, s: Segment): (d: Option<Bytes>)
    requires InBounds(data, s)
  {
    FirstBuildId(NotesFrom(data[s.offset..s.offset + s.filesz], 0, h.little))
  }

  /** Program header `i` is a well-placed note segment without a build id, or no note segment. */
  predicate Passed(data: Bytes, h: Elf, i: nat)
    requires Header(data) == Some(h) && i < h.phnum
  {
    var s := Ph(data, h, i);
    s.ptype == PT_NOTE ==> InBounds(data, s) && BuildIdOf(data, h, s) == None
  }

  /** Program header `i` yields the build id `d`, and every one before it was passed over. */
  ghost predicate Yields(data: Bytes, h: Elf, i: nat, d: Bytes)
    requires Header(data) == Some(h) && i < h.phnum
  {
    var s := Ph(data, h, i);
    && s.ptype == PT_NOTE && InBounds(data, s) && BuildIdOf(data, h, s) == Some(d)
    && forall j: nat :: j < i ==> Passed(data, h, j)
  }

  method FindBuildId(notes: seq<Note>) returns (d: Option<Bytes>)
    ensures d == FirstBuildId(notes)
  {
    for k := 0 to |notes|
      invariant FirstBuildId(notes) == FirstBuildId(notes[k..])
    {
      assert notes[k..][1..] == notes[k + 1..];
      if notes[k].ntype == NT_GNU_BUILD_ID && notes[k].name == GNU && notes[k].desc != [] {
        return Some(notes[k].desc);
      }
    }
    d := None;
  }

  /** The build id is what some program header yields, and None when none does or there is no ELF header. */
  ghost predicate IsBuildId(data: Bytes, r: Option<Bytes>) {
    var h := Header(data);
    if h.None? then r == None
    else forall d :: r == Some(d) <==> exists i: nat :: i < h.value.phnum && Yields(data, h.value, i, d)
  }

  /**
   * `extract_build_id`: the first matching note reached before a note segment that does not fit the data;
   * None for anything that is no ELF header, and when there is no such note.
   */
  method ExtractBuildId(data: Bytes) returns (r: Option<Bytes>)
    ensures IsBuildId(data, r)
  {
    hide Header, Ph, BuildIdOf, NotesFrom, FirstBuildId;
    if Header(data).None? {
      return None;
    }
    var h := Header(data).value;
    for i := 0 to h.phnum
      invariant forall j: nat :: j < i ==> Passed(data, h, j)
    {
      var s := Ph(data, h, i);
      if s.ptype == PT_NOTE {
        if s.offset + s.filesz > |data| {
          assert !Passed(data, h, i);
          forall k: nat, d | k < h.phnum && Yields(data, h, k, d) ensures false {
            FirstStopDecides(data, h, i, k, d);
          }
          return None;
        }
        var notes := ParseElfNotes(data[s.offset..s.offset + s.filesz], h.little);
        var d := FindBuildId(notes);
        assert d == BuildIdOf(data, h, s) by { BuildIdIs(data, h, s); }
        if d.Some? {
          assert Yields(data, h, i, d.value);
          YieldingStops(data, h, i, d.value);
          forall k: nat, e | k < h.phnum && Yields(data, h, k, e) ensures e == d.value {
            FirstStopDecides(data, h, i, k, e);
            YieldingStops(data, h, k, e);
          }
          return d;
        }
      }
    }
    forall k: nat, d | k < h.phnum && Yields(data, h, k, d) ensures false {
      YieldingStops(data, h, k, d);
    }
    r := None;
  }

  lemma YieldingStops(data: Bytes, h: Elf, i: nat, d: Bytes)
    requires Header(data) == Some(h) && i < h.phnum && Yields(data, h, i, d)
    ensures !Passed(data, h, i) && BuildIdOf(data, h, Ph(data, h, i)) == Some(d)
  {
  }

  /** Only the first program header that is not passed over can yield anything. */
  lemma FirstStopDecides(data: Bytes, h: Elf, i: nat, k: nat, d: Bytes)
    requires Header(data) == Some(h) && i < h.phnum && k < h.phnum
    requires !Passed(data, h, i) && forall j: nat :: j < i ==> Passed(data, h, j)
    requires Yields(data, h, k, d)
    ensures k == i
  {
    hide Header, Ph, BuildIdOf, Passed;
    YieldingStops(data, h, k, d);
  }

  lemma BuildIdIs(data: Bytes, h: Elf, s: Segment)
    requires InBounds(data, s)
    ensures BuildIdOf(data, h, s) == FirstBuildId(NotesFrom(data[s.offset..s.offset + s.filesz], 0, h.little))
  {
  }
}
