/** ELF32 headers as the System V gABI lays them out, and whole files composed of them: what the loader reads from the
bytes that were written. */
module ElfFormat {
  import opened Bits
  import opened Bytes
  import opened Isa
  import opened Controller
  import opened Programs
  import opened ElfBytes
  import opened ElfLoader

  // ----- Headers as written -----

  /** `Elf32_Phdr`: type, offset, virtual and physical address, file size, memory size, flags, alignment. */
  function WrittenSegment(s: Segment): seq<Byte> {
    Flat([s.kind, s.offset, s.address, s.physical, s.fileSize, s.memorySize, s.flags, s.align])
  }

  /** `Elf32_Shdr`: name, type, flags, address, offset, size, link, info, alignment, entry size. */
  function WrittenSection(s: Section): seq<Byte> {
    Flat([s.name, s.kind, s.flags, s.address, s.offset, s.size, s.link, s.info, s.align, s.entrySize])
  }

  type Half = x: int | 0 <= x < 0x1_0000

  /** The fields of `Elf32_Ehdr` behind its identification. */
  datatype Header = Header(kind: Half, machine: Half, version: Word, entry: Word,
                           programTable: Word, sectionTable: Word, flags: Word,
                           headerSize: Half, programSize: Half, programCount: Half,
                           sectionSize: Half, sectionCount: Half, names: Half)

  function WrittenHeader(h: Header): seq<Byte> {
    Digits(h.kind, 2) + Digits(h.machine, 2)
    + Flat([h.version, h.entry, h.programTable, h.sectionTable, h.flags])
    + (Digits(h.headerSize, 2) + Digits(h.programSize, 2) + Digits(h.programCount, 2)
       + Digits(h.sectionSize, 2) + Digits(h.sectionCount, 2) + Digits(h.names, 2))
  }

  /** The magic number, then 32-bit class, little-endian data and version 1. */
  const IDENTIFICATION: seq<Byte> := [0x7F, 'E' as int, 'L' as int, 'F' as int, 1, 1, 1]

  // ----- Single headers -----

  /** Reading a run of words gives the words whose bytes are there. */
  lemma WordsExact(data: seq<Byte>, at: nat, words: seq<Word>)
    requires at + 4 * |words| <= |data|
    ensures data[at..at + 4 * |words|] == Flat(words)
       <==> forall i :: 0 <= i < |words| ==> U32(data, at + 4 * i) == words[i]
  {
    hide LittleEndian, Flat, U32;
    FlatExact(data[at..at + 4 * |words|], words);
    forall i | 0 <= i < |words|
      ensures U32(data, at + 4 * i) == LittleEndian(data[at..at + 4 * |words|][4 * i..4 * i + 4])
    {
      WordAt(data, at, |words|, i);
    }
  }

  lemma WordAt(data: seq<Byte>, at: nat, n: nat, i: nat)
    requires at + 4 * n <= |data| && i < n
    ensures U32(data, at + 4 * i) == LittleEndian(data[at..at + 4 * n][4 * i..4 * i + 4])
  {
    hide LittleEndian, U32;
    SliceOfSlice(data, at, at + 4 * n, 4 * i, 4 * i + 4);
    U32Is(data, at + 4 * i);
  }

  lemma U32Is(data: seq<Byte>, at: nat)
    requires at + 4 <= |data|
    ensures U32(data, at) == LittleEndian(data[at..at + 4])
  {
  }

  lemma HalfExact(data: seq<Byte>, at: nat, value: Half)
    requires at + 2 <= |data|
    ensures data[at..at + 2] == Digits(value, 2) <==> U16(data, at) == value
  {
    hide LittleEndian, Digits, Pow2;
    NumberOfDigits(value, 2);
    DigitsOfNumber(data[at..at + 2]);
    Powers();
  }

  /** A program header is read as `s` exactly when its bytes are those written for `s`. */
  lemma SegmentExact(data: seq<Byte>, at: nat, s: Segment)
    requires at + 32 <= |data|
    ensures SegmentAt(data, at) == s <==> data[at..at + 32] == WrittenSegment(s)
  {
    hide Flat, U32;
    var words := [s.kind, s.offset, s.address, s.physical, s.fileSize, s.memorySize, s.flags, s.align];
    WordsExact(data, at, words);
    EightWords(data, at, words);
  }

  lemma EightWords(data: seq<Byte>, at: nat, words: seq<Word>)
    requires |words| == 8 && at + 32 <= |data|
    ensures (forall i :: 0 <= i < 8 ==> U32(data, at + 4 * i) == words[i])
       <==> (&& U32(data, at) == words[0] && U32(data, at + 4) == words[1] && U32(data, at + 8) == words[2]
             && U32(data, at + 12) == words[3] && U32(data, at + 16) == words[4] && U32(data, at + 20) == words[5]
             && U32(data, at + 24) == words[6] && U32(data, at + 28) == words[7])
  {
    hide U32;
  }

  /** And a section header. */
  lemma SectionExact(data: seq<Byte>, at: nat, s: Section)
    requires at + 40 <= |data|
    ensures SectionAt(data, at) == s <==> data[at..at + 40] == WrittenSection(s)
  {
    hide Flat, U32;
    var first := [s.name, s.kind, s.flags, s.address, s.offset, s.size, s.link, s.info];
    var words := first + [s.align, s.entrySize];
    WordsExact(data, at, words);
    TenWords(data, at, words);
    assert words == [s.name, s.kind, s.flags, s.address, s.offset, s.size, s.link, s.info, s.align, s.entrySize];
  }

  lemma TenWords(data: seq<Byte>, at: nat, words: seq<Word>)
    requires |words| == 10 && at + 40 <= |data|
    ensures (forall i :: 0 <= i < 10 ==> U32(data, at + 4 * i) == words[i])
       <==> (&& U32(data, at) == words[0] && U32(data, at + 4) == words[1] && U32(data, at + 8) == words[2]
             && U32(data, at + 12) == words[3] && U32(data, at + 16) == words[4] && U32(data, at + 20) == words[5]
             && U32(data, at + 24) == words[6] && U32(data, at + 28) == words[7]
             && U32(data, at + 32) == words[8] && U32(data, at + 36) == words[9])
  {
    hide U32;
  }

  /** The header fields at the places the loader looks for them. */
  predicate HeaderReads(data: seq<Byte>, h: Header)
    requires |data| >= 52
  {
    && U16(data, 16) == h.kind && U16(data, 18) == h.machine && U32(data, 20) == h.version && U32(data, 24) == h.entry
    && U32(data, 28) == h.programTable && U32(data, 32) == h.sectionTable && U32(data, 36) == h.flags
    && U16(data, 40) == h.headerSize && U16(data, 42) == h.programSize && U16(data, 44) == h.programCount
    && U16(data, 46) == h.sectionSize && U16(data, 48) == h.sectionCount && U16(data, 50) == h.names
  }

  /** The header is read as `h` exactly when its bytes are those written for `h`. */
  lemma HeaderExact(data: seq<Byte>, h: Header)
    requires |data| >= 52
    ensures HeaderReads(data, h) <==> data[16..52] == WrittenHeader(h)
  {
    hide Flat, Digits, U32, U16;
    var words := [h.version, h.entry, h.programTable, h.sectionTable, h.flags];
    WordsExact(data, 20, words);
    FiveWords(data, words);
    HalfExact(data, 16, h.kind);
    HalfExact(data, 18, h.machine);
    HalfExact(data, 40, h.headerSize);
    HalfExact(data, 42, h.programSize);
    HalfExact(data, 44, h.programCount);
    HalfExact(data, 46, h.sectionSize);
    HalfExact(data, 48, h.sectionCount);
    HalfExact(data, 50, h.names);
    HeaderPieces(data, h);
  }

  lemma FiveWords(data: seq<Byte>, words: seq<Word>)
    requires |words| == 5 && |data| >= 52
    ensures (forall i :: 0 <= i < 5 ==> U32(data, 20 + 4 * i) == words[i])
       <==> (&& U32(data, 20) == words[0] && U32(data, 24) == words[1] && U32(data, 28) == words[2]
             && U32(data, 32) == words[3] && U32(data, 36) == words[4])
  {
    hide U32;
  }

  lemma HeaderPieces(data: seq<Byte>, h: Header)
    requires |data| >= 52
    ensures data[16..52] == WrittenHeader(h)
       <==> (&& data[16..18] == Digits(h.kind, 2) && data[18..20] == Digits(h.machine, 2)
             && data[20..40] == Flat([h.version, h.entry, h.programTable, h.sectionTable, h.flags])
             && data[40..42] == Digits(h.headerSize, 2) && data[42..44] == Digits(h.programSize, 2)
             && data[44..46] == Digits(h.programCount, 2) && data[46..48] == Digits(h.sectionSize, 2)
             && data[48..50] == Digits(h.sectionCount, 2) && data[50..52] == Digits(h.names, 2))
  {
    hide Flat, Digits;
    var a, b, c := Digits(h.kind, 2), Digits(h.machine, 2),
                   Flat([h.version, h.entry, h.programTable, h.sectionTable, h.flags]);
    var d, e, f := Digits(h.headerSize, 2), Digits(h.programSize, 2), Digits(h.programCount, 2);
    var i, j, k := Digits(h.sectionSize, 2), Digits(h.sectionCount, 2), Digits(h.names, 2);
    ThreeParts(data[16..52], a, b, c, d + e + f + i + j + k);
    SixParts(data[40..52], d, e, f, i, j, k);
    HeaderSlices(data);
  }

  lemma HeaderSlices(data: seq<Byte>)
    requires |data| >= 52
    ensures var s := data[16..52];
            s[0..2] == data[16..18] && s[2..4] == data[18..20] && s[4..24] == data[20..40] && s[24..36] == data[40..52]
    ensures var s := data[40..52];
            && s[0..2] == data[40..42] && s[2..4] == data[42..44] && s[4..6] == data[44..46]
            && s[6..8] == data[46..48] && s[8..10] == data[48..50] && s[10..12] == data[50..52]
  {
    SliceOfSlice(data, 16, 52, 0, 2);
    SliceOfSlice(data, 16, 52, 2, 4);
    SliceOfSlice(data, 16, 52, 4, 24);
    SliceOfSlice(data, 16, 52, 24, 36);
    SliceOfSlice(data, 40, 52, 0, 2);
    SliceOfSlice(data, 40, 52, 2, 4);
    SliceOfSlice(data, 40, 52, 4, 6);
    SliceOfSlice(data, 40, 52, 6, 8);
    SliceOfSlice(data, 40, 52, 8, 10);
    SliceOfSlice(data, 40, 52, 10, 12);
  }

  lemma ThreeParts(s: seq<Byte>, a: seq<Byte>, b: seq<Byte>, c: seq<Byte>, d: seq<Byte>)
    requires |s| == 36 && |a| == |b| == 2 && |c| == 20 && |d| == 12
    ensures s == a + b + c + d <==> s[0..2] == a && s[2..4] == b && s[4..24] == c && s[24..36] == d
  {
    assert s == s[0..2] + s[2..4] + s[4..24] + s[24..36];
    var t := a + b + c + d;
    assert t[0..2] == a && t[2..4] == b && t[4..24] == c && t[24..36] == d;
  }

  lemma SixParts(s: seq<Byte>, a: seq<Byte>, b: seq<Byte>, c: seq<Byte>, d: seq<Byte>, e: seq<Byte>, f: seq<Byte>)
    requires |s| == 12 && |a| == |b| == |c| == |d| == |e| == |f| == 2
    ensures s == a + b + c + d + e + f
       <==> s[0..2] == a && s[2..4] == b && s[4..6] == c && s[6..8] == d && s[8..10] == e && s[10..12] == f
  {
    assert s == s[0..2] + s[2..4] + s[4..6] + s[6..8] + s[8..10] + s[10..12];
    var t := a + b + c + d + e + f;
    assert t[0..2] == a && t[2..4] == b && t[4..6] == c && t[6..8] == d && t[8..10] == e && t[10..12] == f;
  }

  // ----- Whole files -----

  /** A static RV32 executable for the base ABI whose program table lies in the file. */
  predicate GoodHeader(h: Header, size: nat) {
    && h.kind == 2 && h.machine == 243 && h.version == 1 && h.flags == 0 && h.headerSize == 52 && h.programSize == 32
    && 1 <= h.programCount <= 1024 && h.programTable + 32 * h.programCount <= size
  }

  /** The header is accepted exactly when the file starts with the identification and the bytes of a good header. */
  lemma HeaderAccepted(data: seq<Byte>)
    ensures HeaderVerdict(data) == Accepted
       <==> |data| >= 52 && data[..7] == IDENTIFICATION
            && exists h :: data[16..52] == WrittenHeader(h) && GoodHeader(h, |data|)
  {
    hide WrittenHeader, U16, U32, HeaderVerdict, GoodHeader;
    if |data| >= 52 {
      var h := Header(U16(data, 16), U16(data, 18), U32(data, 20), U32(data, 24), U32(data, 28), U32(data, 32),
                      U32(data, 36), U16(data, 40), U16(data, 42), U16(data, 44), U16(data, 46), U16(data, 48),
                      U16(data, 50));
      HeaderExact(data, h);
      HeaderVerdictReads(data, h);
      if g :| data[16..52] == WrittenHeader(g) && GoodHeader(g, |data|) {
        HeaderExact(data, g);
      }
    } else {
      TooShort(data);
    }
  }

  lemma TooShort(data: seq<Byte>)
    requires |data| < 52
    ensures HeaderVerdict(data) == Rejected(0, NotElf)
  {
  }

  lemma HeaderVerdictReads(data: seq<Byte>, h: Header)
    requires |data| >= 52 && HeaderReads(data, h)
    ensures HeaderVerdict(data) == Accepted <==> data[..7] == IDENTIFICATION && GoodHeader(h, |data|)
  {
    hide U16, U32;
    IdentificationReads(data);
  }

  lemma IdentificationReads(data: seq<Byte>)
    requires |data| >= 7
    ensures data[..7] == IDENTIFICATION
       <==> data[..4] == MAGIC && data[4] == 1 && data[5] == 1 && data[6] == 1
  {
    assert data[..7] == data[..4] + [data[4], data[5], data[6]];
    assert IDENTIFICATION == MAGIC + [1, 1, 1];
  }

  /** The bytes of a file put together from a header, program headers and, possibly, section headers. What lies between
      them, the contents and the padding, is arbitrary. */
  ghost predicate Composed(data: seq<Byte>, h: Header, segments: seq<Segment>, sections: seq<Section>) {
    && |data| >= 52 && data[..7] == IDENTIFICATION && data[16..52] == WrittenHeader(h) && GoodHeader(h, |data|)
    && h.programCount == |segments|
    && (forall i :: 0 <= i < |segments| ==> HasSegment(data, h.programTable + 32 * i, segments[i]))
    && (if sections == [] then h.sectionCount == 0 && h.sectionTable == 0 && h.names == 0
        else
          && h.sectionCount == |sections| && h.sectionSize == 40 && h.sectionTable + 40 * |sections| <= |data|
          && forall i :: 0 <= i < |sections| ==> HasSection(data, h.sectionTable + 40 * i, sections[i]))
  }

  predicate HasSegment(data: seq<Byte>, at: nat, s: Segment) {
    at + 32 <= |data| && data[at..at + 32] == WrittenSegment(s)
  }

  predicate HasSection(data: seq<Byte>, at: nat, s: Section) {
    at + 40 <= |data| && data[at..at + 40] == WrittenSection(s)
  }

  /** A composed file is read as exactly its program headers, entry and section headers. */
  lemma ComposedIsRead(data: seq<Byte>, h: Header, segments: seq<Segment>, sections: seq<Section>)
    requires Composed(data, h, segments, sections)
    ensures HeaderVerdict(data) == Accepted && Segments(data) == segments && HeaderReads(data, h)
    ensures forall i :: 0 <= i < |sections| ==>
              h.sectionTable + 40 * i + 40 <= |data| && SectionAt(data, h.sectionTable + 40 * i) == sections[i]
  {
    hide WrittenHeader, WrittenSegment, WrittenSection, U16, U32, HeaderVerdict, GoodHeader, SegmentAt, SectionAt;
    HeaderExact(data, h);
    HeaderVerdictReads(data, h);
    var read := Segments(data);
    forall i | 0 <= i < |segments| ensures read[i] == segments[i] {
      assert HasSegment(data, h.programTable + 32 * i, segments[i]);
      SegmentExact(data, h.programTable + 32 * i, segments[i]);
    }
    forall i | 0 <= i < |sections|
      ensures h.sectionTable + 40 * i + 40 <= |data| && SectionAt(data, h.sectionTable + 40 * i) == sections[i]
    {
      assert HasSection(data, h.sectionTable + 40 * i, sections[i]);
      SectionExact(data, h.sectionTable + 40 * i, sections[i]);
    }
  }

  /** It is accepted exactly when the headers it was composed of are good: section names among the sections, every
      section and load segment in the file, segments in RAM and pairwise apart, the entry in an executable one. */
  lemma ComposedAccepted(data: seq<Byte>, h: Header, segments: seq<Segment>, sections: seq<Section>, ramSize: nat)
    requires Composed(data, h, segments, sections)
    ensures ElfVerdict(data, ramSize) == Accepted
       <==> && (sections == [] || h.names < |sections|)
            && (forall i :: 0 <= i < |sections| ==> GoodSection(data, sections[i]))
            && (forall i :: 0 <= i < |segments| ==> GoodSegment(segments[i], |data|, ramSize))
            && PairwiseApart(segments) && SomeHoldsEntry(segments, h.entry)
  {
    hide WrittenHeader, WrittenSegment, WrittenSection, U16, U32, HeaderVerdict, GoodHeader, SectionAt, Segments;
    hide GoodSegment, PairwiseApart, SomeHoldsEntry, GoodSection, ElfVerdict;
    ComposedIsRead(data, h, segments, sections);
    ElfAccepted(data, ramSize);
    ComposedSections(data, h, segments, sections);
  }

  lemma ComposedSections(data: seq<Byte>, h: Header, segments: seq<Segment>, sections: seq<Section>)
    requires Composed(data, h, segments, sections)
    ensures GoodSections(data)
       <==> (sections == [] || h.names < |sections|)
            && (forall i :: 0 <= i < |sections| ==> GoodSection(data, sections[i]))
  {
    hide WrittenHeader, WrittenSegment, WrittenSection, U16, U32, GoodHeader, SectionAt, GoodSection, Segments;
    hide HeaderVerdict;
    ComposedIsRead(data, h, segments, sections);
    forall i | 0 <= i < |sections|
      ensures h.sectionTable + i * 40 + 40 <= |data| && SectionAt(data, h.sectionTable + i * 40) == sections[i]
    {
      assert h.sectionTable + i * 40 == h.sectionTable + 40 * i;
    }
  }

  /** And then it is loaded as the exact image of its segments, over their hull, with its entry. */
  lemma ComposedIsLoaded(data: seq<Byte>, h: Header, segments: seq<Segment>, sections: seq<Section>, ramSize: nat)
    requires Composed(data, h, segments, sections) && SizeValid(ramSize) && ElfVerdict(data, ramSize) == Accepted
    ensures var p := ElfImage(data, ramSize);
            && |p.ram| == ramSize && AllFit(segments, |data|, ramSize) && ExactImage(p.ram, data, segments)
            && IsHull(segments, p.loadAddress, p.loadAddress + p.imageSize) && p.entry == h.entry && Acceptable(p)
  {
    hide WrittenHeader, WrittenSegment, WrittenSection, U16, U32, HeaderVerdict, GoodHeader, Segments, ElfVerdict;
    hide ElfImage, ExactImage, IsHull, Acceptable, AllFit;
    ComposedIsRead(data, h, segments, sections);
    LoadedElf(data, ramSize);
  }

  /** Each refusal of the header and the condition under which it is given. */
  lemma HeaderRefusals(data: seq<Byte>, h: Header)
    requires |data| >= 52 && data[16..52] == WrittenHeader(h)
    ensures var v, magic := HeaderVerdict(data), data[..4] == [0x7F, 'E' as int, 'L' as int, 'F' as int];
            var target := data[4..7] == [1, 1, 1] && h.kind == 2 && h.machine == 243 && h.version == 1;
            var sizes := h.headerSize == 52 && h.programSize == 32;
            var table := 1 <= h.programCount <= 1024 && h.programTable + 32 * h.programCount <= |data|;
            && (v == Rejected(0, NotElf) <==> !magic)
            && (v == Rejected(0, WrongTarget) <==> magic && !target)
            && (v == Rejected(0, UnsupportedFlags) <==> magic && target && h.flags != 0)
            && (v == Rejected(0, BadHeaderSizes) <==> magic && target && h.flags == 0 && !sizes)
            && (v == Rejected(0, BadProgramTable) <==> magic && target && h.flags == 0 && sizes && !table)
  {
    hide WrittenHeader, U16, U32;
    HeaderExact(data, h);
    assert data[4..7] == [data[4], data[5], data[6]];
  }
}
