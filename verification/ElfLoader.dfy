/** The ELF32 executable loader: header, section and segment validation, and the RAM image. */
module ElfLoader {
  import opened Bits
  import opened Isa
  import opened Controller
  import opened Programs
  import opened ProgramIo
  import opened ElfBytes
  import Attributes

  const MAX_SEGMENTS: int := 1024
  const FILE_LIMIT: int := 0x400_0000

  // ----- Program headers -----

  datatype Segment = Segment(kind: Word, offset: Word, address: Word, physical: Word,
                             fileSize: Word, memorySize: Word, flags: Word, align: Word)

  function SegmentAt(data: seq<Byte>, at: nat): Segment
    requires at + 32 <= |data|
  {
    Segment(U32(data, at), U32(data, at + 4), U32(data, at + 8), U32(data, at + 12),
            U32(data, at + 16), U32(data, at + 20), U32(data, at + 24), U32(data, at + 28))
  }

  /** The program header table. */
  function SegmentTable(data: seq<Byte>, table: nat, count: nat): (segments: seq<Segment>)
    requires table + count * 32 <= |data|
    ensures |segments| == count
    ensures forall i :: 0 <= i < count ==> segments[i] == SegmentAt(data, table + i * 32)
  {
    seq(count, i requires 0 <= i < count => SegmentAt(data, table + i * 32))
  }

  /** A segment that occupies RAM. */
  predicate Occupies(s: Segment) {
    s.kind == 1 && s.memorySize != 0
  }

  predicate Overlap(s: Segment, t: Segment) {
    s.address < t.address + t.memorySize && t.address < s.address + s.memorySize
  }

  /** The checks on program header `i`, in order. `size` is the file size. */
  function SegmentVerdict(segments: seq<Segment>, i: nat, size: nat, ramSize: nat): Verdict
    requires i < |segments|
  {
    var s := segments[i];
    if s.kind == 2 || s.kind == 3 || s.kind == 7 then Rejected(0, DynamicLinking)
    else if s.kind != 1 then Accepted
    else if s.fileSize > s.memorySize || !InRange(s.offset, s.fileSize, size) then Rejected(0, SegmentOutside)
    else if s.physical != s.address then Rejected(0, PhysicalDiffers)
    else if s.align > 1 && (And(s.align, s.align - 1) != 0 || s.address % s.align != s.offset % s.align) then
      Rejected(0, BadAlignment)
    else if !InRange(s.address, s.memorySize, ramSize) then Rejected(0, SegmentDoesNotFit)
    else if s.memorySize == 0 then Accepted
    else if exists j :: 0 <= j < i && Occupies(segments[j]) && Overlap(s, segments[j]) then Rejected(0, SegmentsOverlap)
    else Accepted
  }

  /** The first complaint about headers `i` and later. */
  function SegmentsVerdict(segments: seq<Segment>, i: nat, size: nat, ramSize: nat): Verdict
    requires i <= |segments|
    decreases |segments| - i
  {
    if i == |segments| then Accepted
    else if SegmentVerdict(segments, i, size, ramSize) != Accepted then SegmentVerdict(segments, i, size, ramSize)
    else SegmentsVerdict(segments, i + 1, size, ramSize)
  }

  /** The entry point is an aligned, complete instruction in the file-backed part of an executable segment. */
  predicate HoldsEntry(s: Segment, entry: Word) {
    && Occupies(s) && s.flags % 2 == 1 && s.fileSize >= 4
    && s.address <= entry && entry - s.address <= s.fileSize - 4 && entry % 4 == 0
  }

  predicate SomeHoldsEntry(segments: seq<Segment>, entry: Word) {
    exists s :: s in segments && HoldsEntry(s, entry)
  }

  // ----- Section headers -----

  datatype Section = Section(name: Word, kind: Word, flags: Word, address: Word, offset: Word,
                             size: Word, link: Word, info: Word, align: Word, entrySize: Word)

  function SectionAt(data: seq<Byte>, at: nat): Section
    requires at + 40 <= |data|
  {
    Section(U32(data, at), U32(data, at + 4), U32(data, at + 8), U32(data, at + 12), U32(data, at + 16),
            U32(data, at + 20), U32(data, at + 24), U32(data, at + 28), U32(data, at + 32), U32(data, at + 36))
  }

  function SectionVerdict(data: seq<Byte>, s: Section): Verdict {
    if And(s.flags, 0x400) != 0 then Rejected(0, ThreadStorage)
    else if s.kind != 8 && !InRange(s.offset, s.size, |data|) then Rejected(0, SectionOutside)
    else if s.kind == 0x7000_0003 then Attributes.AttributesVerdict(data[s.offset..s.offset + s.size])
    else Accepted
  }

  function SectionListVerdict(data: seq<Byte>, table: nat, i: nat, count: nat): Verdict
    requires i <= count && table + count * 40 <= |data|
    decreases count - i
  {
    if i == count then Accepted
    else if SectionVerdict(data, SectionAt(data, table + i * 40)) != Accepted then
      SectionVerdict(data, SectionAt(data, table + i * 40))
    else SectionListVerdict(data, table, i + 1, count)
  }

  function SectionsVerdict(data: seq<Byte>): Verdict
    requires |data| >= 52
  {
    var offset, count, names := U32(data, 32), U16(data, 48), U16(data, 50);
    if count == 0 && offset == 0 && names == 0 then Accepted
    else if count == 0 || U16(data, 46) != 40 || !InRange(offset, count * 40, |data|) || names >= count then
      Rejected(0, BadSectionTable)
    else SectionListVerdict(data, offset, 0, count)
  }

  // ----- The whole file -----

  const MAGIC: seq<Byte> := [0x7F, 69, 76, 70]

  /** The checks on the ELF header itself. */
  function HeaderVerdict(data: seq<Byte>): Verdict {
    if |data| < 52 || data[..4] != MAGIC then Rejected(0, NotElf)
    else if data[4] != 1 || data[5] != 1 || data[6] != 1
            || U16(data, 16) != 2 || U16(data, 18) != 243 || U32(data, 20) != 1 then
      Rejected(0, WrongTarget)
    else if U32(data, 36) != 0 then Rejected(0, UnsupportedFlags)
    else if U16(data, 40) != 52 || U16(data, 42) != 32 then Rejected(0, BadHeaderSizes)
    else if U16(data, 44) == 0 || U16(data, 44) > MAX_SEGMENTS
            || !InRange(U32(data, 28), U16(data, 44) * 32, |data|) then
      Rejected(0, BadProgramTable)
    else Accepted
  }

  function Segments(data: seq<Byte>): seq<Segment>
    requires HeaderVerdict(data) == Accepted
  {
    SegmentTable(data, U32(data, 28), U16(data, 44))
  }

  function ElfVerdict(data: seq<Byte>, ramSize: nat): Verdict {
    if HeaderVerdict(data) != Accepted then HeaderVerdict(data)
    else if SectionsVerdict(data) != Accepted then SectionsVerdict(data)
    else
      var segments := SegmentsVerdict(Segments(data), 0, |data|, ramSize);
      if segments != Accepted then segments
      else if !SomeHoldsEntry(Segments(data), U32(data, 24)) then Rejected(0, NoEntry)
      else Accepted
  }

  // ----- The image -----

  /** `memcpy` of one segment's file bytes. */
  predicate Fits(s: Segment, size: nat, ramSize: nat) {
    s.kind == 1 ==> s.fileSize <= s.memorySize && s.offset + s.fileSize <= size && s.address + s.memorySize <= ramSize
  }

  function Painted(ram: seq<Byte>, data: seq<Byte>, s: Segment): (r: seq<Byte>)
    requires Fits(s, |data|, |ram|)
    ensures |r| == |ram|
  {
    if s.kind == 1 && s.fileSize != 0 then
      ram[..s.address] + data[s.offset..s.offset + s.fileSize] + ram[s.address + s.fileSize..]
    else ram
  }

  predicate AllFit(segments: seq<Segment>, size: nat, ramSize: nat) {
    forall s :: s in segments ==> Fits(s, size, ramSize)
  }

  /** RAM after copying the segments in the order given. */
  function PaintedAll(ram: seq<Byte>, data: seq<Byte>, segments: seq<Segment>): (r: seq<Byte>)
    requires AllFit(segments, |data|, |ram|)
    ensures |r| == |ram|
    decreases |segments|
  {
    if segments == [] then ram
    else
      var n := |segments| - 1;
      assert segments[n] in segments;
      Painted(PaintedAll(ram, data, segments[..n]), data, segments[n])
  }

  /** The file part of `s` covers address `a`. */
  predicate Covers(s: Segment, a: nat) {
    s.kind == 1 && s.address <= a < s.address + s.fileSize
  }

  /** Different segments never share an address. */
  ghost predicate Separate(segments: seq<Segment>) {
    forall s, t :: s in segments && t in segments && s != t && Occupies(s) && Occupies(t) ==> !Overlap(s, t)
  }

  /** Every byte of RAM is the file byte of the segment covering it, and zero where none does. */
  ghost predicate ExactImage(ram: seq<Byte>, data: seq<Byte>, segments: seq<Segment>)
    requires AllFit(segments, |data|, |ram|)
  {
    forall a :: 0 <= a < |ram| ==> ExactByte(ram[a], data, segments, |ram|, a)
  }

  ghost predicate ExactByte(b: Byte, data: seq<Byte>, segments: seq<Segment>, ramSize: nat, a: nat)
    requires AllFit(segments, |data|, ramSize)
  {
    && (forall s :: s in segments && Covers(s, a) ==> b == data[s.offset + (a - s.address)])
    && ((forall s :: s in segments ==> !Covers(s, a)) ==> b == 0)
  }

  lemma {:induction false} PaintedIsExact(data: seq<Byte>, segments: seq<Segment>, ramSize: nat)
    requires AllFit(segments, |data|, ramSize) && Separate(segments)
    ensures ExactImage(PaintedAll(Zeros(ramSize), data, segments), data, segments)
    decreases |segments|
  {
    hide Painted;
    if segments != [] {
      var n := |segments| - 1;
      var rest, last := segments[..n], segments[n];
      assert last in segments && forall s :: s in segments <==> s in rest || s == last;
      PaintedIsExact(data, rest, ramSize);
      var before := PaintedAll(Zeros(ramSize), data, rest);
      var after := PaintedAll(Zeros(ramSize), data, segments);
      forall a | 0 <= a < ramSize ensures ExactByte(after[a], data, segments, ramSize, a) {
        assert ExactByte(before[a], data, rest, ramSize, a);
        PaintedByte(before, data, last, a);
        if Covers(last, a) {
          forall s | s in segments && Covers(s, a) ensures s == last {
            assert Occupies(s) && Occupies(last) && Overlap(s, last);
          }
        }
      }
    }
  }

  lemma PaintedByte(ram: seq<Byte>, data: seq<Byte>, s: Segment, a: nat)
    requires Fits(s, |data|, |ram|) && a < |ram|
    ensures Painted(ram, data, s)[a] == if Covers(s, a) then data[s.offset + (a - s.address)] else ram[a]
  {
    if s.kind == 1 && s.fileSize != 0 {
      var file := data[s.offset..s.offset + s.fileSize];
      assert |file| == s.fileSize;
      if Covers(s, a) {
        assert file[a - s.address] == data[s.offset + (a - s.address)];
      }
    }
  }

  lemma ExactImageUnique(r: seq<Byte>, q: seq<Byte>, data: seq<Byte>, segments: seq<Segment>, order: seq<Segment>)
    requires |r| == |q| && AllFit(segments, |data|, |r|) && AllFit(order, |data|, |r|)
    requires forall s :: s in segments <==> s in order
    requires ExactImage(r, data, segments) && ExactImage(q, data, order)
    ensures r == q
  {
    forall a | 0 <= a < |r| ensures r[a] == q[a] {
      assert ExactByte(r[a], data, segments, |r|, a) && ExactByte(q[a], data, order, |q|, a);
      if s :| s in segments && Covers(s, a) {
        assert s in order;
      }
    }
  }

  /** The image does not depend on the order in which segments are copied. */
  lemma CopyOrderIrrelevant(data: seq<Byte>, segments: seq<Segment>, order: seq<Segment>, ramSize: nat)
    requires AllFit(segments, |data|, ramSize) && Separate(segments)
    requires forall s :: s in segments <==> s in order
    ensures AllFit(order, |data|, ramSize)
    ensures PaintedAll(Zeros(ramSize), data, segments) == PaintedAll(Zeros(ramSize), data, order)
  {
    PaintedIsExact(data, segments, ramSize);
    PaintedIsExact(data, order, ramSize);
    ExactImageUnique(PaintedAll(Zeros(ramSize), data, segments), PaintedAll(Zeros(ramSize), data, order), data,
                     segments, order);
  }

  // ----- What acceptance means -----

  /** A well-formed load segment: inside the file and RAM, identity-mapped, and congruent modulo a power-of-two
      alignment. */
  ghost predicate GoodSegment(s: Segment, size: nat, ramSize: nat) {
    && s.kind != 2 && s.kind != 3 && s.kind != 7
    && (s.kind == 1 ==>
          && Fits(s, size, ramSize) && s.physical == s.address
          && (s.align > 1 ==> IsPowerOfTwo(s.align) && s.address % s.align == s.offset % s.align))
  }

  lemma SegmentAccepted(segments: seq<Segment>, i: nat, size: nat, ramSize: nat)
    requires i < |segments|
    ensures SegmentVerdict(segments, i, size, ramSize) == Accepted
       <==> && GoodSegment(segments[i], size, ramSize)
            && (Occupies(segments[i]) ==>
                  forall j :: 0 <= j < i && Occupies(segments[j]) ==> !Overlap(segments[i], segments[j]))
  {
    hide And, IsPowerOfTwo;
    var s := segments[i];
    if s.align > 1 {
      PowerOfTwo(s.align);
    }
  }

  lemma {:induction false} SegmentsAccepted(segments: seq<Segment>, i: nat, size: nat, ramSize: nat)
    requires i <= |segments|
    ensures SegmentsVerdict(segments, i, size, ramSize) == Accepted
       <==> forall k :: i <= k < |segments| ==> SegmentVerdict(segments, k, size, ramSize) == Accepted
    decreases |segments| - i
  {
    hide SegmentVerdict;
    if i < |segments| {
      SegmentsAccepted(segments, i + 1, size, ramSize);
    }
  }

  /** Two headers at different positions never claim the same RAM. */
  ghost predicate PairwiseApart(segments: seq<Segment>) {
    forall i, j :: 0 <= j < i < |segments| && Occupies(segments[i]) && Occupies(segments[j]) ==>
      !Overlap(segments[i], segments[j])
  }

  /** The table is accepted exactly when every header is good and no two occupy the same RAM. */
  lemma TableAccepted(segments: seq<Segment>, size: nat, ramSize: nat)
    ensures SegmentsVerdict(segments, 0, size, ramSize) == Accepted
       <==> (forall i :: 0 <= i < |segments| ==> GoodSegment(segments[i], size, ramSize)) && PairwiseApart(segments)
  {
    hide SegmentVerdict, GoodSegment, Overlap, SegmentsVerdict;
    SegmentsAccepted(segments, 0, size, ramSize);
    forall i | 0 <= i < |segments| ensures SegmentVerdict(segments, i, size, ramSize) == Accepted
       <==> GoodSegment(segments[i], size, ramSize)
            && (Occupies(segments[i]) ==>
                  forall j :: 0 <= j < i && Occupies(segments[j]) ==> !Overlap(segments[i], segments[j])) {
      SegmentAccepted(segments, i, size, ramSize);
    }
  }

  lemma AcceptedTable(segments: seq<Segment>, size: nat, ramSize: nat)
    requires SegmentsVerdict(segments, 0, size, ramSize) == Accepted
    ensures AllFit(segments, size, ramSize) && Separate(segments)
  {
    hide SegmentsVerdict, Overlap;
    TableAccepted(segments, size, ramSize);
    forall s, t | s in segments && t in segments && s != t && Occupies(s) && Occupies(t) ensures !Overlap(s, t) {
      var i :| 0 <= i < |segments| && segments[i] == s;
      var j :| 0 <= j < |segments| && segments[j] == t;
      OverlapSymmetric(s, t);
    }
    forall s | s in segments ensures Fits(s, size, ramSize) {
      var i :| 0 <= i < |segments| && segments[i] == s;
      assert GoodSegment(segments[i], size, ramSize);
    }
  }

  lemma OverlapSymmetric(s: Segment, t: Segment)
    ensures Overlap(s, t) == Overlap(t, s)
  {
  }

  /** `[low, high)` is the smallest address range that holds every occupied segment. */
  ghost predicate IsHull(segments: seq<Segment>, low: nat, high: nat) {
    && (forall s :: s in segments && Occupies(s) ==> low <= s.address && s.address + s.memorySize <= high)
    && (exists s :: s in segments && Occupies(s) && s.address == low)
    && (exists s :: s in segments && Occupies(s) && s.address + s.memorySize == high)
  }

  /** The bounds of a list of segments, folded from the front as the loader does. */
  function Lowest(segments: seq<Segment>, ramSize: nat): nat {
    if segments == [] then ramSize
    else
      var rest, s := Lowest(segments[..|segments| - 1], ramSize), segments[|segments| - 1];
      if Occupies(s) && s.address < rest then s.address else rest
  }

  function Highest(segments: seq<Segment>): nat {
    if segments == [] then 0
    else
      var rest, s := Highest(segments[..|segments| - 1]), segments[|segments| - 1];
      if Occupies(s) && s.address + s.memorySize > rest then s.address + s.memorySize else rest
  }

  lemma {:induction false} BoundsAreBounds(segments: seq<Segment>, size: nat, ramSize: nat)
    requires AllFit(segments, size, ramSize)
    ensures forall s :: s in segments && Occupies(s) ==>
              Lowest(segments, ramSize) <= s.address && s.address + s.memorySize <= Highest(segments)
    ensures Lowest(segments, ramSize) == ramSize
            || exists s :: s in segments && Occupies(s) && s.address == Lowest(segments, ramSize)
    ensures Highest(segments) == 0
            || exists s :: s in segments && Occupies(s) && s.address + s.memorySize == Highest(segments)
    ensures Highest(segments) <= ramSize
    decreases |segments|
  {
    if segments != [] {
      var rest, last := segments[..|segments| - 1], segments[|segments| - 1];
      assert last in segments && forall s :: s in segments <==> s in rest || s == last;
      BoundsAreBounds(rest, size, ramSize);
    }
  }

  /** When something occupies RAM, the folded bounds are the exact hull. */
  lemma BoundsAreHull(segments: seq<Segment>, size: nat, ramSize: nat, some: Segment)
    requires AllFit(segments, size, ramSize) && some in segments && Occupies(some)
    ensures IsHull(segments, Lowest(segments, ramSize), Highest(segments))
    ensures Lowest(segments, ramSize) < Highest(segments) <= ramSize
  {
    BoundsAreBounds(segments, size, ramSize);
  }

  // ----- The loader -----

  /** `validate_sections`. */
  method ValidateSections(data: seq<Byte>) returns (verdict: Verdict)
    requires |data| >= 52
    ensures verdict == SectionsVerdict(data)
  {
    hide U32, U16, SectionVerdict, SectionAt, Attributes.AttributesVerdict;
    var offset, count, names := U32(data, 32), U16(data, 48), U16(data, 50);
    if count == 0 && offset == 0 && names == 0 {
      return Accepted;
    }
    if count == 0 || U16(data, 46) != 40 || !InRange(offset, count * 40, |data|) || names >= count {
      return Rejected(0, BadSectionTable);
    }
    for i := 0 to count
      invariant SectionListVerdict(data, offset, 0, count) == SectionListVerdict(data, offset, i, count)
    {
      verdict := ValidateSection(data, offset + i * 40);
      if verdict != Accepted {
        return;
      }
    }
    return Accepted;
  }

  method ValidateSection(data: seq<Byte>, at: nat) returns (verdict: Verdict)
    requires at + 40 <= |data|
    ensures verdict == SectionVerdict(data, SectionAt(data, at))
  {
    hide U32, And, Attributes.AttributesVerdict, Attributes.WellTiled;
    var kind, start, length: nat := U32(data, at + 4), U32(data, at + 16), U32(data, at + 20);
    if And(U32(data, at + 8), 0x400) != 0 {
      return Rejected(0, ThreadStorage);
    }
    if kind != 8 && !InRange(start, length, |data|) {
      return Rejected(0, SectionOutside);
    }
    if kind == 0x7000_0003 {
      verdict := Attributes.Parse(data[start..start + length]);
      return;
    }
    return Accepted;
  }

  /** The overlap check of header `i` against the earlier ones. */
  method OverlapsEarlier(segments: seq<Segment>, i: nat) returns (found: bool)
    requires i < |segments|
    ensures found == exists j :: 0 <= j < i && Occupies(segments[j]) && Overlap(segments[i], segments[j])
  {
    for j := 0 to i
      invariant !exists k :: 0 <= k < j && Occupies(segments[k]) && Overlap(segments[i], segments[k])
    {
      if Occupies(segments[j]) && Overlap(segments[i], segments[j]) {
        return true;
      }
    }
    return false;
  }

  method CheckSegment(segments: seq<Segment>, i: nat, size: nat, ramSize: nat) returns (verdict: Verdict)
    requires i < |segments|
    ensures verdict == SegmentVerdict(segments, i, size, ramSize)
  {
    hide And;
    var s := segments[i];
    if s.kind == 2 || s.kind == 3 || s.kind == 7 {
      return Rejected(0, DynamicLinking);
    }
    if s.kind != 1 {
      return Accepted;
    }
    if s.fileSize > s.memorySize || !InRange(s.offset, s.fileSize, size) {
      return Rejected(0, SegmentOutside);
    }
    if s.physical != s.address {
      return Rejected(0, PhysicalDiffers);
    }
    if s.align > 1 && (And(s.align, s.align - 1) != 0 || s.address % s.align != s.offset % s.align) {
      return Rejected(0, BadAlignment);
    }
    if !InRange(s.address, s.memorySize, ramSize) {
      return Rejected(0, SegmentDoesNotFit);
    }
    if s.memorySize == 0 {
      return Accepted;
    }
    var overlaps := OverlapsEarlier(segments, i);
    if overlaps {
      return Rejected(0, SegmentsOverlap);
    }
    return Accepted;
  }

  /** The first pass over the program headers: validate each, and collect the hull and the entry check. */
  method CheckSegments(segments: seq<Segment>, entry: Word, size: nat, ramSize: nat)
    returns (verdict: Verdict, lowest: nat, highest: nat, executableEntry: bool)
    ensures verdict == SegmentsVerdict(segments, 0, size, ramSize)
    ensures verdict == Accepted ==>
              lowest == Lowest(segments, ramSize) && highest == Highest(segments)
              && executableEntry == SomeHoldsEntry(segments, entry)
  {
    hide SegmentVerdict;
    verdict, lowest, highest, executableEntry := Accepted, ramSize, 0, false;
    for i := 0 to |segments|
      invariant SegmentsVerdict(segments, 0, size, ramSize) == SegmentsVerdict(segments, i, size, ramSize)
      invariant lowest == Lowest(segments[..i], ramSize) && highest == Highest(segments[..i])
      invariant executableEntry == SomeHoldsEntry(segments[..i], entry)
    {
      var s := segments[i];
      verdict := CheckSegment(segments, i, size, ramSize);
      if verdict != Accepted {
        return;
      }
      assert segments[..i + 1][..i] == segments[..i] && segments[..i + 1] == segments[..i] + [s];
      if s.kind == 1 && s.memorySize != 0 {
        if s.address < lowest {
          lowest := s.address;
        }
        if s.address + s.memorySize > highest {
          highest := s.address + s.memorySize;
        }
        if s.flags % 2 == 1 && s.fileSize >= 4
           && entry >= s.address && entry - s.address <= s.fileSize - 4 && entry % 4 == 0 {
          executableEntry := true;
        }
      }
      EntryOfMore(segments[..i], s, entry);
    }
    assert segments[..|segments|] == segments;
    return Accepted, lowest, highest, executableEntry;
  }

  lemma EntryOfMore(segments: seq<Segment>, s: Segment, entry: Word)
    ensures SomeHoldsEntry(segments + [s], entry) <==> SomeHoldsEntry(segments, entry) || HoldsEntry(s, entry)
  {
    var more := segments + [s];
    assert more[|segments|] == s;
    assert forall t :: t in more <==> t in segments || t == s;
  }

  /** The second pass: copy each segment's file bytes into zero RAM. */
  method CopySegments(ram: array<Byte>, data: seq<Byte>, segments: seq<Segment>)
    requires AllFit(segments, |data|, ram.Length) && ram[..] == Zeros(ram.Length)
    modifies ram
    ensures ram[..] == PaintedAll(Zeros(ram.Length), data, segments)
  {
    for i := 0 to |segments|
      invariant AllFit(segments[..i], |data|, ram.Length)
      invariant ram[..] == PaintedAll(Zeros(ram.Length), data, segments[..i])
    {
      var s := segments[i];
      assert s in segments && segments[..i + 1][..i] == segments[..i] && segments[..i + 1] == segments[..i] + [s];
      CopySegment(ram, data, s);
    }
    assert segments[..|segments|] == segments;
  }

  method CopySegment(ram: array<Byte>, data: seq<Byte>, s: Segment)
    requires Fits(s, |data|, ram.Length)
    modifies ram
    ensures ram[..] == Painted(old(ram[..]), data, s)
  {
    if s.kind == 1 && s.fileSize != 0 {
      forall i | 0 <= i < s.fileSize {
        ram[s.address + i] := data[s.offset + i];
      }
      assert ram[..] == Painted(old(ram[..]), data, s);
    }
  }

  /** The program an accepted file describes. */
  function ElfImage(data: seq<Byte>, ramSize: nat): Image
    requires ElfVerdict(data, ramSize) == Accepted
  {
    var segments := Segments(data);
    AcceptedTable(segments, |data|, ramSize);
    AcceptedBounds(segments, |data|, ramSize, U32(data, 24));
    Image(PaintedAll(Zeros(ramSize), data, segments), Lowest(segments, ramSize), U32(data, 24),
          Highest(segments) - Lowest(segments, ramSize), ELF)
  }

  lemma AcceptedBounds(segments: seq<Segment>, size: nat, ramSize: nat, entry: Word)
    requires AllFit(segments, size, ramSize) && SomeHoldsEntry(segments, entry)
    ensures IsHull(segments, Lowest(segments, ramSize), Highest(segments))
    ensures Lowest(segments, ramSize) < Highest(segments) <= ramSize && Lowest(segments, ramSize) < MODULUS
    ensures Lowest(segments, ramSize) <= entry && entry + 4 <= Highest(segments) && entry % 4 == 0
  {
    hide Lowest, Highest;
    var s :| s in segments && HoldsEntry(s, entry);
    assert Fits(s, size, ramSize);
    BoundsAreHull(segments, size, ramSize, s);
  }

  /** `load_elf` on a file already in memory. */
  method LoadElf(data: seq<Byte>, ramSize: nat, available: bool, next: Program) returns (verdict: Verdict)
    requires SizeValid(ramSize) && next.memory.bytes.Length == 0
    modifies next, next.memory
    ensures verdict == ElfVerdict(data, ramSize) || (!available && verdict == Rejected(0, NoStorage))
    ensures next.memory == old(next.memory) && next.elfData == old(next.elfData)
    ensures verdict == Accepted ==> next.View() == ElfImage(data, ramSize) && fresh(next.memory.bytes)
  {
    hide U32, U16, SectionsVerdict, SegmentsVerdict, Segments, Lowest, Highest, PaintedAll, SomeHoldsEntry;
    verdict := CheckHeader(data);
    if verdict != Accepted {
      return;
    }
    verdict := ValidateSections(data);
    if verdict != Accepted {
      return;
    }
    var segments, entry := Segments(data), U32(data, 24);
    var lowest, highest, executableEntry;
    verdict, lowest, highest, executableEntry := CheckSegments(segments, entry, |data|, ramSize);
    if verdict != Accepted {
      return;
    }
    AcceptedTable(segments, |data|, ramSize);
    if executableEntry {
      AcceptedBounds(segments, |data|, ramSize, entry);
    }
    if !executableEntry || lowest >= highest {
      return Rejected(0, NoEntry);
    }
    var granted := *;
    var initialized := next.memory.Init(ramSize, available || granted);
    if !initialized {
      return Rejected(0, NoStorage);
    }
    CopySegments(next.memory.bytes, data, segments);
    next.loadAddress, next.entry, next.imageSize, next.format := lowest, entry, highest - lowest, ELF;
    return Accepted;
  }

  method CheckHeader(data: seq<Byte>) returns (verdict: Verdict)
    ensures verdict == HeaderVerdict(data)
  {
    hide U32, U16;
    if |data| < 52 || data[..4] != MAGIC {
      return Rejected(0, NotElf);
    }
    if data[4] != 1 || data[5] != 1 || data[6] != 1
       || U16(data, 16) != 2 || U16(data, 18) != 243 || U32(data, 20) != 1 {
      return Rejected(0, WrongTarget);
    }
    if U32(data, 36) != 0 {
      return Rejected(0, UnsupportedFlags);
    }
    if U16(data, 40) != 52 || U16(data, 42) != 32 {
      return Rejected(0, BadHeaderSizes);
    }
    var table, count := U32(data, 28), U16(data, 44);
    if count == 0 || count > MAX_SEGMENTS || !InRange(table, count * 32, |data|) {
      return Rejected(0, BadProgramTable);
    }
    return Accepted;
  }

  /** What `program_read_elf` must report for a stream. */
  function StreamVerdict(data: seq<Byte>, broken: bool, ramSize: nat): Verdict {
    if !SizeValid(ramSize) then Rejected(0, InvalidRamSize)
    else if BytesVerdict(|data|, FILE_LIMIT, broken) != Accepted then BytesVerdict(|data|, FILE_LIMIT, broken)
    else ElfVerdict(data, ramSize)
  }

  /** `program_read_elf`. The old program is replaced only by a complete new one. */
  method ReadElf(input: Stream, ramSize: nat, available: bool, output: Program) returns (verdict: Verdict)
    requires input.Valid() && input.position == 0 && !input.Ended()
    modifies input, output
    ensures verdict == StreamVerdict(input.data, input.broken, ramSize)
            || (!available && verdict == Rejected(0, NoStorage))
    ensures verdict == Accepted ==>
              && ElfVerdict(input.data, ramSize) == Accepted && output.View() == ElfImage(input.data, ramSize)
              && output.elfData == input.data && Acceptable(output.View())
    ensures verdict != Accepted ==> output.memory == old(output.memory) && output.View() == old(output.View())
    ensures verdict != Accepted ==> output.elfData == old(output.elfData)
  {
    hide ElfVerdict, ElfImage, Acceptable;
    if !SizeValid(ramSize) {
      return Rejected(0, InvalidRamSize);
    }
    var bytes, size;
    verdict, bytes, size := InputBytes(input, FILE_LIMIT, available);
    if verdict != Accepted {
      return;
    }
    var next := new Program();
    next.elfData := bytes[..size];
    verdict := LoadElf(next.elfData, ramSize, available, next);
    if verdict != Accepted {
      return;
    }
    LoadedElf(input.data, ramSize);
    output.Become(next);
  }

  // ----- What a loaded ELF program is -----

  /** The image of an accepted file is exact, its address range is the hull of the occupied segments, and the machine
      accepts it. */
  lemma LoadedElf(data: seq<Byte>, ramSize: nat)
    requires SizeValid(ramSize) && ElfVerdict(data, ramSize) == Accepted
    ensures var p := ElfImage(data, ramSize);
            && |p.ram| == ramSize && AllFit(Segments(data), |data|, ramSize)
            && ExactImage(p.ram, data, Segments(data))
            && IsHull(Segments(data), p.loadAddress, p.loadAddress + p.imageSize)
            && p.entry == U32(data, 24) && p.format == ELF && Acceptable(p)
  {
    hide U32, U16, SectionsVerdict, SegmentsVerdict, Segments, Lowest, Highest, PaintedAll, SomeHoldsEntry, ExactImage;
    var segments := Segments(data);
    AcceptedTable(segments, |data|, ramSize);
    AcceptedBounds(segments, |data|, ramSize, U32(data, 24));
    PaintedIsExact(data, segments, ramSize);
  }

  /** A section that is not thread-local, lies in the file unless it occupies none of it, and has well-tiled
      attributes. */
  ghost predicate GoodSection(data: seq<Byte>, s: Section) {
    && s.flags / 0x400 % 2 == 0
    && (s.kind != 8 ==> s.offset + s.size <= |data|)
    && (s.kind == 0x7000_0003 ==>
          s.offset + s.size <= |data| && Attributes.WellTiled(data[s.offset..s.offset + s.size]))
  }

  lemma SectionAccepted(data: seq<Byte>, s: Section)
    ensures SectionVerdict(data, s) == Accepted <==> GoodSection(data, s)
  {
    hide And, Shr, Attributes.AttributesVerdict, Attributes.WellTiled;
    Powers();
    Quotient(s.flags, 0, 1);
    Piece(s.flags, 0, 10, 1, 0x400, 2, 0x400);
    if s.offset + s.size <= |data| {
      Attributes.AttributesExact(data[s.offset..s.offset + s.size]);
    }
  }

  lemma {:induction false} SectionListAccepted(data: seq<Byte>, table: nat, i: nat, count: nat)
    requires i <= count && table + count * 40 <= |data|
    ensures SectionListVerdict(data, table, i, count) == Accepted
       <==> forall k :: i <= k < count ==> GoodSection(data, SectionAt(data, table + k * 40))
    decreases count - i
  {
    hide SectionVerdict, SectionAt, GoodSection;
    if i < count {
      SectionAccepted(data, SectionAt(data, table + i * 40));
      SectionListAccepted(data, table, i + 1, count);
    }
  }

  /** The section table is absent, or complete with a valid name index and only good sections. */
  ghost predicate GoodSections(data: seq<Byte>)
    requires |data| >= 52
  {
    var offset: nat, count, names := U32(data, 32), U16(data, 48), U16(data, 50);
    (count == 0 && offset == 0 && names == 0)
    || (&& U16(data, 46) == 40 && offset + count * 40 <= |data| && names < count
        && forall k :: 0 <= k < count ==> GoodSection(data, SectionAt(data, offset + k * 40)))
  }

  /** A file is accepted exactly when its header is right, its sections and load segments are good, no two segments
      occupy the same RAM and some executable segment holds the entry instruction. */
  lemma ElfAccepted(data: seq<Byte>, ramSize: nat)
    ensures ElfVerdict(data, ramSize) == Accepted
       <==> && HeaderVerdict(data) == Accepted && GoodSections(data)
            && (forall i :: 0 <= i < |Segments(data)| ==> GoodSegment(Segments(data)[i], |data|, ramSize))
            && PairwiseApart(Segments(data)) && SomeHoldsEntry(Segments(data), U32(data, 24))
  {
    hide U32, U16, SegmentsVerdict, Segments, GoodSegment, PairwiseApart, SomeHoldsEntry, GoodSection, SectionAt;
    hide SectionListVerdict;
    if HeaderVerdict(data) == Accepted {
      TableAccepted(Segments(data), |data|, ramSize);
      var offset: nat, count := U32(data, 32), U16(data, 48);
      if offset + count * 40 <= |data| {
        SectionListAccepted(data, offset, 0, count);
      }
    }
  }

  // ----- What refusals mean -----

  /** Each refusal of a program header and the condition under which it is given. */
  lemma SegmentRefusals(segments: seq<Segment>, i: nat, size: nat, ramSize: nat)
    requires i < |segments|
    ensures var s, v := segments[i], SegmentVerdict(segments, i, size, ramSize);
            var inFile := s.fileSize <= s.memorySize && s.offset + s.fileSize <= size;
            var aligned := s.align <= 1 || (IsPowerOfTwo(s.align) && s.address % s.align == s.offset % s.align);
            var inRam := s.address + s.memorySize <= ramSize;
            var apart := forall j :: 0 <= j < i && Occupies(segments[j]) && Occupies(s) ==> !Overlap(s, segments[j]);
            && (v == Rejected(0, DynamicLinking) <==> s.kind in {2, 3, 7})
            && (v == Rejected(0, SegmentOutside) <==> s.kind == 1 && !inFile)
            && (v == Rejected(0, PhysicalDiffers) <==> s.kind == 1 && inFile && s.physical != s.address)
            && (v == Rejected(0, BadAlignment) <==> s.kind == 1 && inFile && s.physical == s.address && !aligned)
            && (v == Rejected(0, SegmentDoesNotFit) <==>
                  s.kind == 1 && inFile && s.physical == s.address && aligned && !inRam)
            && (v == Rejected(0, SegmentsOverlap) <==>
                  s.kind == 1 && inFile && s.physical == s.address && aligned && inRam && !apart)
  {
    hide And, IsPowerOfTwo, Overlap;
    if segments[i].align > 1 {
      PowerOfTwo(segments[i].align);
    }
  }

  /** Of a section header. */
  lemma SectionRefusals(data: seq<Byte>, s: Section)
    ensures var v, local := SectionVerdict(data, s), s.flags / 0x400 % 2 == 1;
            && (local ==> v == Rejected(0, ThreadStorage))
            && (!local && s.kind != 8 && s.offset + s.size > |data| ==> v == Rejected(0, SectionOutside))
            && (!local && s.kind == 0x7000_0003 && s.offset + s.size <= |data| ==>
                  v == Attributes.AttributesVerdict(data[s.offset..s.offset + s.size]))
  {
    hide And, Shr, Attributes.AttributesVerdict;
    Powers();
    Quotient(s.flags, 0, 1);
    Piece(s.flags, 0, 10, 1, 0x400, 2, 0x400);
  }

  /** A file whose headers are good but whose entry no executable segment holds is refused for its entry. */
  lemma EntryRefusal(data: seq<Byte>, ramSize: nat)
    requires HeaderVerdict(data) == Accepted && GoodSections(data) && PairwiseApart(Segments(data))
    requires forall i :: 0 <= i < |Segments(data)| ==> GoodSegment(Segments(data)[i], |data|, ramSize)
    ensures ElfVerdict(data, ramSize) == Rejected(0, NoEntry) <==> !SomeHoldsEntry(Segments(data), U32(data, 24))
  {
    hide U32, U16, SegmentsVerdict, Segments, GoodSegment, PairwiseApart, SomeHoldsEntry, GoodSection, SectionAt;
    hide SectionListVerdict;
    TableAccepted(Segments(data), |data|, ramSize);
    var offset: nat, count := U32(data, 32), U16(data, 48);
    if offset + count * 40 <= |data| {
      SectionListAccepted(data, offset, 0, count);
    }
  }

  /** A stream is accepted exactly when it is read to its end, has at most 64 MiB and holds an accepted file. */
  lemma StreamAccepted(data: seq<Byte>, broken: bool, ramSize: nat)
    ensures StreamVerdict(data, broken, ramSize) == Accepted
       <==> (&& 4 <= ramSize <= 256 * 1024 * 1024 && ramSize % 4 == 0
             && !broken && |data| <= 64 * 1024 * 1024 && ElfVerdict(data, ramSize) == Accepted)
  {
    hide ElfVerdict;
  }

  /** The entry is held by a segment when its four bytes lie in the executable file part, at a multiple of 4. */
  lemma EntryHeld(s: Segment, entry: Word)
    requires s.fileSize <= s.memorySize
    ensures HoldsEntry(s, entry)
       <==> s.kind == 1 && s.flags % 2 == 1 && entry % 4 == 0
            && s.address <= entry && entry + 4 <= s.address + s.fileSize
  {
  }

  /** Address `a` is in the RAM a segment claims. */
  predicate Claims(s: Segment, a: int) {
    s.address <= a < s.address + s.memorySize
  }

  /** Two occupied segments overlap exactly when they claim a common address. */
  lemma OverlapMeans(s: Segment, t: Segment)
    requires Occupies(s) && Occupies(t)
    ensures Overlap(s, t) <==> exists a :: Claims(s, a) && Claims(t, a)
  {
    var a := if s.address < t.address then t.address else s.address;
    if Overlap(s, t) {
      assert Claims(s, a) && Claims(t, a);
    }
  }
}
