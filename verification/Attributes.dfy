/** The RISC-V attribute section: nested length-prefixed blocks of tagged values.

`Verdict` functions say what the parser reports; the `Tiles` predicates say, without any parsing order, which byte
sequences are well formed. */
module Attributes {
  import opened Bits
  import opened Bytes
  import opened ElfBytes
  import opened Programs
  import opened Options
  import opened Uleb

  // ----- What the parser reports -----

  /** `memchr(s, 0, |s|)`. */
  function IndexOfZero(s: seq<Byte>): (r: Option<nat>)
    ensures r.Some? ==> r.value < |s| && s[r.value] == 0 && forall i :: 0 <= i < r.value ==> s[i] != 0
    ensures r.None? ==> forall i :: 0 <= i < |s| ==> s[i] != 0
  {
    if s == [] then None
    else if s[0] == 0 then Some(0)
    else
      match IndexOfZero(s[1..])
      case None => None
      case Some(i) => Some(i + 1)
  }

  // "riscv", "rv32i2p1", "rv32i2p0" and "rv32i" as bytes.
  const VENDOR: seq<Byte> := [114, 105, 115, 99, 118]
  const ARCH_2P1: seq<Byte> := [114, 118, 51, 50, 105, 50, 112, 49]
  const ARCH_2P0: seq<Byte> := [114, 118, 51, 50, 105, 50, 112, 48]
  const ARCH: seq<Byte> := [114, 118, 51, 50, 105]

  /** The bytes of a text in ASCII. */
  function Ascii(s: string): (bytes: seq<Byte>)
    requires forall i :: 0 <= i < |s| ==> s[i] < 128 as char
    ensures |bytes| == |s| && forall i :: 0 <= i < |s| ==> bytes[i] == s[i] as int
  {
    seq(|s|, i requires 0 <= i < |s| => s[i] as int)
  }

  /** The vendor name and the architectures meant. */
  lemma Texts()
    ensures VENDOR == Ascii("riscv")
    ensures ARCH_2P1 == Ascii("rv32i2p1") && ARCH_2P0 == Ascii("rv32i2p0") && ARCH == Ascii("rv32i")
  {
  }

  predicate ArchSupported(text: seq<Byte>) {
    text == ARCH_2P1 || text == ARCH_2P0 || text == ARCH
  }

  /** The outcome of one tag and its value at the front of `s`: its length, or what is wrong. */
  datatype Item = Good(length: nat) | Bad(reason: Reason)

  function TagItem(s: seq<Byte>): (r: Item)
    ensures r.Good? ==> 0 < r.length <= |s|
  {
    match Read(s)
    case None => Bad(MalformedAttributes)
    case Some(Parsed(tag, n)) =>
      match ValueItem(tag, s[n..])
      case Bad(reason) => Bad(reason)
      case Good(m) => Good(n + m)
  }

  /** The value that goes with a tag: zero-terminated text for odd tags, a number for even ones. */
  function ValueItem(tag: Word, s: seq<Byte>): (r: Item)
    ensures r.Good? ==> 0 < r.length <= |s|
  {
    if tag % 2 == 1 then
      match IndexOfZero(s)
      case None => Bad(MalformedAttributes)
      case Some(z) => if tag == 5 && !ArchSupported(s[..z]) then Bad(BeyondRv32i) else Good(z + 1)
    else
      match Read(s)
      case None => Bad(MalformedAttributes)
      case Some(Parsed(v, m)) =>
        if tag == 4 && v != 16 then Bad(StackAlignment)
        else if tag == 6 && v != 0 then Bad(UnalignedAccess)
        else Good(m)
  }

  function TagsVerdict(s: seq<Byte>): Verdict {
    if s == [] then Accepted
    else
      match TagItem(s)
      case Bad(reason) => Rejected(0, reason)
      case Good(n) => TagsVerdict(s[n..])
  }

  /** One scoped block at the front of a vendor subsection. */
  function BlockItem(s: seq<Byte>): (r: Item)
    ensures r.Good? ==> 0 < r.length <= |s|
  {
    match Read(s)
    case None => Bad(MalformedAttributes)
    case Some(Parsed(scope, n)) =>
      if |s| - n < 4 then Bad(MalformedAttributes)
      else
        var size := U32(s, n);
        if size < n + 4 || size > |s| then Bad(MalformedAttributes)
        else if scope != 1 then Bad(UnsupportedScope)
        else
          match TagsVerdict(s[n + 4..size])
          case Accepted => Good(size)
          case Rejected(_, reason) => Bad(reason)
  }

  function BlocksVerdict(s: seq<Byte>): Verdict {
    if s == [] then Accepted
    else
      match BlockItem(s)
      case Bad(reason) => Rejected(0, reason)
      case Good(n) => BlocksVerdict(s[n..])
  }

  /** One vendor subsection; other vendors' contents are skipped. */
  function SubsectionItem(s: seq<Byte>): (r: Item)
    ensures r.Good? ==> 0 < r.length <= |s|
  {
    if |s| < 4 then Bad(MalformedAttributes)
    else
      var length := U32(s, 0);
      if length < 5 || length > |s| then Bad(MalformedAttributes)
      else
        var body := s[4..length];
        match IndexOfZero(body)
        case None => Bad(MalformedAttributes)
        case Some(z) =>
          if body[..z] != VENDOR then Good(length)
          else
            match BlocksVerdict(body[z + 1..])
            case Accepted => Good(length)
            case Rejected(_, reason) => Bad(reason)
  }

  function SubsectionsVerdict(s: seq<Byte>): Verdict {
    if s == [] then Accepted
    else
      match SubsectionItem(s)
      case Bad(reason) => Rejected(0, reason)
      case Good(n) => SubsectionsVerdict(s[n..])
  }

  function AttributesVerdict(s: seq<Byte>): Verdict {
    if |s| < 1 || s[0] != 65 then Rejected(0, InvalidAttributes) else SubsectionsVerdict(s[1..])
  }

  // ----- Which sections are well formed -----

  /** The concatenation of a list of pieces. */
  function Flatten(pieces: seq<seq<Byte>>): seq<Byte> {
    if pieces == [] then [] else pieces[0] + Flatten(pieces[1..])
  }

  /** A tag followed by exactly its value: zero-terminated text for odd tags, a number for even ones. The architecture
      must be a supported RV32I string, the stack alignment 16 and unaligned access off. */
  ghost predicate IsTag(e: seq<Byte>) {
    exists n: nat :: n <= |e| && Readable(e[..n]) && IsTagValue(Value(e[..n]), e[n..])
  }

  ghost predicate IsTagValue(tag: nat, x: seq<Byte>) {
    if tag % 2 == 1 then
      && |x| > 0 && x[|x| - 1] == 0 && (forall i :: 0 <= i < |x| - 1 ==> x[i] != 0)
      && (tag == 5 ==> ArchSupported(x[..|x| - 1]))
    else
      Readable(x) && (tag == 4 ==> Value(x) == 16) && (tag == 6 ==> Value(x) == 0)
  }

  /** `s` is exactly tiled by tags. */
  ghost predicate TilesTags(s: seq<Byte>) {
    exists pieces :: s == Flatten(pieces) && forall p :: p in pieces ==> IsTag(p)
  }

  /** Scope number 1, a length that covers the whole block, and tags that tile the rest. */
  ghost predicate IsBlock(e: seq<Byte>) {
    exists n: nat :: n + 4 <= |e| && Readable(e[..n]) && Value(e[..n]) == 1
                     && LittleEndian(e[n..n + 4]) == |e| && TilesTags(e[n + 4..])
  }

  ghost predicate TilesBlocks(s: seq<Byte>) {
    exists pieces :: s == Flatten(pieces) && forall p :: p in pieces ==> IsBlock(p)
  }

  /** A length that covers the whole subsection, a zero-terminated vendor name, and for RISC-V blocks that tile the
      rest. */
  ghost predicate IsSubsection(e: seq<Byte>) {
    && |e| >= 5 && LittleEndian(e[..4]) == |e|
    && exists z: nat :: z < |e| - 4 && IsVendor(e[4..], z) && (e[4..][..z] == VENDOR ==> TilesBlocks(e[4..][z + 1..]))
  }

  ghost predicate IsVendor(body: seq<Byte>, z: nat) {
    z < |body| && body[z] == 0 && forall i :: 0 <= i < z ==> body[i] != 0
  }

  ghost predicate WellTiled(s: seq<Byte>) {
    |s| > 0 && s[0] == 65 && TilesSubsections(s[1..])
  }

  ghost predicate TilesSubsections(s: seq<Byte>) {
    exists pieces :: s == Flatten(pieces) && forall p :: p in pieces ==> IsSubsection(p)
  }

  // ----- The parser accepts exactly the well-formed sections -----

  lemma ConsTags(p: seq<Byte>, rest: seq<Byte>)
    requires IsTag(p) && TilesTags(rest)
    ensures TilesTags(p + rest)
  {
    var pieces :| rest == Flatten(pieces) && forall q :: q in pieces ==> IsTag(q);
    var more := [p] + pieces;
    assert more[1..] == pieces && Flatten(more) == p + rest;
  }

  lemma ConsBlocks(p: seq<Byte>, rest: seq<Byte>)
    requires IsBlock(p) && TilesBlocks(rest)
    ensures TilesBlocks(p + rest)
  {
    var pieces :| rest == Flatten(pieces) && forall q :: q in pieces ==> IsBlock(q);
    var more := [p] + pieces;
    assert more[1..] == pieces && Flatten(more) == p + rest;
  }

  lemma ConsSubsections(p: seq<Byte>, rest: seq<Byte>)
    requires IsSubsection(p) && TilesSubsections(rest)
    ensures TilesSubsections(p + rest)
  {
    var pieces :| rest == Flatten(pieces) && forall q :: q in pieces ==> IsSubsection(q);
    var more := [p] + pieces;
    assert more[1..] == pieces && Flatten(more) == p + rest;
  }

  lemma NothingTiles()
    ensures TilesTags([]) && TilesBlocks([]) && TilesSubsections([])
  {
    assert Flatten([]) == [];
  }

  lemma ZeroAt(s: seq<Byte>, z: nat)
    requires IsVendor(s, z)
    ensures IndexOfZero(s) == Some(z)
  {
  }

  lemma ValueLocal(tag: Word, x: seq<Byte>, rest: seq<Byte>)
    requires IsTagValue(tag, x)
    ensures ValueItem(tag, x + rest) == Good(|x|)
  {
    hide Read, Readable, Value, IndexOfZero;
    if tag % 2 == 1 {
      var z := |x| - 1;
      assert (x + rest)[..z] == x[..z];
      ZeroAt(x + rest, z);
    } else {
      ReadLocal(x, rest);
    }
  }

  lemma ValueRecognized(tag: Word, s: seq<Byte>)
    requires ValueItem(tag, s).Good?
    ensures IsTagValue(tag, s[..ValueItem(tag, s).length])
  {
    hide Read, Readable, Value, IndexOfZero;
    if tag % 2 == 1 {
      var z := IndexOfZero(s).value;
      assert s[..z + 1][..z] == s[..z];
    } else {
      var Parsed(v, m) := Read(s).value;
      assert m <= |s| by {
        ReadUsed(s);
      }
      ReadIsPrefix(s, m, v);
    }
  }

  lemma ReadUsed(s: seq<Byte>)
    ensures Read(s).Some? ==> 0 < Read(s).value.used <= |s|
  {
  }

  /** A tag is recognized at the front of anything, and what is recognized is a tag. */
  lemma TagLocal(e: seq<Byte>, rest: seq<Byte>)
    requires IsTag(e)
    ensures TagItem(e + rest) == Good(|e|)
  {
    hide Read, Readable, Value, IsTagValue, ValueItem;
    var n: nat :| n <= |e| && Readable(e[..n]) && IsTagValue(Value(e[..n]), e[n..]);
    var x := e[n..];
    assert e + rest == e[..n] + (x + rest) && (e + rest)[n..] == x + rest;
    ReadLocal(e[..n], x + rest);
    ReadUsed(e + rest);
    ValueLocal(Value(e[..n]), x, rest);
  }

  lemma TagRecognized(s: seq<Byte>)
    requires TagItem(s).Good?
    ensures IsTag(s[..TagItem(s).length])
  {
    hide Read, Readable, Value, IsTagValue, ValueItem;
    var Parsed(tag, n) := Read(s).value;
    ReadUsed(s);
    ReadIsPrefix(s, n, tag);
    ValueRecognized(tag, s[n..]);
    var m := ValueItem(tag, s[n..]).length;
    var e := s[..n + m];
    assert e[..n] == s[..n] && e[n..] == s[n..][..m];
  }

  lemma {:induction false} TagsAccepted(s: seq<Byte>)
    ensures TagsVerdict(s) == Accepted ==> TilesTags(s)
    decreases |s|
  {
    NothingTiles();
    if s != [] && TagItem(s).Good? {
      var n := TagItem(s).length;
      TagRecognized(s);
      TagsAccepted(s[n..]);
      if TagsVerdict(s) == Accepted {
        ConsTags(s[..n], s[n..]);
        assert s[..n] + s[n..] == s;
      }
    }
  }

  lemma {:induction false} TiledTagsAccepted(pieces: seq<seq<Byte>>)
    requires forall p :: p in pieces ==> IsTag(p)
    ensures TagsVerdict(Flatten(pieces)) == Accepted
  {
    if pieces != [] {
      var e, rest := pieces[0], Flatten(pieces[1..]);
      TagLocal(e, rest);
      assert (e + rest)[|e|..] == rest;
      TiledTagsAccepted(pieces[1..]);
    }
  }

  lemma TagsExact(s: seq<Byte>)
    ensures TagsVerdict(s) == Accepted <==> TilesTags(s)
  {
    TagsAccepted(s);
    if TilesTags(s) {
      var pieces :| s == Flatten(pieces) && forall p :: p in pieces ==> IsTag(p);
      TiledTagsAccepted(pieces);
    }
  }

  lemma BlockLocal(e: seq<Byte>, rest: seq<Byte>)
    requires IsBlock(e)
    ensures BlockItem(e + rest) == Good(|e|)
  {
    hide Read, Readable, Value, TilesTags, TagsVerdict, U32, LittleEndian;
    var n: nat :| n + 4 <= |e| && Readable(e[..n]) && Value(e[..n]) == 1 && LittleEndian(e[n..n + 4]) == |e|
        && TilesTags(e[n + 4..]);
    var s := e + rest;
    assert s == e[..n] + (e[n..] + rest);
    ReadLocal(e[..n], e[n..] + rest);
    assert s[n..n + 4] == e[n..n + 4] && s[n + 4..|e|] == e[n + 4..];
    TagsExact(e[n + 4..]);
  }

  lemma BlockRecognized(s: seq<Byte>)
    requires BlockItem(s).Good?
    ensures IsBlock(s[..BlockItem(s).length])
  {
    hide Read, Readable, Value, TilesTags, TagsVerdict, U32, LittleEndian;
    var Parsed(scope, n) := Read(s).value;
    ReadUsed(s);
    ReadIsPrefix(s, n, scope);
    var size := BlockItem(s).length;
    var e := s[..size];
    assert e[..n] == s[..n] && e[n..n + 4] == s[n..n + 4] && e[n + 4..] == s[n + 4..size];
    TagsExact(e[n + 4..]);
  }

  lemma {:induction false} BlocksAccepted(s: seq<Byte>)
    ensures BlocksVerdict(s) == Accepted ==> TilesBlocks(s)
    decreases |s|
  {
    hide BlockItem;
    NothingTiles();
    if s != [] && BlockItem(s).Good? {
      var n := BlockItem(s).length;
      BlockRecognized(s);
      BlocksAccepted(s[n..]);
      if BlocksVerdict(s) == Accepted {
        ConsBlocks(s[..n], s[n..]);
        assert s[..n] + s[n..] == s;
      }
    }
  }

  lemma {:induction false} TiledBlocksAccepted(pieces: seq<seq<Byte>>)
    requires forall p :: p in pieces ==> IsBlock(p)
    ensures BlocksVerdict(Flatten(pieces)) == Accepted
  {
    hide BlockItem, IsBlock;
    if pieces != [] {
      var e, rest := pieces[0], Flatten(pieces[1..]);
      BlockLocal(e, rest);
      assert (e + rest)[|e|..] == rest;
      TiledBlocksAccepted(pieces[1..]);
    }
  }

  lemma BlocksExact(s: seq<Byte>)
    ensures BlocksVerdict(s) == Accepted <==> TilesBlocks(s)
  {
    BlocksAccepted(s);
    if TilesBlocks(s) {
      var pieces :| s == Flatten(pieces) && forall p :: p in pieces ==> IsBlock(p);
      TiledBlocksAccepted(pieces);
    }
  }

  lemma SubsectionLocal(e: seq<Byte>, rest: seq<Byte>)
    requires IsSubsection(e)
    ensures SubsectionItem(e + rest) == Good(|e|)
  {
    hide U32, LittleEndian, BlocksVerdict, TilesBlocks, IsVendor, IndexOfZero;
    var s := e + rest;
    assert s[..4] == e[..4] && s[0..4] == s[..4] && s[4..|e|] == e[4..];
    var z: nat :| z < |e| - 4 && IsVendor(e[4..], z) && (e[4..][..z] == VENDOR ==> TilesBlocks(e[4..][z + 1..]));
    ZeroAt(e[4..], z);
    BlocksExact(e[4..][z + 1..]);
  }

  lemma SubsectionRecognized(s: seq<Byte>)
    requires SubsectionItem(s).Good?
    ensures IsSubsection(s[..SubsectionItem(s).length])
  {
    hide U32, LittleEndian, BlocksVerdict, TilesBlocks;
    var length := SubsectionItem(s).length;
    var e := s[..length];
    assert e[..4] == s[0..4] && e[4..] == s[4..length];
    var z := IndexOfZero(e[4..]).value;
    assert IsVendor(e[4..], z);
    BlocksExact(e[4..][z + 1..]);
  }

  lemma {:induction false} SubsectionsAccepted(s: seq<Byte>)
    ensures SubsectionsVerdict(s) == Accepted ==> TilesSubsections(s)
    decreases |s|
  {
    hide SubsectionItem;
    NothingTiles();
    if s != [] && SubsectionItem(s).Good? {
      var n := SubsectionItem(s).length;
      SubsectionRecognized(s);
      SubsectionsAccepted(s[n..]);
      if SubsectionsVerdict(s) == Accepted {
        ConsSubsections(s[..n], s[n..]);
        assert s[..n] + s[n..] == s;
      }
    }
  }

  lemma {:induction false} TiledSubsectionsAccepted(pieces: seq<seq<Byte>>)
    requires forall p :: p in pieces ==> IsSubsection(p)
    ensures SubsectionsVerdict(Flatten(pieces)) == Accepted
  {
    hide SubsectionItem, IsSubsection;
    if pieces != [] {
      var e, rest := pieces[0], Flatten(pieces[1..]);
      SubsectionLocal(e, rest);
      assert (e + rest)[|e|..] == rest;
      TiledSubsectionsAccepted(pieces[1..]);
    }
  }

  /** The parser accepts a section exactly when it is well tiled. */
  lemma AttributesExact(s: seq<Byte>)
    ensures AttributesVerdict(s) == Accepted <==> WellTiled(s)
  {
    if |s| > 0 {
      SubsectionsAccepted(s[1..]);
      if TilesSubsections(s[1..]) {
        var pieces :| s[1..] == Flatten(pieces) && forall p :: p in pieces ==> IsSubsection(p);
        TiledSubsectionsAccepted(pieces);
      }
    }
  }

  // ----- The parser -----

  /** The value after a tag: text to the next zero byte for odd tags, a number for even ones. */
  method ParseValue(data: seq<Byte>, tag: Word, p: nat, end: nat) returns (item: Item)
    requires p <= end <= |data|
    ensures item == ValueItem(tag, data[p..end])
  {
    hide Read;
    if tag % 2 != 0 {
      var z := IndexOfZero(data[p..end]);
      if z.None? {
        return Bad(MalformedAttributes);
      }
      var text := data[p..end][..z.value];
      if tag == 5 && text != ARCH_2P1 && text != ARCH_2P0 && text != ARCH {
        return Bad(BeyondRv32i);
      }
      return Good(z.value + 1);
    } else {
      var ok, value, after := ReadAt(data, p, end);
      if !ok {
        return Bad(MalformedAttributes);
      }
      if tag == 4 && value != 16 {
        return Bad(StackAlignment);
      }
      if tag == 6 && value != 0 {
        return Bad(UnalignedAccess);
      }
      return Good(after - p);
    }
  }

  /** The innermost loop: the tags between `p` and `end`. */
  method ParseTags(data: seq<Byte>, start: nat, end: nat) returns (verdict: Verdict)
    requires start <= end <= |data|
    ensures verdict == TagsVerdict(data[start..end])
  {
    hide Read, ValueItem;
    var p := start;
    while p < end
      invariant start <= p <= end
      invariant TagsVerdict(data[start..end]) == TagsVerdict(data[p..end])
      decreases end - p
    {
      ghost var s := data[p..end];
      var ok, tag, next := ReadAt(data, p, end);
      if !ok {
        return Rejected(0, MalformedAttributes);
      }
      assert s[next - p..] == data[next..end];
      var item := ParseValue(data, tag, next, end);
      if item.Bad? {
        return Rejected(0, item.reason);
      }
      assert s[next - p + item.length..] == data[next + item.length..end];
      p := next + item.length;
    }
    return Accepted;
  }

  /** The middle loop: the scoped blocks between `p` and `end`. */
  method ParseBlocks(data: seq<Byte>, start: nat, end: nat) returns (verdict: Verdict)
    requires start <= end <= |data|
    ensures verdict == BlocksVerdict(data[start..end])
  {
    hide Read, U32, LittleEndian, TagsVerdict;
    var p := start;
    while p < end
      invariant start <= p <= end
      invariant BlocksVerdict(data[start..end]) == BlocksVerdict(data[p..end])
      decreases end - p
    {
      ghost var s := data[p..end];
      var ok, scope, q := ReadAt(data, p, end);
      if !ok || end - q < 4 {
        return Rejected(0, MalformedAttributes);
      }
      SliceOfSlice(data, p, end, q - p, q - p + 4);
      var size := U32(data, q);
      q := q + 4;
      if size < q - p || size > end - p {
        return Rejected(0, MalformedAttributes);
      }
      if scope != 1 {
        return Rejected(0, UnsupportedScope);
      }
      SliceOfSlice(data, p, end, q - p, size);
      var tags := ParseTags(data, q, p + size);
      if tags != Accepted {
        RejectedAtZero(data[q..p + size]);
        return tags;
      }
      assert s[size..] == data[p + size..end];
      p := p + size;
    }
    return Accepted;
  }

  /** Attribute errors never carry a line. */
  lemma {:induction false} RejectedAtZero(s: seq<Byte>)
    ensures TagsVerdict(s) == Accepted || TagsVerdict(s).line == 0
    decreases |s|
  {
    if s != [] && TagItem(s).Good? {
      RejectedAtZero(s[TagItem(s).length..]);
    }
  }

  lemma {:induction false} BlocksRejectedAtZero(s: seq<Byte>)
    ensures BlocksVerdict(s) == Accepted || BlocksVerdict(s).line == 0
    decreases |s|
  {
    if s != [] && BlockItem(s).Good? {
      BlocksRejectedAtZero(s[BlockItem(s).length..]);
    }
  }

  /** `attributes`: the outer loop over vendor subsections. */
  method Parse(data: seq<Byte>) returns (verdict: Verdict)
    ensures verdict == AttributesVerdict(data)
    ensures verdict == Accepted <==> WellTiled(data)
  {
    hide U32, LittleEndian, BlocksVerdict, WellTiled;
    AttributesExact(data);
    var size := |data|;
    if size < 1 || data[0] != 65 {
      return Rejected(0, InvalidAttributes);
    }
    var offset := 1;
    while offset < size
      invariant 1 <= offset <= size
      invariant AttributesVerdict(data) == SubsectionsVerdict(data[offset..])
      decreases size - offset
    {
      ghost var s := data[offset..];
      if !InRange(offset, 4, size) {
        return Rejected(0, MalformedAttributes);
      }
      assert data[offset..offset + 4] == s[0..4];
      var length := U32(data, offset);
      if length < 5 || !InRange(offset, length, size) {
        return Rejected(0, MalformedAttributes);
      }
      var end := offset + length;
      var vendor := data[offset + 4..end];
      assert vendor == s[4..length];
      var z := IndexOfZero(vendor);
      if z.None? {
        return Rejected(0, MalformedAttributes);
      }
      if vendor[..z.value] == VENDOR {
        assert data[offset + 4 + z.value + 1..end] == vendor[z.value + 1..];
        var blocks := ParseBlocks(data, offset + 4 + z.value + 1, end);
        if blocks != Accepted {
          BlocksRejectedAtZero(vendor[z.value + 1..]);
          return blocks;
        }
      }
      assert s[length..] == data[end..];
      offset := end;
    }
    return Accepted;
  }

  // ----- What refusals mean -----

  /** A text value is refused only as an architecture other than the three RV32I names; a number is refused as a stack
      alignment other than 16 or as any unaligned access. */
  lemma ValueRefusals(tag: Word, text: seq<Byte>, v: Word, rest: seq<Byte>)
    requires 0 !in text
    ensures var supported := text == Ascii("rv32i2p1") || text == Ascii("rv32i2p0") || text == Ascii("rv32i");
            var item := ValueItem(tag, text + [0] + rest);
            tag % 2 == 1 ==> item == (if tag == 5 && !supported then Bad(BeyondRv32i) else Good(|text| + 1))
    ensures var item := ValueItem(tag, Encode(v) + rest);
            tag % 2 == 0 ==>
              && (tag == 4 && v != 16 ==> item == Bad(StackAlignment))
              && (tag == 6 && v != 0 ==> item == Bad(UnalignedAccess))
              && ((tag == 4 ==> v == 16) && (tag == 6 ==> v == 0) ==> item == Good(|Encode(v)|))
  {
    hide Read, Encode, Ascii;
    Texts();
    ReadEncoded(v, rest);
    var s := text + [0] + rest;
    assert s[|text|] == 0 && s[..|text|] == text;
    assert IsVendor(s, |text|);
    ZeroAt(s, |text|);
  }

  /** A complete block is refused for a scope other than 1, and else only for its tags. */
  lemma BlockRefusals(scope: Word, tags: seq<Byte>, rest: seq<Byte>)
    requires |Encode(scope)| + 4 + |tags| < MODULUS
    ensures var head := Encode(scope);
            var size := |head| + 4 + |tags|;
            var item := BlockItem(head + (Digits(size, 4) + (tags + rest)));
            && (scope != 1 ==> item == Bad(UnsupportedScope))
            && (scope == 1 && TagsVerdict(tags) == Accepted ==> item == Good(size))
            && (scope == 1 && TagsVerdict(tags) != Accepted ==> item == Bad(TagsVerdict(tags).reason))
  {
    hide Read, Encode, TagsVerdict, Digits, LittleEndian, U32;
    var head := Encode(scope);
    var size := |head| + 4 + |tags|;
    var s := head + (Digits(size, 4) + (tags + rest));
    ReadEncoded(scope, Digits(size, 4) + (tags + rest));
    assert s[|head|..|head| + 4] == Digits(size, 4);
    WordOfDigits(size);
    SizeField(s, |head|);
    assert s[|head| + 4..size] == tags;
  }

  lemma SizeField(s: seq<Byte>, at: nat)
    requires at + 4 <= |s|
    ensures U32(s, at) == LittleEndian(s[at..at + 4])
  {
  }

  /** A section that does not start with 'A' is refused as such, and values, lengths and vendor names that do not end
      are malformed. */
  lemma FormatRefusals(s: seq<Byte>, tag: Word)
    ensures s == [] || s[0] != 'A' as int ==> AttributesVerdict(s) == Rejected(0, InvalidAttributes)
    ensures |s| < 4 || U32(s, 0) < 5 || U32(s, 0) > |s| || 0 !in s[4..U32(s, 0)] ==>
              SubsectionItem(s) == Bad(MalformedAttributes)
    ensures tag % 2 == 1 && 0 !in s ==> ValueItem(tag, s) == Bad(MalformedAttributes)
    ensures Read(s) == None ==>
              TagItem(s) == BlockItem(s) == Bad(MalformedAttributes)
              && (tag % 2 == 0 ==> ValueItem(tag, s) == Bad(MalformedAttributes))
  {
    hide Read, U32, BlocksVerdict, TagsVerdict;
  }
}
