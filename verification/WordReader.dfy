/** The `.words` loader: lines from a stream, words into RAM. */
module WordReader {
  import opened Bits
  import opened Bytes
  import opened Isa
  import opened RamOwner
  import opened Controller
  import opened Programs
  import opened ProgramIo
  import opened Options
  import opened WordText

  // ----- What reading a file must give -----

  /** The length of the first line. */
  function LineEnd(s: seq<Byte>): (n: nat)
    ensures n <= |s| && NEWLINE !in s[..n] && (n < |s| ==> s[n] == NEWLINE)
  {
    if s == [] || s[0] == NEWLINE then 0
    else
      var n := LineEnd(s[1..]);
      assert s[..n + 1] == [s[0]] + s[1..][..n];
      n + 1
  }

  function AfterLine(s: seq<Byte>): (r: seq<Byte>)
    ensures s != [] ==> |r| < |s|
  {
    if LineEnd(s) == |s| then [] else s[LineEnd(s) + 1..]
  }

  /** The first byte that cannot be stored, when `length` bytes of the line already are. */
  function ScanError(c: seq<Byte>, length: nat): Option<Reason> {
    if c == [] then None
    else if c[0] == 0 then Some(NulByte)
    else if length == MAX_LINE then Some(LongLine)
    else ScanError(c[1..], length + 1)
  }

  datatype Scan = Words(words: seq<Word>) | Failed(line: nat, reason: Reason)

  /** Read lines from `s` on, after `line` lines and `words`, into `room` bytes. */
  function ReadAll(s: seq<Byte>, line: nat, words: seq<Word>, room: nat, broken: bool): Scan
    decreases |s|
  {
    var content := s[..LineEnd(s)];
    var scan := ScanError(content, 0);
    if scan.Some? then Failed(line + 1, scan.value)
    else if |content| == |s| && broken then Failed(line + 1, ReadFailure)
    else if s == [] then Words(words)
    else
      match ParseLine(content)
      case Bad(reason) => Failed(line + 1, reason)
      case Blank => ReadAll(AfterLine(s), line + 1, words, room, broken)
      case Word(w) =>
        if 4 * |words| + 4 > room then Failed(line + 1, DoesNotFit)
        else ReadAll(AfterLine(s), line + 1, words + [w], room, broken)
  }

  function TextVerdict(ramSize: nat, loadAddress: Word, entry: Word, data: seq<Byte>, broken: bool): Verdict {
    var addresses := AddressVerdict(ramSize, loadAddress, entry);
    if addresses != Accepted then addresses
    else
      match ReadAll(data, 0, [], ramSize - loadAddress, broken)
      case Failed(line, reason) => Rejected(line, reason)
      case Words(words) =>
        if words == [] then Rejected(0, EmptyProgram)
        else if entry - loadAddress >= 4 * |words| then Rejected(0, EntryOutside)
        else Accepted
  }

  function TextImage(ramSize: nat, loadAddress: Word, entry: Word, words: seq<Word>): Image
    requires loadAddress + 4 * |words| <= ramSize
  {
    Image(Placed(ramSize, loadAddress, Flat(words)), loadAddress, entry, 4 * |words|, WORDS)
  }

  // ----- One line -----

  datatype LineStatus = Got | AtEnd | Broken(reason: Reason)

  /** The character loop: store one line, without its newline, in the buffer. */
  method ReadLine(input: Stream, line: array<Byte>) returns (status: LineStatus, length: nat)
    requires input.Valid() && line.Length == MAX_LINE + 1
    modifies input, line
    ensures input.Valid()
    ensures var s := input.data[old(input.position)..];
            var content := s[..LineEnd(s)];
            var scan := ScanError(content, 0);
            if scan.Some? then status == Broken(scan.value)
            else if |content| == |s| && input.broken then status == Broken(ReadFailure)
            else if s == [] then status == AtEnd
            else
              && status == Got && length <= MAX_LINE && line[..length] == content && line[length] == 0 && 0 !in content
              && input.data[input.position..] == AfterLine(s)
  {
    hide ScanError, AfterLine;
    ghost var first := input.position;
    ghost var s := input.data[first..];
    ghost var content := s[..LineEnd(s)];
    length := 0;
    assert content[0..] == content;
    var ch := input.Fgetc();
    while ch != -1 && ch != 10
      invariant input.Valid() && length <= MAX_LINE
      invariant length <= |content| && line[..length] == content[..length] && 0 !in content[..length]
      invariant ScanError(content, 0) == ScanError(content[length..], length)
      invariant if ch == -1 then input.Ended() && length == |s|
                else !input.Ended() && length < |s| && ch == s[length] && input.position == first + length + 1
      decreases |s| - length
    {
      ScanFrom(content, length);
      if ch == 0 {
        return Broken(NulByte), length;
      }
      if length + 1 == line.Length {
        return Broken(LongLine), length;
      }
      line[length] := ch;
      StoredMore(line[..length], content, length, ch);
      assert line[..length + 1] == line[..length] + [ch];
      length := length + 1;
      ch := input.Fgetc();
    }
    assert length == |content|;
    ScanFrom(content, length);
    assert content[..length] == content;
    if input.error {
      return Broken(ReadFailure), length;
    }
    if ch == -1 && length == 0 {
      return AtEnd, 0;
    }
    line[length] := 0;
    RestOfLines(input.data, first, length, input.position);
    return Got, length;
  }

  /** What the scan does at one byte. */
  lemma ScanFrom(c: seq<Byte>, k: nat)
    requires k <= |c| && k <= MAX_LINE
    ensures k == |c| ==> ScanError(c[k..], k) == None
    ensures k < |c| && c[k] == 0 ==> ScanError(c[k..], k) == Some(NulByte)
    ensures k < |c| && c[k] != 0 && k == MAX_LINE ==> ScanError(c[k..], k) == Some(LongLine)
    ensures k < |c| && c[k] != 0 && k < MAX_LINE ==> ScanError(c[k..], k) == ScanError(c[k + 1..], k + 1)
  {
    if k < |c| {
      assert c[k..][0] == c[k] && c[k..][1..] == c[k + 1..];
    }
  }

  lemma StoredMore(stored: seq<Byte>, c: seq<Byte>, k: nat, b: Byte)
    requires k < |c| && stored == c[..k] && 0 !in c[..k] && c[k] == b != 0
    ensures stored + [b] == c[..k + 1] && 0 !in c[..k + 1]
  {
    assert c[..k + 1] == c[..k] + [b];
  }

  lemma RestOfLines(data: seq<Byte>, first: nat, length: nat, position: nat)
    requires first <= |data| && length == LineEnd(data[first..])
    requires first + length == |data| ==> position == |data|
    requires first + length < |data| ==> position == first + length + 1
    ensures data[position..] == AfterLine(data[first..])
  {
    var s := data[first..];
    if length < |s| {
      var a, b := data[position..], s[length + 1..];
      assert |a| == |b| && forall i :: 0 <= i < |a| ==> a[i] == b[i];
    }
  }

  // ----- The text of a line -----

  method SkipBlanks(line: array<Byte>, length: nat, start: nat) returns (p: nat)
    requires start <= length < line.Length && line[length] == 0
    ensures start <= p <= length && line[p..length] == SkipSpaces(line[start..length])
  {
    hide SkipSpaces, IsSpace;
    ghost var s := line[..length];
    p := start;
    ZeroIsNoSpace();
    while IsSpace(line[p])
      invariant start <= p <= length
      invariant SkipSpaces(s[start..]) == SkipSpaces(s[p..])
      decreases length - p
    {
      SpaceSkipped(s, p);
      p := p + 1;
    }
    NoSpaceSkipped(s, p);
    SuffixOfPrefix(line[..], length, start);
    SuffixOfPrefix(line[..], length, p);
  }

  lemma SuffixOfPrefix(s: seq<Byte>, length: nat, k: nat)
    requires k <= length <= |s|
    ensures s[..length][k..] == s[k..length]
  {
  }

  lemma ZeroIsNoSpace()
    ensures !IsSpace(0)
  {
  }

  lemma SpaceSkipped(s: seq<Byte>, k: nat)
    requires k < |s| && IsSpace(s[k])
    ensures SkipSpaces(s[k..]) == SkipSpaces(s[k + 1..])
  {
    assert s[k..][1..] == s[k + 1..];
  }

  lemma NoSpaceSkipped(s: seq<Byte>, k: nat)
    requires k <= |s| && (k == |s| || !IsSpace(s[k]))
    ensures SkipSpaces(s[k..]) == s[k..]
  {
  }

  /** The hexadecimal digits from `start` on; `ok` is false at a ninth digit. */
  method ReadDigits(line: array<Byte>, length: nat, start: nat) returns (ok: bool, word: Word, p: nat)
    requires start <= length < line.Length && line[length] == 0
    ensures ok <==> HexRun(line[start..length]) <= 8
    ensures ok ==> start <= p <= length && p - start == HexRun(line[start..length])
    ensures ok ==> word == HexValue(line[start..length][..p - start])
  {
    hide Or, HexValue;
    ghost var u := line[start..length];
    word, p := 0, start;
    var digits := 0;
    NoDigits();
    assert u[..0] == [];
    while IsHexDigit(line[p])
      invariant start <= p <= length && digits == p - start <= 8
      invariant HexRun(u) == digits + HexRun(line[p..length])
      invariant AllHex(u[..digits]) && word == HexValue(u[..digits])
      decreases length - p
    {
      assert line[p..length][0] == line[p] && line[p..length][1..] == line[p + 1..length];
      var digit := DigitValue(line[p]);
      digits := digits + 1;
      if digits > 8 {
        return false, 0, p;
      }
      NextDigit(u, digits - 1, word);
      word := Or(Wrap(Shl(word, 4)), digit);
      p := p + 1;
    }
    assert p < length ==> line[p..length][0] == line[p];
    return true, word, p;
  }

  lemma NoDigits()
    ensures HexValue([]) == 0
  {
  }

  /** `(word << 4) | digit` appends a digit. */
  lemma DigitJoined(s: seq<Byte>, b: Byte, word: Word)
    requires AllHex(s) && IsHexDigit(b) && |s| <= 7 && word == HexValue(s)
    ensures AllHex(s + [b]) && Or(Wrap(Shl(word, 4)), DigitValue(b)) == HexValue(s + [b]) < MODULUS
  {
    hide Or, Shl, Wrap, DigitValue, IsHexDigit;
    assert (s + [b])[..|s|] == s;
    EightDigitsFit(s + [b]);
    NibbleJoined(word, DigitValue(b));
  }

  lemma NibbleJoined(word: Word, digit: nat)
    requires digit < 16 && 16 * word + digit < MODULUS
    ensures Or(Wrap(Shl(word, 4)), digit) == 16 * word + digit
  {
    hide Or;
    assert Pow2(4) == 16;
    OrDisjoint(word, digit, 4);
  }

  /** The same inside a run of digits. */
  lemma NextDigit(u: seq<Byte>, k: nat, word: Word)
    requires k < |u| && k <= 7 && AllHex(u[..k]) && IsHexDigit(u[k]) && word == HexValue(u[..k])
    ensures AllHex(u[..k + 1]) && Or(Wrap(Shl(word, 4)), DigitValue(u[k])) == HexValue(u[..k + 1]) < MODULUS
  {
    hide Or, Shl;
    DigitJoined(u[..k], u[k], word);
    assert u[..k + 1] == u[..k] + [u[k]];
  }

  /** A word and the end of its line. */
  method ParseStoredDigits(line: array<Byte>, length: nat, p: nat) returns (r: Line)
    requires p <= length < line.Length && line[length] == 0 && 0 !in line[..length]
    ensures r == ParseDigits(line[p..length])
  {
    hide SkipSpaces, HexRun, HexValue, IsHexDigit, IsSpace, ParseDigits, EndsLine;
    ghost var s := line[..];
    DigitsOutcomes(line[p..length]);
    var ok, word, q := ReadDigits(line, length, p);
    if !ok {
      return Bad(WordTooLong);
    }
    if q == p {
      return Bad(ExpectedWord);
    }
    var e := SkipBlanks(line, length, q);
    SliceFrom(s, p, q, length);
    EndsLineAt(s, e, length);
    EndOfDigits(line[p..length], q - p, line[e..length]);
    if line[e] != 0 && line[e] != HASH {
      return Bad(ExtraToken);
    }
    return Word(word);
  }

  /** What the digits of a line decide by themselves. */
  lemma DigitsOutcomes(u: seq<Byte>)
    ensures HexRun(u) > 8 ==> ParseDigits(u) == Bad(WordTooLong)
    ensures HexRun(u) == 0 ==> ParseDigits(u) == Bad(ExpectedWord)
  {
    hide SkipSpaces, HexRun, HexValue, AllHex;
  }

  /** And what decides when there are one to eight. */
  lemma EndOfDigits(u: seq<Byte>, n: nat, tail: seq<Byte>)
    requires n == HexRun(u) && 1 <= n <= 8 && tail == SkipSpaces(u[n..])
    ensures HexValue(u[..n]) < MODULUS
    ensures ParseDigits(u) == if EndsLine(tail) then Word(HexValue(u[..n])) else Bad(ExtraToken)
  {
    hide SkipSpaces, HexRun, HexValue, EndsLine, IsHexDigit;
    EightDigitsFit(u[..n]);
  }

  lemma SliceFrom(s: seq<Byte>, p: nat, q: nat, end: nat)
    requires p <= q <= end <= |s|
    ensures s[p..end][q - p..] == s[q..end]
  {
  }

  /** A stored line ends or turns into a comment where its terminator or a hash sign stands. */
  lemma EndsLineAt(s: seq<Byte>, p: nat, end: nat)
    requires p <= end < |s| && s[end] == 0 && 0 !in s[..end]
    ensures EndsLine(s[p..end]) <==> s[p] == 0 || s[p] == HASH
  {
    if p < end {
      assert s[..end][p] == s[p] && s[p..end][0] == s[p];
    }
  }

  /** Parse the stored line. */
  method ParseStored(line: array<Byte>, length: nat) returns (r: Line)
    requires length < line.Length && line[length] == 0 && 0 !in line[..length]
    ensures r == ParseLine(line[..length])
  {
    hide SkipSpaces, ParseDigits;
    var p := SkipBlanks(line, length, 0);
    assert line[0..length] == line[..length];
    assert p < length ==> line[p] in line[..length] && line[p..length][0] == line[p];
    if line[p] == HASH || line[p] == 0 {
      return Blank;
    }
    ghost var t := line[p..length];
    assert p + 1 < length ==> t[1] == line[p + 1];
    if line[p] == 48 && (line[p + 1] == 120 || line[p + 1] == 88) {
      assert t[2..] == line[p + 2..length];
      p := p + 2;
    }
    assert line[p..length] == AfterPrefix(t);
    r := ParseStoredDigits(line, length, p);
  }

  // ----- The loader -----

  /** Writing the next word extends the placed bytes. */
  lemma PlacedNext(size: nat, address: nat, words: seq<Word>, w: Word)
    requires address + 4 * |words| + 4 <= size
    ensures Store(Placed(size, address, Flat(words)), address + 4 * |words|, 4, w)
         == Placed(size, address, Flat(words + [w]))
  {
    hide Digits, Flat;
    FlatAppend(words, w);
    PlacedMore(size, address, Flat(words), Digits(w, 4));
  }

  lemma PlacedMore(size: nat, address: nat, bytes: seq<Byte>, more: seq<Byte>)
    requires address + |bytes| + |more| <= size
    ensures var before, a := Placed(size, address, bytes), address + |bytes|;
            before[..a] + more + before[a + |more|..] == Placed(size, address, bytes + more)
  {
    var before, a := Placed(size, address, bytes), address + |bytes|;
    assert before[..a] == Zeros(address) + bytes;
    assert before[a + |more|..] == Zeros(size - a - |more|);
  }

  predicate Reading(program: Program, words: seq<Word>, size: nat)
    reads program, program.memory, program.memory.bytes
  {
    && program.memory.bytes.Length == size && SizeValid(size)
    && program.loadAddress % 4 == 0 && program.loadAddress + program.imageSize <= size
    && program.imageSize == 4 * |words|
    && program.memory.Contents() == Placed(size, program.loadAddress, Flat(words))
  }

  /** Put the next word after the others. The address it computes is always one RAM accepts. */
  method StoreWord(program: Program, word: Word, ghost words: seq<Word>, size: nat) returns (ok: bool)
    requires Reading(program, words, size) && program.imageSize + 4 <= size - program.loadAddress
    modifies program`imageSize, program.memory.bytes
    ensures ok && Reading(program, words + [word], size)
  {
    hide Flat, Placed, Store;
    var address: Word := program.loadAddress + program.imageSize;
    AccessCheck(program.memory, address, 4);
    assert address % 4 == 0 by {
      AlignedSum(program.loadAddress, |words|);
    }
    PlacedNext(size, program.loadAddress, words, word);
    ok := program.memory.WriteU32(address, word);
    program.imageSize := program.imageSize + 4;
  }

  lemma AlignedSum(a: nat, k: nat)
    requires a % 4 == 0
    ensures (a + 4 * k) % 4 == 0
  {
  }

  /** `read_words`: one line after the other until the stream ends. */
  method ReadWords(input: Stream, program: Program, size: nat) returns (verdict: Verdict, ghost words: seq<Word>)
    requires input.Valid() && input.position == 0 && Reading(program, [], size) && program.loadAddress + 4 <= size
    requires program.loadAddress <= program.entry
    modifies input, program`imageSize, program.memory.bytes
    ensures Reading(program, words, size)
    ensures verdict == match ReadAll(input.data, 0, [], size - program.loadAddress, input.broken)
                       case Failed(line, reason) => Rejected(line, reason)
                       case Words(ws) =>
                         if ws == [] then Rejected(0, EmptyProgram)
                         else if program.entry - program.loadAddress >= 4 * |ws| then Rejected(0, EntryOutside)
                         else Accepted
    ensures verdict == Accepted ==> ReadAll(input.data, 0, [], size - program.loadAddress, input.broken) == Words(words)
  {
    hide Flat, Placed, ParseLine, ScanError, LineEnd;
    var line := new Byte[MAX_LINE + 1](i => 0);
    var lineNumber: nat := 0;
    var room := size - program.loadAddress;
    ghost var goal := ReadAll(input.data, 0, [], room, input.broken);
    words := [];
    assert input.data[0..] == input.data;
    while true
      invariant input.Valid() && Reading(program, words, size)
      invariant goal == ReadAll(input.data[input.position..], lineNumber, words, room, input.broken)
      decreases |input.data[input.position..]|
    {
      var status, length := ReadLine(input, line);
      if status.Broken? {
        return Rejected(lineNumber + 1, status.reason), words;
      }
      if status.AtEnd? {
        break;
      }
      lineNumber := lineNumber + 1;
      var parsed := ParseStored(line, length);
      if parsed.Blank? {
        continue;
      }
      if parsed.Bad? {
        return Rejected(lineNumber, parsed.reason), words;
      }
      if program.imageSize > room - 4 {
        return Rejected(lineNumber, DoesNotFit), words;
      }
      var stored := StoreWord(program, parsed.word, words, size);
      if !stored {
        assert false;
        return Rejected(lineNumber, InvalidAddress), words;
      }
      words := words + [parsed.word];
    }
    if program.imageSize == 0 {
      return Rejected(0, EmptyProgram), words;
    }
    if program.entry - program.loadAddress >= program.imageSize {
      return Rejected(0, EntryOutside), words;
    }
    return Accepted, words;
  }

  /** `program_read_words`. The old program is replaced only by a complete new one. */
  method ReadText(input: Stream, ramSize: nat, loadAddress: Word, entry: Word, available: bool, output: Program)
    returns (verdict: Verdict, ghost words: seq<Word>)
    requires input.Valid() && input.position == 0 && !input.Ended()
    modifies input, output
    ensures verdict == TextVerdict(ramSize, loadAddress, entry, input.data, input.broken)
         || (!available && verdict == Rejected(0, NoStorage))
    ensures verdict == Accepted ==>
              && ReadAll(input.data, 0, [], ramSize - loadAddress, input.broken) == Words(words)
              && loadAddress + 4 * |words| <= ramSize
              && output.View() == TextImage(ramSize, loadAddress, entry, words) && output.elfData == []
    ensures verdict == Accepted ==> Acceptable(output.View())
    ensures verdict != Accepted ==> output.memory == old(output.memory) && output.View() == old(output.View())
    ensures verdict != Accepted ==> output.elfData == old(output.elfData)
  {
    hide Flat, Placed, ReadAll;
    words := [];
    verdict := AddressVerdict(ramSize, loadAddress, entry);
    if verdict != Accepted {
      return;
    }
    var next := new Program();
    next.loadAddress, next.entry := loadAddress, entry;
    var granted := *;
    var initialized := next.memory.Init(ramSize, available || granted);
    if !initialized {
      return Rejected(0, NoStorage), words;
    }
    NothingPlaced(ramSize, loadAddress);
    verdict, words := ReadWords(input, next, ramSize);
    if verdict != Accepted {
      return;
    }
    TextIsAcceptable(ramSize, loadAddress, entry, input.data, input.broken, words);
    output.Become(next);
  }

  /** Every accepted text program is one the machine accepts: an aligned entry below the end of the words is a whole
      word below it. */
  lemma TextIsAcceptable(ramSize: nat, loadAddress: Word, entry: Word, data: seq<Byte>, broken: bool, words: seq<Word>)
    requires TextVerdict(ramSize, loadAddress, entry, data, broken) == Accepted
    requires ReadAll(data, 0, [], ramSize - loadAddress, broken) == Words(words) && loadAddress + 4 * |words| <= ramSize
    ensures Acceptable(TextImage(ramSize, loadAddress, entry, words))
  {
    hide ReadAll, Flat, Placed;
    WholeWordBelow(entry - loadAddress, |words|);
  }

  lemma WholeWordBelow(offset: nat, count: nat)
    requires offset % 4 == 0 && offset < 4 * count
    ensures offset <= 4 * count - 4
  {
  }

  lemma NothingPlaced(size: nat, address: nat)
    requires address <= size
    ensures Flat([]) == [] && Placed(size, address, Flat([])) == Zeros(size)
  {
  }
}
