/** Laws of the `.words` format: printing then reading, and what a loaded text program is. */
module WordLaws {
  import opened Bits
  import opened Bytes
  import opened Controller
  import opened Programs
  import opened ProgramIo
  import opened Options
  import opened WordText
  import opened WordReader

  // ----- Files as composed lines -----

  /** A composed line that fits the line buffer and contains neither a newline nor a zero byte. */
  predicate ProperLine(f: Form) {
    ProperForm(f) && NEWLINE !in Rendered(f) && 0 !in Rendered(f) && |Rendered(f)| <= MAX_LINE
  }

  predicate ProperLines(lines: seq<Form>) {
    forall f :: f in lines ==> ProperLine(f)
  }

  /** The text of a file; only the last line may lack its newline. */
  function FileText(lines: seq<Form>, terminated: bool): seq<Byte> {
    if lines == [] then []
    else if |lines| == 1 && !terminated then Rendered(lines[0])
    else Rendered(lines[0]) + ([NEWLINE] + FileText(lines[1..], terminated))
  }

  /** The words a line carries. */
  function Carried(m: Line): seq<Word> {
    if m.Word? then [m.word] else []
  }

  /** The words the lines carry, in order. */
  function WordsOf(lines: seq<Form>): seq<Word>
    requires ProperLines(lines)
  {
    if lines == [] then []
    else
      assert lines[0] in lines;
      Carried(Meaning(lines[0])) + WordsOf(lines[1..])
  }

  lemma {:induction false} LineEndAt(a: seq<Byte>, b: seq<Byte>)
    requires NEWLINE !in a && (b == [] || b[0] == NEWLINE)
    ensures LineEnd(a + b) == |a|
  {
    if a == [] {
      assert a + b == b;
    } else {
      assert (a + b)[1..] == a[1..] + b && a[0] in a;
      LineEndAt(a[1..], b);
    }
  }

  /** A line can be stored exactly when it has no zero byte and at most 511 bytes. */
  lemma {:induction false} Storable(c: seq<Byte>, length: nat)
    requires length <= MAX_LINE
    ensures ScanError(c, length) == None <==> 0 !in c && length + |c| <= MAX_LINE
    decreases |c|
  {
    if c != [] {
      assert c == [c[0]] + c[1..];
      if length < MAX_LINE {
        Storable(c[1..], length + 1);
      }
    }
  }

  lemma FirstLine(f: Form, rest: seq<Byte>)
    requires ProperLine(f) && (rest == [] || rest[0] == NEWLINE)
    ensures var s := Rendered(f) + rest;
            && LineEnd(s) == |Rendered(f)| && s[..LineEnd(s)] == Rendered(f) && ScanError(s[..LineEnd(s)], 0) == None
            && AfterLine(s) == (if rest == [] then [] else rest[1..])
            && ParseLine(s[..LineEnd(s)]) == Meaning(f)
  {
    hide Rendered, ParseLine, Meaning;
    var line := Rendered(f);
    var s := line + rest;
    LineEndAt(line, rest);
    assert s[..|line|] == line && s[|line|..] == rest;
    Storable(line, 0);
    RenderedParses(f);
    if rest != [] {
      assert s[|line| + 1..] == rest[1..];
    }
  }

  /** A line that can be stored, is well formed and fits is passed over, keeping its word. */
  lemma Proceeds(s: seq<Byte>, line: nat, words: seq<Word>, room: nat)
    requires s != [] && ScanError(s[..LineEnd(s)], 0) == None
    requires var m := ParseLine(s[..LineEnd(s)]); !m.Bad? && 4 * |words + Carried(m)| <= room
    ensures ReadAll(s, line, words, room, false)
         == ReadAll(AfterLine(s), line + 1, words + Carried(ParseLine(s[..LineEnd(s)])), room, false)
  {
    hide LineEnd, ParseLine, ScanError, AfterLine;
    assert words + [] == words;
  }

  /** And only such a line. */
  lemma Proceeded(s: seq<Byte>, line: nat, words: seq<Word>, room: nat, result: seq<Word>)
    requires s != [] && ReadAll(s, line, words, room, false) == Words(result)
    ensures ScanError(s[..LineEnd(s)], 0) == None
    ensures var m := ParseLine(s[..LineEnd(s)]);
            !m.Bad? && ReadAll(AfterLine(s), line + 1, words + Carried(m), room, false) == Words(result)
  {
    hide LineEnd, ParseLine, ScanError, AfterLine;
    assert words + [] == words;
  }

  /** Printing a word list in any mix of forms and reading it back gives the words, when they fit. */
  lemma {:induction false} ReadsWhatWasWritten(lines: seq<Form>, terminated: bool, line: nat, words: seq<Word>,
                                               room: nat)
    requires ProperLines(lines) && 4 * (|words| + |WordsOf(lines)|) <= room
    ensures ReadAll(FileText(lines, terminated), line, words, room, false) == Words(words + WordsOf(lines))
    decreases |lines|
  {
    hide Rendered, ParseLine, Meaning, ScanError, LineEnd, ProperForm, AfterLine, ReadAll, Carried, FileText;
    if lines == [] {
      NoLines(terminated);
      assert words + [] == words;
      EmptyFile(line, words, room);
    } else {
      var f, others := lines[0], lines[1..];
      assert f in lines && ProperLines(others);
      var more := words + Carried(Meaning(f));
      assert more + WordsOf(others) == words + WordsOf(lines);
      assert |more| + |WordsOf(others)| == |words| + |WordsOf(lines)|;
      assert lines == [f] + others;
      ReadsWhatWasWritten(others, terminated, line + 1, more, room);
      ReadsPast(f, others, terminated, line, words, room);
    }
  }

  /** Reading goes past the first composed line, keeping its word. */
  lemma ReadsPast(f: Form, others: seq<Form>, terminated: bool, line: nat, words: seq<Word>, room: nat)
    requires ProperLine(f) && ProperLines(others) && 4 * |words + Carried(Meaning(f))| <= room
    ensures ReadAll(FileText([f] + others, terminated), line, words, room, false)
         == ReadAll(FileText(others, terminated), line + 1, words + Carried(Meaning(f)), room, false)
  {
    hide Rendered, ParseLine, Meaning, ScanError, LineEnd, ProperForm, AfterLine, ReadAll, Carried, FileText;
    hide ProperLines;
    var last := others == [] && !terminated;
    var rest := if last then [] else [NEWLINE] + FileText(others, terminated);
    NoLines(terminated);
    FileOf(f, others, terminated);
    var s := FileText([f] + others, terminated);
    assert s == Rendered(f) + rest;
    FirstLine(f, rest);
    assert !last ==> rest[1..] == FileText(others, terminated);
    if s == [] {
      EmptyLineIsBlank(f);
      assert words + [] == words;
      EmptyFile(line, words, room);
      EmptyFile(line + 1, words, room);
    } else {
      Proceeds(s, line, words, room);
    }
  }

  lemma EmptyFile(line: nat, words: seq<Word>, room: nat)
    ensures ReadAll([], line, words, room, false) == Words(words)
  {
  }

  lemma EmptyLineIsBlank(f: Form)
    requires ProperForm(f) && Rendered(f) == []
    ensures Carried(Meaning(f)) == []
  {
    RenderedParses(f);
  }

  /** The whole file put together from its first line and the rest. */
  lemma FileOf(f: Form, rest: seq<Form>, terminated: bool)
    requires ProperLine(f) && ProperLines(rest)
    ensures ProperLines([f] + rest) && WordsOf([f] + rest) == Carried(Meaning(f)) + WordsOf(rest)
    ensures rest != [] || terminated ==>
              FileText([f] + rest, terminated) == Rendered(f) + ([NEWLINE] + FileText(rest, terminated))
    ensures rest == [] ==> FileText([f] + rest, false) == Rendered(f)
  {
    hide Rendered, Meaning, Carried, ProperLine;
    assert ([f] + rest)[1..] == rest;
  }

  /** And conversely: every file that is read without complaint was composed of proper lines carrying those words. */
  lemma {:induction false} ReadWasWritten(s: seq<Byte>, line: nat, words: seq<Word>, room: nat, result: seq<Word>)
    returns (lines: seq<Form>, terminated: bool)
    requires ReadAll(s, line, words, room, false) == Words(result)
    ensures ProperLines(lines) && FileText(lines, terminated) == s && result == words + WordsOf(lines)
    decreases |s|
  {
    hide Rendered, ParseLine, Meaning, LineEnd, ScanError, ReadAll, FileText, WordsOf, ProperForm, Carried, ProperLines;
    if s == [] {
      EmptyFile(line, words, room);
      lines, terminated := [], true;
      NoLines(true);
    } else {
      Proceeded(s, line, words, room, result);
      var f := FirstForm(s);
      var rest, t := ReadWasWritten(AfterLine(s), line + 1, words + Carried(Meaning(f)), room, result);
      lines, terminated := WithFirst(s, f, rest, t);
    }
  }

  /** The files that are read are exactly the composed ones, each with the words it carries, so long as these fit. */
  lemma FilesExact(data: seq<Byte>, room: nat, words: seq<Word>)
    ensures ReadAll(data, 0, [], room, false) == Words(words)
       <==> (4 * |words| <= room
             && exists lines, terminated ::
                  ProperLines(lines) && FileText(lines, terminated) == data && WordsOf(lines) == words)
  {
    hide ReadAll, FileText, WordsOf, ProperLines;
    assert [] + words == words;
    if ReadAll(data, 0, [], room, false) == Words(words) {
      WordsFit(data, 0, [], room, false);
      var lines, terminated := ReadWasWritten(data, 0, [], room, words);
      assert [] + WordsOf(lines) == WordsOf(lines);
    } else if lines, t :| ProperLines(lines) && FileText(lines, t) == data && WordsOf(lines) == words {
      if 4 * |words| <= room {
        ReadsWhatWasWritten(lines, t, 0, [], room);
      }
    }
  }

  /** A text is accepted exactly when it is read to its end and is composed of lines whose words, at a word-aligned
      address, fit and make a program the machine accepts. */
  lemma TextAccepted(ramSize: nat, loadAddress: Word, entry: Word, data: seq<Byte>, broken: bool)
    ensures TextVerdict(ramSize, loadAddress, entry, data, broken) == Accepted
       <==> (&& !broken && loadAddress % 4 == 0
             && exists lines, terminated ::
                  && ProperLines(lines) && FileText(lines, terminated) == data
                  && Loads(ramSize, loadAddress, entry, WordsOf(lines)))
  {
    hide FileText, WordsOf, ProperLines, ReadAll, AddressVerdict, Loads;
    var room := ramSize - loadAddress;
    if broken {
      if room >= 0 {
        BrokenFails(data, 0, [], room);
      } else {
        AddressRefusals(ramSize, loadAddress, entry);
      }
    } else {
      if TextVerdict(ramSize, loadAddress, entry, data, broken) == Accepted {
        AddressRefusals(ramSize, loadAddress, entry);
        var words := ReadAll(data, 0, [], room, false).words;
        FilesExact(data, room, words);
        var lines, t :| ProperLines(lines) && FileText(lines, t) == data && WordsOf(lines) == words;
        ComposedTextLoads(ramSize, loadAddress, entry, lines, t);
      }
      if lines, t :|
          ProperLines(lines) && FileText(lines, t) == data && Loads(ramSize, loadAddress, entry, WordsOf(lines)) {
        ComposedTextLoads(ramSize, loadAddress, entry, lines, t);
      }
    }
  }

  /** The words fit and make an acceptable program. */
  predicate Loads(ramSize: nat, loadAddress: Word, entry: Word, words: seq<Word>) {
    loadAddress + 4 * |words| <= ramSize && Acceptable(TextImage(ramSize, loadAddress, entry, words))
  }

  /** Composed lines load exactly when the address is word-aligned and their words fit and make a program the machine
      accepts. */
  lemma ComposedTextLoads(ramSize: nat, loadAddress: Word, entry: Word, lines: seq<Form>, terminated: bool)
    requires ProperLines(lines)
    ensures TextVerdict(ramSize, loadAddress, entry, FileText(lines, terminated), false) == Accepted
       <==> loadAddress % 4 == 0 && Loads(ramSize, loadAddress, entry, WordsOf(lines))
  {
    hide FileText, WordsOf, ProperLines, ReadAll, AddressVerdict, Loads;
    AddressRefusals(ramSize, loadAddress, entry);
    var words := WordsOf(lines);
    LoadsMeans(ramSize, loadAddress, entry, words);
    if AddressVerdict(ramSize, loadAddress, entry) == Accepted {
      ComposedVerdict(ramSize, loadAddress, entry, lines, terminated);
    }
  }

  lemma LoadsMeans(ramSize: nat, loadAddress: Word, entry: Word, words: seq<Word>)
    ensures Loads(ramSize, loadAddress, entry, words)
       <==> && 4 <= ramSize <= 256 * 1024 * 1024 && ramSize % 4 == 0 && loadAddress + 4 <= ramSize
            && loadAddress + 4 * |words| <= ramSize
            && entry % 4 == 0 && loadAddress <= entry && entry + 4 <= loadAddress + 4 * |words|
  {
    hide Placed, Flat;
  }

  /** At good addresses composed lines load exactly when their words fit and the entry is among them. */
  lemma ComposedVerdict(ramSize: nat, loadAddress: Word, entry: Word, lines: seq<Form>, terminated: bool)
    requires AddressVerdict(ramSize, loadAddress, entry) == Accepted && ProperLines(lines)
    ensures TextVerdict(ramSize, loadAddress, entry, FileText(lines, terminated), false) == Accepted
       <==> (loadAddress + 4 * |WordsOf(lines)| <= ramSize && entry < loadAddress + 4 * |WordsOf(lines)|)
  {
    hide FileText, WordsOf, ProperLines, ReadAll, AddressVerdict;
    AddressRefusals(ramSize, loadAddress, entry);
    var data, room, words := FileText(lines, terminated), ramSize - loadAddress, WordsOf(lines);
    var r := ReadAll(data, 0, [], room, false);
    if 4 * |words| <= room {
      FilesExact(data, room, words);
    } else if r.Words? {
      OneReading(data, room, r.words, lines, terminated);
      WordsFit(data, 0, [], room, false);
    }
  }

  /** A stream that breaks is never read to its end. */
  lemma {:induction false} BrokenFails(s: seq<Byte>, line: nat, words: seq<Word>, room: nat)
    ensures ReadAll(s, line, words, room, true).Failed?
    decreases |s|
  {
    hide ParseLine, ScanError;
    var content := s[..LineEnd(s)];
    if ScanError(content, 0).None? && |content| < |s| {
      match ParseLine(content)
      case Blank => BrokenFails(AfterLine(s), line + 1, words, room);
      case Word(w) =>
        if 4 * |words| + 4 <= room {
          BrokenFails(AfterLine(s), line + 1, words + [w], room);
        }
      case Bad(_) =>
    }
  }

  /** A text that is read carries the words of every way to compose it. */
  lemma OneReading(data: seq<Byte>, room: nat, words: seq<Word>, lines: seq<Form>, terminated: bool)
    requires ReadAll(data, 0, [], room, false) == Words(words) && ProperLines(lines)
             && FileText(lines, terminated) == data
    ensures WordsOf(lines) == words
  {
    hide FileText, WordsOf, ProperLines, ReadAll;
    var enough := room + 4 * |WordsOf(lines)|;
    ReadsWhatWasWritten(lines, terminated, 0, [], enough);
    assert [] + WordsOf(lines) == WordsOf(lines);
    MoreRoom(data, 0, [], room, enough);
  }

  /** What is read does not change when there is more room. */
  lemma {:induction false} MoreRoom(s: seq<Byte>, line: nat, words: seq<Word>, room: nat, more: nat)
    requires room <= more && ReadAll(s, line, words, room, false).Words?
    ensures ReadAll(s, line, words, more, false) == ReadAll(s, line, words, room, false)
    decreases |s|
  {
    hide ParseLine, ScanError, LineEnd, AfterLine;
    if s == [] {
      EmptyFile(line, words, room);
      EmptyFile(line, words, more);
    } else {
      var m := ParseLine(s[..LineEnd(s)]);
      Proceeded(s, line, words, room, ReadAll(s, line, words, room, false).words);
      MoreRoom(AfterLine(s), line + 1, words + Carried(m), room, more);
      assert m.Word? ==> words + Carried(m) == words + [m.word];
      assert m.Blank? ==> words + Carried(m) == words;
    }
  }

  lemma NoLines(terminated: bool)
    ensures ProperLines([]) && FileText([], terminated) == [] && WordsOf([]) == []
  {
  }

  /** The form of a first line that can be stored and is well formed. */
  lemma FirstForm(s: seq<Byte>) returns (f: Form)
    requires ScanError(s[..LineEnd(s)], 0) == None && !ParseLine(s[..LineEnd(s)]).Bad?
    ensures ProperLine(f) && Rendered(f) == s[..LineEnd(s)] && Meaning(f) == ParseLine(s[..LineEnd(s)])
  {
    hide Rendered, ParseLine, Meaning, LineEnd, ScanError, ProperForm;
    Storable(s[..LineEnd(s)], 0);
    f := ParsedIsRendered(s[..LineEnd(s)]);
  }

  /** A file is its first line put before the lines of the rest. */
  lemma WithFirst(s: seq<Byte>, f: Form, rest: seq<Form>, t: bool) returns (lines: seq<Form>, terminated: bool)
    requires ProperLine(f) && Rendered(f) == s[..LineEnd(s)] && ProperLines(rest) && FileText(rest, t) == AfterLine(s)
    ensures ProperLines(lines) && FileText(lines, terminated) == s
    ensures WordsOf(lines) == Carried(Meaning(f)) + WordsOf(rest)
  {
    hide Rendered, Meaning, LineEnd, FileText, WordsOf, ProperForm, ProperLines, Carried;
    var n := LineEnd(s);
    if n == |s| {
      NoTextNoLines(rest, t);
      NoLines(true);
      lines, terminated := [f], false;
      assert [f] + [] == [f] && s[..n] == s;
      assert Carried(Meaning(f)) + [] == Carried(Meaning(f));
      FileOf(f, [], false);
    } else {
      lines, terminated := [f] + rest, t || rest == [];
      TerminationOfNothing(rest, t);
      FileOf(f, rest, terminated);
      assert s == s[..n] + ([NEWLINE] + s[n + 1..]);
    }
  }

  lemma TerminationOfNothing(lines: seq<Form>, t: bool)
    ensures FileText(lines, t || lines == []) == FileText(lines, t)
  {
  }

  /** Lines without any text carry no words. */
  lemma {:induction false} NoTextNoLines(lines: seq<Form>, terminated: bool)
    requires ProperLines(lines) && FileText(lines, terminated) == []
    ensures WordsOf(lines) == []
  {
    hide Rendered, Meaning;
    if lines != [] {
      assert lines[0] in lines;
      EmptyLineIsBlank(lines[0]);
      assert |lines| == 1 && lines[1..] == [];
    }
  }

  // ----- What a loaded text program is -----

  /** Word `i` is at `loadAddress + 4i`, little-endian, and every byte outside the words is zero. */
  lemma TextImageExact(ramSize: nat, loadAddress: Word, entry: Word, words: seq<Word>)
    requires loadAddress + 4 * |words| <= ramSize
    ensures var p := TextImage(ramSize, loadAddress, entry, words);
            && |p.ram| == ramSize && p.imageSize == 4 * |words|
            && (forall i :: 0 <= i < |words| ==> Load(p.ram, loadAddress + 4 * i, 4) == words[i])
            && (forall a :: 0 <= a < ramSize && !(loadAddress <= a < loadAddress + 4 * |words|) ==> p.ram[a] == 0)
  {
    hide Load, Flat;
    var p := TextImage(ramSize, loadAddress, entry, words);
    forall i | 0 <= i < |words| ensures Load(p.ram, loadAddress + 4 * i, 4) == words[i] {
      WordPlaced(ramSize, loadAddress, words, i);
    }
  }

  lemma WordPlaced(ramSize: nat, loadAddress: Word, words: seq<Word>, i: nat)
    requires loadAddress + 4 * |words| <= ramSize && i < |words|
    ensures Load(Placed(ramSize, loadAddress, Flat(words)), loadAddress + 4 * i, 4) == words[i]
  {
    hide Flat, LittleEndian, Digits, Placed, Load;
    FlatAt(words, i);
    PartPlaced(ramSize, loadAddress, Flat(words), 4 * i, 4 * i + 4);
    LoadOfDigits(Placed(ramSize, loadAddress, Flat(words)), loadAddress + 4 * i, words[i]);
  }

  lemma LoadOfDigits(ram: seq<Byte>, address: nat, word: Word)
    requires address + 4 <= |ram| && ram[address..address + 4] == Digits(word, 4)
    ensures Load(ram, address, 4) == word
  {
    hide LittleEndian, Digits, Pow2;
    NumberOfDigits(word, 4);
    Powers();
  }

  lemma PartPlaced(size: nat, address: nat, bytes: seq<Byte>, from: nat, to: nat)
    requires address + |bytes| <= size && from <= to <= |bytes|
    ensures Placed(size, address, bytes)[address + from..address + to] == bytes[from..to]
  {
  }

  /** The words read always fit the room they were given. */
  lemma {:induction false} WordsFit(s: seq<Byte>, line: nat, words: seq<Word>, room: nat, broken: bool)
    requires 4 * |words| <= room
    ensures var r := ReadAll(s, line, words, room, broken); r.Words? ==> 4 * |r.words| <= room
    decreases |s|
  {
    hide ParseLine, ScanError, LineEnd;
    var content := s[..LineEnd(s)];
    if s != [] && ScanError(content, 0).None? && !(|content| == |s| && broken) {
      match ParseLine(content)
      case Blank => WordsFit(AfterLine(s), line + 1, words, room, broken);
      case Word(w) =>
        if 4 * |words| + 4 <= room {
          WordsFit(AfterLine(s), line + 1, words + [w], room, broken);
        }
      case Bad(_) =>
    }
  }

  /** The reader never reports an invalid program address. */
  lemma {:induction false} AddressAlwaysValid(s: seq<Byte>, line: nat, words: seq<Word>, room: nat, broken: bool)
    ensures var r := ReadAll(s, line, words, room, broken);
            r.Failed? ==>
              line < r.line
              && r.reason in {NulByte, LongLine, ReadFailure, WordTooLong, ExpectedWord, ExtraToken, DoesNotFit}
    decreases |s|
  {
    hide LineEnd;
    var content := s[..LineEnd(s)];
    ScanReasons(content, 0);
    LineReasons(content);
    if s != [] && ScanError(content, 0).None? && !(|content| == |s| && broken) {
      match ParseLine(content)
      case Blank => AddressAlwaysValid(AfterLine(s), line + 1, words, room, broken);
      case Word(w) =>
        if 4 * |words| + 4 <= room {
          AddressAlwaysValid(AfterLine(s), line + 1, words + [w], room, broken);
        }
      case Bad(_) =>
    }
  }

  lemma {:induction false} ScanReasons(c: seq<Byte>, length: nat)
    ensures ScanError(c, length) in {None, Some(NulByte), Some(LongLine)}
    decreases |c|
  {
    if c != [] {
      ScanReasons(c[1..], length + 1);
    }
  }

  lemma LineReasons(s: seq<Byte>)
    ensures ParseLine(s).Bad? ==> ParseLine(s).reason in {WordTooLong, ExpectedWord, ExtraToken}
  {
    hide SkipSpaces, HexRun, HexValue;
  }

  // ----- Which line is refused, and why -----

  /** A line cannot be stored because of its first zero byte, when that is among the first 512, or else because it has
      more than 511 bytes. */
  lemma {:induction false} ScanErrorExact(c: seq<Byte>, length: nat)
    requires length <= MAX_LINE
    ensures ScanError(c, length) == Some(NulByte)
       <==> exists i :: 0 <= i < |c| && i + length <= MAX_LINE && c[i] == 0
    ensures ScanError(c, length) == Some(LongLine)
       <==> |c| + length > MAX_LINE && 0 !in c[..MAX_LINE + 1 - length]
    ensures ScanError(c, length) in {None, Some(NulByte), Some(LongLine)}
    decreases |c|
  {
    if c != [] && c[0] != 0 && length < MAX_LINE {
      ScanErrorExact(c[1..], length + 1);
      var n := MAX_LINE + 1 - length;
      if |c| + length > MAX_LINE {
        assert c[..n] == [c[0]] + c[1..][..n - 1];
      }
      if i :| 0 <= i < |c| && i + length <= MAX_LINE && c[i] == 0 {
        assert c[1..][i - 1] == 0;
      }
    } else if c != [] && c[0] != 0 {
      assert c[..1] == [c[0]];
    } else if c != [] {
      var n := MAX_LINE + 1 - length;
      assert |c| >= n ==> c[0] in c[..n];
    }
  }

  lemma PassesLine(f: Form, tail: seq<Byte>, line: nat, words: seq<Word>, room: nat, broken: bool)
    requires ProperLine(f) && 4 * |words + Carried(Meaning(f))| <= room
    ensures ReadAll(Rendered(f) + ([NEWLINE] + tail), line, words, room, broken)
         == ReadAll(tail, line + 1, words + Carried(Meaning(f)), room, broken)
  {
    hide Rendered, ParseLine, Meaning, ScanError, LineEnd, ProperForm, AfterLine;
    FirstLine(f, [NEWLINE] + tail);
    assert ([NEWLINE] + tail)[1..] == tail;
    assert words + [] == words;
  }

  /** Reading goes past any number of composed lines, counting them and keeping their words. */
  lemma {:induction false} PassesLines(lines: seq<Form>, tail: seq<Byte>, line: nat, words: seq<Word>, room: nat,
                                       broken: bool)
    requires ProperLines(lines) && 4 * (|words| + |WordsOf(lines)|) <= room
    ensures ReadAll(FileText(lines, true) + tail, line, words, room, broken)
         == ReadAll(tail, line + |lines|, words + WordsOf(lines), room, broken)
    decreases |lines|
  {
    hide Rendered, Meaning, ReadAll, Carried, ProperForm;
    if lines == [] {
      assert FileText(lines, true) + tail == tail && words + [] == words;
    } else {
      var f, others := lines[0], lines[1..];
      assert f in lines && ProperLines(others);
      var more := words + Carried(Meaning(f));
      assert more + WordsOf(others) == words + WordsOf(lines);
      assert |more| + |WordsOf(others)| == |words| + |WordsOf(lines)|;
      assert FileText(lines, true) + tail == Rendered(f) + ([NEWLINE] + (FileText(others, true) + tail));
      PassesLine(f, FileText(others, true) + tail, line, words, room, broken);
      PassesLines(others, tail, line + 1, more, room, broken);
    }
  }

  /** After composed lines that fit, the next line is refused under its own number: for a byte that cannot be stored,
      for a stream that breaks in it, for its text, or because its word has no room. */
  lemma ErrorsNameTheirLine(lines: seq<Form>, content: seq<Byte>, rest: seq<Byte>, room: nat, broken: bool)
    requires ProperLines(lines) && 4 * |WordsOf(lines)| <= room
    requires NEWLINE !in content && (rest == [] || rest[0] == NEWLINE)
    ensures var r := ReadAll(FileText(lines, true) + (content + rest), 0, [], room, broken);
            var number := |lines| + 1;
            if ScanError(content, 0).Some? then r == Failed(number, ScanError(content, 0).value)
            else if broken && rest == [] then r == Failed(number, ReadFailure)
            else
              && (ParseLine(content).Bad? && content + rest != [] ==> r == Failed(number, ParseLine(content).reason))
              && (ParseLine(content).Word? && content + rest != [] && 4 * |WordsOf(lines)| + 4 > room ==>
                    r == Failed(number, DoesNotFit))
  {
    hide ScanError, ParseLine, FileText, WordsOf, LineEnd, AfterLine;
    PassesLines(lines, content + rest, 0, [], room, broken);
    assert [] + WordsOf(lines) == WordsOf(lines);
    LineEndAt(content, rest);
    assert (content + rest)[..|content|] == content;
  }

  /** At good addresses composed lines that fit are refused only for having no word, or for an entry behind the last. */
  lemma ComposedRefusals(ramSize: nat, loadAddress: Word, entry: Word, lines: seq<Form>, terminated: bool)
    requires AddressVerdict(ramSize, loadAddress, entry) == Accepted && ProperLines(lines)
    requires loadAddress + 4 * |WordsOf(lines)| <= ramSize
    ensures TextVerdict(ramSize, loadAddress, entry, FileText(lines, terminated), false)
         == if WordsOf(lines) == [] then Rejected(0, EmptyProgram)
            else if entry >= loadAddress + 4 * |WordsOf(lines)| then Rejected(0, EntryOutside)
            else Accepted
  {
    hide FileText, WordsOf, ProperLines, ReadAll, AddressVerdict;
    AddressRefusals(ramSize, loadAddress, entry);
    FilesExact(FileText(lines, terminated), ramSize - loadAddress, WordsOf(lines));
  }
}
