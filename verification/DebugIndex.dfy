/** The address-to-source index: sorted ranges with a running maximum of their ends, and the queries over it. */
module DebugIndex {
  import opened Bits
  import opened Controller
  import opened Programs
  import opened Options
  import opened LineRows

  /** The order `qsort` is given. */
  predicate Before(a: DebugLine, b: DebugLine) {
    a.begin < b.begin || (a.begin == b.begin && a.end <= b.end)
  }

  predicate Sorted(s: seq<DebugLine>) {
    forall i, j :: 0 <= i < j < |s| ==> Before(s[i], s[j])
  }

  /** A line as it was before the maximum was filled in. */
  function Plain(d: DebugLine): DebugLine {
    d.(maximumEnd := 0)
  }

  predicate Contains(d: DebugLine, address: nat) {
    d.begin <= address < d.end
  }

  // ----- Sorting -----

  function Insert(d: DebugLine, s: seq<DebugLine>): seq<DebugLine> {
    if s == [] then [d]
    else if Before(d, s[0]) then [d] + s
    else [s[0]] + Insert(d, s[1..])
  }

  lemma {:induction false} InsertKeepsLines(d: DebugLine, s: seq<DebugLine>)
    ensures multiset(Insert(d, s)) == multiset(s) + multiset{d}
  {
    if s != [] {
      assert s == [s[0]] + s[1..];
      InsertKeepsLines(d, s[1..]);
    }
  }

  lemma SortedCons(d: DebugLine, s: seq<DebugLine>)
    requires Sorted(s) && forall i :: 0 <= i < |s| ==> Before(d, s[i])
    ensures Sorted([d] + s)
  {
    hide Before;
  }

  lemma {:induction false} InsertSorts(d: DebugLine, s: seq<DebugLine>)
    requires Sorted(s)
    ensures Sorted(Insert(d, s))
  {
    if s != [] {
      if Before(d, s[0]) {
        SortedCons(d, s);
      } else {
        var t := Insert(d, s[1..]);
        InsertSorts(d, s[1..]);
        InsertKeepsLines(d, s[1..]);
        forall j | 0 <= j < |t| ensures Before(s[0], t[j]) {
          assert t[j] in multiset(t);
          if t[j] != d {
            var k :| 1 <= k < |s| && s[k] == t[j];
          }
        }
        SortedCons(s[0], t);
      }
    }
  }

  /** Some sort: callers rely only on its contract, as they do on `qsort`'s. */
  method Sort(lines: seq<DebugLine>) returns (sorted: seq<DebugLine>)
    ensures Sorted(sorted) && multiset(sorted) == multiset(lines)
  {
    sorted := [];
    for i := 0 to |lines|
      invariant Sorted(sorted) && multiset(sorted) == multiset(lines[..i])
    {
      InsertSorts(lines[i], sorted);
      InsertKeepsLines(lines[i], sorted);
      sorted := Insert(lines[i], sorted);
      assert lines[..i + 1] == lines[..i] + [lines[i]];
    }
    assert lines[..|lines|] == lines;
  }

  // ----- The index -----

  /** The largest end among the first `k` lines. */
  function MaximumEnd(s: seq<DebugLine>, k: nat): nat
    requires k <= |s|
  {
    if k == 0 then 0
    else if s[k - 1].end > MaximumEnd(s, k - 1) then s[k - 1].end
    else MaximumEnd(s, k - 1)
  }

  lemma {:induction false} MaximumEndBounds(s: seq<DebugLine>, k: nat)
    requires k <= |s|
    ensures forall i :: 0 <= i < k ==> s[i].end <= MaximumEnd(s, k)
  {
    if k > 0 {
      MaximumEndBounds(s, k - 1);
    }
  }

  /** Lines in order, each carrying the largest end up to and including itself. */
  predicate Indexed(s: seq<DebugLine>) {
    Sorted(s) && forall i :: 0 <= i < |s| ==> s[i].maximumEnd == MaximumEnd(s, i + 1)
  }

  /** The index is built from exactly the collected lines. */
  ghost predicate IndexOf(index: seq<DebugLine>, lines: seq<DebugLine>) {
    Indexed(index) && multiset(Plains(index)) == multiset(lines)
  }

  function Plains(s: seq<DebugLine>): seq<DebugLine> {
    seq(|s|, i requires 0 <= i < |s| => Plain(s[i]))
  }

  lemma {:induction false} MaximumEndIgnoresMaxima(s: seq<DebugLine>, t: seq<DebugLine>, k: nat)
    requires |s| == |t| && k <= |s| && forall i :: 0 <= i < k ==> s[i].end == t[i].end
    ensures MaximumEnd(s, k) == MaximumEnd(t, k)
  {
    if k > 0 {
      MaximumEndIgnoresMaxima(s, t, k - 1);
    }
  }

  /** The prefix-maximum pass, in place. */
  method FillMaxima(index: array<DebugLine>)
    modifies index
    ensures forall i :: 0 <= i < index.Length ==>
              index[i] == old(index[i]).(maximumEnd := MaximumEnd(old(index[..]), i + 1))
  {
    hide MaximumEnd;
    ghost var sorted := index[..];
    var maximum := 0;
    NoMaximum(sorted);
    for i := 0 to index.Length
      invariant maximum == MaximumEnd(sorted, i)
      invariant forall k :: 0 <= k < i ==> index[k] == sorted[k].(maximumEnd := MaximumEnd(sorted, k + 1))
      invariant forall k :: i <= k < index.Length ==> index[k] == sorted[k]
    {
      MaximumStep(sorted, i);
      if index[i].end > maximum {
        maximum := index[i].end;
      }
      index[i] := index[i].(maximumEnd := maximum);
    }
  }

  lemma NoMaximum(s: seq<DebugLine>)
    ensures MaximumEnd(s, 0) == 0
  {
  }

  lemma MaximumStep(s: seq<DebugLine>, k: nat)
    requires k < |s|
    ensures MaximumEnd(s, k + 1) == if s[k].end > MaximumEnd(s, k) then s[k].end else MaximumEnd(s, k)
  {
  }

  lemma SameOrder(a: DebugLine, b: DebugLine, c: DebugLine, d: DebugLine)
    requires Plain(a) == Plain(c) && Plain(b) == Plain(d)
    ensures Before(a, b) == Before(c, d)
  {
  }

  lemma MaximaFilled(s: seq<DebugLine>, t: seq<DebugLine>)
    requires |s| == |t| && Sorted(s) && forall d :: d in s ==> d.maximumEnd == 0
    requires forall i :: 0 <= i < |s| ==> t[i] == s[i].(maximumEnd := MaximumEnd(s, i + 1))
    ensures Indexed(t) && Plains(t) == s
  {
    hide MaximumEnd, Before;
    forall i, j | 0 <= i < j < |t| ensures Before(t[i], t[j]) {
      SameOrder(s[i], s[j], t[i], t[j]);
    }
    forall i | 0 <= i < |t| ensures t[i].maximumEnd == MaximumEnd(t, i + 1) {
      MaximumEndIgnoresMaxima(t, s, i + 1);
    }
    forall i | 0 <= i < |t| ensures Plains(t)[i] == s[i] {
      assert s[i] in s;
    }
  }

  /** The end of `debug_info_read`: sort, then fill in the running maximum. */
  method Build(lines: seq<DebugLine>) returns (index: array<DebugLine>)
    requires forall d :: d in lines ==> d.maximumEnd == 0
    ensures fresh(index) && IndexOf(index[..], lines)
  {
    hide Sorted, Indexed;
    var sorted := Sort(lines);
    index := new DebugLine[|sorted|](i requires 0 <= i < |sorted| => sorted[i]);
    assert index[..] == sorted;
    forall d | d in sorted ensures d.maximumEnd == 0 {
      assert d in multiset(sorted);
    }
    FillMaxima(index);
    MaximaFilled(sorted, index[..]);
  }

  // ----- Queries -----

  /** What a scan of all collected lines would answer: a line covering the address whose begin, and then end, is
      greatest. */
  ghost predicate BestCover(lines: seq<DebugLine>, address: nat, d: DebugLine) {
    && d in lines && Contains(d, address)
    && forall e :: e in lines && Contains(e, address) ==> Before(e, d)
  }

  lemma InLines(index: seq<DebugLine>, lines: seq<DebugLine>)
    requires IndexOf(index, lines)
    ensures forall i :: 0 <= i < |index| ==> Plain(index[i]) in lines
    ensures forall d :: d in lines ==> exists i :: 0 <= i < |index| && Plain(index[i]) == d
  {
    var plains := Plains(index);
    forall i | 0 <= i < |index| ensures Plain(index[i]) in lines {
      assert plains[i] in multiset(plains);
    }
    forall d | d in lines ensures exists i :: 0 <= i < |index| && Plain(index[i]) == d {
      assert d in multiset(lines);
      assert d in plains;
    }
  }

  /** The binary search of `debug_info_lookup`: how many lines begin at or before the address. */
  method CountBeginning(index: array<DebugLine>, address: nat) returns (left: nat)
    requires Sorted(index[..])
    ensures left <= index.Length
    ensures forall i :: 0 <= i < left ==> index[i].begin <= address
    ensures forall i :: left <= i < index.Length ==> index[i].begin > address
  {
    left := 0;
    var right := index.Length;
    while left < right
      invariant 0 <= left <= right <= index.Length
      invariant forall i :: 0 <= i < left ==> index[i].begin <= address
      invariant forall i :: right <= i < index.Length ==> index[i].begin > address
    {
      var middle := left + (right - left) / 2;
      assert forall i :: 0 <= i < index.Length ==> index[i] == index[..][i];
      if index[middle].begin <= address {
        left := middle + 1;
      } else {
        right := middle;
      }
    }
  }

  /** `debug_info_lookup`: binary search for the last line that begins at or before the address, then walk back until
      the running maximum rules out anything earlier. */
  method Lookup(index: array<DebugLine>, ghost lines: seq<DebugLine>, address: nat)
    returns (found: bool, line: DebugLine)
    requires IndexOf(index[..], lines)
    ensures found ==> BestCover(lines, address, Plain(line))
    ensures !found ==> forall d :: d in lines ==> !Contains(d, address)
  {
    hide BestCover, Sorted, Plains, MaximumEnd;
    ghost var s := index[..];
    var left := CountBeginning(index, address);
    while left > 0
      invariant 0 <= left <= index.Length
      invariant forall i :: left <= i < |s| ==> !Contains(s[i], address)
    {
      left := left - 1;
      line := index[left];
      if line.maximumEnd <= address {
        MaximumEndBounds(s, left + 1);
        NothingCovers(s, lines, address);
        return false, line;
      }
      if line.begin <= address && address < line.end {
        FoundIsBest(s, lines, address, left);
        return true, line;
      }
    }
    NothingCovers(s, lines, address);
    return false, DebugLine(0, 0, 0, 0, 0, 0);
  }

  lemma NothingCovers(s: seq<DebugLine>, lines: seq<DebugLine>, address: nat)
    requires IndexOf(s, lines) && forall i :: 0 <= i < |s| ==> !Contains(s[i], address)
    ensures forall d :: d in lines ==> !Contains(d, address)
  {
    InLines(s, lines);
    forall d | d in lines ensures !Contains(d, address) {
      var i :| 0 <= i < |s| && Plain(s[i]) == d;
    }
  }

  lemma FoundIsBest(s: seq<DebugLine>, lines: seq<DebugLine>, address: nat, k: nat)
    requires IndexOf(s, lines) && k < |s| && Contains(s[k], address)
    requires forall i :: k < i < |s| ==> !Contains(s[i], address)
    ensures BestCover(lines, address, Plain(s[k]))
  {
    InLines(s, lines);
    forall e | e in lines && Contains(e, address) ensures Before(e, Plain(s[k])) {
      var i :| 0 <= i < |s| && Plain(s[i]) == e;
      assert Contains(s[i], address);
    }
  }

  /** `debug_info_line_address`: the first indexed line of a file and line number has the least address of all of
      them. */
  method LineAddress(index: array<DebugLine>, ghost lines: seq<DebugLine>, file: nat, line: nat)
    returns (found: bool, address: nat)
    requires IndexOf(index[..], lines)
    ensures found <==> exists d :: d in lines && d.file == file && d.line == line
    ensures found ==> exists d :: d in lines && d.file == file && d.line == line && d.begin == address
    ensures found ==> forall d :: d in lines && d.file == file && d.line == line ==> address <= d.begin
  {
    ghost var s := index[..];
    InLines(s, lines);
    for i := 0 to index.Length
      invariant forall k :: 0 <= k < i ==> !(s[k].file == file && s[k].line == line)
    {
      if index[i].file == file && index[i].line == line {
        assert Plain(s[i]) in lines;
        forall d | d in lines && d.file == file && d.line == line ensures s[i].begin <= d.begin {
          var k :| 0 <= k < |s| && Plain(s[k]) == d;
        }
        return true, index[i].begin;
      }
    }
    return false, 0;
  }

  // ----- From rows to answers -----

  /** What libelf and libdw deliver for a retained file: whether it opens, whether its symbols could be read, whether
      it has line tables, these tables, and whether they were all delivered. */
  datatype ElfDebug = ElfDebug(opens: bool, symbols: bool, hasLines: bool, tables: seq<Table>, finished: bool)

  /** The units that are read: none unless the program is an ELF file with line tables. */
  function UnitsOf(format: Format, source: ElfDebug): seq<Table> {
    if format == ELF && source.hasLines then source.tables else []
  }

  predicate DebugAccepted(format: Format, elfData: seq<Byte>, source: ElfDebug, ramSize: nat) {
    format == ELF ==>
      && elfData != [] && source.opens && source.symbols
      && (source.hasLines ==> source.finished && TablesAccepted(source.tables, [], 0, ramSize))
  }

  /** `debug_info_read`: collect every unit of an ELF file, then build the index. Other programs have an empty one. */
  method Read(program: Program, source: ElfDebug, available: bool)
    returns (ok: bool, files: seq<string>, index: array<DebugLine>, ghost lines: seq<DebugLine>)
    ensures ok ==> DebugAccepted(program.format, program.elfData, source, program.memory.bytes.Length)
    ensures !ok && available ==> !DebugAccepted(program.format, program.elfData, source, program.memory.bytes.Length)
    ensures ok ==>
              var units := UnitsOf(program.format, source);
              && IndexOf(index[..], lines) && StandFor(lines, RangesOfTables(units), files)
              && files == InternedAll([], PathsOfTables(units)) && Distinct(files)
    ensures ok ==> forall d :: d in lines ==> d.begin < d.end <= program.memory.bytes.Length && d.file < |files|
    ensures ok ==>
              forall path :: path in files <==>
                exists t :: t in UnitsOf(program.format, source) && (Some(path) in t.names || StatesPath(t.rows, path))
  {
    hide TablesAccepted, InternedAll, PathsOfTables;
    var collector := new Collector();
    ok := true;
    if program.format == ELF {
      if program.elfData == [] {
        ok := false;
      } else {
        ok := source.opens && source.symbols;
        if ok && source.hasLines {
          ok := collector.ReadTables(source.tables, source.finished, program.memory.bytes.Length, available);
        }
      }
    }
    files, lines := collector.fileBlock[..collector.fileCount], collector.lines;
    if !ok {
      index := new DebugLine[0];
      return;
    }
    NoUnits();
    FilesAreThePaths(UnitsOf(program.format, source), files);
    assert lines[0..] == lines;
    StoredPlain(lines, RangesOfTables(UnitsOf(program.format, source)), files);
    StoredInside(program.format, program.elfData, source, program.memory.bytes.Length, lines, files);
    index := Build(collector.lineBlock[..collector.lineCount]);
  }

  lemma FilesAreThePaths(units: seq<Table>, files: seq<string>)
    requires files == InternedAll([], PathsOfTables(units))
    ensures forall path :: path in files <==>
              exists t :: t in units && (Some(path) in t.names || StatesPath(t.rows, path))
  {
    hide InternedAll, PathsOfTables, StatesPath;
    InternedAllGrows([], PathsOfTables(units));
    forall path
      ensures path in files <==> exists t :: t in units && (Some(path) in t.names || StatesPath(t.rows, path))
    {
      PathsExact(units, path);
    }
  }

  lemma NoUnits()
    ensures InternedAll([], PathsOfTables([])) == [] && RangesOfTables([]) == [] && StandFor([], [], [])
  {
  }

  lemma StoredPlain(lines: seq<DebugLine>, ranges: seq<SourceRange>, files: seq<string>)
    requires StandFor(lines, ranges, files)
    ensures forall d :: d in lines ==> d.maximumEnd == 0
  {
    forall d | d in lines ensures d.maximumEnd == 0 {
      var i :| 0 <= i < |lines| && lines[i] == d;
      assert Stands(lines[i], ranges[i], files);
    }
  }

  /** Every line of an accepted source is a non-empty range inside RAM. */
  lemma StoredInside(format: Format, elfData: seq<Byte>, source: ElfDebug, ramSize: nat,
                     lines: seq<DebugLine>, files: seq<string>)
    requires DebugAccepted(format, elfData, source, ramSize)
    requires StandFor(lines, RangesOfTables(UnitsOf(format, source)), files)
    ensures forall d :: d in lines ==> d.begin < d.end <= ramSize && d.file < |files|
  {
    hide StandFor, TablesAccepted, RangesOfTables;
    var units := UnitsOf(format, source);
    NoUnits();
    if units == source.tables && format == ELF && source.hasLines {
      TableRangesInside(units, [], 0, ramSize);
    }
    LinesAreRanges(lines, RangesOfTables(units), files);
    forall d | d in lines ensures d.begin < d.end <= ramSize && d.file < |files| {
      assert SourceOf(d, files) in RangesOfTables(units);
    }
  }

  /** The range and path a line stands for. */
  function SourceOf(d: DebugLine, files: seq<string>): SourceRange
    requires d.file < |files|
  {
    SourceRange(d.begin, d.end, files[d.file], d.line, d.column)
  }

  predicate Covers(r: SourceRange, address: nat) {
    r.begin <= address < r.end
  }

  /** A range covering the address whose begin, and then end, is greatest. */
  ghost predicate BestRange(ranges: seq<SourceRange>, address: nat, r: SourceRange) {
    && r in ranges && Covers(r, address)
    && forall q :: q in ranges && Covers(q, address) ==> q.begin < r.begin || (q.begin == r.begin && q.end <= r.end)
  }

  /** Lines and ranges are in step: each line is its range, and each range has a line. */
  lemma LinesAreRanges(lines: seq<DebugLine>, ranges: seq<SourceRange>, files: seq<string>)
    requires StandFor(lines, ranges, files)
    ensures forall d :: d in lines ==> d.file < |files| && SourceOf(d, files) in ranges
    ensures forall r :: r in ranges ==> exists d :: d in lines && d.file < |files| && SourceOf(d, files) == r
  {
    forall d | d in lines ensures d.file < |files| && SourceOf(d, files) in ranges {
      var i :| 0 <= i < |lines| && lines[i] == d;
      assert Stands(lines[i], ranges[i], files);
      assert SourceOf(d, files) == ranges[i];
    }
    forall r | r in ranges ensures exists d :: d in lines && d.file < |files| && SourceOf(d, files) == r {
      var i :| 0 <= i < |ranges| && ranges[i] == r;
      assert Stands(lines[i], ranges[i], files);
      assert lines[i] in lines && SourceOf(lines[i], files) == r;
    }
  }

  /** What a lookup in an index built by `Read` means for the units' rows: it answers exactly when some row's range
      covers the address, and then with the address range, path, line and column of such a row, of all of them the one
      that begins last, and among these ends last. */
  lemma AnswerIsBestRow(lines: seq<DebugLine>, tables: seq<Table>, files: seq<string>, address: nat,
                        found: bool, line: DebugLine)
    requires StandFor(lines, RangesOfTables(tables), files)
    requires found ==> BestCover(lines, address, Plain(line))
    requires !found ==> forall d :: d in lines ==> !Contains(d, address)
    ensures found <==> exists r :: FromRows(tables, r) && r.begin <= address < r.end
    ensures found ==>
              && line.file < |files| && line.begin <= address < line.end
              && FromRows(tables, SourceRange(begin := line.begin, end := line.end, path := files[line.file],
                                              line := line.line, column := line.column))
              && forall r :: FromRows(tables, r) && r.begin <= address < r.end ==>
                   r.begin < line.begin || (r.begin == line.begin && r.end <= line.end)
  {
    hide StandFor, FromRows, RangesOfTables, BestCover;
    TableRangesExact(tables);
    AnswerIsBestRange(lines, RangesOfTables(tables), files, address, found, line);
  }

  /** The same in terms of the ranges. */
  lemma AnswerIsBestRange(lines: seq<DebugLine>, ranges: seq<SourceRange>, files: seq<string>, address: nat,
                          found: bool, line: DebugLine)
    requires StandFor(lines, ranges, files)
    requires found ==> BestCover(lines, address, Plain(line))
    requires !found ==> forall d :: d in lines ==> !Contains(d, address)
    ensures found <==> exists r :: r in ranges && Covers(r, address)
    ensures found ==> line.file < |files| && BestRange(ranges, address, SourceOf(line, files))
  {
    hide StandFor;
    LinesAreRanges(lines, ranges, files);
    forall q | q in ranges && Covers(q, address)
      ensures exists d :: d in lines && Contains(d, address) && d.begin == q.begin && d.end == q.end
    {
      var d :| d in lines && d.file < |files| && SourceOf(d, files) == q;
      assert Contains(d, address);
    }
    if found {
      assert Plain(line) in lines && SourceOf(Plain(line), files) == SourceOf(line, files);
      assert Covers(SourceOf(line, files), address);
    }
  }

  /** The lines of a file and line number begin where the ranges of its path do. */
  lemma LinesOfPath(lines: seq<DebugLine>, ranges: seq<SourceRange>, files: seq<string>, file: nat, line: nat)
    requires StandFor(lines, ranges, files) && Distinct(files) && file < |files|
    ensures forall r :: r in ranges && r.path == files[file] && r.line == line ==>
              exists d :: d in lines && d.file == file && d.line == line && d.begin == r.begin
    ensures forall d :: d in lines && d.file == file && d.line == line ==>
              exists r :: r in ranges && r.path == files[file] && r.line == line && r.begin == d.begin
  {
    hide StandFor;
    LinesAreRanges(lines, ranges, files);
    forall r | r in ranges && r.path == files[file] && r.line == line
      ensures exists d :: d in lines && d.file == file && d.line == line && d.begin == r.begin
    {
      var d :| d in lines && d.file < |files| && SourceOf(d, files) == r;
      assert d.file == file;
    }
    forall d | d in lines && d.file == file && d.line == line
      ensures exists r :: r in ranges && r.path == files[file] && r.line == line && r.begin == d.begin
    {
      assert SourceOf(d, files) in ranges;
    }
  }

  /** And a line query over that index answers for the rows: it finds the least address of the rows with that file's
      path and that line that give a range, when there is one. */
  lemma LineAnswerIsLeastRow(lines: seq<DebugLine>, tables: seq<Table>, files: seq<string>, file: nat, line: nat,
                             found: bool, address: nat)
    requires StandFor(lines, RangesOfTables(tables), files) && Distinct(files) && file < |files|
    requires found <==> exists d :: d in lines && d.file == file && d.line == line
    requires found ==> exists d :: d in lines && d.file == file && d.line == line && d.begin == address
    requires found ==> forall d :: d in lines && d.file == file && d.line == line ==> address <= d.begin
    ensures found <==> exists r :: FromRows(tables, r) && r.path == files[file] && r.line == line
    ensures found ==> exists r :: FromRows(tables, r) && r.path == files[file] && r.line == line && r.begin == address
    ensures found ==> forall r :: FromRows(tables, r) && r.path == files[file] && r.line == line ==> address <= r.begin
  {
    hide StandFor, FromRows, RangesOfTables, Distinct;
    TableRangesExact(tables);
    LineAnswerIsLeast(lines, RangesOfTables(tables), files, file, line, found, address);
  }

  lemma LineAnswerIsLeast(lines: seq<DebugLine>, ranges: seq<SourceRange>, files: seq<string>, file: nat, line: nat,
                          found: bool, address: nat)
    requires StandFor(lines, ranges, files) && Distinct(files) && file < |files|
    requires found <==> exists d :: d in lines && d.file == file && d.line == line
    requires found ==> exists d :: d in lines && d.file == file && d.line == line && d.begin == address
    requires found ==> forall d :: d in lines && d.file == file && d.line == line ==> address <= d.begin
    ensures found <==> exists r :: r in ranges && r.path == files[file] && r.line == line
    ensures found ==> exists r :: r in ranges && r.path == files[file] && r.line == line && r.begin == address
    ensures found ==> forall r :: r in ranges && r.path == files[file] && r.line == line ==> address <= r.begin
  {
    LinesOfPath(lines, ranges, files, file, line);
  }
}
