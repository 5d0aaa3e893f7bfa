/** From line-program rows to address ranges: file interning, growth limits and the row fold.

The DWARF reader itself is replaced by the rows it delivers. */
module LineRows {
  import opened Options

  const MAX_RECORDS: int := 262144
  const MAX_FILES: int := 4096
  const MAX_TEXT: int := 4096

  /** One row as the library reports it. `readable` and `positioned` say whether the library could deliver the address
      and end mark, and the line and column. */
  datatype Row = Row(readable: bool, address: nat, endSequence: bool, positioned: bool, line: int, column: int,
                     path: Option<string>)

  /** One compilation unit's tables, and whether the library moved past it. */
  datatype Table = Table(advances: bool, names: seq<Option<string>>, rows: seq<Row>)

  datatype DebugLine = DebugLine(begin: nat, end: nat, maximumEnd: nat, file: nat, line: nat, column: nat)

  /** A range with the path it comes from. */
  datatype SourceRange = SourceRange(begin: nat, end: nat, path: string, line: nat, column: nat)

  // ----- Which ranges a row stream stands for -----

  /** A row that maps code to a source statement: not an end mark, and not line zero. */
  predicate IsStatement(r: Row) {
    !r.endSequence && r.line > 0
  }

  /** Row `i` opens a range that ends at the next row, unless both have the same address. */
  predicate Opens(rows: seq<Row>, i: nat)
    requires i + 1 < |rows|
  {
    IsStatement(rows[i]) && rows[i].path.Some? && rows[i].address < rows[i + 1].address
  }

  function RangeAt(rows: seq<Row>, i: nat): SourceRange
    requires i + 1 < |rows| && Opens(rows, i)
  {
    SourceRange(rows[i].address, rows[i + 1].address, rows[i].path.value, rows[i].line,
                if rows[i].column > 0 then rows[i].column else 0)
  }

  /** The ranges opened by the first `k` rows that have a successor. */
  function RangesUpTo(rows: seq<Row>, k: nat): seq<SourceRange>
    requires k == 0 || k < |rows|
  {
    if k == 0 then []
    else RangesUpTo(rows, k - 1) + (if Opens(rows, k - 1) then [RangeAt(rows, k - 1)] else [])
  }

  function RangesOf(rows: seq<Row>): seq<SourceRange> {
    if rows == [] then [] else RangesUpTo(rows, |rows| - 1)
  }

  /** What the reader demands of a row by itself. */
  predicate GoodRow(r: Row, ramSize: nat) {
    r.readable && r.address <= ramSize && (!r.endSequence ==> r.positioned) && (IsStatement(r) ==> r.path.Some?)
  }

  /** A statement must be followed by a row at the same or a later address. */
  predicate Bounded(rows: seq<Row>, i: nat)
    requires i < |rows|
  {
    IsStatement(rows[i]) ==> i + 1 < |rows| && rows[i].address <= rows[i + 1].address
  }

  predicate GoodRows(rows: seq<Row>, ramSize: nat) {
    forall i :: 0 <= i < |rows| ==> GoodRow(rows[i], ramSize) && Bounded(rows, i)
  }

  // ----- Interned file names -----

  function Interned(files: seq<string>, path: string): seq<string> {
    if path in files then files else files + [path]
  }

  function InternedAll(files: seq<string>, paths: seq<string>): seq<string>
    decreases |paths|
  {
    if paths == [] then files else Interned(InternedAll(files, paths[..|paths| - 1]), paths[|paths| - 1])
  }

  /** The names that are present. */
  function Present(names: seq<Option<string>>): seq<string> {
    if names == [] then []
    else Present(names[..|names| - 1]) + (if names[|names| - 1].Some? then [names[|names| - 1].value] else [])
  }

  /** The paths of statements, in row order. */
  function StatementPaths(rows: seq<Row>): seq<string> {
    if rows == [] then []
    else
      var r := rows[|rows| - 1];
      StatementPaths(rows[..|rows| - 1]) + (if IsStatement(r) && r.path.Some? then [r.path.value] else [])
  }

  predicate Distinct(files: seq<string>) {
    forall i, j :: 0 <= i < j < |files| ==> files[i] != files[j]
  }

  function TablePaths(t: Table): seq<string> {
    Present(t.names) + StatementPaths(t.rows)
  }

  /** The conditions under which a unit's tables are taken, given what has been collected before. */
  predicate TableAccepted(t: Table, files: seq<string>, lineCount: nat, ramSize: nat) {
    && t.advances && |t.rows| <= MAX_RECORDS && |t.names| <= MAX_FILES
    && GoodRows(t.rows, ramSize)
    && FilesFit(files, TablePaths(t))
    && lineCount + |RangesOf(t.rows)| <= MAX_RECORDS
  }

  predicate FilesFit(files: seq<string>, paths: seq<string>) {
    && |InternedAll(files, paths)| <= MAX_FILES
    && forall p :: p in paths && p !in files ==> |p| < MAX_TEXT
  }

  /** A stored line stands for a source range. */
  predicate Stands(d: DebugLine, r: SourceRange, files: seq<string>) {
    && d.begin == r.begin && d.end == r.end && d.line == r.line && d.column == r.column && d.maximumEnd == 0
    && d.file < |files| && files[d.file] == r.path
  }

  predicate StandFor(lines: seq<DebugLine>, ranges: seq<SourceRange>, files: seq<string>) {
    && |lines| == |ranges|
    && forall i :: 0 <= i < |lines| ==> Stands(lines[i], ranges[i], files)
  }

  lemma {:induction false} InternedAllGrows(files: seq<string>, paths: seq<string>)
    ensures files <= InternedAll(files, paths)
    ensures Distinct(files) ==> Distinct(InternedAll(files, paths))
    ensures forall p :: p in InternedAll(files, paths) <==> p in files || p in paths
    decreases |paths|
  {
    if paths != [] {
      InternedAllGrows(files, paths[..|paths| - 1]);
      assert paths == paths[..|paths| - 1] + [paths[|paths| - 1]];
    }
  }

  lemma {:induction false} InternedAllAppend(files: seq<string>, a: seq<string>, b: seq<string>)
    ensures InternedAll(files, a + b) == InternedAll(InternedAll(files, a), b)
    decreases |b|
  {
    if b == [] {
      assert a + b == a;
    } else {
      var n := |a + b| - 1;
      assert (a + b)[..n] == a + b[..|b| - 1] && (a + b)[n] == b[|b| - 1];
      InternedAllAppend(files, a, b[..|b| - 1]);
    }
  }

  lemma StandForMore(lines: seq<DebugLine>, ranges: seq<SourceRange>, files: seq<string>, more: seq<string>)
    requires StandFor(lines, ranges, files) && files <= more
    ensures StandFor(lines, ranges, more)
  {
  }

  // ----- The collector -----

  /** Geometric growth: a block with room for one more item after the first `count`, which keep their place. */
  method Reserve<T(0)>(items: array<T>, count: nat, available: bool) returns (ok: bool, block: array<T>)
    requires count <= items.Length <= MAX_RECORDS
    ensures ok ==> count < block.Length <= MAX_RECORDS && block[..count] == items[..count]
    ensures block == items || fresh(block)
    ensures count < items.Length ==> ok && block == items
    ensures !ok ==> block == items && (count == MAX_RECORDS || !available)
  {
    block := items;
    if count < items.Length {
      return true, items;
    }
    if count >= MAX_RECORDS {
      return false, items;
    }
    var next := if items.Length == 0 then 64 else items.Length * 2;
    if next > MAX_RECORDS {
      next := MAX_RECORDS;
    }
    var granted := *;
    if !available && !granted {
      return false, items;
    }
    block := new T[next];
    forall i | 0 <= i < count {
      block[i] := items[i];
    }
    return true, block;
  }

  /** The growing tables of `DebugInfo`: `files` and `lines` are the used parts of their blocks. */
  class Collector {
    ghost var files: seq<string>
    ghost var lines: seq<DebugLine>
    var fileBlock: array<string>
    var fileCount: nat
    var lineBlock: array<DebugLine>
    var lineCount: nat

    constructor ()
      ensures Valid() && files == [] && lines == [] && fresh(fileBlock) && fresh(lineBlock)
    {
      files, lines, fileCount, lineCount := [], [], 0, 0;
      fileBlock := new string[0];
      lineBlock := new DebugLine[0];
    }

    ghost predicate Valid()
      reads this, fileBlock, lineBlock
    {
      && fileBlock as object != lineBlock as object
      && fileCount <= fileBlock.Length <= MAX_RECORDS && fileBlock[..fileCount] == files
      && lineCount <= lineBlock.Length <= MAX_RECORDS && lineBlock[..lineCount] == lines
      && Distinct(files) && fileCount <= MAX_FILES
    }

    /** Blocks are only ever replaced by new ones. */
    twostate predicate Grown()
      reads this
    {
      (fileBlock == old(fileBlock) || fresh(fileBlock)) && (lineBlock == old(lineBlock) || fresh(lineBlock))
    }

    /** `file_index`: the position of a path, adding it when it is new, short enough and there is room. */
    method FileIndex(path: Option<string>, available: bool) returns (ok: bool, index: nat)
      requires Valid()
      modifies this`files, this`fileBlock, this`fileCount, fileBlock
      ensures Valid() && Grown()
      ensures ok ==>
                && path.Some? && files == Interned(old(files), path.value)
                && index < |files| && files[index] == path.value
      ensures ok ==> FilesFit(old(files), [path.value])
      ensures !ok ==> files == old(files)
      ensures !ok && available ==> path.None? || !FilesFit(old(files), [path.value])
    {
      index := 0;
      if path.None? {
        return false, 0;
      }
      InternedOne(files, path.value);
      ok, index := FindFile(path.value);
      if ok {
        return;
      }
      if fileCount >= MAX_FILES {
        return false, 0;
      }
      if |path.value| >= MAX_TEXT {
        return false, 0;
      }
      index := fileCount;
      ok := AddFile(path.value, available);
    }

    /** Where a path already is. */
    method FindFile(path: string) returns (found: bool, index: nat)
      requires Valid()
      ensures found == (path in files)
      ensures found ==> index < |files| && files[index] == path
    {
      for i := 0 to fileCount
        invariant path !in files[..i]
      {
        assert files[i] == fileBlock[i];
        if fileBlock[i] == path {
          return true, i;
        }
      }
      assert files[..|files|] == files;
      return false, 0;
    }

    /** Append a new path. */
    method AddFile(path: string, available: bool) returns (ok: bool)
      requires Valid() && path !in files && |files| < MAX_FILES
      modifies this`files, this`fileBlock, this`fileCount, fileBlock
      ensures Valid() && Grown()
      ensures files == if ok then old(files) + [path] else old(files)
      ensures available ==> ok
    {
      var reserved, block := Reserve(fileBlock, fileCount, available);
      if !reserved {
        return false;
      }
      fileBlock := block;
      fileBlock[fileCount] := path;
      fileCount := fileCount + 1;
      files := files + [path];
      return true;
    }

    /** Record a finished range. */
    method AddLine(d: DebugLine, available: bool) returns (ok: bool)
      requires Valid()
      modifies this`lines, this`lineBlock, this`lineCount, lineBlock
      ensures Valid() && Grown()
      ensures ok ==> |old(lines)| < MAX_RECORDS && lines == old(lines) + [d]
      ensures !ok ==> lines == old(lines)
      ensures !ok && available ==> |old(lines)| == MAX_RECORDS
    {
      var reserved, block := Reserve(lineBlock, lineCount, available);
      if !reserved {
        return false;
      }
      lineBlock := block;
      lineBlock[lineCount] := d;
      lineCount := lineCount + 1;
      lines := lines + [d];
      return true;
    }

    /** What has been collected after `i` rows, on top of `files0` and `lines0`. */
    ghost predicate Collected(rows: seq<Row>, i: nat, files0: seq<string>, lines0: seq<DebugLine>, ramSize: nat)
      requires i <= |rows|
      reads this
    {
      && (forall j :: 0 <= j < i ==> GoodRow(rows[j], ramSize))
      && (forall j :: 0 <= j < i - 1 ==> Bounded(rows, j))
      && files == InternedAll(files0, StatementPaths(rows[..i])) && FilesFit(files0, StatementPaths(rows[..i]))
      && lines0 <= lines && StandFor(lines[|lines0|..], RangesUpTo(rows, if i == 0 then 0 else i - 1), files)
    }

    /** The open range after row `i - 1`, if that row is a statement. */
    ghost predicate Open(rows: seq<Row>, i: nat, pending: bool, previous: DebugLine)
      requires i <= |rows|
      reads this
    {
      && (pending <==> i > 0 && IsStatement(rows[i - 1]))
      && (pending ==>
            && rows[i - 1].path.Some? && previous.begin == rows[i - 1].address && previous.line == rows[i - 1].line
            && previous.column == (if rows[i - 1].column > 0 then rows[i - 1].column else 0)
            && previous.maximumEnd == 0 && previous.file < |files| && files[previous.file] == rows[i - 1].path.value)
    }

    /** Close the open range at the next row's address. */
    method CloseRange(rows: seq<Row>, ghost files0: seq<string>, ghost lines0: seq<DebugLine>, ghost ramSize: nat,
                      i: nat, pending: bool, previous: DebugLine, available: bool) returns (ok: bool)
      requires Valid() && i < |rows|
      requires Collected(rows, i, files0, lines0, ramSize) && Open(rows, i, pending, previous)
      modifies this`lines, this`lineBlock, this`lineCount, lineBlock
      ensures Valid() && Grown()
      ensures ok ==>
                (i > 0 ==> Bounded(rows, i - 1)) && lines0 <= lines
                && StandFor(lines[|lines0|..], RangesUpTo(rows, i), files)
      ensures !ok && available ==> !(i > 0 ==> Bounded(rows, i - 1)) || |lines0| + |RangesUpTo(rows, i)| > MAX_RECORDS
    {
      hide InternedAll, StatementPaths, FilesFit, Distinct;
      ghost var before := lines[|lines0|..];
      if pending {
        if rows[i].address < previous.begin {
          return false;
        }
        if rows[i].address > previous.begin {
          var finished := previous.(end := rows[i].address);
          ok := AddLine(finished, available);
          if !ok {
            return;
          }
          assert Stands(finished, RangeAt(rows, i - 1), files);
          assert lines[|lines0|..] == before + [finished];
          return;
        }
      }
      return true;
    }

    /** Open a range at row `i` when it is a statement. */
    method OpenRange(row: Row, available: bool) returns (ok: bool, pending: bool, next: DebugLine)
      requires Valid() && row.readable
      modifies this`files, this`fileBlock, this`fileCount, fileBlock
      ensures Valid() && Grown() && pending == (ok && IsStatement(row))
      ensures ok ==> (!row.endSequence ==> row.positioned) && (IsStatement(row) ==> row.path.Some?)
      ensures ok ==> files == if IsStatement(row) then Interned(old(files), row.path.value) else old(files)
      ensures ok && IsStatement(row) ==>
                && FilesFit(old(files), [row.path.value])
                && next.begin == row.address && next.line == row.line
                && next.column == (if row.column > 0 then row.column else 0)
                && next.maximumEnd == 0 && next.file < |files| && files[next.file] == row.path.value
      ensures !ok && available ==>
                (!row.endSequence && !row.positioned)
                || (IsStatement(row) && (row.path.None? || !FilesFit(old(files), [row.path.value])))
    {
      pending, next := false, DebugLine(0, 0, 0, 0, 0, 0);
      if !row.endSequence {
        if !row.positioned {
          return false, false, next;
        }
        if row.line > 0 {
          var file;
          ok, file := FileIndex(row.path, available);
          if !ok {
            return;
          }
          next := DebugLine(row.address, 0, 0, file, row.line, if row.column > 0 then row.column else 0);
          pending := true;
        }
      }
      return true, pending, next;
    }

    /** The conditions on one unit's rows. */
    static predicate RowsAccepted(rows: seq<Row>, ramSize: nat, files: seq<string>, lineCount: nat) {
      && GoodRows(rows, ramSize) && FilesFit(files, StatementPaths(rows)) && lineCount + |RangesOf(rows)| <= MAX_RECORDS
    }

    /** One turn of the row loop. */
    method ReadRow(rows: seq<Row>, ghost files0: seq<string>, ghost lines0: seq<DebugLine>, ramSize: nat, i: nat,
                   pending: bool, previous: DebugLine, available: bool)
      returns (ok: bool, pending': bool, next: DebugLine)
      requires Valid() && i < |rows|
      requires Collected(rows, i, files0, lines0, ramSize) && Open(rows, i, pending, previous)
      modifies this, fileBlock, lineBlock
      ensures Valid() && Grown()
      ensures ok ==> Collected(rows, i + 1, files0, lines0, ramSize) && Open(rows, i + 1, pending', next)
      ensures !ok && available ==> !RowsAccepted(rows, ramSize, files0, |lines0|)
    {
      hide InternedAll, StatementPaths, FilesFit, Distinct, RangesUpTo, Stands;
      var row := rows[i];
      pending', next := pending, previous;
      if !row.readable || row.address > ramSize {
        return false, pending, previous;
      }
      ok := CloseRange(rows, files0, lines0, ramSize, i, pending, previous, available);
      if !ok {
        RangesGrow(rows, i);
        return;
      }
      ghost var known := files;
      ok, pending', next := OpenRange(row, available);
      if !ok {
        if available && row.path.Some? && IsStatement(row) && row.positioned {
          PrefixDoesNotFit(files0, rows, i);
        }
        return;
      }
      CollectedStep(rows, i, files0, known);
      StandForMore(lines[|lines0|..], RangesUpTo(rows, i), known, files);
    }

    /** The row fold of `read_lines` over one unit. */
    method ReadRows(rows: seq<Row>, ramSize: nat, available: bool) returns (ok: bool)
      requires Valid()
      modifies this, fileBlock, lineBlock
      ensures Valid() && Grown()
      ensures ok ==> RowsAccepted(rows, ramSize, old(files), |old(lines)|)
      ensures ok ==> files == InternedAll(old(files), StatementPaths(rows))
      ensures ok ==> old(lines) <= lines && StandFor(lines[|old(lines)|..], RangesOf(rows), files)
      ensures !ok && available ==> !RowsAccepted(rows, ramSize, old(files), |old(lines)|)
    {
      hide InternedAll, StatementPaths, FilesFit, Distinct, RangesUpTo, Stands;
      ghost var files0, lines0 := files, lines;
      var pending, previous := false, DebugLine(0, 0, 0, 0, 0, 0);
      StartCollecting(rows, ramSize);
      var i := 0;
      while i < |rows|
        invariant i <= |rows| && Valid() && Grown()
        invariant Collected(rows, i, files0, lines0, ramSize) && Open(rows, i, pending, previous)
      {
        ok, pending, previous := ReadRow(rows, files0, lines0, ramSize, i, pending, previous, available);
        if !ok {
          return;
        }
        i := i + 1;
      }
      assert rows[..|rows|] == rows;
      if pending {
        return false;
      }
      EndCollecting(rows);
      return true;
    }

    /** Collect the unit's file table. */
    method ReadNames(names: seq<Option<string>>, available: bool) returns (ok: bool)
      requires Valid()
      modifies this`files, this`fileBlock, this`fileCount, fileBlock
      ensures Valid() && Grown()
      ensures ok ==> FilesFit(old(files), Present(names)) && files == InternedAll(old(files), Present(names))
      ensures !ok && available ==> !FilesFit(old(files), Present(names))
    {
      hide InternedAll, FilesFit, Distinct, Present;
      ghost var files0 := files;
      NothingInterned(files0);
      assert names[..0] == [];
      for i := 0 to |names|
        invariant Valid() && Grown()
        invariant FilesFit(files0, Present(names[..i])) && files == InternedAll(files0, Present(names[..i]))
      {
        PresentStep(names, i);
        if names[i].Some? {
          ghost var known, path := files, names[i].value;
          var index;
          ok, index := FileIndex(names[i], available);
          if !ok {
            if available {
              NamesDoNotFit(files0, names, i);
            }
            return;
          }
          FilesFitAppend(files0, Present(names[..i]), [path]);
          InternedOne(known, path);
          InternedAllAppend(files0, Present(names[..i]), [path]);
        } else {
          assert Present(names[..i]) + [] == Present(names[..i]);
        }
      }
      assert names[..|names|] == names;
      return true;
    }

    /** One unit: bounds, file table, then rows. */
    method ReadTable(t: Table, ramSize: nat, available: bool) returns (ok: bool)
      requires Valid()
      modifies this, fileBlock, lineBlock
      ensures Valid() && Grown()
      ensures ok ==> TableAccepted(t, old(files), |old(lines)|, ramSize)
      ensures ok ==> files == InternedAll(old(files), TablePaths(t))
      ensures ok ==> old(lines) <= lines && StandFor(lines[|old(lines)|..], RangesOf(t.rows), files)
      ensures !ok && available ==> !TableAccepted(t, old(files), |old(lines)|, ramSize)
    {
      hide InternedAll, FilesFit, Distinct, Present, StatementPaths, GoodRows, RangesOf, StandFor;
      ghost var files0 := files;
      FilesFitAppend(files0, Present(t.names), StatementPaths(t.rows));
      InternedAllAppend(files0, Present(t.names), StatementPaths(t.rows));
      if !t.advances || |t.rows| > MAX_RECORDS || |t.names| > MAX_FILES {
        return false;
      }
      ok := ReadNames(t.names, available);
      if !ok {
        return;
      }
      ok := ReadRows(t.rows, ramSize, available);
    }

    /** `read_lines`: every unit the library delivers, until it reports the end (`finished`) or an error. */
    method ReadTables(tables: seq<Table>, finished: bool, ramSize: nat, available: bool) returns (ok: bool)
      requires Valid()
      modifies this, fileBlock, lineBlock
      ensures Valid() && Grown()
      ensures ok ==> finished && TablesAccepted(tables, old(files), |old(lines)|, ramSize)
      ensures ok ==> files == InternedAll(old(files), PathsOfTables(tables))
      ensures ok ==> old(lines) <= lines && StandFor(lines[|old(lines)|..], RangesOfTables(tables), files)
      ensures !ok && available ==> !(finished && TablesAccepted(tables, old(files), |old(lines)|, ramSize))
    {
      hide TableAccepted, InternedAll, Distinct, RangesOf, Stands, TablePaths;
      ghost var files0, lines0 := files, lines;
      ghost var done: seq<SourceRange> := [];
      for i := 0 to |tables|
        invariant Valid() && Grown() && lines0 <= lines
        invariant StandFor(lines[|lines0|..], done, files)
        invariant InternedAll(files0, PathsOfTables(tables)) == InternedAll(files, PathsOfTables(tables[i..]))
        invariant RangesOfTables(tables) == done + RangesOfTables(tables[i..])
        invariant TablesAccepted(tables, files0, |lines0|, ramSize)
               == TablesAccepted(tables[i..], files, |lines|, ramSize)
      {
        var t := tables[i];
        ghost var known, before := files, lines;
        assert tables[i..][1..] == tables[i + 1..];
        ok := ReadTable(t, ramSize, available);
        if !ok {
          return;
        }
        InternedAllGrows(known, TablePaths(t));
        InternedAllAppend(known, TablePaths(t), PathsOfTables(tables[i + 1..]));
        StandForMore(before[|lines0|..], done, known, files);
        assert lines[|lines0|..] == before[|lines0|..] + lines[|before|..];
        assert done + RangesOfTables(tables[i..]) == (done + RangesOf(t.rows)) + RangesOfTables(tables[i + 1..]);
        done := done + RangesOf(t.rows);
      }
      assert done + [] == done;
      NothingInterned(files);
      return finished;
    }
  }

  /** Every unit is taken, each on top of the ones before it. */
  predicate TablesAccepted(tables: seq<Table>, files: seq<string>, lineCount: nat, ramSize: nat)
    decreases |tables|
  {
    tables == [] ||
    (&& TableAccepted(tables[0], files, lineCount, ramSize)
     && TablesAccepted(tables[1..], InternedAll(files, TablePaths(tables[0])), lineCount + |RangesOf(tables[0].rows)|,
                       ramSize))
  }

  function RangesOfTables(tables: seq<Table>): seq<SourceRange>
    decreases |tables|
  {
    if tables == [] then [] else RangesOf(tables[0].rows) + RangesOfTables(tables[1..])
  }

  /** All paths of all units, in the order they are met. */
  function PathsOfTables(tables: seq<Table>): seq<string>
    decreases |tables|
  {
    if tables == [] then [] else TablePaths(tables[0]) + PathsOfTables(tables[1..])
  }

  lemma InternedOne(files: seq<string>, path: string)
    ensures InternedAll(files, [path]) == Interned(files, path)
    ensures FilesFit(files, [path]) <==> |Interned(files, path)| <= MAX_FILES && (path in files || |path| < MAX_TEXT)
  {
    assert [path][..0] == [] && InternedAll(files, []) == files;
    assert path in [path];
  }

  lemma {:induction false} FilesFitAppend(files: seq<string>, a: seq<string>, b: seq<string>)
    ensures FilesFit(files, a + b) <==> FilesFit(files, a) && FilesFit(InternedAll(files, a), b)
  {
    InternedAllAppend(files, a, b);
    InternedAllGrows(files, a);
    InternedAllGrows(InternedAll(files, a), b);
    assert forall p :: p in a + b <==> p in a || p in b;
  }

  /** One more row: at most one more path. */
  lemma StatementPathsStep(rows: seq<Row>, i: nat)
    requires i < |rows|
    ensures StatementPaths(rows[..i + 1])
         == StatementPaths(rows[..i])
           + (if IsStatement(rows[i]) && rows[i].path.Some? then [rows[i].path.value] else [])
  {
    assert rows[..i + 1][..i] == rows[..i];
  }

  lemma {:induction false} StatementPathsPrefix(rows: seq<Row>, i: nat)
    requires i <= |rows|
    ensures StatementPaths(rows[..i]) <= StatementPaths(rows)
    decreases |rows| - i
  {
    if i == |rows| {
      assert rows[..i] == rows;
    } else {
      StatementPathsStep(rows, i);
      StatementPathsPrefix(rows, i + 1);
    }
  }

  lemma {:induction false} RangesGrow(rows: seq<Row>, k: nat)
    requires k < |rows|
    ensures |RangesUpTo(rows, k)| <= |RangesOf(rows)|
    decreases |rows| - k
  {
    if k + 1 < |rows| {
      RangesGrow(rows, k + 1);
    }
  }

  /** Paths that do not fit after a prefix of the rows do not fit at all. */
  lemma PrefixDoesNotFit(files: seq<string>, rows: seq<Row>, i: nat)
    requires i < |rows| && IsStatement(rows[i]) && rows[i].path.Some?
    requires FilesFit(files, StatementPaths(rows[..i]))
    requires !FilesFit(InternedAll(files, StatementPaths(rows[..i])), [rows[i].path.value])
    ensures !FilesFit(files, StatementPaths(rows))
  {
    hide InternedAll, FilesFit, StatementPaths;
    var a, p := StatementPaths(rows[..i]), rows[i].path.value;
    FilesFitAppend(files, a, [p]);
    StatementPathsStep(rows, i);
    StatementPathsPrefix(rows, i + 1);
    var rest := StatementPaths(rows)[|a + [p]|..];
    assert StatementPaths(rows) == (a + [p]) + rest;
    FilesFitAppend(files, a + [p], rest);
  }

  lemma StartCollecting(rows: seq<Row>, ramSize: nat)
    ensures StatementPaths(rows[..0]) == [] && RangesUpTo(rows, 0) == []
    ensures forall files: seq<string> ::
              InternedAll(files, []) == files && (|files| <= MAX_FILES ==> FilesFit(files, []))
  {
  }

  lemma EndCollecting(rows: seq<Row>)
    ensures rows == [] ==> RangesOf(rows) == RangesUpTo(rows, 0)
    ensures rows != [] ==> RangesOf(rows) == RangesUpTo(rows, |rows| - 1)
  {
  }

  lemma NothingInterned(files: seq<string>)
    ensures InternedAll(files, []) == files && Present([]) == []
    ensures |files| <= MAX_FILES ==> FilesFit(files, [])
  {
  }

  lemma CollectedStep(rows: seq<Row>, i: nat, files0: seq<string>, known: seq<string>)
    requires i < |rows| && known == InternedAll(files0, StatementPaths(rows[..i]))
             && FilesFit(files0, StatementPaths(rows[..i]))
    requires IsStatement(rows[i]) ==> rows[i].path.Some? && FilesFit(known, [rows[i].path.value])
    ensures var now := if IsStatement(rows[i]) then Interned(known, rows[i].path.value) else known;
            now == InternedAll(files0, StatementPaths(rows[..i + 1]))
            && FilesFit(files0, StatementPaths(rows[..i + 1])) && known <= now
  {
    hide InternedAll, StatementPaths, FilesFit;
    var a := StatementPaths(rows[..i]);
    StatementPathsStep(rows, i);
    if IsStatement(rows[i]) {
      var p := rows[i].path.value;
      InternedOne(known, p);
      InternedAllAppend(files0, a, [p]);
      FilesFitAppend(files0, a, [p]);
    } else {
      assert a + [] == a;
    }
  }

  lemma NamesDoNotFit(files: seq<string>, names: seq<Option<string>>, i: nat)
    requires i < |names| && names[i].Some? && FilesFit(files, Present(names[..i]))
    requires !FilesFit(InternedAll(files, Present(names[..i])), [names[i].value])
    ensures !FilesFit(files, Present(names))
  {
    hide InternedAll, FilesFit, Present;
    var known, some := Present(names[..i]), Present(names[..i + 1]);
    PresentStep(names, i);
    PresentPrefix(names, i + 1);
    assert Present(names) == some + Present(names)[|some|..];
    FilesFitAppend(files, known, [names[i].value]);
    FilesFitAppend(files, some, Present(names)[|some|..]);
  }

  lemma PresentStep(names: seq<Option<string>>, i: nat)
    requires i < |names|
    ensures Present(names[..i + 1]) == Present(names[..i]) + (if names[i].Some? then [names[i].value] else [])
  {
    assert names[..i + 1][..i] == names[..i];
  }

  lemma {:induction false} PresentPrefix(names: seq<Option<string>>, i: nat)
    requires i <= |names|
    ensures Present(names[..i]) <= Present(names)
    decreases |names| - i
  {
    if i == |names| {
      assert names[..i] == names;
    } else {
      PresentStep(names, i);
      PresentPrefix(names, i + 1);
    }
  }

  // ----- What the ranges are -----

  /** Every range comes from an opening row, and every opening row gives one. */
  lemma {:induction false} OpenRangesExact(rows: seq<Row>, k: nat)
    requires k == 0 || k < |rows|
    ensures forall r :: r in RangesUpTo(rows, k) <==> exists i :: 0 <= i < k && Opens(rows, i) && r == RangeAt(rows, i)
    decreases k
  {
    if k > 0 {
      OpenRangesExact(rows, k - 1);
      var rest := RangesUpTo(rows, k - 1);
      forall r ensures r in RangesUpTo(rows, k) <==> exists i :: 0 <= i < k && Opens(rows, i) && r == RangeAt(rows, i) {
        if r in RangesUpTo(rows, k) && r !in rest {
          assert Opens(rows, k - 1) && r == RangeAt(rows, k - 1);
        }
        if i :| 0 <= i < k && Opens(rows, i) && r == RangeAt(rows, i) {
          if i < k - 1 {
            assert r in rest;
          }
        }
      }
    }
  }

  /** What makes `r` the range of row `i`, field by field: the row is no end mark, has a line and a path, and its
      successor is at a strictly later address, where the range ends. A column that is not positive counts as none. */
  predicate RowGives(rows: seq<Row>, i: nat, r: SourceRange) {
    && i + 1 < |rows| && !rows[i].endSequence && rows[i].line > 0 && rows[i].path == Some(r.path)
    && r.begin == rows[i].address && r.end == rows[i + 1].address && r.begin < r.end
    && r.line == rows[i].line && r.column == (if rows[i].column > 0 then rows[i].column else 0)
  }

  /** The ranges of a unit are exactly those its rows give. */
  lemma RangesExact(rows: seq<Row>)
    ensures forall r :: r in RangesOf(rows) <==> exists i: nat :: RowGives(rows, i, r)
  {
    hide RangesUpTo, RowGives, Opens, RangeAt;
    if rows != [] {
      OpenRangesExact(rows, |rows| - 1);
    }
    forall r ensures r in RangesOf(rows) <==> exists i: nat :: RowGives(rows, i, r) {
      if r in RangesOf(rows) {
        NoRows();
        var i :| 0 <= i < |rows| - 1 && Opens(rows, i) && r == RangeAt(rows, i);
        OpeningGives(rows, i, r);
      }
      if i: nat :| RowGives(rows, i, r) {
        OpeningGives(rows, i, r);
      }
    }
  }

  lemma OpeningGives(rows: seq<Row>, i: nat, r: SourceRange)
    ensures RowGives(rows, i, r) <==> i + 1 < |rows| && Opens(rows, i) && r == RangeAt(rows, i)
  {
  }

  /** Some row of some unit gives this range. */
  ghost predicate FromRows(tables: seq<Table>, r: SourceRange) {
    exists t, i: nat :: t in tables && RowGives(t.rows, i, r)
  }

  /** And the ranges of all units are exactly those some row gives. */
  lemma {:induction false} TableRangesExact(tables: seq<Table>)
    ensures forall r :: r in RangesOfTables(tables) <==> FromRows(tables, r)
    decreases |tables|
  {
    hide RangesOf, RowGives;
    if tables != [] {
      RangesExact(tables[0].rows);
      TableRangesExact(tables[1..]);
      forall r ensures r in RangesOfTables(tables) <==> FromRows(tables, r) {
        FromFirstOrRest(tables, r);
      }
    }
  }

  lemma FromFirstOrRest(tables: seq<Table>, r: SourceRange)
    requires tables != []
    ensures FromRows(tables, r) <==> (exists i: nat :: RowGives(tables[0].rows, i, r)) || FromRows(tables[1..], r)
  {
    hide RowGives;
    assert forall t :: t in tables <==> t == tables[0] || t in tables[1..];
  }

  /** A path is met exactly when a unit's file table or one of its statement rows has it. */
  lemma {:induction false} PathsExact(tables: seq<Table>, path: string)
    ensures path in PathsOfTables(tables)
       <==> exists t :: t in tables && (Some(path) in t.names || StatesPath(t.rows, path))
    decreases |tables|
  {
    hide StatementPaths, Present, StatesPath;
    if tables != [] {
      var first, rest := tables[0], tables[1..];
      PresentExact(first.names, path);
      StatementPathsExact(first.rows, path);
      PathsExact(rest, path);
      assert forall t :: t in tables <==> t == first || t in rest;
    }
  }

  /** A row that is no end mark and has a line names the path. */
  ghost predicate StatesPath(rows: seq<Row>, path: string) {
    exists r :: r in rows && !r.endSequence && r.line > 0 && r.path == Some(path)
  }

  lemma {:induction false} PresentExact(names: seq<Option<string>>, path: string)
    ensures path in Present(names) <==> Some(path) in names
  {
    if names != [] {
      PresentExact(names[..|names| - 1], path);
      assert names == names[..|names| - 1] + [names[|names| - 1]];
    }
  }

  lemma {:induction false} StatementPathsExact(rows: seq<Row>, path: string)
    ensures path in StatementPaths(rows) <==> StatesPath(rows, path)
  {
    if rows != [] {
      var front, last := rows[..|rows| - 1], rows[|rows| - 1];
      StatementPathsExact(front, path);
      assert forall r :: r in rows <==> r in front || r == last;
    }
  }

  /** Ranges of an accepted unit are non-empty and inside RAM. */
  lemma RangesInside(rows: seq<Row>, ramSize: nat)
    requires GoodRows(rows, ramSize)
    ensures forall r :: r in RangesOf(rows) ==> r.begin < r.end <= ramSize
  {
    if rows != [] {
      OpenRangesExact(rows, |rows| - 1);
    }
  }

  /** Every range of every accepted unit is non-empty and inside RAM. */
  lemma {:induction false} TableRangesInside(tables: seq<Table>, files: seq<string>, lineCount: nat, ramSize: nat)
    requires TablesAccepted(tables, files, lineCount, ramSize)
    ensures forall r :: r in RangesOfTables(tables) ==> r.begin < r.end <= ramSize
    decreases |tables|
  {
    hide RangesOf, InternedAll, FilesFit, GoodRows, TablePaths;
    if tables != [] {
      var t := tables[0];
      RangesInside(t.rows, ramSize);
      TableRangesInside(tables[1..], InternedAll(files, TablePaths(t)), lineCount + |RangesOf(t.rows)|, ramSize);
    }
  }

  predicate Nondecreasing(rows: seq<Row>) {
    forall i, j :: 0 <= i < j < |rows| ==> rows[i].address <= rows[j].address
  }

  /** One after the other without overlap. */
  predicate Ascending(ranges: seq<SourceRange>) {
    forall p, q :: 0 <= p < q < |ranges| ==> ranges[p].end <= ranges[q].begin
  }

  /** Rows of one sequence have non-decreasing addresses, and then its ranges are ascending and disjoint. */
  lemma {:induction false} SequenceAscends(rows: seq<Row>, k: nat)
    requires Nondecreasing(rows) && (k == 0 || k < |rows|)
    ensures Ascending(RangesUpTo(rows, k))
    ensures forall r :: r in RangesUpTo(rows, k) ==> r.end <= rows[k].address
    decreases k
  {
    hide RangeAt, Opens;
    if k > 0 {
      SequenceAscends(rows, k - 1);
      if Opens(rows, k - 1) {
        assert RangeAt(rows, k - 1).begin == rows[k - 1].address && RangeAt(rows, k - 1).end == rows[k].address by {
          EndsOfRange(rows, k - 1);
        }
        AscendingMore(RangesUpTo(rows, k - 1), RangeAt(rows, k - 1));
      }
    }
  }

  lemma EndsOfRange(rows: seq<Row>, i: nat)
    requires i + 1 < |rows| && Opens(rows, i)
    ensures RangeAt(rows, i).begin == rows[i].address && RangeAt(rows, i).end == rows[i + 1].address
  {
  }

  lemma AscendingMore(ranges: seq<SourceRange>, r: SourceRange)
    requires Ascending(ranges) && forall q :: q in ranges ==> q.end <= r.begin
    ensures Ascending(ranges + [r])
  {
  }

  lemma SequenceRangesAscend(rows: seq<Row>)
    requires Nondecreasing(rows)
    ensures Ascending(RangesOf(rows))
  {
    if rows != [] {
      SequenceAscends(rows, |rows| - 1);
    }
  }

  /** The address at which the last of the ranges opened before row `k` closes, or zero. */
  function LastClose(rows: seq<Row>, k: nat): nat
    requires k == 0 || k < |rows|
  {
    if k == 0 then 0 else if Opens(rows, k - 1) then rows[k].address else LastClose(rows, k - 1)
  }

  /** One pass over the rows: no row before `k` opens a range before the last one is closed. */
  predicate Clear(rows: seq<Row>, k: nat)
    requires k == 0 || k < |rows|
  {
    forall j :: 0 <= j < k && Opens(rows, j) ==> LastClose(rows, j) <= rows[j].address
  }

  /** For any rows at all, comparing each opening row with the last close decides whether all ranges ascend. */
  lemma AscendingExactly(rows: seq<Row>)
    ensures Ascending(RangesOf(rows)) <==> rows == [] || Clear(rows, |rows| - 1)
  {
    hide Clear, Ascending, RangesUpTo;
    if rows == [] {
      NothingAscends(rows);
    } else {
      AscendingUpTo(rows, |rows| - 1);
    }
  }

  lemma {:induction false} AscendingUpTo(rows: seq<Row>, k: nat)
    requires k == 0 || k < |rows|
    ensures Ascending(RangesUpTo(rows, k)) <==> Clear(rows, k)
    decreases k
  {
    hide Opens, RangeAt, Ascending, Clear, LastClose;
    if k == 0 {
      NothingAscends(rows);
    } else {
      AscendingUpTo(rows, k - 1);
      ClearStep(rows, k - 1);
      if Opens(rows, k - 1) {
        RangesNotEmpty(rows, k - 1);
        LastCloseIsLast(rows, k - 1);
        AscendingWithLast(RangesUpTo(rows, k - 1), RangeAt(rows, k - 1));
        EndsOfRange(rows, k - 1);
      } else {
        assert RangesUpTo(rows, k) == RangesUpTo(rows, k - 1);
      }
    }
  }

  lemma ClearStep(rows: seq<Row>, k: nat)
    requires k + 1 < |rows|
    ensures Clear(rows, k + 1) <==> Clear(rows, k) && (Opens(rows, k) ==> LastClose(rows, k) <= rows[k].address)
  {
    hide Opens, LastClose;
  }

  lemma NothingAscends(rows: seq<Row>)
    ensures Ascending([]) && Clear(rows, 0)
  {
  }

  lemma {:induction false} LastCloseIsLast(rows: seq<Row>, k: nat)
    requires k == 0 || k < |rows|
    ensures var ranges := RangesUpTo(rows, k);
            LastClose(rows, k) == if ranges == [] then 0 else ranges[|ranges| - 1].end
    decreases k
  {
    if k > 0 {
      LastCloseIsLast(rows, k - 1);
    }
  }

  lemma RangesNotEmpty(rows: seq<Row>, k: nat)
    requires k == 0 || k < |rows|
    ensures forall r :: r in RangesUpTo(rows, k) ==> r.begin < r.end
  {
    hide RangesUpTo;
    OpenRangesExact(rows, k);
  }

  /** Ascending ranges that are not empty end in order, so only the last one matters to the next. */
  lemma AscendingWithLast(ranges: seq<SourceRange>, r: SourceRange)
    requires forall q :: q in ranges ==> q.begin < q.end
    ensures Ascending(ranges + [r])
       <==> Ascending(ranges) && (ranges == [] || ranges[|ranges| - 1].end <= r.begin)
  {
    var all, n := ranges + [r], |ranges|;
    assert all[n] == r && forall i :: 0 <= i < n ==> all[i] == ranges[i];
    if Ascending(ranges) && n > 0 && ranges[n - 1].end <= r.begin {
      forall p | 0 <= p < n ensures all[p].end <= r.begin {
        assert ranges[p] in ranges && ranges[n - 1] in ranges;
      }
    }
    if Ascending(all) {
      forall p, q | 0 <= p < q < n ensures ranges[p].end <= ranges[q].begin {
        assert all[p].end <= all[q].begin;
      }
    }
  }

  /** No range crosses an end-of-sequence row: the ranges of a unit are those of its sequences, one after the other. */
  lemma {:induction false} SequencesSplit(a: seq<Row>, b: seq<Row>, k: nat)
    requires IsSequence(a) && k < |b|
    ensures RangesUpTo(a + b, |a| + k) == RangesOf(a) + RangesUpTo(b, k)
    decreases k
  {
    if k == 0 {
      SameRows(a, a + b, |a| - 1);
    } else {
      SequencesSplit(a, b, k - 1);
      LaterRow(a, b, k);
    }
  }

  lemma LaterRow(a: seq<Row>, b: seq<Row>, k: nat)
    requires 0 < k < |b|
    ensures RangesUpTo(a + b, |a| + k)
         == RangesUpTo(a + b, |a| + k - 1) + (if Opens(b, k - 1) then [RangeAt(b, k - 1)] else [])
  {
    var c := a + b;
    assert c[|a| + k - 1] == b[k - 1] && c[|a| + k] == b[k];
  }

  lemma {:induction false} SameRows(a: seq<Row>, c: seq<Row>, k: nat)
    requires a <= c && k < |a|
    ensures RangesUpTo(a, k) == RangesUpTo(c, k)
  {
    if k > 0 {
      SameRows(a, c, k - 1);
    }
  }

  /** A run of rows closed by an end-of-sequence row. */
  predicate IsSequence(rows: seq<Row>) {
    rows != [] && rows[|rows| - 1].endSequence
  }

  /** The rows of a unit made of sequences. */
  function Joined(sequences: seq<seq<Row>>): seq<Row> {
    if sequences == [] then [] else sequences[0] + Joined(sequences[1..])
  }

  function JoinedRanges(sequences: seq<seq<Row>>): seq<SourceRange> {
    if sequences == [] then [] else RangesOf(sequences[0]) + JoinedRanges(sequences[1..])
  }

  /** The ranges of a whole unit are those of its sequences, one after the other, and each sequence of non-decreasing
      addresses contributes ascending, disjoint ones. */
  lemma {:induction false} UnitOfSequences(sequences: seq<seq<Row>>)
    requires forall s :: s in sequences ==> IsSequence(s)
    ensures RangesOf(Joined(sequences)) == JoinedRanges(sequences)
    ensures forall s :: s in sequences && Nondecreasing(s) ==> Ascending(RangesOf(s))
    decreases |sequences|
  {
    hide RangesOf, Nondecreasing, Ascending;
    forall s | s in sequences && Nondecreasing(s) ensures Ascending(RangesOf(s)) {
      SequenceRangesAscend(s);
    }
    if sequences == [] {
      NoRows();
    } else {
      assert sequences[0] in sequences && forall s :: s in sequences[1..] ==> s in sequences;
      UnitOfSequences(sequences[1..]);
      SequencesConcatenate(sequences[0], Joined(sequences[1..]));
    }
  }

  /** What the library delivers in full for a row inside RAM. */
  predicate Complete(r: Row, ramSize: nat) {
    r.readable && r.address <= ramSize && r.positioned && r.path.Some?
  }

  /** A unit of complete rows in sequences of non-decreasing addresses is never refused for its rows. */
  lemma {:induction false} OrderedUnitIsGood(sequences: seq<seq<Row>>, ramSize: nat)
    requires forall s :: s in sequences ==>
               IsSequence(s) && Nondecreasing(s) && forall r :: r in s ==> Complete(r, ramSize)
    ensures GoodRows(Joined(sequences), ramSize)
    decreases |sequences|
  {
    hide Nondecreasing, Complete, GoodRow;
    if sequences != [] {
      var first, rest := sequences[0], Joined(sequences[1..]);
      assert first in sequences && forall s :: s in sequences[1..] ==> s in sequences;
      OrderedUnitIsGood(sequences[1..], ramSize);
      OrderedSequenceIsGood(first, ramSize);
      GoodTogether(first, rest, ramSize);
    }
  }

  lemma OrderedSequenceIsGood(rows: seq<Row>, ramSize: nat)
    requires IsSequence(rows) && Nondecreasing(rows) && forall r :: r in rows ==> Complete(r, ramSize)
    ensures GoodRows(rows, ramSize)
  {
    forall i | 0 <= i < |rows| ensures GoodRow(rows[i], ramSize) && Bounded(rows, i) {
      assert rows[i] in rows;
    }
  }

  lemma GoodTogether(a: seq<Row>, b: seq<Row>, ramSize: nat)
    requires IsSequence(a) && GoodRows(a, ramSize) && GoodRows(b, ramSize)
    ensures GoodRows(a + b, ramSize)
  {
    hide GoodRow;
    var c := a + b;
    forall i | 0 <= i < |c| ensures GoodRow(c[i], ramSize) && Bounded(c, i) {
      if i < |a| {
        assert c[i] == a[i] && Bounded(a, i) && GoodRow(a[i], ramSize);
        assert i + 1 < |a| ==> c[i + 1] == a[i + 1];
      } else {
        assert c[i] == b[i - |a|] && Bounded(b, i - |a|) && GoodRow(b[i - |a|], ramSize);
      }
    }
  }

  lemma NoRows()
    ensures RangesOf([]) == []
  {
  }

  lemma SequencesConcatenate(a: seq<Row>, b: seq<Row>)
    requires IsSequence(a)
    ensures RangesOf(a + b) == RangesOf(a) + RangesOf(b)
  {
    if b == [] {
      assert a + b == a;
    } else {
      SequencesSplit(a, b, |b| - 1);
    }
  }

  /** Acceptance alone does not order a sequence: after a line-zero row the address may go back, and the ranges
      overlap. */
  lemma AcceptedRowsMayOverlap()
    ensures var rows := [Row(true, 0, false, true, 1, 0, Some("a")), Row(true, 8, false, true, 0, 0, None),
                         Row(true, 4, false, true, 2, 0, Some("a")), Row(true, 12, true, true, 0, 0, None)];
            GoodRows(rows, 16) && !Ascending(RangesOf(rows))
  {
    var rows := [Row(true, 0, false, true, 1, 0, Some("a")), Row(true, 8, false, true, 0, 0, None),
                 Row(true, 4, false, true, 2, 0, Some("a")), Row(true, 12, true, true, 0, 0, None)];
    assert RangesUpTo(rows, 1) == [RangeAt(rows, 0)];
    assert RangesUpTo(rows, 2) == [RangeAt(rows, 0)];
    assert RangesUpTo(rows, 3) == [RangeAt(rows, 0), RangeAt(rows, 2)];
    var ranges := RangesOf(rows);
    assert ranges[0].end == 8 && ranges[1].begin == 4;
  }
}
