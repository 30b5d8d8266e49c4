/**
  The sparse matrix itself: two dimensions and a dictionary of keys from `(row, col)` to the
  nonzero values, read and written one cell at a time, and filled from the lines of a
  coordinate-list file.
*/
module SparseMatrices {
  import opened Wrappers
  import opened Text
  import opened EntryFormat

  type Coord = (int, int)

  type Elements = map<Coord, int>

  /** The value of the cell `(row, col)`: the stored value, or 0 when nothing is stored. */
  function At(m: Elements, row: int, col: int): (r: int)
    ensures NonZero(m) ==> (r != 0 <==> (row, col) in m)
  {
    if (row, col) in m then m[(row, col)] else 0
  }

  /** The storage invariant: no stored value is 0, so absence and 0 mean the same. */
  predicate NonZero(m: Elements)
  {
    forall p :: p in m ==> m[p] != 0
  }

  /** Under the storage invariant a matrix is determined by the values of its cells. */
  lemma SameCells(m1: Elements, m2: Elements)
    requires NonZero(m1) && NonZero(m2)
    requires forall row, col :: At(m1, row, col) == At(m2, row, col)
    ensures m1 == m2
  {
    forall p | p in m1 ensures p in m2 && m2[p] == m1[p] {
      assert At(m1, p.0, p.1) == At(m2, p.0, p.1);
    }
    forall p | p in m2 ensures p in m1 {
      assert At(m1, p.0, p.1) == At(m2, p.0, p.1);
    }
  }

  /**
    What `set_element(row, col, value)` does to the dictionary: store a nonzero value, delete the
    key for 0. Afterwards the cell holds `value`, every other cell is as before, the storage
    invariant still holds, and writing 0 to an empty cell changes nothing.
  */
  function Put(m: Elements, row: int, col: int, value: int): (r: Elements)
    ensures At(r, row, col) == value
    ensures forall i, j :: (i, j) != (row, col) ==> At(r, i, j) == At(m, i, j)
    ensures NonZero(m) ==> NonZero(r)
    ensures value == 0 && (row, col) !in m ==> r == m
  {
    if value != 0 then m[(row, col) := value]
    else if (row, col) in m then m - {(row, col)}
    else m
  }

  class SparseMatrix {
    var numRows: int
    var numCols: int
    var elements: Elements

    ghost predicate Valid()
      reads this
    {
      NonZero(elements)
    }

    /** `SparseMatrix(num_rows=numRows, num_cols=numCols)`: an empty matrix of that shape. */
    constructor (numRows: int, numCols: int)
      ensures this.numRows == numRows && this.numCols == numCols
      ensures elements == map[] && Valid()
    {
      this.numRows := numRows;
      this.numCols := numCols;
      elements := map[];
    }

    /**
      `get_element(row, col)`: the stored value, or 0 for an absent key; any coordinates are
      accepted, inside the dimensions or not. Under the invariant the cell is nonzero exactly when
      it is stored.
    */
    function GetElement(row: int, col: int): (v: int)
      reads this
      ensures (row, col) in elements ==> v == elements[(row, col)]
      ensures (row, col) !in elements ==> v == 0
      ensures Valid() ==> (v != 0 <==> (row, col) in elements)
    {
      At(elements, row, col)
    }

    /**
      `set_element(row, col, value)`: stores a nonzero value, deletes the key for 0 (a no-op when
      the key is absent). The dimensions are neither checked nor changed.
    */
    method SetElement(row: int, col: int, value: int)
      modifies this
      ensures elements == Put(old(elements), row, col, value)
      ensures numRows == old(numRows) && numCols == old(numCols)
      ensures old(Valid()) ==> Valid()
    {
      if value != 0 {
        elements := elements[(row, col) := value];
      } else if (row, col) in elements {
        elements := elements - {(row, col)};
      }
    }

    /**
      The line-processing part of `_load_from_file`: the dimensions from the first two lines,
      then every non-blank line after them written through `SetElement`. On success the object
      holds `Load(old(elements), lines)`; on failure it reports that load's error (the object is
      then abandoned, so what it holds is left unsaid).
    */
    method LoadLines(lines: seq<string>) returns (err: Option<LoadError>)
      modifies this
      ensures err.None? <==> Load(old(elements), lines).Ok?
      ensures err.Some? ==> err.value == Load(old(elements), lines).error
      ensures err.None? ==> var l := Load(old(elements), lines).value;
        numRows == l.numRows && numCols == l.numCols && elements == l.elements
    {
      if |lines| < 1 {
        return Some(MissingHeaderLine);
      }
      var rows := ParseHeader(lines[0]);
      if rows.Err? {
        return Some(rows.error);
      }
      numRows := rows.value;
      if |lines| < 2 {
        return Some(MissingHeaderLine);
      }
      var cols := ParseHeader(lines[1]);
      if cols.Err? {
        return Some(cols.error);
      }
      numCols := cols.value;
      var i := 2;
      while i < |lines|
        invariant 2 <= i <= |lines|
        invariant numRows == rows.value && numCols == cols.value
        invariant ApplyEntries(elements, lines[i..]) == ApplyEntries(old(elements), lines[2..])
      {
        var line := lines[i];
        assert lines[i..][0] == line && lines[i..][1..] == lines[i + 1..];
        if Strip(line) != [] {
          var entry := ParseEntry(line);
          if entry.None? {
            return Some(WrongFormat);
          }
          SetElement(entry.value.row, entry.value.col, entry.value.value);
        }
        i := i + 1;
      }
      return None;
    }
  }

  /** A matrix as the loader produces it. */
  datatype Loaded = Loaded(numRows: int, numCols: int, elements: Elements)

  /** True when the line is not blank and is an entry for the cell `(row, col)`. */
  predicate Writes(line: string, row: int, col: int)
  {
    Strip(line) != [] && ParseEntry(line).Some?
    && ParseEntry(line).value.row == row && ParseEntry(line).value.col == col
  }

  /**
    One line of the loop in `_load_from_file`: a blank line changes nothing, an entry line is
    written through `set_element`, anything else is `None` (the "wrong format" error).
  */
  function ApplyLine(m: Elements, line: string): (r: Option<Elements>)
    ensures NonZero(m) && r.Some? ==> NonZero(r.value)
  {
    if Strip(line) == [] then Some(m)
    else match ParseEntry(line)
      case None => None
      case Some(e) => Some(Put(m, e.row, e.col, e.value))
  }

  /**
    The entry lines written one after the other onto `m`; `None` as soon as one line fails.
    The storage invariant survives.
  */
  function ApplyEntries(m: Elements, lines: seq<string>): (r: Option<Elements>)
    ensures NonZero(m) && r.Some? ==> NonZero(r.value)
    decreases |lines|
  {
    if lines == [] then Some(m)
    else match ApplyLine(m, lines[0])
      case None => None
      case Some(m') => ApplyEntries(m', lines[1..])
  }

  /** A line that is neither blank nor a well-formed entry. */
  predicate Malformed(line: string)
  {
    Strip(line) != [] && ParseEntry(line).None?
  }

  lemma ApplyLineFails(m: Elements, line: string)
    ensures ApplyLine(m, line).None? <==> Malformed(line)
  {
  }

  /*
    The loader lemmas are proved once for any line step, and then for `ApplyLine`. Kept abstract,
    the step hides the parser from the inductions, which only need what each line does to one cell.
  */

  /** `step` applied to each line in turn, stopping with `None` at the first line it rejects. */
  function Fold(step: (Elements, string) -> Option<Elements>, m: Elements, lines: seq<string>): Option<Elements>
    decreases |lines|
  {
    if lines == [] then Some(m)
    else match step(m, lines[0])
      case None => None
      case Some(m') => Fold(step, m', lines[1..])
  }

  lemma {:induction false} ApplyEntriesIsFold(m: Elements, lines: seq<string>)
    ensures ApplyEntries(m, lines) == Fold(ApplyLine, m, lines)
    decreases |lines|
  {
    if lines != [] {
      var r := ApplyLine(m, lines[0]);
      if r.Some? {
        ApplyEntriesIsFold(r.value, lines[1..]);
      }
    }
  }

  /** A failed fold names a line the step rejects. */
  lemma {:induction false} FoldFailingLine(step: (Elements, string) -> Option<Elements>, bad: string -> bool,
                                           m: Elements, lines: seq<string>) returns (i: nat)
    requires forall m', line :: step(m', line).None? <==> bad(line)
    requires Fold(step, m, lines).None?
    ensures i < |lines| && bad(lines[i])
    decreases |lines|
  {
    if step(m, lines[0]).None? {
      i := 0;
    } else {
      var j := FoldFailingLine(step, bad, step(m, lines[0]).value, lines[1..]);
      i := j + 1;
      assert lines[1..][j] == lines[i];
    }
  }

  /** A line the step rejects, anywhere, makes the fold fail. */
  lemma {:induction false} FoldFailsAt(step: (Elements, string) -> Option<Elements>, bad: string -> bool,
                                       m: Elements, lines: seq<string>, i: nat)
    requires forall m', line :: step(m', line).None? <==> bad(line)
    requires i < |lines| && bad(lines[i])
    ensures Fold(step, m, lines).None?
    decreases |lines|
  {
    if i > 0 && step(m, lines[0]).Some? {
      assert lines[1..][i - 1] == lines[i];
      FoldFailsAt(step, bad, step(m, lines[0]).value, lines[1..], i - 1);
    }
  }

  /** A cell that no line hits keeps its value through the fold. */
  lemma {:induction false} FoldKeeps(step: (Elements, string) -> Option<Elements>, hits: string -> bool,
                                     m: Elements, lines: seq<string>, row: int, col: int)
    requires forall m', line :: step(m', line).Some? && !hits(line) ==>
      At(step(m', line).value, row, col) == At(m', row, col)
    requires Fold(step, m, lines).Some?
    requires forall i :: 0 <= i < |lines| ==> !hits(lines[i])
    ensures At(Fold(step, m, lines).value, row, col) == At(m, row, col)
    decreases |lines|
  {
    if lines != [] {
      var rest := lines[1..];
      forall j | 0 <= j < |rest| ensures !hits(rest[j]) {
        assert rest[j] == lines[j + 1];
      }
      FoldKeeps(step, hits, step(m, lines[0]).value, rest, row, col);
    }
  }

  /** The last line that hits a cell decides its value. */
  lemma {:induction false} FoldLastWrite(step: (Elements, string) -> Option<Elements>, hits: string -> bool,
                                         written: string -> int, m: Elements, lines: seq<string>,
                                         i: nat, row: int, col: int)
    requires forall m', line :: step(m', line).Some? && !hits(line) ==>
      At(step(m', line).value, row, col) == At(m', row, col)
    requires forall m', line :: step(m', line).Some? && hits(line) ==>
      At(step(m', line).value, row, col) == written(line)
    requires Fold(step, m, lines).Some?
    requires i < |lines| && hits(lines[i])
    requires forall j :: i < j < |lines| ==> !hits(lines[j])
    ensures At(Fold(step, m, lines).value, row, col) == written(lines[i])
    decreases |lines|
  {
    var rest := lines[1..];
    var m' := step(m, lines[0]).value;
    if i == 0 {
      forall j | 0 <= j < |rest| ensures !hits(rest[j]) {
        assert rest[j] == lines[j + 1];
      }
      FoldKeeps(step, hits, m', rest, row, col);
    } else {
      assert rest[i - 1] == lines[i];
      forall j | i - 1 < j < |rest| ensures !hits(rest[j]) {
        assert rest[j] == lines[j + 1];
      }
      FoldLastWrite(step, hits, written, m', rest, i - 1, row, col);
    }
  }

  /** Loading fails exactly when some non-blank line is not a well-formed entry. */
  lemma ApplyEntriesFails(m: Elements, lines: seq<string>)
    ensures ApplyEntries(m, lines).None? <==> exists i :: 0 <= i < |lines| && Malformed(lines[i])
  {
    ApplyEntriesIsFold(m, lines);
    forall m', line ensures ApplyLine(m', line).None? <==> Malformed(line) {
      ApplyLineFails(m', line);
    }
    if ApplyEntries(m, lines).None? {
      var i := FoldFailingLine(ApplyLine, Malformed, m, lines);
    }
    forall i | 0 <= i < |lines| && Malformed(lines[i])
      ensures ApplyEntries(m, lines).None?
    {
      FoldFailsAt(ApplyLine, Malformed, m, lines, i);
    }
  }

  /** What a line does to one cell: a line that does not write it leaves it as it was. */
  lemma ApplyLineCell(row: int, col: int)
    ensures forall m, line :: ApplyLine(m, line).Some? && !Writes(line, row, col) ==>
      At(ApplyLine(m, line).value, row, col) == At(m, row, col)
    ensures forall m, line :: ApplyLine(m, line).Some? && Writes(line, row, col) ==>
      At(ApplyLine(m, line).value, row, col) == ParseEntry(line).value.value
  {
    forall m, line | ApplyLine(m, line).Some?
      ensures !Writes(line, row, col) ==> At(ApplyLine(m, line).value, row, col) == At(m, row, col)
      ensures Writes(line, row, col) ==> At(ApplyLine(m, line).value, row, col) == ParseEntry(line).value.value
    {
      ApplyLineWrite(m, line, row, col);
    }
  }

  lemma ApplyLineWrite(m: Elements, line: string, row: int, col: int)
    ensures ApplyLine(m, line).Some? && !Writes(line, row, col) ==>
      At(ApplyLine(m, line).value, row, col) == At(m, row, col)
    ensures ApplyLine(m, line).Some? && Writes(line, row, col) ==>
      At(ApplyLine(m, line).value, row, col) == ParseEntry(line).value.value
  {
  }

  /** A cell that no line writes keeps the value it had before loading. */
  lemma ApplyEntriesKeeps(m: Elements, lines: seq<string>, row: int, col: int)
    requires ApplyEntries(m, lines).Some?
    requires forall i :: 0 <= i < |lines| ==> !Writes(lines[i], row, col)
    ensures At(ApplyEntries(m, lines).value, row, col) == At(m, row, col)
  {
    ApplyEntriesIsFold(m, lines);
    ApplyLineCell(row, col);
    FoldKeeps(ApplyLine, line => Writes(line, row, col), m, lines, row, col);
  }

  /**
    The last line that writes a cell decides its value, so a later duplicate overwrites an
    earlier one.
  */
  lemma ApplyEntriesLastWrite(m: Elements, lines: seq<string>, i: nat, row: int, col: int)
    requires ApplyEntries(m, lines).Some?
    requires i < |lines| && Writes(lines[i], row, col)
    requires forall j :: i < j < |lines| ==> !Writes(lines[j], row, col)
    ensures At(ApplyEntries(m, lines).value, row, col) == ParseEntry(lines[i]).value.value
  {
    ApplyEntriesIsFold(m, lines);
    ApplyLineCell(row, col);
    var hits := line => Writes(line, row, col);
    var written := line => if ParseEntry(line).Some? then ParseEntry(line).value.value else 0;
    FoldLastWrite(ApplyLine, hits, written, m, lines, i, row, col);
  }

  /**
    Loading into a new matrix, the cell is stored exactly when its last entry is nonzero, so an
    entry `(r, c, 0)` stores nothing.
  */
  lemma ApplyEntriesLastWriteStored(lines: seq<string>, i: nat, row: int, col: int)
    requires ApplyEntries(map[], lines).Some?
    requires i < |lines| && Writes(lines[i], row, col)
    requires forall j :: i < j < |lines| ==> !Writes(lines[j], row, col)
    ensures (row, col) in ApplyEntries(map[], lines).value <==> ParseEntry(lines[i]).value.value != 0
  {
    ApplyEntriesLastWrite(map[], lines, i, row, col);
  }

  /** Loading the lines of a file onto the elements `m` (empty for a new matrix). */
  function Load(m: Elements, lines: seq<string>): (r: Result<Loaded, LoadError>)
    ensures r.Ok? && NonZero(m) ==> NonZero(r.value.elements)
  {
    if |lines| < 1 then Err(MissingHeaderLine)
    else match ParseHeader(lines[0])
      case Err(e) => Err(e)
      case Ok(rows) =>
        if |lines| < 2 then Err(MissingHeaderLine)
        else match ParseHeader(lines[1])
          case Err(e) => Err(e)
          case Ok(cols) =>
            match ApplyEntries(m, lines[2..])
            case None => Err(WrongFormat)
            case Some(elements) => Ok(Loaded(rows, cols, elements))
  }

  /** One line per entry, in the format the loader reads, each ending in `\n` as `readlines` keeps it. */
  function EntryLines(entries: seq<Entry>): seq<string>
  {
    seq(|entries|, i requires 0 <= i < |entries| => FormatEntry(entries[i]) + "\n")
  }

  /** The lines of a file in the coordinate-list format: the two headers, then the entries. */
  function FileLines(numRows: int, numCols: int, entries: seq<Entry>): seq<string>
  {
    [HeaderLine("rows", numRows), HeaderLine("cols", numCols)] + EntryLines(entries)
  }

  /** `entries` lists the stored cells of `m`, each exactly once and with its value. */
  predicate Enumerates(entries: seq<Entry>, m: Elements)
  {
    && (forall i :: 0 <= i < |entries| ==>
          (entries[i].row, entries[i].col) in m && m[(entries[i].row, entries[i].col)] == entries[i].value)
    && (forall p :: p in m ==> exists i :: 0 <= i < |entries| && (entries[i].row, entries[i].col) == p)
    && (forall i, j :: 0 <= i < j < |entries| ==>
          (entries[i].row, entries[i].col) != (entries[j].row, entries[j].col))
  }

  /** A written entry line is read as writing exactly its own cell. */
  lemma WritesFormatEntry(e: Entry, row: int, col: int)
    ensures ParseEntry(FormatEntry(e)) == Some(e)
    ensures Writes(FormatEntry(e), row, col) <==> e.row == row && e.col == col
  {
    ParseFormatEntry(e);
    WritesParsed(FormatEntry(e), e, row, col);
  }

  lemma WritesParsed(line: string, e: Entry, row: int, col: int)
    requires ParseEntry(line) == Some(e)
    ensures Writes(line, row, col) <==> e.row == row && e.col == col
  {
  }

  /** Every line of `lines` is a nonblank entry line that is read as the matching entry. */
  predicate ReadsAs(lines: seq<string>, entries: seq<Entry>)
  {
    && |lines| == |entries|
    && forall i :: 0 <= i < |lines| ==>
         ParseEntry(lines[i]) == Some(entries[i])
  }

  lemma EntryLinesReadAs(entries: seq<Entry>)
    ensures ReadsAs(EntryLines(entries), entries)
  {
    var lines := EntryLines(entries);
    forall i | 0 <= i < |lines|
      ensures ParseEntry(lines[i]) == Some(entries[i])
    {
      ParseFormatEntry(entries[i]);
      StripLineEnd(FormatEntry(entries[i]));
    }
  }

  /** Each cell of the loaded lines holds what the enumerated matrix holds. */
  lemma LinesCell(lines: seq<string>, entries: seq<Entry>, m: Elements, row: int, col: int)
    requires ReadsAs(lines, entries) && Enumerates(entries, m)
    requires ApplyEntries(map[], lines).Some?
    ensures At(ApplyEntries(map[], lines).value, row, col) == At(m, row, col)
  {
    forall i | 0 <= i < |lines|
      ensures Writes(lines[i], row, col) <==> (entries[i].row, entries[i].col) == (row, col)
    {
      WritesParsed(lines[i], entries[i], row, col);
    }
    if i :| 0 <= i < |entries| && (entries[i].row, entries[i].col) == (row, col) {
      ApplyEntriesLastWrite(map[], lines, i, row, col);
    } else {
      ApplyEntriesKeeps(map[], lines, row, col);
    }
  }

  /** Lines that read as an enumeration of a matrix load back to that matrix. */
  lemma LinesLoad(lines: seq<string>, entries: seq<Entry>, m: Elements)
    requires NonZero(m) && ReadsAs(lines, entries) && Enumerates(entries, m)
    ensures ApplyEntries(map[], lines) == Some(m)
  {
    ApplyEntriesFails(map[], lines);
    var loaded := ApplyEntries(map[], lines).value;
    forall row, col ensures At(loaded, row, col) == At(m, row, col) {
      LinesCell(lines, entries, m, row, col);
    }
    SameCells(loaded, m);
  }

  lemma LoadOf(lines: seq<string>, numRows: int, numCols: int, elements: Elements)
    requires |lines| >= 2 && ParseHeader(lines[0]) == Ok(numRows) && ParseHeader(lines[1]) == Ok(numCols)
    requires ApplyEntries(map[], lines[2..]) == Some(elements)
    ensures Load(map[], lines) == Ok(Loaded(numRows, numCols, elements))
  {
  }

  /**
    Writing a matrix out in the coordinate-list format, one line per stored cell in any order,
    and loading it back gives the same dimensions and the same elements.
  */
  lemma LoadFileLines(numRows: int, numCols: int, m: Elements, entries: seq<Entry>)
    requires NonZero(m) && Enumerates(entries, m)
    ensures Load(map[], FileLines(numRows, numCols, entries)) == Ok(Loaded(numRows, numCols, m))
  {
    var lines := FileLines(numRows, numCols, entries);
    var body := EntryLines(entries);
    assert |lines| >= 2 && lines[0] == HeaderLine("rows", numRows) && lines[1] == HeaderLine("cols", numCols);
    assert lines[2..] == body;
    assert '=' !in "rows" && '=' !in "cols";
    ParseHeaderText("rows", numRows);
    ParseHeaderText("cols", numCols);
    EntryLinesReadAs(entries);
    LinesLoad(body, entries, m);
    LoadOf(lines, numRows, numCols, m);
  }

  /** `SparseMatrix(file_path=...)` on the lines of the file: a new matrix, or the load's error. */
  method FromLines(lines: seq<string>) returns (r: Result<SparseMatrix, LoadError>)
    ensures r.Ok? <==> Load(map[], lines).Ok?
    ensures r.Err? ==> r.error == Load(map[], lines).error
    ensures r.Ok? ==> var l := Load(map[], lines).value;
      && fresh(r.value) && r.value.Valid()
      && r.value.numRows == l.numRows && r.value.numCols == l.numCols && r.value.elements == l.elements
  {
    var m := new SparseMatrix(0, 0);
    var err := m.LoadLines(lines);
    if err.Some? {
      return Err(err.value);
    }
    return Ok(m);
  }
}
