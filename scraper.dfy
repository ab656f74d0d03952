/**
 * The harvest-and-reconcile pipeline of the NSIDC glacier-photo scraper:
 * normalise the requested file IDs, cut them into fixed-size batches, send
 * each batch to the search page, parse the result rows, keep the first
 * record seen for each Digital File ID, write the records out when there
 * are any, and list the requested IDs that were never captured.
 *
 * The browser is an oracle (`Session`): for batch `i` and its query text it
 * either fails before any row is read (`None`) or gives the rendered rows,
 * each of which either fails when its cells are read (`None`) or yields the
 * text of its five cells.
 */
module Scraper {
  import opened Wrappers
  import opened Text
  import opened Dedup
  import StringOrder

  /** Number of IDs submitted per search. */
  const BATCH_SIZE: nat := 20

  // ---------------------------------------------------------------------
  // ID normalisation: drop missing cells, keep the first occurrence of each ID
  // ---------------------------------------------------------------------

  /** The column values that are present (`dropna`), in order. */
  function Present(column: seq<Option<string>>): (ids: seq<string>)
    ensures forall x :: x in ids <==> Some(x) in column
  {
    if column == [] then []
    else
      var rest := Present(column[1..]);
      assert forall o :: o in column <==> o == column[0] || o in column[1..];
      match column[0]
      case Some(x) => [x] + rest
      case None => rest
  }

  /** Key functions: an ID is its own key, and so is a column cell. */
  function SameId(id: string): string { id }
  function SameCell(cell: Option<string>): Option<string> { cell }

  lemma {:induction false} PresentKeepsFirstOrder(column: seq<Option<string>>, x: string, y: string)
    requires Some(x) in column && Some(y) in column && x != y
    ensures FirstIndex(Present(column), SameId, x) < FirstIndex(Present(column), SameId, y)
        <==> FirstIndex(column, SameCell, Some(x)) < FirstIndex(column, SameCell, Some(y))
    decreases |column|
  {
    var rest := column[1..];
    var ids := Present(column);
    match column[0]
    case None =>
      assert ids == Present(rest);
      assert Some(x) in rest && Some(y) in rest;
      assert FirstIndex(column, SameCell, Some(x)) == 1 + FirstIndex(rest, SameCell, Some(x));
      assert FirstIndex(column, SameCell, Some(y)) == 1 + FirstIndex(rest, SameCell, Some(y));
      PresentKeepsFirstOrder(rest, x, y);
    case Some(z) =>
      assert ids == [z] + Present(rest) && ids[1..] == Present(rest);
      if z == x {
        assert FirstIndex(ids, SameId, x) == 0 && FirstIndex(column, SameCell, Some(x)) == 0;
      } else if z == y {
        assert FirstIndex(ids, SameId, y) == 0 && FirstIndex(column, SameCell, Some(y)) == 0;
      } else {
        assert Some(x) in rest && Some(y) in rest;
        assert FirstIndex(column, SameCell, Some(x)) == 1 + FirstIndex(rest, SameCell, Some(x));
        assert FirstIndex(column, SameCell, Some(y)) == 1 + FirstIndex(rest, SameCell, Some(y));
        assert FirstIndex(ids, SameId, x) == 1 + FirstIndex(ids[1..], SameId, x);
        assert FirstIndex(ids, SameId, y) == 1 + FirstIndex(ids[1..], SameId, y);
        PresentKeepsFirstOrder(rest, x, y);
      }
  }

  /**
   * The requested IDs: exactly the present column values, each once, in the
   * order of their first appearance in the column.
   */
  function NormalizeIds(column: seq<Option<string>>): (ids: seq<string>)
    ensures forall i, j :: 0 <= i < j < |ids| ==> ids[i] != ids[j]
    ensures forall x :: x in ids <==> Some(x) in column
    ensures forall i, j :: 0 <= i < j < |ids| ==>
      FirstIndex(column, SameCell, Some(ids[i])) < FirstIndex(column, SameCell, Some(ids[j]))
  {
    var present := Present(column);
    var ids := DedupBy(present, SameId);
    DedupFirstSeen(present, SameId);
    IdsAreKeys(ids);
    IdsAreKeys(present);
    KeptInColumnOrder(column, present, ids);
    ids
  }

  /** The IDs of a list are its keys under `SameId`. */
  lemma IdsAreKeys(s: seq<string>)
    ensures forall x :: x in s <==> x in KeySet(s, SameId)
  {
    forall x | x in s ensures x in KeySet(s, SameId) {
      var i :| 0 <= i < |s| && s[i] == x;
      assert SameId(s[i]) == x;
    }
  }

  /** IDs kept in the order of their first presence keep the order of the column. */
  lemma KeptInColumnOrder(column: seq<Option<string>>, present: seq<string>, ids: seq<string>)
    requires present == Present(column) && DistinctKeys(ids, SameId)
    requires forall x :: x in ids ==> x in present
    requires forall i, j :: 0 <= i < j < |ids| ==>
      FirstIndex(present, SameId, SameId(ids[i])) < FirstIndex(present, SameId, SameId(ids[j]))
    ensures forall i, j :: 0 <= i < j < |ids| ==>
      FirstIndex(column, SameCell, Some(ids[i])) < FirstIndex(column, SameCell, Some(ids[j]))
  {
    forall i, j | 0 <= i < j < |ids|
      ensures FirstIndex(column, SameCell, Some(ids[i])) < FirstIndex(column, SameCell, Some(ids[j]))
    {
      assert SameId(ids[i]) != SameId(ids[j]);
      assert ids[i] in present && ids[j] in present;
      PresentKeepsFirstOrder(column, ids[i], ids[j]);
    }
  }

  // ---------------------------------------------------------------------
  // Batching: consecutive slices of BATCH_SIZE IDs, the last one possibly shorter
  // ---------------------------------------------------------------------

  /** The batches in order, concatenated. */
  function Flatten(batches: seq<seq<string>>): seq<string> {
    if batches == [] then [] else batches[0] + Flatten(batches[1..])
  }

  /** The slices taken at offsets `start`, `start + size`, ... below `|ids|`. */
  function BatchesFrom(ids: seq<string>, size: nat, start: nat): (batches: seq<seq<string>>)
    requires size >= 1 && start <= |ids|
    ensures Flatten(batches) == ids[start..]
    ensures forall k :: 0 <= k < |batches| ==> 1 <= |batches[k]| <= size
    ensures forall k :: 0 <= k < |batches| - 1 ==> |batches[k]| == size
    decreases |ids| - start
  {
    if start == |ids| then []
    else
      var end := Min(start + size, |ids|);
      var rest := BatchesFrom(ids, size, end);
      assert ids[start..] == ids[start..end] + ids[end..];
      assert ([ids[start..end]] + rest)[1..] == rest;
      assert end < |ids| ==> rest != [];
      [ids[start..end]] + rest
  }

  /**
   * The batches: non-empty, at most `size` long, all but the last exactly
   * `size` long, and together, in order, the whole ID list.
   */
  function Batches(ids: seq<string>, size: nat): (batches: seq<seq<string>>)
    requires size >= 1
    ensures Flatten(batches) == ids
    ensures forall k :: 0 <= k < |batches| ==> 1 <= |batches[k]| <= size
    ensures forall k :: 0 <= k < |batches| - 1 ==> |batches[k]| == size
  {
    assert ids[0..] == ids;
    BatchesFrom(ids, size, 0)
  }

  lemma {:induction false} FlattenMembership(batches: seq<seq<string>>, k: nat, x: string)
    requires k < |batches| && x in batches[k]
    ensures x in Flatten(batches)
  {
    if k > 0 {
      FlattenMembership(batches[1..], k - 1, x);
    }
  }

  /** Every requested ID lands in exactly one batch. */
  lemma {:induction false} BatchesPartition(ids: seq<string>, size: nat, x: string)
    requires size >= 1
    requires forall i, j :: 0 <= i < j < |ids| ==> ids[i] != ids[j]
    ensures (exists k :: 0 <= k < |Batches(ids, size)| && x in Batches(ids, size)[k]) <==> x in ids
    ensures forall k, l :: 0 <= k < l < |Batches(ids, size)| ==>
      !(x in Batches(ids, size)[k] && x in Batches(ids, size)[l])
  {
    var bs := Batches(ids, size);
    forall k | 0 <= k < |bs| && x in bs[k] ensures x in ids {
      FlattenMembership(bs, k, x);
    }
    if x in ids {
      var i :| 0 <= i < |ids| && ids[i] == x;
      var k := FlattenLocate(bs, i);
      assert x in bs[k];
    }
    forall k, l | 0 <= k < l < |bs| ensures !(x in bs[k] && x in bs[l]) {
      if x in bs[k] && x in bs[l] {
        var a :| 0 <= a < |bs[k]| && bs[k][a] == x;
        var b :| 0 <= b < |bs[l]| && bs[l][b] == x;
        FlattenOffsets(bs, k, l, a, b);
      }
    }
  }

  /** The sum of the lengths of the first `k` batches. */
  function Offset(batches: seq<seq<string>>, k: nat): nat
    requires k <= |batches|
  {
    if k == 0 then 0 else |batches[0]| + Offset(batches[1..], k - 1)
  }

  lemma {:induction false} FlattenAt(batches: seq<seq<string>>, k: nat, a: nat)
    requires k < |batches| && a < |batches[k]|
    ensures Offset(batches, k) + a < |Flatten(batches)|
    ensures Flatten(batches)[Offset(batches, k) + a] == batches[k][a]
  {
    if k > 0 {
      FlattenAt(batches[1..], k - 1, a);
    }
  }

  lemma {:induction false} OffsetGrows(batches: seq<seq<string>>, k: nat, l: nat)
    requires k < l <= |batches|
    ensures Offset(batches, k) + |batches[k]| <= Offset(batches, l)
  {
    if k > 0 {
      OffsetGrows(batches[1..], k - 1, l - 1);
    } else if l > 1 {
      OffsetGrows(batches[1..], 0, l - 1);
    }
  }

  lemma FlattenOffsets(batches: seq<seq<string>>, k: nat, l: nat, a: nat, b: nat)
    requires k < l < |batches| && a < |batches[k]| && b < |batches[l]|
    ensures Offset(batches, k) + a < Offset(batches, l) + b < |Flatten(batches)|
    ensures Flatten(batches)[Offset(batches, k) + a] == batches[k][a]
    ensures Flatten(batches)[Offset(batches, l) + b] == batches[l][b]
  {
    FlattenAt(batches, k, a);
    FlattenAt(batches, l, b);
    OffsetGrows(batches, k, l);
  }

  /** The batch holding position `i` of the flattened sequence. */
  lemma {:induction false} FlattenLocate(batches: seq<seq<string>>, i: nat) returns (k: nat)
    requires i < |Flatten(batches)|
    ensures k < |batches| && Flatten(batches)[i] in batches[k]
  {
    if i < |batches[0]| {
      k := 0;
      assert Flatten(batches)[i] == batches[0][i];
    } else {
      var k' := FlattenLocate(batches[1..], i - |batches[0]|);
      k := k' + 1;
    }
  }

  // ---------------------------------------------------------------------
  // Query text: the batch's IDs, one per line
  // ---------------------------------------------------------------------

  /**
   * What is typed into the search field: the batch's IDs, one per line.
   * Splitting it on line breaks gives the batch back when no ID holds one.
   */
  function QueryText(batch: seq<string>): (q: string)
    ensures |batch| >= 1 && (forall k :: 0 <= k < |batch| ==> '\n' !in batch[k]) ==>
      Split(q, '\n') == batch
  {
    if |batch| >= 1 && forall k :: 0 <= k < |batch| ==> '\n' !in batch[k] then
      SplitJoin(batch, '\n');
      Join(batch, '\n')
    else Join(batch, '\n')
  }

  // ---------------------------------------------------------------------
  // Row parsing: five cells trimmed, the file-info cell split into lines
  // ---------------------------------------------------------------------

  /** The text of the five cells the scraper reads from one result row. */
  datatype Cells = Cells(
    glacierName: string,   // third cell of the row
    photographer: string,  // fourth
    date: string,          // fifth
    spatial: string,       // sixth
    fileInfo: string)      // seventh: file ID, photograph number, GLIMS ID, one per line

  /** One output row: the seven columns written to the spreadsheet. */
  datatype Record = Record(
    digitalFileId: string,
    photographNumber: string,
    glimsId: string,
    glacierName: string,
    photographer: string,
    date: string,
    spatialCoverage: string)

  /** Sub-field `k` of the split file-info cell, trimmed; `""` when absent. */
  function Field(parts: seq<string>, k: nat): (f: string)
    requires forall j :: 0 <= j < |parts| ==> '\n' !in parts[j]
    ensures Strip(f) == f && '\n' !in f
    ensures |parts| <= k ==> f == ""
  {
    if |parts| > k then
      StripIdempotent(parts[k]);
      StripKeepsAbsent(parts[k], '\n');
      Strip(parts[k])
    else ""
  }

  /**
   * Parses the cells of one row.  It never fails: a file-info cell with
   * fewer than three lines leaves the missing sub-fields empty.  Every field
   * comes out trimmed, and the three sub-fields hold no line break.
   */
  function ParseRow(cells: Cells): (r: Record)
    ensures Strip(r.digitalFileId) == r.digitalFileId
    ensures Strip(r.photographNumber) == r.photographNumber
    ensures Strip(r.glimsId) == r.glimsId
    ensures Strip(r.glacierName) == r.glacierName
    ensures Strip(r.photographer) == r.photographer
    ensures Strip(r.date) == r.date
    ensures Strip(r.spatialCoverage) == r.spatialCoverage
    ensures '\n' !in r.digitalFileId && '\n' !in r.photographNumber && '\n' !in r.glimsId
    ensures r.glacierName == Strip(cells.glacierName) && r.photographer == Strip(cells.photographer)
    ensures r.date == Strip(cells.date) && r.spatialCoverage == Strip(cells.spatial)
  {
    var parts := FileInfoParts(cells.fileInfo);
    StripIdempotent(cells.glacierName);
    StripIdempotent(cells.photographer);
    StripIdempotent(cells.date);
    StripIdempotent(cells.spatial);
    Record(
      digitalFileId := Field(parts, 0),
      photographNumber := Field(parts, 1),
      glimsId := Field(parts, 2),
      glacierName := Strip(cells.glacierName),
      photographer := Strip(cells.photographer),
      date := Strip(cells.date),
      spatialCoverage := Strip(cells.spatial))
  }

  /**
   * `parts` assigns the file-info sub-fields as `lines` would by position:
   * sub-field `k` is line `k` trimmed, and `""` beyond the last line.
   */
  predicate Positional(parts: seq<string>, lines: seq<string>) {
    && (forall j :: 0 <= j < |parts| ==> '\n' !in parts[j])
    && |parts| <= |lines|
    && (forall k :: 0 <= k < |parts| ==> Strip(parts[k]) == Strip(lines[k]))
    && (forall k :: |parts| <= k < |lines| ==> Strip(lines[k]) == [])
  }

  /** The lines of a file-info cell: several, none holding a line break. */
  predicate CellLines(lines: seq<string>) {
    |lines| >= 1 && forall k :: 0 <= k < |lines| ==> '\n' !in lines[k]
  }

  /** The parts the scraper obtains from a file-info cell. */
  function FileInfoParts(info: string): seq<string> {
    Split(Strip(info), '\n')
  }

  lemma FileInfoOneLine(line: string)
    requires '\n' !in line
    ensures Positional(FileInfoParts(Join([line], '\n')), [line])
  {
    StripKeepsAbsent(line, '\n');
    SplitWithoutSep(Strip(line), '\n');
    StripIdempotent(line);
  }

  lemma FileInfoOuterLinesFilled(lines: seq<string>)
    requires CellLines(lines) && |lines| >= 2
    requires !AllSpace(lines[0]) && !AllSpace(lines[|lines| - 1])
    ensures Positional(FileInfoParts(Join(lines, '\n')), lines)
  {
    var m := |lines| - 1;
    var stripped := lines[0 := LStrip(lines[0])][m := RStrip(lines[m])];
    OuterLinesSplit(lines, stripped);
    OuterLinesPositional(lines, stripped);
  }

  /** With both outer lines filled, the split gives the lines with only the outer ends trimmed. */
  lemma OuterLinesSplit(lines: seq<string>, stripped: seq<string>)
    requires CellLines(lines) && |lines| >= 2
    requires !AllSpace(lines[0]) && !AllSpace(lines[|lines| - 1])
    requires stripped == lines[0 := LStrip(lines[0])][|lines| - 1 := RStrip(lines[|lines| - 1])]
    ensures FileInfoParts(Join(lines, '\n')) == stripped
  {
    StripJoin(lines, '\n');
    OuterLinesUnbroken(lines, stripped);
    SplitJoin(stripped, '\n');
  }

  lemma OuterLinesUnbroken(lines: seq<string>, stripped: seq<string>)
    requires CellLines(lines) && |lines| >= 2
    requires stripped == lines[0 := LStrip(lines[0])][|lines| - 1 := RStrip(lines[|lines| - 1])]
    ensures forall j :: 0 <= j < |stripped| ==> '\n' !in stripped[j]
  {
    LStripKeepsAbsent(lines[0], '\n');
    RStripKeepsAbsent(lines[|lines| - 1], '\n');
  }

  lemma OuterLinesPositional(lines: seq<string>, stripped: seq<string>)
    requires CellLines(lines) && |lines| >= 2
    requires stripped == lines[0 := LStrip(lines[0])][|lines| - 1 := RStrip(lines[|lines| - 1])]
    ensures Positional(stripped, lines)
  {
    var m := |lines| - 1;
    OuterLinesUnbroken(lines, stripped);
    forall k | 0 <= k < |stripped| ensures Strip(stripped[k]) == Strip(lines[k]) {
      if k == 0 {
        StripAfterLStrip(lines[0]);
      } else if k == m {
        StripAfterRStrip(lines[m]);
      }
    }
  }

  /** A blank last line is lost to the strip of the whole cell. */
  lemma BlankLastLineDropped(lines: seq<string>)
    requires |lines| >= 2 && AllSpace(lines[|lines| - 1])
    ensures Strip(Join(lines, '\n')) == Strip(Join(lines[..|lines| - 1], '\n'))
  {
    BreakThenBlank(lines[|lines| - 1]);
    StripJoinBlankLast(lines, '\n');
  }

  lemma BreakThenBlank(line: string)
    requires AllSpace(line)
    ensures AllSpace(['\n'] + line)
  {
    assert AllSpace(['\n']) by { assert IsSpace('\n'); }
    AllSpaceConcat(['\n'], line);
  }

  lemma PositionalBlankLine(parts: seq<string>, lines: seq<string>)
    requires |lines| >= 1 && Positional(parts, lines[..|lines| - 1])
    requires Strip(lines[|lines| - 1]) == []
    ensures Positional(parts, lines)
  {
    var m := |lines| - 1;
    var front := lines[..m];
    forall k | 0 <= k < |parts| ensures Strip(parts[k]) == Strip(lines[k]) {
      assert front[k] == lines[k];
      assert Strip(parts[k]) == Strip(front[k]);
    }
    forall k | |parts| <= k < |lines| ensures Strip(lines[k]) == [] {
      if k < m {
        assert front[k] == lines[k];
        assert Strip(front[k]) == [];
      }
    }
  }

  lemma FileInfoBlankLastLine(lines: seq<string>)
    requires CellLines(lines) && |lines| >= 2 && AllSpace(lines[|lines| - 1])
    requires Positional(FileInfoParts(Join(lines[..|lines| - 1], '\n')), lines[..|lines| - 1])
    ensures Positional(FileInfoParts(Join(lines, '\n')), lines)
  {
    BlankLastLineDropped(lines);
    assert FileInfoParts(Join(lines, '\n')) == FileInfoParts(Join(lines[..|lines| - 1], '\n'));
    LStripOfAllSpace(lines[|lines| - 1]);
    PositionalBlankLine(FileInfoParts(Join(lines[..|lines| - 1], '\n')), lines);
  }

  /**
   * Splitting the stripped file-info cell assigns its lines by position,
   * provided the first line is not blank when there are several.
   */
  lemma {:induction false} FileInfoFields(lines: seq<string>)
    requires CellLines(lines)
    requires |lines| >= 2 ==> !AllSpace(lines[0])
    ensures Positional(FileInfoParts(Join(lines, '\n')), lines)
    decreases |lines|
  {
    var m := |lines| - 1;
    if m == 0 {
      assert lines == [lines[0]];
      FileInfoOneLine(lines[0]);
    } else if AllSpace(lines[m]) {
      assert lines[..m][0] == lines[0];
      FileInfoFields(lines[..m]);
      FileInfoBlankLastLine(lines);
    } else {
      FileInfoOuterLinesFilled(lines);
    }
  }

  /**
   * A file-info cell holding lines `A`, `B`, `C` parses to file ID `A`,
   * photograph number `B` and GLIMS ID `C`, each trimmed; with fewer lines
   * the missing trailing sub-fields are `""`.
   */
  lemma CompoundCellPositional(cells: Cells, lines: seq<string>)
    requires CellLines(lines)
    requires |lines| >= 2 ==> !AllSpace(lines[0])
    requires cells.fileInfo == Join(lines, '\n')
    ensures ParseRow(cells).digitalFileId == Strip(lines[0])
    ensures ParseRow(cells).photographNumber == if |lines| > 1 then Strip(lines[1]) else ""
    ensures ParseRow(cells).glimsId == if |lines| > 2 then Strip(lines[2]) else ""
  {
    FileInfoFields(lines);
    FieldsOfPositional(cells, lines);
  }

  /** The three sub-fields of a row whose split cell assigns `lines` by position. */
  lemma FieldsOfPositional(cells: Cells, lines: seq<string>)
    requires Positional(FileInfoParts(cells.fileInfo), lines)
    ensures ParseRow(cells).digitalFileId == if |lines| > 0 then Strip(lines[0]) else ""
    ensures ParseRow(cells).photographNumber == if |lines| > 1 then Strip(lines[1]) else ""
    ensures ParseRow(cells).glimsId == if |lines| > 2 then Strip(lines[2]) else ""
  {
    var parts := FileInfoParts(cells.fileInfo);
    assert Field(parts, 0) == if |lines| > 0 then Strip(lines[0]) else "";
    assert Field(parts, 1) == if |lines| > 1 then Strip(lines[1]) else "";
    assert Field(parts, 2) == if |lines| > 2 then Strip(lines[2]) else "";
  }

  /**
   * The whole cell is stripped before it is split, so a blank first line
   * vanishes and the later lines move up one place: the photograph number
   * lands in the file-ID column.
   */
  lemma BlankFirstLineShifts(cells: Cells)
    requires cells.fileInfo == "\nPN2\nGL3"
    ensures ParseRow(cells).digitalFileId == "PN2"
    ensures ParseRow(cells).photographNumber == "GL3"
    ensures ParseRow(cells).glimsId == ""
  {
    var lines := ["PN2", "GL3"];
    ShiftedLines(cells.fileInfo, lines);
    LeadingBreakIgnored(cells.fileInfo, Join(lines, '\n'));
    FileInfoFields(lines);
    FieldsOfPositional(cells, lines);
  }

  /** "\nPN2\nGL3" is a line break before the two lines "PN2" and "GL3". */
  lemma ShiftedLines(info: string, lines: seq<string>)
    requires info == "\nPN2\nGL3" && lines == ["PN2", "GL3"]
    // The literal is a parameter pinned by `requires` only to keep the solver's work small.
    ensures info == ['\n'] + Join(lines, '\n')
    ensures CellLines(lines) && !AllSpace(lines[0])
    ensures Strip(lines[0]) == "PN2" && Strip(lines[1]) == "GL3"
  {
    JoinOfTwo(lines[0], lines[1], '\n');
    assert lines == [lines[0], lines[1]];
    assert !IsSpace(lines[0][0]);
    StripUnpadded("PN2");
    StripUnpadded("GL3");
  }

  /** A line break before the cell's text does not change how it splits. */
  lemma LeadingBreakIgnored(info: string, text: string)
    requires info == ['\n'] + text
    ensures FileInfoParts(info) == FileInfoParts(text)
  {
    StripLeadingSpace('\n', text);
  }

  // ---------------------------------------------------------------------
  // Harvest: the batch loop and the row loop, each behind its own try/except
  // ---------------------------------------------------------------------

  /**
   * The browser: for batch `i` and the text typed into the search field it
   * either fails before any row is read (`None`) or gives the result rows,
   * each of which fails when its cells are read (`None`) or yields them.
   * The index lets the session tell the first batch, for which the search
   * panel is already open, from the later ones, for which it is re-opened.
   */
  type Session = (nat, string) -> Option<seq<Option<Cells>>>

  /**
   * How a row's cells become a record.  The loop is stated for any parser;
   * the run passes `ParseRow`.
   */
  type Parser = Cells -> Record

  /** Records are keyed by their Digital File ID. */
  function IdOf(r: Record): string { r.digitalFileId }

  /** The records parsed from the rows that could be read, in row order. */
  function RowRecords(rows: seq<Option<Cells>>, parse: Parser): seq<Record> {
    if rows == [] then []
    else
      RowRecords(rows[..|rows| - 1], parse)
      + match rows[|rows| - 1] { case Some(cells) => [parse(cells)] case None => [] }
  }

  /** The records one batch contributes: none when the batch failed. */
  function BatchRecords(response: Option<seq<Option<Cells>>>, parse: Parser): seq<Record> {
    match response
    case Some(rows) => RowRecords(rows, parse)
    case None => []
  }

  /** Every record parsed during the run, batch after batch, row after row. */
  function Captured(batches: seq<seq<string>>, session: Session, parse: Parser): seq<Record> {
    if batches == [] then []
    else
      var n := |batches| - 1;
      Captured(batches[..n], session, parse) + BatchRecords(session(n, QueryText(batches[n])), parse)
  }

  /** `all_results` at the end of the run: the first record seen per ID. */
  function Harvested(batches: seq<seq<string>>, session: Session, parse: Parser): seq<Record> {
    DedupBy(Captured(batches, session, parse), IdOf)
  }

  /**
   * The scraping loop.  A record is appended, and its ID added to
   * `scrapedIds`, only when the ID has not been seen; failed rows and failed
   * batches change nothing and the loops go on.
   */
  method Harvest(batches: seq<seq<string>>, session: Session, parse: Parser)
    returns (allResults: seq<Record>, scrapedIds: set<string>)
    ensures allResults == Harvested(batches, session, parse)
    ensures scrapedIds == KeySet(allResults, IdOf)
    ensures scrapedIds == KeySet(Captured(batches, session, parse), IdOf)
    ensures DistinctKeys(allResults, IdOf)
  {
    allResults := [];
    scrapedIds := {};
    var i := 0;
    while i < |batches|
      invariant 0 <= i <= |batches|
      invariant allResults == DedupBy(Captured(batches[..i], session, parse), IdOf)
      invariant scrapedIds == KeySet(allResults, IdOf)
    {
      ghost var before := Captured(batches[..i], session, parse);
      var response := session(i, QueryText(batches[i]));
      CapturedStep(batches, session, i, parse);
      match response {
        case None =>
          assert before + BatchRecords(response, parse) == before;
        case Some(rows) =>
          allResults, scrapedIds := HarvestRows(rows, parse, before, allResults, scrapedIds);
      }
      i := i + 1;
    }
    assert batches[..|batches|] == batches;
  }

  /**
   * The row loop of one batch that loaded: given the results so far, the
   * first record per ID among `before`, it keeps each parsed row whose ID
   * is new and skips failed rows.
   */
  method HarvestRows(rows: seq<Option<Cells>>, parse: Parser, ghost before: seq<Record>,
                     resultsIn: seq<Record>, idsIn: set<string>)
    returns (allResults: seq<Record>, scrapedIds: set<string>)
    requires resultsIn == DedupBy(before, IdOf) && idsIn == KeySet(resultsIn, IdOf)
    ensures allResults == DedupBy(before + RowRecords(rows, parse), IdOf)
    ensures scrapedIds == KeySet(allResults, IdOf)
  {
    allResults, scrapedIds := resultsIn, idsIn;
    var j := 0;
    ghost var seen := before;
    assert rows[..0] == [];
    while j < |rows|
      invariant 0 <= j <= |rows|
      invariant seen == before + RowRecords(rows[..j], parse)
      invariant allResults == DedupBy(seen, IdOf)
      invariant scrapedIds == KeySet(allResults, IdOf)
    {
      RowRecordsStep(before, rows, j, parse);
      if rows[j].Some? {
        var record := parse(rows[j].value);
        KeepFirstStep(seen, record, allResults, scrapedIds);
        if record.digitalFileId !in scrapedIds {
          allResults := allResults + [record];
          scrapedIds := scrapedIds + {record.digitalFileId};
        }
        seen := seen + [record];
      }
      j := j + 1;
    }
    assert rows[..|rows|] == rows;
  }

  /** One row of the scraping loop keeps the first record seen per ID. */
  lemma KeepFirstStep(seen: seq<Record>, record: Record, allResults: seq<Record>, scrapedIds: set<string>)
    requires allResults == DedupBy(seen, IdOf) && scrapedIds == KeySet(allResults, IdOf)
    ensures DedupBy(seen + [record], IdOf)
      == if IdOf(record) in scrapedIds then allResults else allResults + [record]
    ensures KeySet(allResults + [record], IdOf) == scrapedIds + {IdOf(record)}
  {
    DedupSnoc(seen, record, IdOf);
    KeySetSnoc(allResults + [record], IdOf);
    assert (allResults + [record])[..|allResults|] == allResults;
  }

  lemma CapturedStep(batches: seq<seq<string>>, session: Session, i: nat, parse: Parser)
    requires i < |batches|
    ensures Captured(batches[..i + 1], session, parse)
      == Captured(batches[..i], session, parse) + BatchRecords(session(i, QueryText(batches[i])), parse)
  {
    assert batches[..i + 1][..i] == batches[..i];
  }

  /** One more row read after the records `before`: a failed row adds nothing, a read row its record. */
  lemma RowRecordsStep(before: seq<Record>, rows: seq<Option<Cells>>, j: nat, parse: Parser)
    requires j < |rows|
    ensures rows[j].None? ==> before + RowRecords(rows[..j + 1], parse) == before + RowRecords(rows[..j], parse)
    ensures rows[j].Some? ==>
      before + RowRecords(rows[..j + 1], parse) == before + RowRecords(rows[..j], parse) + [parse(rows[j].value)]
  {
    assert rows[..j + 1][..j] == rows[..j];
  }

  lemma {:induction false} CapturedPrefix(batches: seq<seq<string>>, session: Session, n: nat, parse: Parser)
    requires n <= |batches|
    ensures Captured(batches[..n], session, parse) <= Captured(batches, session, parse)
    decreases |batches|
  {
    if n < |batches| {
      var m := |batches| - 1;
      assert batches[..m][..n] == batches[..n];
      CapturedPrefix(batches[..m], session, n, parse);
      var last := BatchRecords(session(m, QueryText(batches[m])), parse);
      assert Captured(batches, session, parse) == Captured(batches[..m], session, parse) + last;
    } else {
      assert batches[..n] == batches;
    }
  }

  /**
   * Append-only: what has been collected after the first `n` batches is a
   * prefix of the final result; no later row removes or overwrites it.
   */
  lemma HarvestAppendOnly(batches: seq<seq<string>>, session: Session, n: nat, parse: Parser)
    requires n <= |batches|
    ensures Harvested(batches[..n], session, parse) <= Harvested(batches, session, parse)
  {
    var all := Captured(batches, session, parse);
    var early := Captured(batches[..n], session, parse);
    CapturedPrefix(batches, session, n, parse);
    assert all[..|early|] == early;
    DedupPrefix(all, |early|, IdOf);
  }

  /**
   * First seen wins: when batch `i` yields a record for some ID, the result
   * holds a record with that ID (only one, as its IDs are distinct), and it was captured by
   * batch `i` or an earlier one, whatever later batches return for the ID.
   */
  lemma EarlierBatchWins(batches: seq<seq<string>>, session: Session, i: nat, a: Record, parse: Parser)
    requires i < |batches|
    requires a in BatchRecords(session(i, QueryText(batches[i])), parse)
    ensures exists k :: (0 <= k < |Harvested(batches, session, parse)|
      && IdOf(Harvested(batches, session, parse)[k]) == IdOf(a))
    ensures forall k :: (0 <= k < |Harvested(batches, session, parse)|
      && IdOf(Harvested(batches, session, parse)[k]) == IdOf(a)
      ==> Harvested(batches, session, parse)[k] in Captured(batches[..i + 1], session, parse))
  {
    var all := Captured(batches, session, parse);
    var early := Captured(batches[..i + 1], session, parse);
    CapturedStep(batches, session, i, parse);
    CapturedPrefix(batches, session, i + 1, parse);
    assert all[..|early|] == early;
    var result := Harvested(batches, session, parse);
    assert result == DedupBy(all, IdOf);
    DedupKeepsEarliest(all, IdOf, |early|, a);
    var k :| 0 <= k < |result| && IdOf(result[k]) == IdOf(a);
    forall k | 0 <= k < |result| && IdOf(result[k]) == IdOf(a)
      ensures result[k] in early
    {
      assert result[k] in all[..|early|];
    }
  }

  /** A failed row contributes nothing, wherever it sits. */
  lemma {:induction false} FailedRowIgnored(rows: seq<Option<Cells>>, j: nat, parse: Parser)
    requires j < |rows| && rows[j] == None
    ensures RowRecords(rows, parse) == RowRecords(rows[..j] + rows[j + 1..], parse)
    decreases |rows|
  {
    var m := |rows| - 1;
    if j == m {
      assert rows[..j] + rows[j + 1..] == rows[..m];
    } else {
      var shorter := rows[..j] + rows[j + 1..];
      assert shorter[..|shorter| - 1] == rows[..m][..j] + rows[..m][j + 1..];
      assert shorter[|shorter| - 1] == rows[m];
      FailedRowIgnored(rows[..m], j, parse);
    }
  }

  /**
   * A batch that fails before its rows are read counts as a batch that
   * returned no rows: every other batch contributes as before.
   */
  lemma {:induction false} FailedBatchIsEmptyBatch(batches: seq<seq<string>>, s1: Session, s2: Session, i: nat, parse: Parser)
    requires i < |batches|
    requires s1(i, QueryText(batches[i])) == None && s2(i, QueryText(batches[i])) == Some([])
    requires forall k :: 0 <= k < |batches| && k != i ==>
      s1(k, QueryText(batches[k])) == s2(k, QueryText(batches[k]))
    ensures Captured(batches, s1, parse) == Captured(batches, s2, parse)
    ensures Harvested(batches, s1, parse) == Harvested(batches, s2, parse)
    decreases |batches|
  {
    var m := |batches| - 1;
    var front := batches[..m];
    var last := QueryText(batches[m]);
    if i < m {
      assert forall k :: 0 <= k < m ==> front[k] == batches[k];
      FailedBatchIsEmptyBatch(front, s1, s2, i, parse);
      assert s1(m, last) == s2(m, last);
    } else {
      assert forall k :: 0 <= k < m ==> front[k] == batches[k];
      CapturedSameSessions(front, s1, s2, parse);
      assert BatchRecords(s1(m, last), parse) == [] == BatchRecords(s2(m, last), parse);
    }
    assert Captured(batches, s1, parse) == Captured(front, s1, parse) + BatchRecords(s1(m, last), parse);
    assert Captured(batches, s2, parse) == Captured(front, s2, parse) + BatchRecords(s2(m, last), parse);
  }

  lemma {:induction false} CapturedSameSessions(batches: seq<seq<string>>, s1: Session, s2: Session, parse: Parser)
    requires forall k :: 0 <= k < |batches| ==>
      s1(k, QueryText(batches[k])) == s2(k, QueryText(batches[k]))
    ensures Captured(batches, s1, parse) == Captured(batches, s2, parse)
    decreases |batches|
  {
    if batches != [] {
      var m := |batches| - 1;
      var front := batches[..m];
      var last := QueryText(batches[m]);
      assert forall k :: 0 <= k < m ==> front[k] == batches[k];
      CapturedSameSessions(front, s1, s2, parse);
      assert s1(m, last) == s2(m, last);
    }
  }

  // ---------------------------------------------------------------------
  // Reconciliation: the requested IDs never captured, sorted
  // ---------------------------------------------------------------------

  /** The requested IDs outside `captured`, in request order. */
  function NotCaptured(requested: seq<string>, captured: set<string>): (r: seq<string>)
    ensures forall x :: x in r <==> x in requested && x !in captured
  {
    if requested == [] then []
    else
      var rest := NotCaptured(requested[1..], captured);
      assert forall x :: x in requested <==> x == requested[0] || x in requested[1..];
      if requested[0] in captured then rest else [requested[0]] + rest
  }

  /**
   * The missing IDs: sorted, without duplicates, exactly the requested IDs
   * that were not captured, and empty exactly when every requested ID was.
   */
  function MissingIds(requested: seq<string>, captured: set<string>): (missing: seq<string>)
    ensures StringOrder.StrictlySorted(missing)
    ensures forall i, j :: 0 <= i < j < |missing| ==> missing[i] != missing[j]
    ensures forall x :: x in missing <==> x in requested && x !in captured
    ensures missing == [] <==> forall x :: x in requested ==> x in captured
  {
    var missing := StringOrder.SortedDistinct(NotCaptured(requested, captured));
    StringOrder.SortedIsDistinct(missing);
    assert missing != [] ==> missing[0] in missing;
    missing
  }

  /** The report is the one sorted listing of the set difference. */
  lemma MissingIdsIsTheSortedDifference(requested: seq<string>, captured: set<string>, listing: seq<string>)
    requires StringOrder.StrictlySorted(listing)
    requires forall x :: x in listing <==> x in requested && x !in captured
    ensures listing == MissingIds(requested, captured)
  {
    StringOrder.SortedListingUnique(listing, MissingIds(requested, captured));
  }

  // ---------------------------------------------------------------------
  // The whole run
  // ---------------------------------------------------------------------

  /**
   * What the run leaves behind: the records written to the output file
   * (`None` when the file is not written) and the report of missing IDs.
   */
  datatype Report = Report(written: Option<seq<Record>>, missing: seq<string>)

  /** Write only a non-empty result; reconcile against the captured IDs. */
  function Finish(requested: seq<string>, allResults: seq<Record>): (r: Report)
    ensures r.written.Some? <==> allResults != []
    ensures r.written.Some? ==> r.written.value == allResults
    ensures StringOrder.StrictlySorted(r.missing)
    ensures forall x :: x in r.missing <==>
      x in requested && forall k :: 0 <= k < |allResults| ==> allResults[k].digitalFileId != x
  {
    Report(
      if allResults != [] then Some(allResults) else None,
      MissingIds(requested, KeySet(allResults, IdOf)))
  }

  /** The run as a function of the ID column and the browser. */
  function Pipeline(column: seq<Option<string>>, session: Session): Report {
    var ids := NormalizeIds(column);
    Finish(ids, Harvested(Batches(ids, BATCH_SIZE), session, ParseRow))
  }

  /** The script: normalise, batch, harvest, then write and reconcile. */
  method Run(column: seq<Option<string>>, session: Session) returns (report: Report)
    ensures report == Pipeline(column, session)
  {
    var fileIds := NormalizeIds(column);
    var batches := Batches(fileIds, BATCH_SIZE);
    var allResults, scrapedIds := Harvest(batches, session, ParseRow);
    var written := if allResults != [] then Some(allResults) else None;
    report := Report(written, MissingIds(fileIds, scrapedIds));
  }

  /**
   * The outcome of a run: the file is written exactly when some record was
   * captured, its records have distinct IDs, and the missing IDs are the
   * sorted requested IDs for which no record was captured, empty exactly
   * when every requested ID was captured.
   */
  lemma PipelineOutcome(column: seq<Option<string>>, session: Session)
    ensures var ids := NormalizeIds(column);
      var captured := Captured(Batches(ids, BATCH_SIZE), session, ParseRow);
      var report := Pipeline(column, session);
      && (report.written.Some? <==> captured != [])
      && (report.written.Some? ==> DistinctKeys(report.written.value, IdOf))
      && StringOrder.StrictlySorted(report.missing)
      && (forall x :: x in report.missing <==> Some(x) in column && x !in KeySet(captured, IdOf))
      && (report.missing == [] <==> forall x :: Some(x) in column ==> x in KeySet(captured, IdOf))
  {
    var ids := NormalizeIds(column);
    var captured := Captured(Batches(ids, BATCH_SIZE), session, ParseRow);
    var result := DedupBy(captured, IdOf);
    assert captured != [] ==> IdOf(captured[0]) in KeySet(captured, IdOf);
    assert result != [] ==> IdOf(result[0]) in KeySet(result, IdOf);
  }

  /** With nothing captured, nothing is written and every requested ID is reported missing. */
  lemma NothingCapturedAllMissing(column: seq<Option<string>>, session: Session)
    requires Pipeline(column, session).written.None?
    ensures Pipeline(column, session).missing == StringOrder.SortedDistinct(NormalizeIds(column))
  {
    var ids := NormalizeIds(column);
    var captured := Captured(Batches(ids, BATCH_SIZE), session, ParseRow);
    var result := DedupBy(captured, IdOf);
    assert KeySet(result, IdOf) == {};
    StringOrder.SortedListingUnique(Pipeline(column, session).missing, StringOrder.SortedDistinct(ids));
  }

  // ---------------------------------------------------------------------
  // Worked examples
  // ---------------------------------------------------------------------

  /** A cell holding only a file ID, with everything else empty. */
  function IdCell(id: string): Cells { Cells("", "", "", "", id) }

  /** `"ID1\nPN2\nGL3"` gives the three sub-fields; `"ID1"` alone leaves the other two empty. */
  lemma CompoundCellExamples()
    ensures var r := ParseRow(IdCell("ID1\nPN2\nGL3"));
      r.digitalFileId == "ID1" && r.photographNumber == "PN2" && r.glimsId == "GL3"
    ensures var r := ParseRow(IdCell("ID1"));
      r.digitalFileId == "ID1" && r.photographNumber == "" && r.glimsId == ""
  {
    var three := ["ID1", "PN2", "GL3"];
    assert Join(three[2..], '\n') == "GL3";
    assert Join(three[1..], '\n') == "PN2\nGL3";
    assert Join(three, '\n') == "ID1\nPN2\nGL3";
    assert !IsSpace(three[0][0]);
    StripUnpadded("ID1");
    StripUnpadded("PN2");
    StripUnpadded("GL3");
    CompoundCellPositional(IdCell("ID1\nPN2\nGL3"), three);
    CompoundCellPositional(IdCell("ID1"), ["ID1"]);
  }

  /** A record whose file ID is `id` and whose other fields are empty. */
  lemma IdCellRecord(id: string)
    requires id != [] && '\n' !in id && !IsSpace(id[0]) && !IsSpace(id[|id| - 1])
    ensures ParseRow(IdCell(id)).digitalFileId == id
  {
    StripUnpadded(id);
    CompoundCellPositional(IdCell(id), [id]);
  }

  lemma RowRecordsOfOne(cells: Cells, parse: Parser)
    ensures RowRecords([Some(cells)], parse) == [parse(cells)]
  {
    assert [Some(cells)][..0] == [];
  }

  lemma RowRecordsOfTwo(first: Option<Cells>, second: Option<Cells>, parse: Parser)
    ensures RowRecords([first, second], parse) == RowRecords([first], parse) + RowRecords([second], parse)
  {
    assert [first, second][..1] == [first];
    assert [first][..0] == [] && [second][..0] == [];
  }

  lemma CapturedOfTwo(first: seq<string>, second: seq<string>, session: Session, parse: Parser)
    ensures Captured([first, second], session, parse)
      == BatchRecords(session(0, QueryText(first)), parse) + BatchRecords(session(1, QueryText(second)), parse)
  {
    var batches := [first, second];
    assert batches[..1] == [first] && batches[1] == second;
    assert [first][..0] == [] && [first][0] == first;
    assert Captured([first], session, parse) == BatchRecords(session(0, QueryText(first)), parse);
  }

  lemma DedupOfTwo(a: Record, b: Record)
    ensures DedupBy([a, b], IdOf) == if IdOf(a) == IdOf(b) then [a] else [a, b]
  {
    assert [a][..0] == [];
    KeySetSnoc([a], IdOf);
    DedupSnoc([a], b, IdOf);
  }

  /** Three IDs in batches of two: a full batch, then the remainder. */
  lemma ThreeInBatchesOfTwo()
    ensures Batches(["A1", "A2", "A3"], 2) == [["A1", "A2"], ["A3"]]
  {
    var ids := ["A1", "A2", "A3"];
    assert ids[0..2] == ["A1", "A2"] && ids[2..3] == ["A3"];
    assert BatchesFrom(ids, 2, 3) == [];
    assert BatchesFrom(ids, 2, 2) == [["A3"]];
  }

  /**
   * Three requested IDs in batches of two; the first batch yields A1 and
   * A2, the second times out.  A1 and A2 are captured and A3 is reported.
   */
  lemma SecondBatchTimesOut(session: Session, parse: Parser, c1: Cells, c2: Cells)
    requires parse(c1).digitalFileId == "A1" && parse(c2).digitalFileId == "A2"
    requires session(0, QueryText(["A1", "A2"])) == Some([Some(c1), Some(c2)])
    requires session(1, QueryText(["A3"])) == None
    ensures Harvested([["A1", "A2"], ["A3"]], session, parse) == [parse(c1), parse(c2)]
    ensures Finish(["A1", "A2", "A3"], Harvested([["A1", "A2"], ["A3"]], session, parse)).missing == ["A3"]
  {
    var r1, r2 := parse(c1), parse(c2);
    RowRecordsOfTwo(Some(c1), Some(c2), parse);
    RowRecordsOfOne(c1, parse);
    RowRecordsOfOne(c2, parse);
    CapturedOfTwo(["A1", "A2"], ["A3"], session, parse);
    assert Captured([["A1", "A2"], ["A3"]], session, parse) == [r1, r2];
    DedupOfTwo(r1, r2);
    assert IdOf(r1) != IdOf(r2);
    KeySetOfTwo(r1, r2);
    ThreeMissingOne();
  }

  lemma KeySetOfTwo(a: Record, b: Record)
    ensures KeySet([a, b], IdOf) == {IdOf(a), IdOf(b)}
  {
    KeySetSnoc([a, b], IdOf);
    assert [a, b][..1] == [a] && [a][..0] == [];
    KeySetSnoc([a], IdOf);
  }

  lemma ThreeMissingOne()
    ensures MissingIds(["A1", "A2", "A3"], {"A1", "A2"}) == ["A3"]
  {
    assert StringOrder.StrictlySorted(["A3"]);
    MissingIdsIsTheSortedDifference(["A1", "A2", "A3"], {"A1", "A2"}, ["A3"]);
  }

  /** When two batches each yield a record for the same ID, only the first batch's record is kept. */
  lemma RepeatedIdKeepsFirst(b0: seq<string>, b1: seq<string>, session: Session, parse: Parser, first: Cells, later: Cells)
    requires session(0, QueryText(b0)) == Some([Some(first)])
    requires session(1, QueryText(b1)) == Some([Some(later)])
    requires parse(first).digitalFileId == parse(later).digitalFileId
    ensures Harvested([b0, b1], session, parse) == [parse(first)]
  {
    RowRecordsOfOne(first, parse);
    RowRecordsOfOne(later, parse);
    CapturedOfTwo(b0, b1, session, parse);
    var a, b := parse(first), parse(later);
    assert Captured([b0, b1], session, parse) == [a, b];
    DedupOfTwo(a, b);
    assert IdOf(a) == IdOf(b);
  }
}
