/**
 * `normalize_rows` of the card service: turns the raw value grid read from
 * a spreadsheet (a header row followed by data rows, each a list of cells)
 * into the list of `{id, question, answer}` cards served to the game.
 */
module App {
  import opened Wrappers
  import opened Text

  /** One card record: the trimmed id, question and answer of a data row. */
  datatype Card = Card(id: string, question: string, answer: string)

  /** The exception `normalize_rows` raises. */
  datatype NormalizeError = RuntimeError(message: string)

  const MissingHeadersMessage := "Sheet must include headers: id, question, answer (row 1)"

  /** The column positions of the three required headers. */
  datatype Columns = Columns(id: nat, question: nat, answer: nat)

  /** One row of the sheet: a list of cells that the parser may extend in
      place, so that the caller sees the padded row afterwards. */
  class Row {
    var cells: seq<string>

    constructor (cells: seq<string>)
      ensures this.cells == cells
    {
      this.cells := cells;
    }

    /** `while len(row) < width: row.append("")`. */
    method PadTo(width: nat)
      modifies this
      ensures cells == Padded(old(cells), width)
    {
      while |cells| < width
        invariant |old(cells)| <= |cells| && cells == old(cells) + Blanks(|cells| - |old(cells)|)
        invariant |cells| <= width || cells == old(cells)
      {
        cells := cells + [""];
      }
    }
  }

  /** The cells of every row, in row order. */
  function Grid(values: seq<Row>): seq<seq<string>>
    reads values
  {
    seq(|values|, i requires 0 <= i < |values| reads values => values[i].cells)
  }

  // ---------------------------------------------------------------------
  // Header

  /** A header cell as it is compared: stripped, then lower-cased. */
  function HeaderKey(cell: string): string {
    Lower(Strip(cell))
  }

  /** The normalised header: one key per header cell, in column order. */
  function NormalizeHeader(row: seq<string>): seq<string> {
    seq(|row|, i requires 0 <= i < |row| => HeaderKey(row[i]))
  }

  /** `header.index(name)`, with `ValueError` turned into `None`: the first
      position holding `name`, or `None` exactly when `name` is absent. */
  function ColIndex(header: seq<string>, name: string): (r: Option<nat>)
    ensures r.Some? ==> r.value < |header| && header[r.value] == name
    ensures r.Some? ==> forall j :: 0 <= j < r.value ==> header[j] != name
    ensures r.None? <==> name !in header
  {
    if header == [] then None
    else if header[0] == name then Some(0)
    else match ColIndex(header[1..], name)
      case None => None
      case Some(i) => Some(i + 1)
  }

  /** The header cell at `i` is the first one whose key is `name`. */
  predicate FirstKeyed(row: seq<string>, name: string, i: nat) {
    i < |row| && HeaderKey(row[i]) == name &&
    forall j :: 0 <= j < i ==> HeaderKey(row[j]) != name
  }

  /** Some header cell has key `name`. */
  predicate HasKey(row: seq<string>, name: string) {
    exists i :: 0 <= i < |row| && HeaderKey(row[i]) == name
  }

  /** Looking `name` up in the normalised header finds the first cell whose
      key is `name`, and finds nothing exactly when no cell has that key. */
  lemma LookupColumn(row: seq<string>, name: string)
    ensures ColIndex(NormalizeHeader(row), name).Some? ==>
      FirstKeyed(row, name, ColIndex(NormalizeHeader(row), name).value)
    ensures ColIndex(NormalizeHeader(row), name).None? <==> !HasKey(row, name)
  {
    var header := NormalizeHeader(row);
    assert |header| == |row|;
    assert forall j :: 0 <= j < |row| ==> header[j] == HeaderKey(row[j]);
    match ColIndex(header, name)
    case Some(i) =>
      assert header[i] == name;
    case None =>
  }

  /** The three column lookups on the header row (`id_i`, `q_i`, `a_i`);
      found columns lie within the header. */
  function HeaderColumns(row: seq<string>): (r: Option<Columns>)
    ensures r.Some? ==> r.value.id < |row| && r.value.question < |row| && r.value.answer < |row|
  {
    var header := NormalizeHeader(row);
    var idI := ColIndex(header, "id");
    var qI := ColIndex(header, "question");
    var aI := ColIndex(header, "answer");
    if idI.None? || qI.None? || aI.None? then None
    else Some(Columns(idI.value, qI.value, aI.value))
  }

  /** Each found column is the first whose stripped, lower-cased name
      matches, and the lookup fails exactly when one of the three names
      matches no column. */
  lemma HeaderColumnsSpec(row: seq<string>)
    ensures HeaderColumns(row).Some? ==>
      var cols := HeaderColumns(row).value;
      FirstKeyed(row, "id", cols.id) && FirstKeyed(row, "question", cols.question) &&
      FirstKeyed(row, "answer", cols.answer)
    ensures HeaderColumns(row).None? <==>
      !(HasKey(row, "id") && HasKey(row, "question") && HasKey(row, "answer"))
  {
    LookupColumn(row, "id");
    LookupColumn(row, "question");
    LookupColumn(row, "answer");
  }

  // ---------------------------------------------------------------------
  // Data rows

  /** The cell of `row` at column `i`, reading a missing cell as `""`. */
  function CellAt(row: seq<string>, i: nat): string {
    if i < |row| then row[i] else ""
  }

  /** `n` empty cells. */
  function Blanks(n: nat): (r: seq<string>)
    ensures |r| == n && forall i :: 0 <= i < n ==> r[i] == ""
  {
    seq(n, _ => "")
  }

  /** A row after `while len(row) < width: row.append("")` (PaddedSpec says
      what it keeps and what it adds). */
  function Padded(row: seq<string>, width: nat): seq<string> {
    if |row| >= width then row else row + Blanks(width - |row|)
  }

  /** A padded row is at least `width` cells long, every existing cell is
      kept, every cell it gains is empty, a row already that long is left as
      it is, and so every column below `width` can be indexed and holds the
      row's cell there, or `""` where the row had none. */
  lemma PaddedSpec(row: seq<string>, width: nat)
    ensures |Padded(row, width)| >= width && Padded(row, width)[..|row|] == row
    ensures forall i :: |row| <= i < |Padded(row, width)| ==> Padded(row, width)[i] == ""
    ensures |row| >= width ==> Padded(row, width) == row
    ensures forall i :: 0 <= i < width ==> Padded(row, width)[i] == CellAt(row, i)
  {
  }

  /** Padding twice pads once. */
  lemma PaddedIdempotent(row: seq<string>, width: nat)
    ensures Padded(Padded(row, width), width) == Padded(row, width)
  {
  }

  /** The record a data row yields: its three trimmed cells. */
  function RecordOf(row: seq<string>, cols: Columns): Card {
    Card(Strip(CellAt(row, cols.id)), Strip(CellAt(row, cols.question)), Strip(CellAt(row, cols.answer)))
  }

  /** Padding a row to a width that covers the three columns does not
      change the record it yields. */
  lemma RecordOfPadded(row: seq<string>, width: nat, cols: Columns)
    requires cols.id < width && cols.question < width && cols.answer < width
    ensures RecordOf(Padded(row, width), cols) == RecordOf(row, cols)
  {
    var p := Padded(row, width);
    PaddedSpec(row, width);
    assert CellAt(p, cols.id) == CellAt(row, cols.id);
    assert CellAt(p, cols.question) == CellAt(row, cols.question);
    assert CellAt(p, cols.answer) == CellAt(row, cols.answer);
  }

  /** The skip rule: id, question and answer are all empty. */
  predicate IsBlank(c: Card) {
    c.id == "" && c.question == "" && c.answer == ""
  }

  /** The records the loop emits for `rows`, in row order, skipping blank ones. */
  function Records(rows: seq<seq<string>>, cols: Columns): seq<Card> {
    if rows == [] then []
    else
      var rec := RecordOf(rows[|rows| - 1], cols);
      Records(rows[..|rows| - 1], cols) + (if IsBlank(rec) then [] else [rec])
  }

  /** Extending the rows by one more extends the records by that row's
      record unless it is blank. */
  lemma RecordsStep(rows: seq<seq<string>>, k: nat, cols: Columns)
    requires k < |rows|
    ensures Records(rows[..k + 1], cols) ==
      Records(rows[..k], cols) + (if IsBlank(RecordOf(rows[k], cols)) then [] else [RecordOf(rows[k], cols)])
  {
    assert rows[..k + 1][..k] == rows[..k];
  }

  /** `normalize_rows(values)` on the grid as the caller passed it in. */
  function Normalize(values: seq<seq<string>>): (r: Result<seq<Card>, NormalizeError>)
    ensures |values| < 2 ==> r == Success([])
    ensures r.Failure? ==> r.error == RuntimeError(MissingHeadersMessage)
  {
    if |values| < 2 then Success([])
    else match HeaderColumns(values[0])
      case None => Failure(RuntimeError(MissingHeadersMessage))
      case Some(cols) => Success(Records(values[1..], cols))
  }

  // ---------------------------------------------------------------------
  // Properties of the parser

  /** The header lookup ignores ASCII letter case: cells that lower-case to
      the same text have the same key. */
  lemma HeaderKeyIgnoresCase(a: string, b: string)
    requires Lower(a) == Lower(b)
    ensures HeaderKey(a) == HeaderKey(b)
  {
    StripLowerCommute(a);
    StripLowerCommute(b);
  }

  /** The header lookup ignores whitespace around a header cell. */
  lemma HeaderKeyIgnoresSurroundingSpace(ws1: string, cell: string, ws2: string)
    requires AllSpace(ws1) && AllSpace(ws2)
    ensures HeaderKey(ws1 + cell + ws2) == HeaderKey(cell)
  {
    StripIgnoresSurroundingSpace(ws1, cell, ws2);
  }

  /** With at least two rows, parsing fails exactly when one of `id`,
      `question`, `answer` names no header cell; it then yields no records. */
  lemma NormalizeFailsIff(values: seq<seq<string>>)
    ensures Normalize(values).Failure? <==>
      |values| >= 2 && !(HasKey(values[0], "id") && HasKey(values[0], "question") && HasKey(values[0], "answer"))
  {
    if |values| >= 2 {
      HeaderColumnsSpec(values[0]);
    }
  }

  /** Each record comes from a different row, so there are at most as many
      records as rows. */
  lemma {:induction false} RecordsLength(rows: seq<seq<string>>, cols: Columns)
    ensures |Records(rows, cols)| <= |rows|
  {
    if rows != [] {
      RecordsLength(rows[..|rows| - 1], cols);
    }
  }

  /** The output never has more records than the grid has data rows. */
  lemma NormalizeCount(values: seq<seq<string>>)
    requires Normalize(values).Success?
    ensures |Normalize(values).value| <= if |values| < 2 then 0 else |values| - 1
  {
    if |values| >= 2 {
      RecordsLength(values[1..], HeaderColumns(values[0]).value);
    }
  }

  /** The positions of the rows that are kept: increasing positions of
      `rows` (KeptIndicesSpec says which). */
  function KeptIndices(rows: seq<seq<string>>, cols: Columns): (idx: seq<nat>)
    ensures forall k :: 0 <= k < |idx| ==> idx[k] < |rows|
    ensures forall k, l :: 0 <= k < l < |idx| ==> idx[k] < idx[l]
  {
    if rows == [] then []
    else
      var n := |rows| - 1;
      KeptIndices(rows[..n], cols) + (if IsBlank(RecordOf(rows[n], cols)) then [] else [n])
  }

  /** A row is kept exactly when its trimmed id, question and answer are not
      all empty: a row with one non-empty field is kept. */
  lemma {:induction false} KeptIndicesSpec(rows: seq<seq<string>>, cols: Columns)
    ensures forall i :: 0 <= i < |rows| ==> (i in KeptIndices(rows, cols) <==> !IsBlank(RecordOf(rows[i], cols)))
  {
    if rows != [] {
      var n := |rows| - 1;
      KeptIndicesSpec(rows[..n], cols);
      var prefix := KeptIndices(rows[..n], cols);
      forall i | 0 <= i < |rows| ensures i in KeptIndices(rows, cols) <==> !IsBlank(RecordOf(rows[i], cols)) {
        if i < n {
          assert rows[..n][i] == rows[i];
        } else {
          assert n !in prefix;
        }
      }
    }
  }

  /** The records are the kept rows' records, one per kept row, in row
      order. */
  lemma {:induction false} RecordsFollowKeptIndices(rows: seq<seq<string>>, cols: Columns)
    ensures |Records(rows, cols)| == |KeptIndices(rows, cols)|
    ensures forall k :: 0 <= k < |Records(rows, cols)| ==>
      Records(rows, cols)[k] == RecordOf(rows[KeptIndices(rows, cols)[k]], cols)
  {
    if rows != [] {
      var n := |rows| - 1;
      RecordsFollowKeptIndices(rows[..n], cols);
      var idx := KeptIndices(rows[..n], cols);
      assert forall k :: 0 <= k < |idx| ==> rows[..n][idx[k]] == rows[idx[k]];
    }
  }

  /** What `normalize_rows` returns once the header is good: one card per
      data row that is not blank, in row order (the header row is never one
      of them), each holding the trimmed cells of its row at the `id`,
      `question` and `answer` columns, a cell missing from a short row
      reading as empty; a data row is kept exactly when it is not blank. */
  lemma NormalizeInRowOrder(values: seq<seq<string>>)
    requires |values| >= 2 && HeaderColumns(values[0]).Some?
    ensures
      var cols := HeaderColumns(values[0]).value;
      var idx := KeptIndices(values[1..], cols);
      var out := Normalize(values);
      && out.Success? && |out.value| == |idx|
      && (forall k :: 0 <= k < |idx| ==>
           && 1 + idx[k] < |values|
           && out.value[k].id == Strip(CellAt(values[1 + idx[k]], cols.id))
           && out.value[k].question == Strip(CellAt(values[1 + idx[k]], cols.question))
           && out.value[k].answer == Strip(CellAt(values[1 + idx[k]], cols.answer)))
      && forall i :: 0 <= i < |values| - 1 ==> (i in idx <==> !IsBlank(RecordOf(values[1 + i], cols)))
  {
    RecordsFollowKeptIndices(values[1..], HeaderColumns(values[0]).value);
    KeptIndicesSpec(values[1..], HeaderColumns(values[0]).value);
  }

  /** The three column cells of two rows agree. */
  predicate SameAtColumns(a: seq<string>, b: seq<string>, cols: Columns) {
    CellAt(a, cols.id) == CellAt(b, cols.id) &&
    CellAt(a, cols.question) == CellAt(b, cols.question) &&
    CellAt(a, cols.answer) == CellAt(b, cols.answer)
  }

  /** Rows that agree at the three columns yield the same records. */
  lemma {:induction false} RecordsDependOnlyOnColumns(rows1: seq<seq<string>>, rows2: seq<seq<string>>, cols: Columns)
    requires |rows1| == |rows2|
    requires forall i :: 0 <= i < |rows1| ==> SameAtColumns(rows1[i], rows2[i], cols)
    ensures Records(rows1, cols) == Records(rows2, cols)
  {
    if rows1 != [] {
      var n := |rows1| - 1;
      RecordsDependOnlyOnColumns(rows1[..n], rows2[..n], cols);
    }
  }

  /** Cells outside the `id`, `question` and `answer` columns never affect
      the output: two grids whose headers resolve to the same columns and
      whose data rows agree at those columns parse the same. */
  lemma NormalizeIgnoresOtherColumns(values1: seq<seq<string>>, values2: seq<seq<string>>)
    requires |values1| == |values2| >= 1
    requires HeaderColumns(values1[0]) == HeaderColumns(values2[0])
    requires HeaderColumns(values1[0]).Some? ==>
      forall i :: 1 <= i < |values1| ==> SameAtColumns(values1[i], values2[i], HeaderColumns(values1[0]).value)
    ensures Normalize(values1) == Normalize(values2)
  {
    if |values1| >= 2 && HeaderColumns(values1[0]).Some? {
      RecordsDependOnlyOnColumns(values1[1..], values2[1..], HeaderColumns(values1[0]).value);
    }
  }

  // ---------------------------------------------------------------------
  // The parser itself

  /** The body of the row loop: pads `row` in place to `width` cells, then
      reads its trimmed id, question and answer; `None` when all three are
      empty (the row is skipped). */
  method ReadRow(row: Row, width: nat, cols: Columns) returns (rec: Option<Card>)
    requires cols.id < width && cols.question < width && cols.answer < width
    modifies row
    ensures row.cells == Padded(old(row.cells), width)
    ensures rec == if IsBlank(RecordOf(old(row.cells), cols)) then None else Some(RecordOf(old(row.cells), cols))
  {
    row.PadTo(width);
    var id := Strip(row.cells[cols.id]);
    var q := Strip(row.cells[cols.question]);
    var a := Strip(row.cells[cols.answer]);
    if id == "" && q == "" && a == "" {
      return None;
    }
    return Some(Card(id, q, a));
  }

  /** The loop `for row in values[1:]`: pads every data row in place to
      `width` cells and collects the records of the non-blank ones, in row
      order. */
  method PadAndCollect(rows: seq<Row>, width: nat, cols: Columns) returns (out: seq<Card>)
    requires cols.id < width && cols.question < width && cols.answer < width
    modifies set i | 0 <= i < |rows| :: rows[i]
    ensures out == Records(old(Grid(rows)), cols)
    ensures forall i :: 0 <= i < |rows| ==> rows[i].cells == Padded(old(rows[i].cells), width)
  {
    ghost var grid := Grid(rows);
    out := [];
    for k := 0 to |rows|
      invariant out == Records(grid[..k], cols)
      invariant forall i :: 0 <= i < k ==> rows[i].cells == Padded(grid[i], width)
      invariant forall i :: k <= i < |rows| ==>
        rows[i].cells == grid[i] || rows[i].cells == Padded(grid[i], width)
    {
      label Before:
      assert RecordOf(rows[k].cells, cols) == RecordOf(grid[k], cols) by {
        RecordOfPadded(grid[k], width, cols);
      }
      var rec := ReadRow(rows[k], width, cols);
      forall i | 0 <= i <= k ensures rows[i].cells == Padded(grid[i], width) {
        PaddedIdempotent(grid[i], width);
        if i < k && rows[i] != rows[k] {
          assert rows[i].cells == old@Before(rows[i].cells);
        }
      }
      assert Records(grid[..k + 1], cols) == out + (if rec.Some? then [rec.value] else []) by {
        RecordsStep(grid, k, cols);
      }
      if rec.Some? {
        out := out + [rec.value];
      }
    }
    assert grid[..|rows|] == grid;
  }

  /** `normalize_rows(values)`. The result is `Normalize` of the grid as it
      was passed in. When it gets past the header check, every data row has
      been padded in place to the header's width; otherwise no row changes. */
  method NormalizeRows(values: seq<Row>) returns (r: Result<seq<Card>, NormalizeError>)
    modifies set i | 1 <= i < |values| :: values[i]
    ensures r == Normalize(old(Grid(values)))
    ensures (|values| < 2 || old(HeaderColumns(values[0].cells)).None?) ==>
      forall i :: 0 <= i < |values| ==> values[i].cells == old(values[i].cells)
    ensures (|values| >= 2 && old(HeaderColumns(values[0].cells)).Some?) ==>
      forall i :: 1 <= i < |values| ==> values[i].cells == Padded(old(values[i].cells), old(|values[0].cells|))
  {
    if |values| < 2 {
      return Success([]);
    }
    var width := |values[0].cells|;
    var found := HeaderColumns(values[0].cells);
    if found.None? {
      return Failure(RuntimeError(MissingHeadersMessage));
    }
    ghost var grid := Grid(values);
    assert Grid(values[1..]) == grid[1..];
    var out := PadAndCollect(values[1..], width, found.value);
    return Success(out);
  }
}
