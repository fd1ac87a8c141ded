/**
 * Worked instances of `normalize_rows`: a header whose names differ in case
 * and surrounding whitespace, and a grid with a short row, a blank row and a
 * row longer than the header.
 */
module AppExamples {
  import opened Wrappers
  import opened Text
  import opened App

  /** The keys of the cells ` ID`, `Question ` and `ANSWER`. */
  lemma ExampleHeaderKeys()
    ensures HeaderKey(" ID") == "id"
    ensures HeaderKey("Question ") == "question"
    ensures HeaderKey("ANSWER") == "answer"
  {
    assert TrimStart(" ID") == "ID" by { assert " ID"[1..] == "ID"; }
    assert TrimEnd("ID") == "ID";
    assert TrimEnd("Question ") == "Question" by { assert "Question "[..8] == "Question"; }
  }

  /** Header names match whatever their case and surrounding whitespace,
      and a repeated name resolves to its first column. */
  lemma ExampleHeader()
    ensures HeaderColumns([" ID", "Question ", "ANSWER", "id"]) == Some(Columns(0, 1, 2))
  {
    ExampleHeaderKeys();
    var h := NormalizeHeader([" ID", "Question ", "ANSWER", "id"]);
    assert h[0] == "id" && h[1] == "question" && h[2] == "answer";
  }

  /** The header row `id, question, answer` resolves to columns 0, 1, 2. */
  lemma ExamplePlainHeader()
    ensures HeaderColumns(["id", "question", "answer"]) == Some(Columns(0, 1, 2))
  {
    var h := NormalizeHeader(["id", "question", "answer"]);
    assert HeaderKey("id") == "id" && HeaderKey("question") == "question" && HeaderKey("answer") == "answer";
    assert h[0] == "id" && h[1] == "question" && h[2] == "answer";
  }

  /** A short row reads its missing answer as empty, a row of blanks is
      blank, and a cell beyond the three columns is ignored. */
  lemma ExampleRowRecords()
    ensures RecordOf(["1", " Q1 "], Columns(0, 1, 2)) == Card("1", "Q1", "")
    ensures IsBlank(RecordOf(["", " ", ""], Columns(0, 1, 2)))
    ensures RecordOf(["2", "Q2", "A2", "x"], Columns(0, 1, 2)) == Card("2", "Q2", "A2")
  {
    assert Strip(" Q1 ") == "Q1" by {
      assert TrimStart(" Q1 ") == "Q1 " by { assert " Q1 "[1..] == "Q1 "; }
      assert "Q1 "[..2] == "Q1";
    }
    assert Strip(" ") == "" by { assert " "[1..] == ""; }
  }

  /** The blank middle row is skipped; the other two keep their order. The
      rows and columns are parameters fixed by the requires, rather than
      literals in the ensures, so that the verifier does not unfold the
      literal grid through `Records` all at once. */
  lemma ExampleRecords(rows: seq<seq<string>>, cols: Columns)
    requires rows == [["1", " Q1 "], ["", " ", ""], ["2", "Q2", "A2", "x"]] && cols == Columns(0, 1, 2)
    ensures Records(rows, cols) == [Card("1", "Q1", ""), Card("2", "Q2", "A2")]
  {
    ExampleRowRecords();
    RecordsStep(rows, 0, cols);
    RecordsStep(rows, 1, cols);
    RecordsStep(rows, 2, cols);
    assert rows[..0] == [] && rows[..3] == rows;
  }

  /** The whole grid: two cards out of three data rows. */
  lemma ExampleGrid()
    ensures Normalize([["id", "question", "answer"], ["1", " Q1 "], ["", " ", ""], ["2", "Q2", "A2", "x"]])
      == Success([Card("1", "Q1", ""), Card("2", "Q2", "A2")])
  {
    var values := [["id", "question", "answer"], ["1", " Q1 "], ["", " ", ""], ["2", "Q2", "A2", "x"]];
    ExamplePlainHeader();
    ExampleRecords(values[1..], Columns(0, 1, 2));
    assert values[0] == ["id", "question", "answer"];
  }
}
