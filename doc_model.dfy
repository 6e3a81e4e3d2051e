/** The parts of a word-processing document the converter reads and writes,
    as python-docx presents them: a body of paragraphs and tables, a table
    as rows of cells, a cell as paragraphs, a paragraph as runs. */
module DocModel {
  import opened Text

  /** A stretch of characters with one formatting; `bold` and `italic` are
      the run's own settings, `None` and `False` both read as false. */
  datatype Run = Run(text: string, bold: bool, italic: bool)

  type Paragraph = seq<Run>

  type Cell = seq<Paragraph>

  type TableRow = seq<Cell>

  type Table = seq<TableRow>

  /** One child of the document body, in document order. */
  datatype BodyElement =
    | Para(style: string, runs: Paragraph)
    | Tbl(rows: Table)
    | Other

  /** `paragraph.text`: the text of every run, concatenated. */
  function ParaText(p: Paragraph): string {
    if p == [] then [] else ParaText(p[..|p| - 1]) + p[|p| - 1].text
  }

  /** `cell.text`: the text of every paragraph, joined by line feeds. */
  function CellText(c: Cell): string {
    if c == [] then []
    else if |c| == 1 then ParaText(c[0])
    else CellText(c[..|c| - 1]) + "\n" + ParaText(c[|c| - 1])
  }

  /** `document.tables`: the tables of the body, in document order. */
  function Tables(body: seq<BodyElement>): (ts: seq<Table>)
    ensures |ts| <= |body|
  {
    if body == [] then []
    else
      var e := body[|body| - 1];
      Tables(body[..|body| - 1]) + (if e.Tbl? then [e.rows] else [])
  }

  /** The cell python-docx makes for `cell.text = s`: one paragraph holding
      one unformatted run. */
  function PlainCell(s: string): (c: Cell)
    ensures CellText(c) == s
  {
    assert ParaText([Run(s, false, false)]) == [] + s;
    [[Run(s, false, false)]]
  }

  /** Tables are found in body order, whatever else the body holds. */
  lemma {:induction false} TablesAppend(a: seq<BodyElement>, b: seq<BodyElement>)
    ensures Tables(a + b) == Tables(a) + Tables(b)
  {
    if b == [] {
      assert a + b == a;
    } else {
      var n := |b| - 1;
      assert (a + b)[..|a + b| - 1] == a + b[..n];
      TablesAppend(a, b[..n]);
    }
  }
}
