/** `extract_word_document_to_csv_format` (src/figma_copy_workflow/helpers.py:347-574):
    records read from any document, with no source CSV. Headings set the
    current section; every table row that is not a header row is read as
    (Label, Text, ID), (ID, Label, Text), (Label, Text) or a single text
    column, ids are invented as `generated_<n>` where none is found, and rows
    with blank text are dropped. */
module Infer {
  import opened Wrappers
  import opened Text
  import opened OrderedMap
  import opened CsvStore
  import opened DocModel
  import opened RichText

  /** The section before the first heading. */
  const DefaultSection: string := "General Content"

  /** The layer name of a record whose label is blank. */
  const DefaultLayer: string := "Content"

  const GeneratedPrefix: string := "generated_"

  /** The lower-cased style name contains `heading` or `title`. */
  predicate IsHeadingStyle(style: string) {
    Contains(Lower(style), "heading") || Contains(Lower(style), "title")
  }

  /** The section a body element starts, if any: a heading or title
      paragraph with non-blank text starts the section named by that text,
      trimmed. */
  function SectionOf(e: BodyElement): Option<string> {
    if e.Para? && IsHeadingStyle(e.style) && Trim(ParaText(e.runs)) != [] then
      Some(Trim(ParaText(e.runs)))
    else
      None
  }

  /** The section in force after the elements `es`. */
  function SectionAfter(es: seq<BodyElement>): string {
    if es == [] then DefaultSection
    else
      match SectionOf(es[|es| - 1])
      case Some(s) => s
      case None => SectionAfter(es[..|es| - 1])
  }

  /** The section in force is that of the last element that starts one. */
  lemma {:induction false} SectionIsLatestHeading(es: seq<BodyElement>, j: nat)
    requires j < |es| && SectionOf(es[j]).Some?
    requires forall l :: j < l < |es| ==> SectionOf(es[l]).None?
    ensures SectionAfter(es) == SectionOf(es[j]).value
  {
    var n := |es| - 1;
    if j < n {
      assert forall l :: j < l < n ==> es[..n][l] == es[l];
      SectionIsLatestHeading(es[..n], j);
    }
  }

  /** Before any element that starts a section, the section is the default. */
  lemma {:induction false} SectionDefault(es: seq<BodyElement>)
    requires forall l :: 0 <= l < |es| ==> SectionOf(es[l]).None?
    ensures SectionAfter(es) == DefaultSection
  {
    if es != [] {
      var n := |es| - 1;
      assert forall l :: 0 <= l < n ==> es[..n][l] == es[l];
      SectionDefault(es[..n]);
    }
  }

  /** `cell.text.strip().lower()`. */
  function CellKey(c: Cell): string {
    Lower(Trim(CellText(c)))
  }

  /** A header row: every cell's text, trimmed and lower-cased, is the
      column title the builder writes or an accepted synonym. */
  predicate IsHeaderRow(cells: TableRow) {
    || (&& |cells| == 3
        && CellKey(cells[0]) in ["label", "component"]
        && CellKey(cells[1]) in ["text", "description"]
        && CellKey(cells[2]) in ["id"])
    || (&& |cells| == 2
        && CellKey(cells[0]) in ["label", "component"]
        && CellKey(cells[1]) in ["text", "description"])
  }

  /** A cell holding a word with no blank at either end keys as that word,
      lower-cased. */
  lemma CellKeyOfWord(c: Cell, s: string)
    requires CellText(c) == s && NoEdge(s, Whitespace)
    ensures CellKey(c) == Lower(s)
  {
    TrimClean(s);
  }

  /** The column titles the builder writes have no blank at either end and
      key as a header row expects. */
  lemma LabelKey()
    ensures NoEdge("Label", Whitespace) && Lower("Label") == "label"
  {
  }

  lemma TextKey()
    ensures NoEdge("Text", Whitespace) && Lower("Text") == "text"
  {
  }

  lemma IdKey()
    ensures NoEdge("ID", Whitespace) && Lower("ID") == "id"
  {
  }

  /** The heuristic for an id column: non-empty, containing `:`, `;`,
      `I2016`, `I-`, `_` or `-`, and longer than ten characters. */
  predicate LooksLikeId(t: string) {
    && |t| > 0
    && (|| Contains(t, ":") || Contains(t, ";") || Contains(t, "I2016")
        || Contains(t, "I-") || Contains(t, "_") || Contains(t, "-"))
    && |t| > 10
  }

  /** An id read from the row, or one still to be invented. */
  datatype Id = Given(value: string) | Generate

  /** What a table row says, before numbering. */
  datatype Fields = Fields(layer: string, text: string, id: Id)

  /** How one table row is read: rows of fewer than two cells and header
      rows are not read; three cells are (Label, Text, ID) when the third
      looks like an id, else (ID, Label, Text) when the first does, else
      (Label, Text, ID) with an invented id when the third is blank; two
      cells are (Label, Text) with an invented id; more than three cells give
      the first cell's text with layer `Content` and an invented id. */
  function RowFields(cells: TableRow, preserve: bool): Option<Fields> {
    if |cells| < 2 || IsHeaderRow(cells) then None
    else if |cells| == 3 then
      Some(ThreeColumnLayout(Extract(cells[0], preserve), Extract(cells[1], preserve), Extract(cells[2], preserve)))
    else if |cells| == 2 then
      Some(Fields(Extract(cells[0], preserve), Extract(cells[1], preserve), Generate))
    else
      Some(Fields(DefaultLayer, Extract(cells[0], preserve), Generate))
  }

  /** The layout of a three-column row, from its cells' texts. */
  function ThreeColumnLayout(c1: string, c2: string, c3: string): Fields {
    if LooksLikeId(c3) then Fields(c1, c2, Given(c3))
    else if LooksLikeId(c1) then Fields(c2, c3, Given(c1))
    else Fields(c1, c2, if Trim(c3) != [] then Given(c3) else Generate)
  }

  /** Whichever layout a three-column row is read in, its layer, text and
      id are its three cells' texts, each used once; the id is invented
      exactly when the third cell is blank and the first does not look like
      an id, and then the layer and text are the first two cells. */
  lemma LayoutUsesEveryCell(c1: string, c2: string, c3: string)
    requires Trim(c3) == c3
    ensures var f := ThreeColumnLayout(c1, c2, c3);
            && (f.id.Given? ==> multiset{f.layer, f.text, f.id.value} == multiset{c1, c2, c3})
            && (f.id.Generate? ==> f.layer == c1 && f.text == c2)
            && (f.id.Generate? <==> c3 == [] && !LooksLikeId(c1))
  {
  }

  /** A row that will be emitted, with the section it is in. */
  datatype Candidate = Candidate(section: string, fields: Fields)

  /** The rows of one table that are read and have non-blank text. */
  function TableCandidates(section: string, rows: Table, preserve: bool): seq<Candidate> {
    if rows == [] then []
    else
      var f := RowFields(rows[|rows| - 1], preserve);
      TableCandidates(section, rows[..|rows| - 1], preserve)
        + (if f.Some? && Trim(f.value.text) != [] then [Candidate(section, f.value)] else [])
  }

  /** The rows of every table, in document order, each with the section in
      force where its table stands. */
  function Candidates(body: seq<BodyElement>, preserve: bool): seq<Candidate> {
    if body == [] then []
    else
      var n := |body| - 1;
      Candidates(body[..n], preserve)
        + (if body[n].Tbl? then TableCandidates(SectionAfter(body[..n]), body[n].rows, preserve) else [])
  }

  /** The id of a record emitted after `k` others. */
  function IdText(id: Id, k: nat): string {
    match id
    case Given(s) => s
    case Generate => GeneratedPrefix + NatToString(k + 1)
  }

  /** The record of a row emitted after `k` others, with the keys in the
      order the source writes them. */
  function RecordOf(c: Candidate, k: nat): Row {
    [ ("id", IdText(c.fields.id, k)),
      ("frame", c.section),
      ("group", c.section),
      ("layer_name", if Trim(c.fields.layer) != [] then c.fields.layer else DefaultLayer),
      ("figma_text", c.fields.text) ]
  }

  /** The records of all candidates: the `k`-th is numbered `k + 1`. */
  function Records(cs: seq<Candidate>): (rs: seq<Row>)
    ensures |rs| == |cs|
    ensures forall k :: 0 <= k < |cs| ==> rs[k] == RecordOf(cs[k], k)
  {
    seq(|cs|, k requires 0 <= k < |cs| => RecordOf(cs[k], k))
  }

  /** The header test of the row loop, on the rows' trimmed, lower-cased
      cell texts. */
  method ReadIsHeaderRow(cells: TableRow) returns (isHeaderRow: bool)
    ensures isHeaderRow == IsHeaderRow(cells)
  {
    var cellTexts := seq(|cells|, i requires 0 <= i < |cells| => Lower(Trim(CellText(cells[i]))));
    assert forall i :: 0 <= i < |cells| ==> cellTexts[i] == CellKey(cells[i]);
    isHeaderRow := false;
    if |cells| == 3 && cellTexts[0] in ["label", "component"] && cellTexts[1] in ["text", "description"]
      && cellTexts[2] in ["id"]
    {
      isHeaderRow := true;
    } else if |cells| == 2 && cellTexts[0] in ["label", "component"] && cellTexts[1] in ["text", "description"] {
      isHeaderRow := true;
    }
  }

  /** The three-column layouts. */
  method ReadThreeColumns(cells: TableRow, preserve: bool) returns (f: Fields)
    requires |cells| == 3 && !IsHeaderRow(cells)
    ensures Some(f) == RowFields(cells, preserve)
  {
    var col1 := ExtractText(cells[0], preserve);
    var col2 := ExtractText(cells[1], preserve);
    var col3 := ExtractText(cells[2], preserve);
    if LooksLikeId(col3) {
      f := Fields(col1, col2, Given(col3));
    } else if LooksLikeId(col1) {
      f := Fields(col2, col3, Given(col1));
    } else {
      f := Fields(col1, col2, if Trim(col3) != "" then Given(col3) else Generate);
    }
  }

  /** Reads one table row, as the body of the row loop does. */
  method ReadRowFields(cells: TableRow, preserve: bool) returns (f: Option<Fields>)
    ensures f == RowFields(cells, preserve)
  {
    if |cells| < 2 {
      return None;
    }
    var isHeaderRow := ReadIsHeaderRow(cells);
    if isHeaderRow {
      return None;
    }
    if |cells| == 3 {
      var fields := ReadThreeColumns(cells, preserve);
      f := Some(fields);
    } else if |cells| == 2 {
      var layerName := ExtractText(cells[0], preserve);
      var figmaText := ExtractText(cells[1], preserve);
      f := Some(Fields(layerName, figmaText, Generate));
    } else {
      var figmaText := ExtractText(cells[0], preserve);
      f := Some(Fields(DefaultLayer, figmaText, Generate));
    }
  }

  lemma RecordsSnoc(cs: seq<Candidate>, c: Candidate)
    ensures Records(cs + [c]) == Records(cs) + [RecordOf(c, |cs|)]
  {
    assert forall k :: 0 <= k < |cs| ==> (cs + [c])[k] == cs[k];
  }

  lemma TableCandidatesStep(before: seq<Candidate>, section: string, rows: Table, r: nat, preserve: bool)
    requires r < |rows|
    ensures var f := RowFields(rows[r], preserve);
      before + TableCandidates(section, rows[..r + 1], preserve)
      == (before + TableCandidates(section, rows[..r], preserve))
         + (if f.Some? && Trim(f.value.text) != [] then [Candidate(section, f.value)] else [])
  {
    assert rows[..r + 1][..r] == rows[..r];
  }

  /** A row that is emitted adds its record, numbered by the records
      before it. */
  lemma EmitStep(before: seq<Candidate>, section: string, rows: Table, r: nat, preserve: bool, records: seq<Row>)
    requires r < |rows|
    requires records == Records(before + TableCandidates(section, rows[..r], preserve))
    requires RowFields(rows[r], preserve).Some? && Trim(RowFields(rows[r], preserve).value.text) != []
    ensures records + [RecordOf(Candidate(section, RowFields(rows[r], preserve).value), |records|)]
         == Records(before + TableCandidates(section, rows[..r + 1], preserve))
  {
    var cs := before + TableCandidates(section, rows[..r], preserve);
    TableCandidatesStep(before, section, rows, r, preserve);
    RecordsSnoc(cs, Candidate(section, RowFields(rows[r], preserve).value));
  }

  /** A row that is not emitted adds nothing. */
  lemma SkipStep(before: seq<Candidate>, section: string, rows: Table, r: nat, preserve: bool)
    requires r < |rows|
    requires !(RowFields(rows[r], preserve).Some? && Trim(RowFields(rows[r], preserve).value.text) != [])
    ensures before + TableCandidates(section, rows[..r + 1], preserve)
         == before + TableCandidates(section, rows[..r], preserve)
  {
    var cs := before + TableCandidates(section, rows[..r], preserve);
    TableCandidatesStep(before, section, rows, r, preserve);
    assert cs + [] == cs;
  }

  /** The row loop over one table: rows are read in order and each one with
      non-blank text is emitted, its invented id numbered by the count of
      records emitted before it. */
  method EmitTable(rows: Table, section: string, preserve: bool, ghost before: seq<Candidate>, emitted: seq<Row>)
    returns (records: seq<Row>)
    requires emitted == Records(before)
    ensures records == Records(before + TableCandidates(section, rows, preserve))
  {
    records := emitted;
    assert before + TableCandidates(section, rows[..0], preserve) == before + [] == before;
    for r := 0 to |rows|
      invariant records == Records(before + TableCandidates(section, rows[..r], preserve))
    {
      var fields := ReadRowFields(rows[r], preserve);
      if fields.Some? && Trim(fields.value.text) != "" {
        var f := fields.value;
        var idValue := match f.id
          case Given(s) => s
          case Generate => GeneratedPrefix + NatToString(|records| + 1);
        var layerName := if Trim(f.layer) != "" then f.layer else DefaultLayer;
        var record := [("id", idValue), ("frame", section), ("group", section),
                       ("layer_name", layerName), ("figma_text", f.text)];
        assert idValue == IdText(f.id, |records|);
        assert record == RecordOf(Candidate(section, f), |records|);
        EmitStep(before, section, rows, r, preserve, records);
        records := records + [record];
      } else {
        SkipStep(before, section, rows, r, preserve);
      }
    }
    assert rows[..|rows|] == rows;
  }

  /** The element walk: headings move the current section and the rows of
      each table are emitted under the section in force. */
  method InferRecords(body: seq<BodyElement>, preserve: bool) returns (records: seq<Row>)
    ensures records == Records(Candidates(body, preserve))
  {
    records := [];
    var currentFrameGroup := DefaultSection;
    for i := 0 to |body|
      invariant currentFrameGroup == SectionAfter(body[..i])
      invariant records == Records(Candidates(body[..i], preserve))
    {
      assert body[..i + 1][..i] == body[..i];
      var element := body[i];
      if element.Para? {
        if IsHeadingStyle(element.style) {
          var textContent := Trim(ParaText(element.runs));
          if textContent != "" {
            currentFrameGroup := textContent;
          }
        }
        assert Candidates(body[..i + 1], preserve) == Candidates(body[..i], preserve) + [];
      } else if element.Tbl? {
        records := EmitTable(element.rows, currentFrameGroup, preserve, Candidates(body[..i], preserve), records);
      } else {
        assert Candidates(body[..i + 1], preserve) == Candidates(body[..i], preserve) + [];
      }
    }
    assert body[..|body|] == body;
  }

  /** Invented ids never repeat: two records numbered differently get
      different ids. */
  lemma GeneratedIdsDistinct(k1: nat, k2: nat)
    requires k1 != k2
    ensures IdText(Generate, k1) != IdText(Generate, k2)
  {
    var a, b := IdText(Generate, k1), IdText(Generate, k2);
    if a == b {
      var n := |GeneratedPrefix|;
      assert a[n..] == NatToString(k1 + 1);
      assert b[n..] == NatToString(k2 + 1);
      NatToStringInjective(k1 + 1, k2 + 1);
    }
  }

  /** Every candidate has non-blank text. */
  lemma {:induction false} TableCandidatesNonBlank(section: string, rows: Table, preserve: bool)
    ensures forall c :: c in TableCandidates(section, rows, preserve) ==> Trim(c.fields.text) != [] && c.section == section
  {
    if rows != [] {
      TableCandidatesNonBlank(section, rows[..|rows| - 1], preserve);
    }
  }

  lemma {:induction false} CandidatesNonBlank(body: seq<BodyElement>, preserve: bool)
    ensures forall c :: c in Candidates(body, preserve) ==> Trim(c.fields.text) != []
  {
    if body != [] {
      var n := |body| - 1;
      CandidatesNonBlank(body[..n], preserve);
      if body[n].Tbl? {
        TableCandidatesNonBlank(SectionAfter(body[..n]), body[n].rows, preserve);
      }
    }
  }

  /** The five fields of a record, looked up by name. */
  lemma RecordLookup(c: Candidate, k: nat)
    ensures var rec := RecordOf(c, k);
      && Keys(rec) == ["id", "frame", "group", "layer_name", "figma_text"]
      && GetOr(rec, "id", "") == IdText(c.fields.id, k)
      && GetOr(rec, "frame", "") == c.section
      && GetOr(rec, "group", "") == c.section
      && GetOr(rec, "layer_name", "") == rec[3].1
      && GetOr(rec, "figma_text", "") == c.fields.text
  {
    var rec := RecordOf(c, k);
    assert Keys(rec) == ["id", "frame", "group", "layer_name", "figma_text"];
    assert DistinctKeys(rec);
    assert rec[0].0 == "id" && rec[1].0 == "frame" && rec[2].0 == "group";
    assert rec[3].0 == "layer_name" && rec[4].0 == "figma_text";
  }

  /** Every emitted record has non-blank `figma_text`, a non-blank
      `layer_name`, and the same `frame` and `group`. */
  lemma RecordsWellFormed(body: seq<BodyElement>, preserve: bool, k: nat)
    requires k < |Candidates(body, preserve)|
    ensures var rec := Records(Candidates(body, preserve))[k];
      && Keys(rec) == ["id", "frame", "group", "layer_name", "figma_text"]
      && Trim(GetOr(rec, "figma_text", "")) != []
      && Trim(GetOr(rec, "layer_name", "")) != []
      && GetOr(rec, "frame", "") == GetOr(rec, "group", "")
  {
    var cs := Candidates(body, preserve);
    CandidatesNonBlank(body, preserve);
    assert cs[k] in cs;
    RecordLookup(cs[k], k);
    if Trim(cs[k].fields.layer) == [] {
      assert Trim(DefaultLayer) != [] by {
        assert !AllIn(DefaultLayer, Whitespace) by { assert !In(DefaultLayer[0], Whitespace); }
      }
    }
  }

  /** The inferred records can always be written, unless there are none:
      they share one header, `id,frame,group,layer_name,figma_text`. */
  lemma RecordsWritable(cs: seq<Candidate>)
    ensures WriteCsv(Records(cs)).Ok? <==> cs != []
    ensures cs != [] ==> WriteCsv(Records(cs)).value.header == ["id", "frame", "group", "layer_name", "figma_text"]
  {
    var rs := Records(cs);
    forall i | 0 <= i < |rs| ensures Keys(rs[i]) == ["id", "frame", "group", "layer_name", "figma_text"] {
    }
  }

  /** A first row that is not read, such as a header row, adds no
      candidate. */
  lemma {:induction false} UnreadFirstRow(section: string, rows: Table, preserve: bool)
    requires |rows| > 0 && RowFields(rows[0], preserve).None?
    ensures TableCandidates(section, rows, preserve) == TableCandidates(section, rows[1..], preserve)
  {
    var n := |rows| - 1;
    if n > 0 {
      assert rows[..n][1..] == rows[1..][..n - 1];
      assert rows[1..][n - 1] == rows[n];
      UnreadFirstRow(section, rows[..n], preserve);
    } else {
      assert rows[..n] == [] && rows[1..] == [];
    }
  }

  /** The first invented id is `generated_1`. */
  lemma FirstGeneratedId()
    ensures IdText(Generate, 0) == "generated_1"
  {
    assert NatToString(1) == "1";
  }
}
