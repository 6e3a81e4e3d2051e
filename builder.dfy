/** The structure `create_word_document` gives a document
    (src/figma_copy_workflow/helpers.py:60-145): a title, then for every
    non-empty group a level-1 heading with the group's name, a table whose
    header row is `Label`, `Text`, `ID` and whose data rows are the group's
    records, and an empty spacer paragraph. */
module Builder {
  import opened Wrappers
  import opened Text
  import opened OrderedMap
  import opened CsvStore
  import opened Grouping
  import opened DocModel

  const TitleText: string := "Figma Copy Export"

  /** `add_heading(text, 0)`: a paragraph in style `Title`. */
  const TitleParagraph: BodyElement := Para("Title", [Run(TitleText, false, false)])

  /** A header cell: its text in one bold run. */
  function HeaderCell(s: string): (c: Cell)
    ensures CellText(c) == s
  {
    assert ParaText([Run(s, true, false)]) == [] + s;
    [[Run(s, true, false)]]
  }

  function HeaderRow(): TableRow {
    [HeaderCell("Label"), HeaderCell("Text"), HeaderCell("ID")]
  }

  /** One record's row: its `layer_name`, `figma_text` and `id`, each `''`
      when missing. */
  function DataRow(row: Row): (r: TableRow)
    ensures |r| == 3
    ensures CellText(r[0]) == GetOr(row, "layer_name", "")
    ensures CellText(r[1]) == GetOr(row, "figma_text", "")
    ensures CellText(r[2]) == GetOr(row, "id", "")
  {
    [PlainCell(GetOr(row, "layer_name", "")), PlainCell(GetOr(row, "figma_text", "")), PlainCell(GetOr(row, "id", ""))]
  }

  /** The group's table: the header row, then one row per record in order. */
  function GroupTable(rows: seq<Row>): (t: Table)
    ensures |t| == |rows| + 1 && t[0] == HeaderRow()
    ensures forall i :: 0 <= i < |rows| ==> t[i + 1] == DataRow(rows[i])
  {
    [HeaderRow()] + seq(|rows|, i requires 0 <= i < |rows| => DataRow(rows[i]))
  }

  /** One group's heading, table and spacer paragraph. */
  function Section(name: string, rows: seq<Row>): seq<BodyElement> {
    [Para("Heading 1", if name == [] then [] else [Run(name, false, false)]), Tbl(GroupTable(rows)), Para("Normal", [])]
  }

  /** The sections of the non-empty groups, in the groups' order. */
  function Sections(groups: Groups): seq<BodyElement> {
    if groups == [] then []
    else
      var g := groups[|groups| - 1];
      Sections(groups[..|groups| - 1]) + (if g.1 == [] then [] else Section(g.0, g.1))
  }

  /** The document body: title, sections, and the section properties that
      python-docx keeps last. */
  function DocumentOf(groups: Groups): seq<BodyElement> {
    [TitleParagraph] + Sections(groups) + [Other]
  }

  /** The table loop: header row, then the data rows appended in order. */
  method BuildTable(rows: seq<Row>) returns (table: Table)
    ensures table == GroupTable(rows)
  {
    table := [HeaderRow()];
    for i := 0 to |rows|
      invariant |table| == i + 1 && table[0] == HeaderRow()
      invariant forall j :: 0 <= j < i ==> table[j + 1] == DataRow(rows[j])
    {
      var row := DataRow(rows[i]);
      table := table + [row];
    }
    ghost var t := GroupTable(rows);
    assert forall j :: 0 < j < |t| ==> table[j] == t[j] by {
      forall j | 0 < j < |t| ensures table[j] == t[j] {
        assert table[(j - 1) + 1] == DataRow(rows[j - 1]);
      }
    }
  }

  /** The document so far, extended by group `i`'s section when the group
      is not empty. */
  lemma SectionsStep(groups: Groups, i: nat, body: seq<BodyElement>)
    requires i < |groups|
    requires body == [TitleParagraph] + Sections(groups[..i])
    ensures groups[i].1 == [] ==> body == [TitleParagraph] + Sections(groups[..i + 1])
    ensures groups[i].1 != [] ==>
      body + Section(groups[i].0, groups[i].1) == [TitleParagraph] + Sections(groups[..i + 1])
  {
    assert groups[..i + 1][..i] == groups[..i];
    if groups[i].1 == [] {
      assert Sections(groups[..i + 1]) == Sections(groups[..i]) + [];
    }
  }

  /** One group's heading, table and spacer paragraph, added in that order. */
  method BuildSection(name: string, rows: seq<Row>) returns (section: seq<BodyElement>)
    ensures section == Section(name, rows)
  {
    var heading := Para("Heading 1", if name == [] then [] else [Run(name, false, false)]);
    var table := BuildTable(rows);
    section := [heading, Tbl(table), Para("Normal", [])];
  }

  /** `create_word_document`'s loop over the groups, skipping empty ones. */
  method BuildDocument(groups: Groups) returns (body: seq<BodyElement>)
    ensures body == DocumentOf(groups)
  {
    body := [TitleParagraph];
    for i := 0 to |groups|
      invariant body == [TitleParagraph] + Sections(groups[..i])
    {
      SectionsStep(groups, i, body);
      var name := groups[i].0;
      var rows := groups[i].1;
      if rows != [] {
        var section := BuildSection(name, rows);
        body := body + section;
      }
    }
    assert groups[..|groups|] == groups;
    body := body + [Other];
  }

  /** The tables of a built document are the groups' tables, in order, one
      per non-empty group. */
  lemma {:induction false} TablesOfDocument(groups: Groups)
    ensures Tables(DocumentOf(groups)) == GroupTables(groups)
  {
    TablesOfSections(groups);
    TablesAppend([TitleParagraph], Sections(groups));
    TablesAppend([TitleParagraph] + Sections(groups), [Other]);
    assert Tables([TitleParagraph]) == [] by {
      assert [TitleParagraph][..0] == [];
    }
    assert Tables([Other]) == [] by {
      assert [Other][..0] == [];
    }
  }

  /** The tables of the non-empty groups. */
  function GroupTables(groups: Groups): seq<Table> {
    if groups == [] then []
    else
      var g := groups[|groups| - 1];
      GroupTables(groups[..|groups| - 1]) + (if g.1 == [] then [] else [GroupTable(g.1)])
  }

  lemma {:induction false} TablesOfSections(groups: Groups)
    ensures Tables(Sections(groups)) == GroupTables(groups)
  {
    if groups != [] {
      var n := |groups| - 1;
      var g := groups[n];
      TablesOfSections(groups[..n]);
      if g.1 == [] {
        assert Sections(groups) == Sections(groups[..n]) + [] == Sections(groups[..n]);
        assert GroupTables(groups) == GroupTables(groups[..n]) + [] == GroupTables(groups[..n]);
      } else {
        var sec := Section(g.0, g.1);
        TablesAppend(Sections(groups[..n]), sec);
        assert sec[..2] == sec[..2][..1] + [sec[1]];
        assert Tables(sec[..1]) == [] by {
          assert sec[..1][..0] == [];
        }
        assert Tables(sec) == Tables(sec[..2]) + [];
        assert Tables(sec[..2]) == [GroupTable(g.1)] by {
          assert sec[..2][..1] == sec[..1];
        }
      }
    }
  }
}
