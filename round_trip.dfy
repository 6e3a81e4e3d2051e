/** Reading back an unedited document: the records grouped into a document
    and then brought up to date from that same document come out exactly as
    they went in, provided every record carries a `figma_text` the document
    keeps verbatim and records sharing an id share their text. */
module RoundTrip {
  import opened Wrappers
  import opened Text
  import opened OrderedMap
  import opened CsvStore
  import opened Grouping
  import opened DocModel
  import opened ListMarker
  import opened RichText
  import opened IdMap
  import opened Reconcile
  import opened Builder
  import opened Infer

  function Figma(row: Row): string {
    GetOr(row, "figma_text", "")
  }

  /** A text a table cell gives back verbatim: trimmed, and when formatting
      is preserved, neither a list item nor starting with `*` or `[`. */
  predicate Verbatim(v: string, preserve: bool) {
    && Trim(v) == v
    && (preserve ==> Classify(v) == Plain && (v == [] || (v[0] != '*' && v[0] != '[')))
  }

  lemma CellReadsBack(v: string, preserve: bool)
    requires Verbatim(v, preserve)
    ensures Extract(PlainCell(v), preserve) == v
  {
    if preserve {
      PlainCellAgrees(v);
    }
  }

  /** A record's id and the text its table row reads back as. */
  function EntryOf(r: Row, preserve: bool): (string, string) {
    (RowId(r), Extract(PlainCell(Figma(r)), preserve))
  }

  /** The entries the records could give, one per record. */
  function EntryList(rows: seq<Row>, preserve: bool): (es: seq<(string, string)>)
    ensures |es| == |rows|
    ensures forall i :: 0 <= i < |rows| ==> es[i] == EntryOf(rows[i], preserve)
  {
    seq(|rows|, i requires 0 <= i < |rows| => EntryOf(rows[i], preserve))
  }

  /** Every entry is the id and the read-back text of one of `rows`. */
  ghost predicate EntriesFrom(es: seq<(string, string)>, rows: seq<Row>, preserve: bool) {
    forall e :: e in es ==> e in EntryList(rows, preserve)
  }

  /** The entry a record's own table row gives is its id and read-back
      text. */
  lemma DataRowEntry(r: Row, preserve: bool)
    ensures RowEntry(DataRow(r), preserve).Some? ==>
      RowEntry(DataRow(r), preserve).value == EntryOf(r, preserve)
  {
    var row := DataRow(r);
    assert row[1] == PlainCell(Figma(r));
    assert Trim(CellText(row[2])) == RowId(r);
  }

  /** The data rows of a group's table. */
  function DataRowsOf(bucket: seq<Row>): (trs: seq<TableRow>)
    ensures |trs| == |bucket|
    ensures forall i :: 0 <= i < |bucket| ==> trs[i] == DataRow(bucket[i])
  {
    seq(|bucket|, i requires 0 <= i < |bucket| => DataRow(bucket[i]))
  }

  /** The entries of a group's data rows, split before the last row. */
  lemma BucketEntriesSplit(bucket: seq<Row>, preserve: bool)
    requires bucket != []
    ensures var n := |bucket| - 1;
      var e := RowEntry(DataRow(bucket[n]), preserve);
      RowEntries(DataRowsOf(bucket), preserve)
      == RowEntries(DataRowsOf(bucket[..n]), preserve) + (if e.Some? then [e.value] else [])
  {
    var n := |bucket| - 1;
    assert DataRowsOf(bucket)[..n] == DataRowsOf(bucket[..n]);
  }

  /** What the records before the last one could give, the records could
      give. */
  lemma EntriesFromPrefix(es: seq<(string, string)>, bucket: seq<Row>, n: nat, preserve: bool)
    requires n <= |bucket| && EntriesFrom(es, bucket[..n], preserve)
    ensures EntriesFrom(es, bucket, preserve)
  {
    forall x | x in es ensures x in EntryList(bucket, preserve) {
      var i :| 0 <= i < n && EntryList(bucket[..n], preserve)[i] == x;
      assert EntryList(bucket, preserve)[i] == x;
    }
  }

  lemma LastEntryFrom(bucket: seq<Row>, preserve: bool)
    requires bucket != []
    ensures var e := RowEntry(DataRow(bucket[|bucket| - 1]), preserve);
      EntriesFrom(if e.Some? then [e.value] else [], bucket, preserve)
  {
    var n := |bucket| - 1;
    DataRowEntry(bucket[n], preserve);
    assert EntryList(bucket, preserve)[n] == EntryOf(bucket[n], preserve);
  }

  lemma {:induction false} BucketEntries(bucket: seq<Row>, preserve: bool)
    ensures EntriesFrom(RowEntries(DataRowsOf(bucket), preserve), bucket, preserve)
  {
    if bucket != [] {
      var n := |bucket| - 1;
      var e := RowEntry(DataRow(bucket[n]), preserve);
      var init := RowEntries(DataRowsOf(bucket[..n]), preserve);
      BucketEntriesSplit(bucket, preserve);
      BucketEntries(bucket[..n], preserve);
      EntriesFromPrefix(init, bucket, n, preserve);
      LastEntryFrom(bucket, preserve);
      EntriesFromAppend(init, if e.Some? then [e.value] else [], bucket, preserve);
    }
  }

  lemma EntriesFromAppend(a: seq<(string, string)>, b: seq<(string, string)>, rows: seq<Row>, preserve: bool)
    requires EntriesFrom(a, rows, preserve) && EntriesFrom(b, rows, preserve)
    ensures EntriesFrom(a + b, rows, preserve)
  {
  }

  lemma DataRowsOfGroupTable(bucket: seq<Row>)
    ensures DataRows(GroupTable(bucket)) == DataRowsOf(bucket)
  {
  }

  /** What some of the records could give, all the records could give. */
  lemma EntriesFromSubset(es: seq<(string, string)>, bucket: seq<Row>, rows: seq<Row>, preserve: bool)
    requires forall r :: r in bucket ==> r in rows
    requires EntriesFrom(es, bucket, preserve)
    ensures EntriesFrom(es, rows, preserve)
  {
    forall x | x in es ensures x in EntryList(rows, preserve) {
      var i :| 0 <= i < |bucket| && EntryList(bucket, preserve)[i] == x;
      assert bucket[i] in bucket;
      var j :| 0 <= j < |rows| && rows[j] == bucket[i];
      assert EntryList(rows, preserve)[j] == x;
    }
  }

  lemma GroupTableEntriesFrom(bucket: seq<Row>, rows: seq<Row>, preserve: bool)
    requires forall r :: r in bucket ==> r in rows
    ensures EntriesFrom(RowEntries(DataRows(GroupTable(bucket)), preserve), rows, preserve)
  {
    DataRowsOfGroupTable(bucket);
    BucketEntries(bucket, preserve);
    EntriesFromSubset(RowEntries(DataRowsOf(bucket), preserve), bucket, rows, preserve);
  }

  /** The scan of one more table. */
  lemma EntriesSnoc(ts: seq<Table>, t: Table, preserve: bool)
    ensures Entries(ts + [t], preserve) == Entries(ts, preserve) + RowEntries(DataRows(t), preserve)
  {
    assert (ts + [t])[..|ts|] == ts;
  }

  lemma EntriesFromLastGroup(groups: Groups, rows: seq<Row>, preserve: bool)
    requires groups != []
    requires EntriesFrom(Entries(GroupTables(groups[..|groups| - 1]), preserve), rows, preserve)
    requires forall r :: r in groups[|groups| - 1].1 ==> r in rows
    ensures EntriesFrom(Entries(GroupTables(groups), preserve), rows, preserve)
  {
    var g := groups[|groups| - 1];
    var ts := GroupTables(groups[..|groups| - 1]);
    if g.1 == [] {
      assert GroupTables(groups) == ts by {
        assert GroupTables(groups) == ts + [];
        assert ts + [] == ts;
      }
    } else {
      var t := GroupTable(g.1);
      assert GroupTables(groups) == ts + [t];
      EntriesSnoc(ts, t, preserve);
      GroupTableEntriesFrom(g.1, rows, preserve);
      EntriesFromAppend(Entries(ts, preserve), RowEntries(DataRows(t), preserve), rows, preserve);
    }
  }

  lemma {:induction false} EntriesFromGroups(groups: Groups, rows: seq<Row>, preserve: bool)
    requires forall i, r :: 0 <= i < |groups| && r in groups[i].1 ==> r in rows
    ensures EntriesFrom(Entries(GroupTables(groups), preserve), rows, preserve)
  {
    if groups != [] {
      var n := |groups| - 1;
      assert forall i :: 0 <= i < n ==> groups[..n][i] == groups[i];
      EntriesFromGroups(groups[..n], rows, preserve);
      EntriesFromLastGroup(groups, rows, preserve);
    }
  }

  /** The rows of the groups are rows of the source. */
  lemma GroupedRowsBelong(rows: seq<Row>, groups: Groups)
    requires IsGroupingOf(rows, groups)
    ensures forall i, r :: 0 <= i < |groups| && r in groups[i].1 ==> r in rows
  {
    forall i, r | 0 <= i < |groups| && r in groups[i].1 ensures r in rows {
      assert Keys(groups)[i] == groups[i].0;
      assert Get(groups, groups[i].0) == Some(groups[i].1);
      BucketMembersBelong(rows, groups, groups[i].0, r);
    }
  }

  /** The text the document gives for a record's id is that record's own
      text, when every record's text reads back verbatim and records sharing
      an id share their text. */
  lemma UpdateIsOwnText(rows: seq<Row>, es: seq<(string, string)>, m: map<string, string>, preserve: bool, i: nat)
    requires i < |rows|
    requires MapsLast(es, m) && EntriesFrom(es, rows, preserve)
    requires forall e :: e in es ==> e.0 != []
    requires forall i :: 0 <= i < |rows| ==> Verbatim(Figma(rows[i]), preserve)
    requires forall i, j :: 0 <= i < |rows| && 0 <= j < |rows| && RowId(rows[i]) == RowId(rows[j]) != [] ==>
      Figma(rows[i]) == Figma(rows[j])
    requires RowId(rows[i]) in m
    ensures m[RowId(rows[i])] == Figma(rows[i])
  {
    var k := RowId(rows[i]);
    assert LastFor(es, k) == Some(m[k]);
    LastForIn(es, k);
    var j :| 0 <= j < |rows| && EntryList(rows, preserve)[j] == (k, m[k]);
    CellReadsBack(Figma(rows[j]), preserve);
  }

  /** The round trip through an unedited document changes no record. */
  lemma UneditedRoundTrip(rows: seq<Row>, groups: Groups, m: map<string, string>, out: seq<Row>, preserve: bool)
    requires forall i :: 0 <= i < |rows| ==> DistinctKeys(rows[i])
    requires IsGroupingOf(rows, groups)
    requires MapsLast(Entries(Tables(DocumentOf(groups)), preserve), m)
    requires |out| == |rows| && forall i :: 0 <= i < |rows| ==> IsUpdateOf(rows[i], m, out[i])
    requires forall i :: 0 <= i < |rows| ==> "figma_text" in Keys(rows[i]) && Verbatim(Figma(rows[i]), preserve)
    requires forall i, j :: 0 <= i < |rows| && 0 <= j < |rows| && RowId(rows[i]) == RowId(rows[j]) != [] ==>
      Figma(rows[i]) == Figma(rows[j])
    ensures out == rows
  {
    var es := Entries(Tables(DocumentOf(groups)), preserve);
    TablesOfDocument(groups);
    GroupedRowsBelong(rows, groups);
    EntriesFromGroups(groups, rows, preserve);
    EntryKeysClean(Tables(DocumentOf(groups)), preserve);
    forall i | 0 <= i < |rows| ensures out[i] == rows[i] {
      if RowId(rows[i]) in m {
        UpdateIsOwnText(rows, es, m, preserve, i);
      }
      UpdateToSameText(rows[i], m, out[i]);
    }
  }

  /** The header row the builder writes reads `label`, `text`, `id` once
      its cells are stripped and lower-cased. */
  lemma HeaderRowRecognised()
    ensures IsHeaderRow(HeaderRow())
  {
    var cells := HeaderRow();
    assert CellKey(cells[0]) == "label" by {
      LabelKey();
      CellKeyOfWord(cells[0], "Label");
    }
    assert CellKey(cells[1]) == "text" by {
      TextKey();
      CellKeyOfWord(cells[1], "Text");
    }
    assert CellKey(cells[2]) == "id" by {
      IdKey();
      CellKeyOfWord(cells[2], "ID");
    }
  }

  /** The header row the builder writes is recognised as a header row when
      a document is read with no source CSV, so it never becomes a record. */
  lemma BuilderHeaderNotRead(section: string, rows: seq<Row>, preserve: bool)
    ensures IsHeaderRow(HeaderRow())
    ensures RowFields(HeaderRow(), preserve) == None
    ensures TableCandidates(section, GroupTable(rows), preserve)
         == TableCandidates(section, GroupTable(rows)[1..], preserve)
  {
    HeaderRowRecognised();
    assert RowFields(HeaderRow(), preserve) == None;
    UnreadFirstRow(section, GroupTable(rows), preserve);
  }

  /** A two-column row reading `Label`, `Text` is taken for a header row and
      skipped; it does not become a record with an invented id. */
  lemma TwoColumnLabelRowSkipped(preserve: bool)
    ensures RowFields([PlainCell("Label"), PlainCell("Text")], preserve) == None
  {
    var cells := [PlainCell("Label"), PlainCell("Text")];
    assert IsHeaderRow(cells) by {
      LabelKey();
      TextKey();
      CellKeyOfWord(cells[0], "Label");
      CellKeyOfWord(cells[1], "Text");
    }
  }
}
