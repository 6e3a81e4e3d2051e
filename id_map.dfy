/** The table scan of `read_word_document_data`
    (src/figma_copy_workflow/helpers.py:282-296): every data row of every
    table whose third cell has text maps that text, trimmed, to the extracted
    text of its second cell; a later row overwrites an earlier one. */
module IdMap {
  import opened Wrappers
  import opened Text
  import opened DocModel
  import opened RichText

  /** `table.rows[1:]`: every row but the header row. */
  function DataRows(t: Table): (rows: seq<TableRow>)
    ensures |t| > 0 ==> rows == t[1..]
    ensures |t| == 0 ==> rows == []
  {
    if |t| == 0 then [] else t[1..]
  }

  /** The entry one data row adds, if any. */
  function RowEntry(row: TableRow, preserve: bool): (e: Option<(string, string)>)
    ensures e.Some? <==> |row| >= 3 && Trim(CellText(row[2])) != []
    ensures e.Some? ==> e.value == (Trim(CellText(row[2])), Extract(row[1], preserve))
  {
    if |row| >= 3 && Trim(CellText(row[2])) != [] then
      Some((Trim(CellText(row[2])), Extract(row[1], preserve)))
    else
      None
  }

  function RowEntries(rows: seq<TableRow>, preserve: bool): seq<(string, string)> {
    if rows == [] then []
    else
      var e := RowEntry(rows[|rows| - 1], preserve);
      RowEntries(rows[..|rows| - 1], preserve) + (if e.Some? then [e.value] else [])
  }

  /** Every entry of the scan, in document order. */
  function Entries(tables: seq<Table>, preserve: bool): seq<(string, string)> {
    if tables == [] then []
    else Entries(tables[..|tables| - 1], preserve) + RowEntries(DataRows(tables[|tables| - 1]), preserve)
  }

  /** The value of the last entry for `k`, if any. */
  function LastFor(es: seq<(string, string)>, k: string): Option<string> {
    if es == [] then None
    else if es[|es| - 1].0 == k then Some(es[|es| - 1].1)
    else LastFor(es[..|es| - 1], k)
  }

  /** `LastFor` finds the last entry for its key: an entry with no later
      entry for the same key. */
  lemma {:induction false} LastForIsLast(es: seq<(string, string)>, k: string, v: string)
    ensures LastFor(es, k) == Some(v) <==>
      exists i :: 0 <= i < |es| && es[i] == (k, v) && forall j :: i < j < |es| ==> es[j].0 != k
  {
    if es != [] {
      var n := |es| - 1;
      var init := es[..n];
      LastForIsLast(init, k, v);
      if es[n].0 == k {
        if LastFor(es, k) != Some(v) {
          forall i | 0 <= i < |es| && es[i] == (k, v)
            ensures exists j :: i < j < |es| && es[j].0 == k
          {
            assert i != n;
            assert n > i && es[n].0 == k;
          }
        }
      } else {
        if LastFor(es, k) == Some(v) {
          var i :| 0 <= i < n && init[i] == (k, v) && forall j :: i < j < n ==> init[j].0 != k;
          assert es[i] == (k, v);
          assert forall j :: i < j < |es| ==> es[j].0 != k by {
            forall j | i < j < |es| ensures es[j].0 != k {
              if j < n { assert init[j] == es[j]; }
            }
          }
        } else {
          forall i | 0 <= i < |es| && es[i] == (k, v)
            ensures exists j :: i < j < |es| && es[j].0 == k
          {
            assert i < n && init[i] == (k, v);
            var j :| i < j < n && init[j].0 == k;
            assert es[j] == init[j];
          }
        }
      }
    }
  }

  /** The last entry for `k` is among the entries. */
  lemma LastForIn(es: seq<(string, string)>, k: string)
    requires LastFor(es, k).Some?
    ensures (k, LastFor(es, k).value) in es
  {
    LastForIsLast(es, k, LastFor(es, k).value);
  }

  /** The dictionary `m` holds, for each key, the last entry's value. */
  ghost predicate MapsLast(es: seq<(string, string)>, m: map<string, string>) {
    forall k :: LastFor(es, k) == if k in m then Some(m[k]) else None
  }

  lemma LastForSnoc(es: seq<(string, string)>, e: (string, string), k: string)
    ensures LastFor(es + [e], k) == if e.0 == k then Some(e.1) else LastFor(es, k)
  {
    assert (es + [e])[..|es|] == es;
  }

  /** Storing one more entry keeps the dictionary in step with the entries. */
  lemma MapsLastSnoc(es: seq<(string, string)>, m: map<string, string>, e: (string, string))
    requires MapsLast(es, m)
    ensures MapsLast(es + [e], m[e.0 := e.1])
  {
    forall k ensures LastFor(es + [e], k) == if k in m[e.0 := e.1] then Some(m[e.0 := e.1][k]) else None {
      LastForSnoc(es, e, k);
    }
  }

  /** The scan of the rows up to and including row `r`. */
  lemma RowEntriesStep(before: seq<(string, string)>, rows: seq<TableRow>, r: nat, preserve: bool)
    requires r < |rows|
    ensures var e := RowEntry(rows[r], preserve);
      before + RowEntries(rows[..r + 1], preserve)
      == (before + RowEntries(rows[..r], preserve)) + (if e.Some? then [e.value] else [])
  {
    assert rows[..r + 1][..r] == rows[..r];
  }

  /** The id-to-text dictionary of a document body's tables. */
  method ReadIdMap(body: seq<BodyElement>, preserve: bool) returns (idToText: map<string, string>)
    ensures MapsLast(Entries(Tables(body), preserve), idToText)
  {
    var tables := Tables(body);
    idToText := map[];
    for t := 0 to |tables|
      invariant MapsLast(Entries(tables[..t], preserve), idToText)
    {
      assert tables[..t + 1][..t] == tables[..t];
      ghost var before := Entries(tables[..t], preserve);
      var rows := DataRows(tables[t]);
      assert before + RowEntries(rows[..0], preserve) == before + [] == before;
      for r := 0 to |rows|
        invariant MapsLast(before + RowEntries(rows[..r], preserve), idToText)
      {
        ghost var es := before + RowEntries(rows[..r], preserve);
        RowEntriesStep(before, rows, r, preserve);
        var cells := rows[r];
        if |cells| >= 3 {
          var text := ExtractText(cells[1], preserve);
          var idValue := Trim(CellText(cells[2]));
          if idValue != "" {
            MapsLastSnoc(es, idToText, (idValue, text));
            idToText := idToText[idValue := text];
          } else {
            assert es + [] == es;
          }
        } else {
          assert es + [] == es;
        }
      }
      assert rows[..|rows|] == rows;
      assert Entries(tables[..t + 1], preserve) == before + RowEntries(rows, preserve);
    }
    assert tables[..|tables|] == tables;
  }

  /** Every key of the scan is non-empty and trimmed. */
  lemma {:induction false} EntryKeysClean(tables: seq<Table>, preserve: bool)
    ensures forall e :: e in Entries(tables, preserve) ==> e.0 != [] && Trim(e.0) == e.0
  {
    if tables != [] {
      EntryKeysClean(tables[..|tables| - 1], preserve);
      RowEntryKeysClean(DataRows(tables[|tables| - 1]), preserve);
    }
  }

  lemma {:induction false} RowEntryKeysClean(rows: seq<TableRow>, preserve: bool)
    ensures forall e :: e in RowEntries(rows, preserve) ==> e.0 != [] && Trim(e.0) == e.0
  {
    if rows != [] {
      RowEntryKeysClean(rows[..|rows| - 1], preserve);
      var row := rows[|rows| - 1];
      if |row| >= 3 {
        StripIdempotent(CellText(row[2]), Whitespace);
      }
    }
  }

  /** No key of the dictionary is empty. */
  lemma IdMapKeysNonEmpty(body: seq<BodyElement>, preserve: bool, m: map<string, string>, k: string)
    requires MapsLast(Entries(Tables(body), preserve), m)
    requires k in m
    ensures k != [] && Trim(k) == k
  {
    var es := Entries(Tables(body), preserve);
    assert LastFor(es, k) == Some(m[k]);
    LastForIn(es, k);
    EntryKeysClean(Tables(body), preserve);
  }

  /** Replacing the header row of a table. */
  function WithHeader(t: Table, h: TableRow): Table {
    if |t| == 0 then t else t[0 := h]
  }

  /** The scan sees only the data rows of each table. */
  lemma {:induction false} EntriesOfDataRows(a: seq<Table>, b: seq<Table>, preserve: bool)
    requires |a| == |b|
    requires forall i :: 0 <= i < |a| ==> DataRows(a[i]) == DataRows(b[i])
    ensures Entries(a, preserve) == Entries(b, preserve)
  {
    if a != [] {
      var n := |a| - 1;
      EntriesOfDataRows(a[..n], b[..n], preserve);
      assert DataRows(a[n]) == DataRows(b[n]);
    }
  }

  /** Header rows are never read: replacing the header row of any table
      leaves the scan unchanged. */
  lemma HeaderRowIgnored(tables: seq<Table>, i: nat, h: TableRow, preserve: bool)
    requires i < |tables|
    ensures Entries(tables[i := WithHeader(tables[i], h)], preserve) == Entries(tables, preserve)
  {
    var t := tables[i];
    if |t| > 0 {
      assert t[0 := h][1..] == t[1..];
    }
    EntriesOfDataRows(tables[i := WithHeader(t, h)], tables, preserve);
  }
}
