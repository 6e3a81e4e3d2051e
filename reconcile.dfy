/** `update_csv_with_word_changes` (src/figma_copy_workflow/helpers.py:299-325):
    each record is copied, and its `figma_text` is replaced by the edited
    text when the document has text for the record's trimmed id. */
module Reconcile {
  import opened Wrappers
  import opened Text
  import opened OrderedMap
  import opened CsvStore

  /** `row.get('id', '').strip()`: a record without an `id` has id `''`. */
  function RowId(row: Row): (id: string)
    ensures "id" !in Keys(row) ==> id == []
    ensures "id" in Keys(row) ==> id == Trim(Get(row, "id").value)
  {
    Trim(GetOr(row, "id", ""))
  }

  /** `out` is `row` brought up to date: when the id has an update, every
      field but `figma_text` is kept in place and `figma_text` holds the
      update (appended last if the record had none); otherwise `out` is
      `row` itself. */
  ghost predicate IsUpdateOf(row: Row, updates: map<string, string>, out: Row) {
    if RowId(row) in updates then
      && DistinctKeys(out)
      && Keys(out) == (if "figma_text" in Keys(row) then Keys(row) else Keys(row) + ["figma_text"])
      && Get(out, "figma_text") == Some(updates[RowId(row)])
      && forall k :: k != "figma_text" ==> Get(out, k) == Get(row, k)
    else
      out == row
  }

  /** The update of a record is determined by the record and the updates. */
  lemma UpdateDetermined(row: Row, updates: map<string, string>, a: Row, b: Row)
    requires DistinctKeys(row)
    requires IsUpdateOf(row, updates, a) && IsUpdateOf(row, updates, b)
    ensures a == b
  {
    if RowId(row) in updates {
      forall k ensures Get(a, k) == Get(b, k) {
        if k != "figma_text" {
          assert Get(a, k) == Get(row, k);
        }
      }
      Extensionality(a, b);
    }
  }

  /** An update that writes the value a record already has changes nothing. */
  lemma UpdateToSameText(row: Row, updates: map<string, string>, out: Row)
    requires DistinctKeys(row)
    requires IsUpdateOf(row, updates, out)
    requires RowId(row) in updates ==> Get(row, "figma_text") == Some(updates[RowId(row)])
    ensures out == row
  {
    if RowId(row) in updates {
      forall k ensures Get(out, k) == Get(row, k) {
      }
      Extensionality(out, row);
    }
  }

  /** The loop: copy every record, update the ones whose id has an edit,
      and keep them in input order. */
  method UpdateRows(rows: seq<Row>, updates: map<string, string>) returns (updated: seq<Row>)
    requires forall i :: 0 <= i < |rows| ==> DistinctKeys(rows[i])
    ensures |updated| == |rows|
    ensures forall i :: 0 <= i < |rows| ==> IsUpdateOf(rows[i], updates, updated[i])
  {
    updated := [];
    for i := 0 to |rows|
      invariant |updated| == i
      invariant forall j :: 0 <= j < i ==> IsUpdateOf(rows[j], updates, updated[j])
    {
      var row := rows[i];
      var updatedRow := row;
      var rowId := Trim(GetOr(row, "id", ""));
      if rowId in updates {
        updatedRow := Set(updatedRow, "figma_text", updates[rowId]);
      }
      updated := updated + [updatedRow];
    }
  }
}
