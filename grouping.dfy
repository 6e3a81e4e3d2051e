/** `group_data_by_section`: records bucketed by their `group` column, the
    buckets in first-seen order, each bucket in input order
    (src/figma_copy_workflow/helpers.py:39-48). */
module Grouping {
  import opened Wrappers
  import opened Text
  import opened OrderedMap
  import opened CsvStore

  /** The bucket of a record that has no `group` column. */
  const UnknownGroup: string := "Unknown Group"

  /** `row.get('group', 'Unknown Group')`. */
  function GroupOf(row: Row): (g: string)
    ensures "group" !in Keys(row) ==> g == UnknownGroup
    ensures "group" in Keys(row) ==> Get(row, "group") == Some(g)
  {
    GetOr(row, "group", UnknownGroup)
  }

  /** The record is bucketed at all: its group has a non-whitespace
      character. */
  predicate Kept(row: Row) {
    !AllIn(GroupOf(row), Whitespace)
  }

  /** `Kept` is the loop's test `group and group.strip()`. */
  lemma KeptIsTruthyGroup(row: Row)
    ensures Kept(row) <==> GroupOf(row) != "" && Trim(GroupOf(row)) != ""
  {
  }

  /** Bucket name to the records in it. */
  type Groups = Dict<string, seq<Row>>

  /** The kept records of `rows` whose group is `g`, in input order. */
  function RowsIn(rows: seq<Row>, g: string): (rs: seq<Row>) {
    if rows == [] then []
    else
      var last := rows[|rows| - 1];
      RowsIn(rows[..|rows| - 1], g) + (if Kept(last) && GroupOf(last) == g then [last] else [])
  }

  /** The groups of the kept records, each once, in first-seen order. */
  function FirstSeen(rows: seq<Row>): seq<string> {
    if rows == [] then []
    else
      var names := FirstSeen(rows[..|rows| - 1]);
      var last := rows[|rows| - 1];
      if Kept(last) && GroupOf(last) !in names then names + [GroupOf(last)] else names
  }

  /** `groups` is the bucketing of `rows`: one bucket per kept group name in
      first-seen order, holding exactly that group's records in input order. */
  ghost predicate IsGroupingOf(rows: seq<Row>, groups: Groups) {
    && DistinctKeys(groups)
    && Keys(groups) == FirstSeen(rows)
    && forall g :: g in Keys(groups) ==> Get(groups, g) == Some(RowsIn(rows, g))
  }

  /** A bucket holds only input records of its own group. */
  lemma {:induction false} RowsInMembers(rows: seq<Row>, g: string, r: Row)
    requires r in RowsIn(rows, g)
    ensures r in rows && Kept(r) && GroupOf(r) == g
  {
    var n := |rows| - 1;
    if r in RowsIn(rows[..n], g) {
      RowsInMembers(rows[..n], g, r);
    } else {
      assert r == rows[n];
    }
  }

  lemma {:induction false} UnseenIsEmpty(rows: seq<Row>, g: string)
    requires g !in FirstSeen(rows)
    ensures RowsIn(rows, g) == []
  {
    if rows != [] {
      UnseenIsEmpty(rows[..|rows| - 1], g);
    }
  }

  lemma FirstSeenSnoc(rows: seq<Row>, row: Row)
    ensures FirstSeen(rows + [row]) ==
      if Kept(row) && GroupOf(row) !in FirstSeen(rows) then FirstSeen(rows) + [GroupOf(row)] else FirstSeen(rows)
  {
    assert (rows + [row])[..|rows|] == rows;
  }

  lemma RowsInSnoc(rows: seq<Row>, row: Row, h: string)
    ensures RowsIn(rows + [row], h) == if Kept(row) && GroupOf(row) == h then RowsIn(rows, h) + [row] else RowsIn(rows, h)
  {
    assert (rows + [row])[..|rows|] == rows;
    assert RowsIn(rows, h) + [] == RowsIn(rows, h);
  }

  /** One iteration of the loop keeps the bucketing in step with the
      records read so far. */
  lemma GroupingStep(rows: seq<Row>, groups: Groups, row: Row)
    requires IsGroupingOf(rows, groups)
    ensures Kept(row) ==> IsGroupingOf(rows + [row], Set(groups, GroupOf(row), GetOr(groups, GroupOf(row), []) + [row]))
    ensures !Kept(row) ==> IsGroupingOf(rows + [row], groups)
  {
    var rows' := rows + [row];
    var g := GroupOf(row);
    FirstSeenSnoc(rows, row);
    if Kept(row) {
      if g !in Keys(groups) {
        UnseenIsEmpty(rows, g);
      }
      var groups' := Set(groups, g, GetOr(groups, g, []) + [row]);
      forall h | h in Keys(groups') ensures Get(groups', h) == Some(RowsIn(rows', h)) {
        RowsInSnoc(rows, row, h);
      }
    } else {
      forall h | h in Keys(groups) ensures Get(groups, h) == Some(RowsIn(rows', h)) {
        RowsInSnoc(rows, row, h);
      }
    }
  }

  /** `group_data_by_section`'s loop over a `defaultdict(list)`. */
  method GroupBySection(rows: seq<Row>) returns (groups: Groups)
    ensures IsGroupingOf(rows, groups)
  {
    groups := [];
    for i := 0 to |rows|
      invariant IsGroupingOf(rows[..i], groups)
    {
      var row := rows[i];
      var group := GroupOf(row);
      assert rows[..i + 1] == rows[..i] + [row];
      GroupingStep(rows[..i], groups, row);
      KeptIsTruthyGroup(row);
      if group != "" && Trim(group) != "" {
        var bucket := GetOr(groups, group, []);
        groups := Set(groups, group, bucket + [row]);
      }
    }
    assert rows[..|rows|] == rows;
  }

  /** A bucket's name belongs to it: kept records are found under their own
      group, from the first record onward. */
  lemma {:induction false} SeenIffPresent(rows: seq<Row>, g: string)
    ensures g in FirstSeen(rows) <==> RowsIn(rows, g) != []
  {
    if rows != [] {
      SeenIffPresent(rows[..|rows| - 1], g);
    }
  }

  lemma {:induction false} RowsInHas(rows: seq<Row>, j: nat)
    requires j < |rows| && Kept(rows[j])
    ensures rows[j] in RowsIn(rows, GroupOf(rows[j]))
  {
    var n := |rows| - 1;
    var g := GroupOf(rows[j]);
    assert rows[..n] + [rows[n]] == rows;
    RowsInSnoc(rows[..n], rows[n], g);
    if j < n {
      assert rows[j] in RowsIn(rows[..n], g) by {
        assert rows[..n][j] == rows[j];
        RowsInHas(rows[..n], j);
      }
    }
  }

  /** Each kept record lands in the bucket named by its own group. */
  lemma KeptRowPlaced(rows: seq<Row>, groups: Groups, j: nat)
    requires IsGroupingOf(rows, groups)
    requires j < |rows| && Kept(rows[j])
    ensures GroupOf(rows[j]) in Keys(groups)
    ensures rows[j] in Get(groups, GroupOf(rows[j])).value
  {
    RowsInHas(rows, j);
    SeenIffPresent(rows, GroupOf(rows[j]));
  }

  /** Every bucketed record is an input record of that bucket's group, so a
      record with an empty or blank group is in no bucket. */
  lemma BucketMembersBelong(rows: seq<Row>, groups: Groups, g: string, r: Row)
    requires IsGroupingOf(rows, groups)
    requires g in Keys(groups) && r in Get(groups, g).value
    ensures r in rows && Kept(r) && GroupOf(r) == g
  {
    RowsInMembers(rows, g, r);
  }

  /** Bucketing preserves input order: the bucket of the records of two
      consecutive stretches of input is the first stretch's bucket followed
      by the second's. */
  lemma {:induction false} RowsInAppend(a: seq<Row>, b: seq<Row>, g: string)
    ensures RowsIn(a + b, g) == RowsIn(a, g) + RowsIn(b, g)
  {
    if b == [] {
      assert a + b == a;
    } else {
      var n := |b| - 1;
      assert (a + b)[..|a + b| - 1] == a + b[..n];
      RowsInAppend(a, b[..n], g);
    }
  }

  /** The number of kept records. */
  function CountKept(rows: seq<Row>): nat {
    if rows == [] then 0
    else CountKept(rows[..|rows| - 1]) + (if Kept(rows[|rows| - 1]) then 1 else 0)
  }

  /** The total size of buckets `names` over `rows`. */
  function SumSizes(rows: seq<Row>, names: seq<string>): nat {
    if names == [] then 0 else |RowsIn(rows, names[0])| + SumSizes(rows, names[1..])
  }

  /** The number of records in all buckets together. */
  function TotalSize(groups: Groups): nat {
    if groups == [] then 0 else |groups[0].1| + TotalSize(groups[1..])
  }

  lemma {:induction false} SumSizesUnchanged(rows: seq<Row>, r: Row, names: seq<string>)
    requires !Kept(r) || GroupOf(r) !in names
    ensures SumSizes(rows + [r], names) == SumSizes(rows, names)
  {
    if names != [] {
      assert (rows + [r])[..|rows|] == rows;
      SumSizesUnchanged(rows, r, names[1..]);
    }
  }

  lemma {:induction false} SumSizesBump(rows: seq<Row>, r: Row, names: seq<string>)
    requires Kept(r) && GroupOf(r) in names && Distinct(names)
    ensures SumSizes(rows + [r], names) == SumSizes(rows, names) + 1
  {
    assert (rows + [r])[..|rows|] == rows;
    assert Distinct(names[1..]) by {
      forall i, j | 0 <= i < j < |names| - 1 ensures names[1..][i] != names[1..][j] {
        assert names[1..][i] == names[i + 1] && names[1..][j] == names[j + 1];
      }
    }
    if names[0] == GroupOf(r) {
      assert GroupOf(r) !in names[1..] by {
        forall i | 0 <= i < |names| - 1 ensures names[1..][i] != names[0] {
          assert names[1..][i] == names[i + 1];
        }
      }
      SumSizesUnchanged(rows, r, names[1..]);
    } else {
      SumSizesBump(rows, r, names[1..]);
    }
  }

  lemma {:induction false} FirstSeenDistinct(rows: seq<Row>)
    ensures Distinct(FirstSeen(rows))
  {
    if rows != [] {
      FirstSeenDistinct(rows[..|rows| - 1]);
    }
  }

  lemma {:induction false} SumOverFirstSeen(rows: seq<Row>)
    ensures SumSizes(rows, FirstSeen(rows)) == CountKept(rows)
  {
    if rows != [] {
      var n := |rows| - 1;
      var init, r := rows[..n], rows[n];
      assert rows == init + [r];
      SumOverFirstSeen(init);
      var names := FirstSeen(init);
      if !Kept(r) {
        SumSizesUnchanged(init, r, names);
      } else if GroupOf(r) in names {
        FirstSeenDistinct(init);
        SumSizesBump(init, r, names);
      } else {
        SumSizesUnchanged(init, r, names);
        SumSizesSnoc(rows, names, GroupOf(r));
        UnseenIsEmpty(init, GroupOf(r));
      }
    }
  }

  lemma {:induction false} SumSizesSnoc(rows: seq<Row>, names: seq<string>, g: string)
    ensures SumSizes(rows, names + [g]) == SumSizes(rows, names) + |RowsIn(rows, g)|
  {
    if names != [] {
      assert (names + [g])[1..] == names[1..] + [g];
      SumSizesSnoc(rows, names[1..], g);
    }
  }

  lemma {:induction false} TotalIsSum(rows: seq<Row>, groups: Groups)
    requires forall i :: 0 <= i < |groups| ==> groups[i].1 == RowsIn(rows, groups[i].0)
    ensures TotalSize(groups) == SumSizes(rows, Keys(groups))
  {
    if groups != [] {
      assert Keys(groups)[1..] == Keys(groups[1..]);
      TotalIsSum(rows, groups[1..]);
    }
  }

  /** No record is lost or duplicated: the buckets together hold exactly as
      many records as there are kept records. */
  lemma BucketsAccountForKeptRows(rows: seq<Row>, groups: Groups)
    requires IsGroupingOf(rows, groups)
    ensures TotalSize(groups) == CountKept(rows)
  {
    forall i | 0 <= i < |groups| ensures groups[i].1 == RowsIn(rows, groups[i].0) {
      assert Keys(groups)[i] == groups[i].0;
      assert Get(groups, groups[i].0) == Some(groups[i].1);
    }
    TotalIsSum(rows, groups);
    SumOverFirstSeen(rows);
  }
}
