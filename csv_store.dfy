/** The tabular store: how `read_csv_data` prepares the file's lines and
    cleans every row `csv.DictReader` yields, and what `write_csv_data`
    accepts (src/figma_copy_workflow/helpers.py). */
module CsvStore {
  import opened Wrappers
  import opened Text
  import opened OrderedMap

  /** The byte-order mark a UTF-8 file may start with. */
  const Bom: char := '\U{FEFF}'

  /** The characters `strip(' \t"')` removes from header names and values. */
  const Padding: CharSet := SpaceTabQuote

  /** A cleaned record: column name to value, in column order. */
  type Row = Dict<string, string>

  /** A record as `csv.DictReader` yields it; a row shorter than the header
      has no value (`None`) for the missing columns. */
  type RawRow = Dict<string, Option<string>>

  /** Drops one leading byte-order mark: the result is the input itself or
      the input without its first character, and it is shorter exactly when
      the input starts with the mark. */
  function StripBom(content: string): (r: string)
    ensures |content| - 1 <= |r| <= |content|
    ensures r == content[|content| - |r|..]
    ensures |r| < |content| <==> (|content| > 0 && content[0] == Bom)
  {
    if |content| > 0 && content[0] == Bom then content[1..] else content
  }

  /** Python's `sep.join(parts)`. */
  function Join(parts: seq<string>, sep: char): string
    requires |parts| >= 1
  {
    if |parts| == 1 then parts[0] else parts[0] + [sep] + Join(parts[1..], sep)
  }

  /** Python's `s.split(sep)`: always at least one part, no part holds the
      separator, and joining the parts gives `s` back. */
  function Split(s: string, sep: char): (parts: seq<string>)
    ensures |parts| >= 1
    ensures forall i :: 0 <= i < |parts| ==> sep !in parts[i]
    ensures Join(parts, sep) == s
  {
    if |s| == 0 then [""]
    else
      var rest := Split(s[1..], sep);
      if s[0] == sep then
        assert ([""] + rest)[1..] == rest;
        [""] + rest
      else
        var parts := [[s[0]] + rest[0]] + rest[1..];
        assert parts[1..] == rest[1..];
        assert |rest| > 1 ==> Join(rest, sep) == rest[0] + [sep] + Join(rest[1..], sep);
        assert s == [s[0]] + s[1..];
        parts
  }

  /** Splitting a join of separator-free parts recovers the parts. */
  lemma {:induction false} SplitJoin(parts: seq<string>, sep: char)
    requires |parts| >= 1
    requires forall i :: 0 <= i < |parts| ==> sep !in parts[i]
    ensures Split(Join(parts, sep), sep) == parts
  {
    if |parts| == 1 {
      SplitNoSep(parts[0], sep);
    } else {
      SplitJoin(parts[1..], sep);
      SplitAround(parts[0], Join(parts[1..], sep), sep);
      assert [parts[0]] + parts[1..] == parts;
    }
  }

  lemma {:induction false} SplitNoSep(s: string, sep: char)
    requires sep !in s
    ensures Split(s, sep) == [s]
  {
    if |s| > 0 {
      SplitNoSep(s[1..], sep);
      assert [s[0]] + s[1..] == s;
    }
  }

  lemma {:induction false} SplitAround(a: string, b: string, sep: char)
    requires sep !in a
    ensures Split(a + [sep] + b, sep) == [a] + Split(b, sep)
  {
    if |a| == 0 {
      assert a + [sep] + b == [sep] + b;
      assert ([sep] + b)[1..] == b;
    } else {
      assert (a + [sep] + b)[1..] == a[1..] + [sep] + b;
      SplitAround(a[1..], b, sep);
      assert [a[0]] + a[1..] == a;
    }
  }

  /** The lines `read_csv_data` hands to the CSV reader: byte-order mark
      dropped, surrounding whitespace stripped, split on line feeds. */
  function Lines(content: string): (lines: seq<string>)
    ensures |lines| >= 1
    ensures Join(lines, '\n') == Trim(StripBom(content))
    ensures forall i :: 0 <= i < |lines| ==> '\n' !in lines[i]
  {
    Split(Trim(StripBom(content)), '\n')
  }

  /** `s.strip(' \t"')`: the result has no padding character at either end. */
  function CleanField(s: string): (r: string)
    ensures NoEdge(r, Padding)
    ensures NoEdge(s, Padding) ==> r == s
  {
    StripIdempotentOnClean(s);
    Strip(s, Padding)
  }

  lemma StripIdempotentOnClean(s: string)
    ensures NoEdge(s, Padding) ==> Strip(s, Padding) == s
  {
    if NoEdge(s, Padding) {
      assert [] + s + [] == s;
      StripCharacterization([], s, [], Padding);
    }
  }

  /** `value.strip(' \t"') if value else ''`: a missing or empty value
      becomes the empty string. */
  function CleanValue(v: Option<string>): (r: string)
    ensures v.None? || v == Some("") ==> r == ""
    ensures v.Some? ==> r == CleanField(v.value)
    ensures NoEdge(r, Padding)
  {
    match v
    case Some(s) => if s != "" then CleanField(s) else ""
    case None => ""
  }

  /** The cleaned column names of `raw`, each once, in first-seen order. */
  function CleanedKeys(raw: RawRow): (ks: seq<string>)
    ensures forall i :: 0 <= i < |ks| ==> NoEdge(ks[i], Padding)
  {
    if raw == [] then []
    else
      var ks := CleanedKeys(raw[..|raw| - 1]);
      var k := CleanField(raw[|raw| - 1].0);
      if k in ks then ks else ks + [k]
  }

  /** The cleaned value of the last column of `raw` whose cleaned name is `k`. */
  function LastValue(raw: RawRow, k: string): (r: Option<string>)
    ensures r.Some? ==> NoEdge(r.value, Padding)
  {
    if raw == [] then None
    else if CleanField(raw[|raw| - 1].0) == k then Some(CleanValue(raw[|raw| - 1].1))
    else LastValue(raw[..|raw| - 1], k)
  }

  /** `row` is what cleaning `raw` produces: one column per distinct cleaned
      name, in first-seen order, holding the last value given to that name. */
  ghost predicate IsCleaningOf(raw: RawRow, row: Row) {
    && DistinctKeys(row)
    && Keys(row) == CleanedKeys(raw)
    && forall k :: Get(row, k) == LastValue(raw, k)
  }

  /** The inner loop of `read_csv_data` (one record). */
  method CleanRow(raw: RawRow) returns (row: Row)
    ensures IsCleaningOf(raw, row)
    ensures forall i :: 0 <= i < |row| ==> NoEdge(row[i].0, Padding) && NoEdge(row[i].1, Padding)
  {
    row := [];
    for i := 0 to |raw|
      invariant IsCleaningOf(raw[..i], row)
    {
      var cleanedKey := CleanField(raw[i].0);
      var cleanedValue := CleanValue(raw[i].1);
      assert raw[..i + 1][..i] == raw[..i];
      row := Set(row, cleanedKey, cleanedValue);
    }
    assert raw[..|raw|] == raw;
    forall i | 0 <= i < |row| ensures NoEdge(row[i].0, Padding) && NoEdge(row[i].1, Padding) {
      assert Keys(row)[i] == row[i].0;
      assert Get(row, row[i].0) == Some(row[i].1);
    }
  }

  /** The outer loop of `read_csv_data`: every record cleaned, in order. */
  method ReadRows(raws: seq<RawRow>) returns (rows: seq<Row>)
    ensures |rows| == |raws|
    ensures forall i :: 0 <= i < |raws| ==> IsCleaningOf(raws[i], rows[i])
  {
    rows := [];
    for i := 0 to |raws|
      invariant |rows| == i
      invariant forall j :: 0 <= j < i ==> IsCleaningOf(raws[j], rows[j])
    {
      var row := CleanRow(raws[i]);
      rows := rows + [row];
    }
  }

  /** A cleaned row offered again as raw input. */
  function Lift(row: Row): (raw: RawRow)
    ensures |raw| == |row|
    ensures forall i :: 0 <= i < |row| ==> raw[i] == (row[i].0, Some(row[i].1))
  {
    seq(|row|, i requires 0 <= i < |row| => (row[i].0, Some(row[i].1)))
  }

  /** Every column name and value of `row` is already clean. */
  ghost predicate AllClean(row: Row) {
    forall i :: 0 <= i < |row| ==> NoEdge(row[i].0, Padding) && NoEdge(row[i].1, Padding)
  }

  lemma AllCleanInit(row: Row)
    requires AllClean(row) && row != []
    ensures AllClean(row[..|row| - 1])
    ensures NoEdge(row[|row| - 1].0, Padding) && NoEdge(row[|row| - 1].1, Padding)
  {
  }

  lemma {:induction false} CleanOfCleanKeys(row: Row)
    requires DistinctKeys(row) && AllClean(row)
    ensures CleanedKeys(Lift(row)) == Keys(row)
  {
    if row != [] {
      var n := |row| - 1;
      var init := row[..n];
      DistinctInit(row);
      AllCleanInit(row);
      CleanOfCleanKeys(init);
      assert Lift(row)[..n] == Lift(init);
    }
  }

  lemma {:induction false} CleanOfCleanValues(row: Row, k: string)
    requires AllClean(row)
    ensures LastValue(Lift(row), k) == Get(row, k)
  {
    if row != [] {
      var n := |row| - 1;
      var init := row[..n];
      assert row == init + [(row[n].0, row[n].1)];
      assert Lift(row)[..n] == Lift(init);
      AllCleanInit(row);
      CleanOfCleanValues(init, k);
      assert CleanValue(Some(row[n].1)) == row[n].1;
      GetSnoc(init, row[n].0, row[n].1, k);
    }
  }

  /** Cleaning is idempotent: cleaning an already cleaned record again
      reproduces it exactly. */
  lemma CleaningIdempotent(raw: RawRow, row: Row, again: Row)
    requires IsCleaningOf(raw, row)
    requires IsCleaningOf(Lift(row), again)
    ensures again == row
  {
    forall i | 0 <= i < |row| ensures NoEdge(row[i].0, Padding) && NoEdge(row[i].1, Padding) {
      assert Keys(row)[i] == row[i].0;
      assert Get(row, row[i].0) == Some(row[i].1);
    }
    CleanOfCleanKeys(row);
    forall k ensures Get(again, k) == Get(row, k) {
      CleanOfCleanValues(row, k);
    }
    Extensionality(again, row);
  }

  /** Why a write is refused. */
  datatype WriteError =
    | NoData                     // `write_csv_data` on an empty list
    | ExtraFields(row: nat)      // `csv.DictWriter` meets a column missing from the header

  /** What reaches the file: the header, then one line of values per record. */
  datatype CsvTable = CsvTable(header: seq<string>, lines: seq<seq<string>>)

  /** The index of the first record with a column the header lacks. */
  function FirstExtra(rows: seq<Row>, header: seq<string>): (r: Option<nat>)
    ensures r.Some? ==> r.value < |rows| && (exists k :: k in Keys(rows[r.value]) && k !in header)
    ensures r.Some? ==> forall i :: 0 <= i < r.value ==> forall k :: k in Keys(rows[i]) ==> k in header
    ensures r.None? <==> forall i :: 0 <= i < |rows| ==> forall k :: k in Keys(rows[i]) ==> k in header
  {
    if rows == [] then None
    else if exists k :: k in Keys(rows[0]) && k !in header then Some(0)
    else
      match FirstExtra(rows[1..], header)
      case Some(i) =>
        assert forall j :: 1 <= j < i + 1 ==> rows[j] == rows[1..][j - 1];
        Some(i + 1)
      case None =>
        assert forall j :: 1 <= j < |rows| ==> rows[j] == rows[1..][j - 1];
        None
  }

  /** `write_csv_data`: refuses an empty list; otherwise the header is the
      first record's columns in order, and every record becomes one line
      holding its value for each header column ('' where it has none). */
  function WriteCsv(rows: seq<Row>): (r: Result<CsvTable, WriteError>)
    ensures r == Err(NoData) <==> rows == []
    ensures r.Ok? <==> rows != [] && forall i :: 0 <= i < |rows| ==> forall k :: k in Keys(rows[i]) ==> k in Keys(rows[0])
    ensures r.Ok? ==> r.value.header == Keys(rows[0]) && |r.value.lines| == |rows|
    ensures r.Ok? ==> forall i, j :: 0 <= i < |rows| && 0 <= j < |r.value.header| ==>
      |r.value.lines[i]| == |r.value.header| && r.value.lines[i][j] == GetOr(rows[i], r.value.header[j], "")
  {
    if rows == [] then Err(NoData)
    else
      var header := Keys(rows[0]);
      match FirstExtra(rows, header)
      case Some(i) =>
        var k :| k in Keys(rows[i]) && k !in header;
        assert k in Keys(rows[i]) && k !in Keys(rows[0]);
        Err(ExtraFields(i))
      case None =>
        Ok(CsvTable(header, seq(|rows|, i requires 0 <= i < |rows| =>
          seq(|header|, j requires 0 <= j < |header| => GetOr(rows[i], header[j], "")))))
  }
}
