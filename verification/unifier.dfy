/** Turning the files of one unpacked archive into a single table:
    keep the CSV files, concatenate their tables in listing order, and drop
    every row whose first-column key already occurred earlier. */
module Unifier {
  import opened Wrappers
  import opened Tables

  /** A top-level entry of the folder the archive is extracted into, as the
      directory listing gives it (files inside sub-folders are not listed).
      `parsed` is what reading the entry as UTF-8 CSV yields, `None` when
      that read raises, as it does for a sub-folder whose name ends in ".csv". */
  datatype Extracted = Extracted(name: string, parsed: Option<Table>)

  // ---------------------------------------------------------------------
  // Selecting the data files
  // ---------------------------------------------------------------------

  function LowerChar(c: char): char
  {
    if 'A' <= c <= 'Z' then (c as int - 'A' as int + 'a' as int) as char else c
  }

  function Lower(s: string): string
  {
    seq(|s|, i requires 0 <= i < |s| => LowerChar(s[i]))
  }

  predicate EndsWith(s: string, suffix: string)
  {
    |suffix| <= |s| && s[|s| - |suffix|..] == suffix
  }

  /** A listed file is a data file when its lower-cased name ends with ".csv". */
  predicate IsDataFile(name: string)
  {
    EndsWith(Lower(name), ".csv")
  }

  /** The character-level reading of `IsDataFile`: the last four characters
      are a dot followed by c, s and v, each in either case. */
  lemma DataFileByLastFour(name: string)
    ensures IsDataFile(name) <==>
      |name| >= 4 &&
      name[|name| - 4] == '.' &&
      name[|name| - 3] in {'c', 'C'} &&
      name[|name| - 2] in {'s', 'S'} &&
      name[|name| - 1] in {'v', 'V'}
  {
    var low := Lower(name);
    if |name| >= 4 {
      var n := |name|;
      assert low[n - 4..] == [low[n - 4], low[n - 3], low[n - 2], low[n - 1]];
    }
  }

  /** The listed files that are data files, in listing order. */
  function SelectDataFiles(listing: seq<Extracted>): (selected: seq<Extracted>)
    ensures |selected| <= |listing|
    ensures forall e :: e in selected <==> e in listing && IsDataFile(e.name)
  {
    if listing == [] then []
    else (if IsDataFile(listing[0].name) then [listing[0]] else []) + SelectDataFiles(listing[1..])
  }

  /** Selection distributes over concatenation of listings: whatever order
      the files are listed in is the order they are selected in. */
  lemma {:induction false} SelectDataFilesAppend(a: seq<Extracted>, b: seq<Extracted>)
    ensures SelectDataFiles(a + b) == SelectDataFiles(a) + SelectDataFiles(b)
  {
    if a == [] {
      assert a + b == b;
    } else {
      assert (a + b)[0] == a[0];
      assert (a + b)[1..] == a[1..] + b;
      SelectDataFilesAppend(a[1..], b);
    }
  }

  // ---------------------------------------------------------------------
  // Reading and concatenating
  // ---------------------------------------------------------------------

  /** The tables of the selected files, in order; `None` as soon as one of
      them cannot be read. */
  function ReadAll(files: seq<Extracted>): (tables: Option<seq<Table>>)
    ensures tables.Some? <==> forall i :: 0 <= i < |files| ==> files[i].parsed.Some?
    ensures tables.Some? ==>
      |tables.value| == |files| &&
      forall i :: 0 <= i < |files| ==> tables.value[i] == files[i].parsed.value
  {
    if files == [] then Some([])
    else if files[0].parsed.None? then None
    else
      match ReadAll(files[1..])
      case None => None
      case Some(rest) => Some([files[0].parsed.value] + rest)
  }

  predicate SameHeader(tables: seq<Table>)
  {
    forall i :: 0 <= i < |tables| ==> tables[i].header == tables[0].header
  }

  /** The sum of the row counts of the tables. */
  function TotalRows(tables: seq<Table>): nat
  {
    if tables == [] then 0 else |tables[0].rows| + TotalRows(tables[1..])
  }

  function ConcatRows(tables: seq<Table>): (rows: seq<Row>)
    ensures |rows| == TotalRows(tables)
  {
    if tables == [] then [] else tables[0].rows + ConcatRows(tables[1..])
  }

  /** The tables stacked one below the other, under the common header. */
  function Concat(tables: seq<Table>): (t: Table)
    requires |tables| > 0 && SameHeader(tables)
    ensures t.header == tables[0].header
    ensures t.rows == ConcatRows(tables)
    ensures |t.rows| == TotalRows(tables)
    ensures (forall i :: 0 <= i < |tables| ==> WellFormed(tables[i])) ==> WellFormed(t)
  {
    ConcatWellFormed(tables);
    Table(tables[0].header, ConcatRows(tables))
  }

  lemma {:induction false} ConcatWellFormed(tables: seq<Table>)
    requires |tables| > 0 && SameHeader(tables)
    ensures (forall i :: 0 <= i < |tables| ==> WellFormed(tables[i])) ==>
      forall k :: 0 <= k < |ConcatRows(tables)| ==> |ConcatRows(tables)[k]| == |tables[0].header|
  {
    if |tables| > 1 && forall i :: 0 <= i < |tables| ==> WellFormed(tables[i]) {
      var rest := tables[1..];
      assert forall i :: 0 <= i < |rest| ==> WellFormed(rest[i]) by {
        forall i | 0 <= i < |rest| ensures WellFormed(rest[i]) {
          assert rest[i] == tables[i + 1];
        }
      }
      ConcatWellFormed(rest);
    }
  }

  /** Row `j` of file `f` lands at position (rows of the earlier files) + `j`:
      rows appear in file-then-in-file order. */
  lemma {:induction false} ConcatRowAt(tables: seq<Table>, f: nat, j: nat)
    requires f < |tables| && j < |tables[f].rows|
    ensures TotalRows(tables[..f]) + j < TotalRows(tables)
    ensures ConcatRows(tables)[TotalRows(tables[..f]) + j] == tables[f].rows[j]
  {
    if f == 0 {
      assert tables[..0] == [];
    } else {
      var rest := tables[1..];
      assert tables[..f][0] == tables[0];
      assert tables[..f][1..] == rest[..f - 1];
      assert rest[f - 1] == tables[f];
      ConcatRowAt(rest, f - 1, j);
    }
  }

  // ---------------------------------------------------------------------
  // Deduplication by the first column
  // ---------------------------------------------------------------------

  /** The keys that occur in `rows`. */
  function KeysOf(rows: seq<Row>): set<Cell>
    requires HasKeys(rows)
  {
    set i | 0 <= i < |rows| :: Key(rows[i])
  }

  lemma KeysOfSnoc(rows: seq<Row>, row: Row)
    requires HasKeys(rows) && |row| > 0
    ensures HasKeys(rows + [row])
    ensures KeysOf(rows + [row]) == KeysOf(rows) + {Key(row)}
  {
    var all := rows + [row];
    assert Key(all[|rows|]) == Key(row);
    forall k | k in KeysOf(rows) ensures k in KeysOf(all) {
      var i :| 0 <= i < |rows| && Key(rows[i]) == k;
      assert all[i] == rows[i];
    }
  }

  /** No two rows share a key. */
  predicate UniqueKeys(rows: seq<Row>)
    requires HasKeys(rows)
  {
    forall i, j :: 0 <= i < j < |rows| ==> Key(rows[i]) != Key(rows[j])
  }

  /** Row `i` is the first row carrying its key. */
  ghost predicate IsFirstOccurrence(rows: seq<Row>, i: nat)
    requires HasKeys(rows) && i < |rows|
  {
    forall j :: 0 <= j < i ==> Key(rows[j]) != Key(rows[i])
  }

  /** The rows with a repeated key dropped, the first occurrence of each key
      kept: the last row survives exactly when its key does not occur among
      the rows before it. */
  function Dedup(rows: seq<Row>): (kept: seq<Row>)
    requires HasKeys(rows)
    ensures HasKeys(kept)
    ensures forall r :: r in kept ==> r in rows
    ensures UniqueKeys(kept)
    ensures KeysOf(kept) == KeysOf(rows)
    ensures |kept| == |KeysOf(rows)| <= |rows|
    decreases |rows|
  {
    if rows == [] then []
    else
      var init := rows[..|rows| - 1];
      var last := rows[|rows| - 1];
      assert rows == init + [last];
      KeysOfSnoc(init, last);
      var prev := Dedup(init);
      if Key(last) in KeysOf(init) then prev
      else
        KeysOfSnoc(prev, last);
        prev + [last]
  }

  /** `idx` lists, in increasing order, exactly the positions of the first
      occurrences in `rows`, and `kept` is the rows at those positions. */
  ghost predicate SelectsFirstOccurrences(rows: seq<Row>, idx: seq<nat>, kept: seq<Row>)
    requires HasKeys(rows)
  {
    && |idx| == |kept|
    && (forall k :: 0 <= k < |idx| ==> idx[k] < |rows| && kept[k] == rows[idx[k]])
    && (forall k, l :: 0 <= k < l < |idx| ==> idx[k] < idx[l])
    && (forall i :: 0 <= i < |rows| ==> (i in idx <==> IsFirstOccurrence(rows, i)))
  }

  /** Each kept row is the first input row carrying its key, every first
      occurrence is kept, and the kept rows keep their input order. */
  lemma {:induction false} DedupKeepsFirstOccurrences(rows: seq<Row>)
    requires HasKeys(rows)
    ensures exists idx :: SelectsFirstOccurrences(rows, idx, Dedup(rows))
  {
    if rows == [] {
      assert SelectsFirstOccurrences(rows, [], Dedup(rows));
    } else {
      var n := |rows| - 1;
      var init := rows[..n];
      DedupKeepsFirstOccurrences(init);
      var idx: seq<nat> :| SelectsFirstOccurrences(init, idx, Dedup(init));
      var idx' := ExtendSelection(rows, idx);
    }
  }

  /** One step of the induction: from the selection for all rows but the
      last, the selection for all rows. */
  lemma ExtendSelection(rows: seq<Row>, idx: seq<nat>) returns (idx': seq<nat>)
    requires HasKeys(rows) && |rows| > 0
    requires SelectsFirstOccurrences(rows[..|rows| - 1], idx, Dedup(rows[..|rows| - 1]))
    ensures SelectsFirstOccurrences(rows, idx', Dedup(rows))
  {
    var n := |rows| - 1;
    var init := rows[..n];
    var last := rows[n];
    assert rows == init + [last];
    KeysOfSnoc(init, last);
    FirstOccurrenceInPrefix(rows);
    if Key(last) in KeysOf(init) {
      assert !IsFirstOccurrence(rows, n) by {
        var j :| 0 <= j < n && Key(init[j]) == Key(last);
        assert rows[j] == init[j];
      }
      assert Dedup(rows) == Dedup(init);
      idx' := idx;
      DroppedLast(rows, idx, Dedup(init));
    } else {
      assert IsFirstOccurrence(rows, n) by {
        forall j | 0 <= j < n ensures Key(rows[j]) != Key(last) {
          assert rows[j] == init[j];
        }
      }
      assert Dedup(rows) == Dedup(init) + [last];
      idx' := idx + [n];
      KeptLast(rows, idx, Dedup(init));
    }
  }

  lemma DroppedLast(rows: seq<Row>, idx: seq<nat>, prev: seq<Row>)
    requires HasKeys(rows) && |rows| > 0
    requires SelectsFirstOccurrences(rows[..|rows| - 1], idx, prev)
    requires forall i :: 0 <= i < |rows| - 1 ==>
      (IsFirstOccurrence(rows, i) <==> IsFirstOccurrence(rows[..|rows| - 1], i))
    requires !IsFirstOccurrence(rows, |rows| - 1)
    ensures SelectsFirstOccurrences(rows, idx, prev)
  {
  }

  lemma KeptLast(rows: seq<Row>, idx: seq<nat>, prev: seq<Row>)
    requires HasKeys(rows) && |rows| > 0
    requires SelectsFirstOccurrences(rows[..|rows| - 1], idx, prev)
    requires forall i :: 0 <= i < |rows| - 1 ==>
      (IsFirstOccurrence(rows, i) <==> IsFirstOccurrence(rows[..|rows| - 1], i))
    requires IsFirstOccurrence(rows, |rows| - 1)
    ensures SelectsFirstOccurrences(rows, idx + [|rows| - 1], prev + [rows[|rows| - 1]])
  {
  }

  /** Whether a row that is not the last is a first occurrence does not
      depend on the last row. */
  lemma FirstOccurrenceInPrefix(rows: seq<Row>)
    requires HasKeys(rows) && |rows| > 0
    ensures HasKeys(rows[..|rows| - 1])
    ensures forall i :: 0 <= i < |rows| - 1 ==>
      (IsFirstOccurrence(rows, i) <==> IsFirstOccurrence(rows[..|rows| - 1], i))
  {
  }

  /** Rows whose keys are already unique are all kept. */
  lemma {:induction false} DedupUniqueIsIdentity(rows: seq<Row>)
    requires HasKeys(rows) && UniqueKeys(rows)
    ensures Dedup(rows) == rows
  {
    if rows != [] {
      var n := |rows| - 1;
      var init := rows[..n];
      var last := rows[n];
      assert rows == init + [last];
      KeysOfSnoc(init, last);
      assert Key(last) !in KeysOf(init) by {
        forall i | 0 <= i < n ensures Key(init[i]) != Key(last) {
          assert init[i] == rows[i];
        }
      }
      assert UniqueKeys(init) by {
        forall i, j | 0 <= i < j < n ensures Key(init[i]) != Key(init[j]) {
          assert init[i] == rows[i] && init[j] == rows[j];
        }
      }
      DedupUniqueIsIdentity(init);
    }
  }

  /** Deduplicating twice is the same as deduplicating once. */
  lemma DedupIdempotent(rows: seq<Row>)
    requires HasKeys(rows)
    ensures Dedup(Dedup(rows)) == Dedup(rows)
  {
    DedupUniqueIsIdentity(Dedup(rows));
  }

  /** Deduplication of a table: its header is kept, its rows deduplicated. */
  function DedupTable(t: Table): (u: Table)
    requires WellFormed(t)
    ensures WellFormed(u) && u.header == t.header
    ensures HasKeys(t.rows) && u.rows == Dedup(t.rows)
    ensures |u.rows| <= |t.rows|
  {
    var kept := Dedup(t.rows);
    assert forall i :: 0 <= i < |kept| ==> |kept[i]| == |t.header| by {
      forall i | 0 <= i < |kept| ensures |kept[i]| == |t.header| {
        assert kept[i] in t.rows;
      }
    }
    Table(t.header, kept)
  }

  // ---------------------------------------------------------------------
  // The whole step
  // ---------------------------------------------------------------------

  /** Every data file that parses gives a well-formed table, and all of
      them share one header. */
  predicate ConsistentDataFiles(listing: seq<Extracted>)
  {
    && (forall i :: 0 <= i < |listing| && IsDataFile(listing[i].name) && listing[i].parsed.Some? ==>
          WellFormed(listing[i].parsed.value))
    && (forall i, j ::
          (0 <= i < |listing| && 0 <= j < |listing| &&
           IsDataFile(listing[i].name) && IsDataFile(listing[j].name) &&
           listing[i].parsed.Some? && listing[j].parsed.Some?) ==>
          listing[i].parsed.value.header == listing[j].parsed.value.header)
  }

  /** The unpacked archive turned into one table: `None` when it holds no
      data file or one of them cannot be read; otherwise the concatenation
      of the data files' tables, deduplicated by the first column. */
  function UnzipAndProcess(listing: seq<Extracted>): (result: Option<Table>)
    requires ConsistentDataFiles(listing)
    ensures (forall e :: e in listing ==> !IsDataFile(e.name)) ==> result.None?
    ensures (exists e :: e in listing && IsDataFile(e.name) && e.parsed.None?) ==> result.None?
    ensures result.Some? ==>
      var tables := ReadAll(SelectDataFiles(listing)).value;
      && |tables| > 0
      && SameHeader(tables)
      && WellFormed(result.value)
      && result.value.header == tables[0].header
      && HasKeys(ConcatRows(tables))
      && result.value.rows == Dedup(ConcatRows(tables))
  {
    var selected := SelectDataFiles(listing);
    if selected == [] then None
    else
      match ReadAll(selected)
      case None => None
      case Some(tables) =>
        assert forall i :: 0 <= i < |tables| ==> tables[i] == selected[i].parsed.value;
        assert forall i :: 0 <= i < |tables| ==> selected[i] in listing;
        assert SameHeader(tables);
        Some(DedupTable(Concat(tables)))
  }

  /** The selected files all parse and there is at least one of them
      exactly when a table comes out. */
  lemma UnzipAndProcessSome(listing: seq<Extracted>)
    requires ConsistentDataFiles(listing)
    ensures UnzipAndProcess(listing).Some? <==>
      (exists e :: e in listing && IsDataFile(e.name)) &&
      (forall e :: e in listing && IsDataFile(e.name) ==> e.parsed.Some?)
  {
  }

  /** Two files with header [id, qty]: rows (1,5) in the first, (1,7) and
      (2,3) in the second. The unified table is (1,5), (2,3). */
  lemma FirstOccurrenceWinsAcrossFiles(listing: seq<Extracted>)
    requires listing == [
      Extracted("a.csv", Some(Table(["id", "qty"], [[Some("1"), Some("5")]]))),
      Extracted("b.CSV", Some(Table(["id", "qty"], [[Some("1"), Some("7")], [Some("2"), Some("3")]])))]
    ensures ConsistentDataFiles(listing)
    ensures UnzipAndProcess(listing) == Some(Table(["id", "qty"], [[Some("1"), Some("5")], [Some("2"), Some("3")]]))
  {
    var first := Table(["id", "qty"], [[Some("1"), Some("5")]]);
    var second := Table(["id", "qty"], [[Some("1"), Some("7")], [Some("2"), Some("3")]]);
    ScenarioTablesRead(listing);
    assert ConcatRows([first, second]) == [[Some("1"), Some("5")], [Some("1"), Some("7")], [Some("2"), Some("3")]] by {
      assert [first, second][1..][1..] == [];
    }
    ScenarioRowsDeduplicated();
  }

  lemma ScenarioTablesRead(listing: seq<Extracted>)
    requires listing == [
      Extracted("a.csv", Some(Table(["id", "qty"], [[Some("1"), Some("5")]]))),
      Extracted("b.CSV", Some(Table(["id", "qty"], [[Some("1"), Some("7")], [Some("2"), Some("3")]])))]
    ensures ReadAll(SelectDataFiles(listing)) == Some([listing[0].parsed.value, listing[1].parsed.value])
  {
    assert IsDataFile("a.csv") by { DataFileByLastFour("a.csv"); }
    assert IsDataFile("b.CSV") by { DataFileByLastFour("b.CSV"); }
    var tail := listing[1..];
    assert tail[1..] == [];
    assert SelectDataFiles(listing) == listing;
    assert ReadAll(tail[1..]) == Some([]);
    assert [tail[0].parsed.value] + [] == [tail[0].parsed.value];
    assert ReadAll(tail) == Some([listing[1].parsed.value]);
    assert [listing[0].parsed.value] + [listing[1].parsed.value] == [listing[0].parsed.value, listing[1].parsed.value];
  }

  lemma ScenarioRowsDeduplicated()
    ensures Dedup([[Some("1"), Some("5")], [Some("1"), Some("7")], [Some("2"), Some("3")]])
      == [[Some("1"), Some("5")], [Some("2"), Some("3")]]
  {
  }
}
