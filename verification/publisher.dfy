/** Publishing the unified table to the "Base" tab of the destination
    spreadsheet: clear the tab, write the header row, then append the body
    in consecutive batches of at most `ChunkSize` rows. */
module Publisher {
  import opened Wrappers
  import opened Tables

  /** The largest number of body rows sent in one append request. */
  const ChunkSize: nat := 15000

  /** A row as the spreadsheet receives it: every cell is text. */
  type SheetRow = seq<string>

  /** A request the tab has received. */
  datatype Request = Cleared | Appended(batch: seq<SheetRow>)

  /** The destination tab. `rows` is its content; `requests` is every
      request it has received, oldest first. */
  class Worksheet {
    var rows: seq<SheetRow>
    var requests: seq<Request>

    constructor (initial: seq<SheetRow>)
      ensures rows == initial && requests == []
    {
      rows := initial;
      requests := [];
    }

    /** Remove all content of the tab. */
    method Clear()
      modifies this
      ensures rows == []
      ensures requests == old(requests) + [Cleared]
    {
      rows := [];
      requests := requests + [Cleared];
    }

    /** Add `batch` below the current content, in order. */
    method AppendRows(batch: seq<SheetRow>)
      modifies this
      ensures rows == old(rows) + batch
      ensures requests == old(requests) + [Appended(batch)]
    {
      rows := rows + batch;
      requests := requests + [Appended(batch)];
    }
  }

  // ---------------------------------------------------------------------
  // Filling missing cells
  // ---------------------------------------------------------------------

  /** A missing cell becomes the empty string; a present cell is sent as it is. */
  function FillMissing(row: Row): (filled: SheetRow)
    ensures |filled| == |row|
    ensures forall i :: 0 <= i < |row| && row[i].None? ==> filled[i] == ""
    ensures forall i :: 0 <= i < |row| && row[i].Some? ==> filled[i] == row[i].value
  {
    seq(|row|, i requires 0 <= i < |row| => if row[i].Some? then row[i].value else "")
  }

  function FillRows(rows: seq<Row>): (filled: seq<SheetRow>)
    ensures |filled| == |rows|
    ensures forall k :: 0 <= k < |rows| ==> filled[k] == FillMissing(rows[k])
  {
    seq(|rows|, k requires 0 <= k < |rows| => FillMissing(rows[k]))
  }

  // ---------------------------------------------------------------------
  // Batches
  // ---------------------------------------------------------------------

  function Min(a: int, b: int): int
  {
    if a <= b then a else b
  }

  /** The batches of `rows` starting at positions `from`, `from + size`,
      `from + 2 * size`, ... below `|rows|`, each `size` rows long or cut
      short by the end of `rows`. */
  function ChunksFrom(rows: seq<SheetRow>, from: nat, size: nat): seq<seq<SheetRow>>
    requires size > 0
    decreases |rows| - from
  {
    if from >= |rows| then []
    else [rows[from..Min(from + size, |rows|)]] + ChunksFrom(rows, from + size, size)
  }

  /** All the batches of `rows`. */
  function Chunks(rows: seq<SheetRow>, size: nat): seq<seq<SheetRow>>
    requires size > 0
  {
    ChunksFrom(rows, 0, size)
  }

  function Flatten(chunks: seq<seq<SheetRow>>): seq<SheetRow>
  {
    if chunks == [] then [] else chunks[0] + Flatten(chunks[1..])
  }

  lemma {:induction false} FlattenSnoc(chunks: seq<seq<SheetRow>>, chunk: seq<SheetRow>)
    ensures Flatten(chunks + [chunk]) == Flatten(chunks) + chunk
  {
    if chunks == [] {
      assert [] + [chunk] == [chunk];
      assert Flatten([chunk][1..]) == [];
    } else {
      assert (chunks + [chunk])[1..] == chunks[1..] + [chunk];
      FlattenSnoc(chunks[1..], chunk);
    }
  }

  lemma {:induction false} ChunksFromCover(rows: seq<SheetRow>, from: nat, size: nat)
    requires size > 0 && from <= |rows|
    ensures Flatten(ChunksFrom(rows, from, size)) == rows[from..]
    decreases |rows| - from
  {
    if from < |rows| {
      var end := Min(from + size, |rows|);
      var rest := ChunksFrom(rows, from + size, size);
      assert ChunksFrom(rows, from, size)[1..] == rest;
      if from + size <= |rows| {
        ChunksFromCover(rows, from + size, size);
      } else {
        assert rest == [];
      }
      assert rows[from..] == rows[from..end] + rows[end..];
    }
  }

  /** The batches together are the rows: every row is sent exactly once,
      and in order. */
  lemma ChunksCover(rows: seq<SheetRow>, size: nat)
    requires size > 0
    ensures Flatten(Chunks(rows, size)) == rows
  {
    ChunksFromCover(rows, 0, size);
  }

  lemma {:induction false} ChunksFromSizes(rows: seq<SheetRow>, from: nat, size: nat)
    requires size > 0
    ensures forall k :: 0 <= k < |ChunksFrom(rows, from, size)| ==>
      0 < |ChunksFrom(rows, from, size)[k]| <= size
    ensures forall k :: 0 <= k < |ChunksFrom(rows, from, size)| - 1 ==>
      |ChunksFrom(rows, from, size)[k]| == size
    decreases |rows| - from
  {
    if from < |rows| {
      ChunksFromSizes(rows, from + size, size);
      var cs := ChunksFrom(rows, from, size);
      var rest := ChunksFrom(rows, from + size, size);
      var end := Min(from + size, |rows|);
      assert cs == [rows[from..end]] + rest;
      assert |cs[0]| == end - from;
      forall k | 1 <= k < |cs|
        ensures 0 < |cs[k]| <= size && (k < |cs| - 1 ==> |cs[k]| == size)
      {
        assert cs[k] == rest[k - 1];
      }
      if |cs| > 1 {
        assert from + size < |rows|;
      }
    }
  }

  /** No batch is empty or longer than `size`, and only the last may be
      shorter than `size`. */
  lemma ChunkSizes(rows: seq<SheetRow>, size: nat)
    requires size > 0
    ensures var cs := Chunks(rows, size);
      && (forall k :: 0 <= k < |cs| ==> 0 < |cs[k]| <= size)
      && (forall k :: 0 <= k < |cs| - 1 ==> |cs[k]| == size)
  {
    assert Chunks(rows, size) == ChunksFrom(rows, 0, size);
    ChunksFromSizes(rows, 0, size);
  }

  /** The number of batches needed for `n` rows: n / size rounded up. */
  function BatchCount(n: nat, size: nat): (count: nat)
    requires size > 0
    ensures (count - 1) * size < n <= count * size || (n == 0 && count == 0)
  {
    (n + size - 1) / size
  }

  lemma {:induction false} ChunksFromCount(rows: seq<SheetRow>, from: nat, size: nat)
    requires size > 0 && from <= |rows|
    ensures |ChunksFrom(rows, from, size)| == BatchCount(|rows| - from, size)
    decreases |rows| - from
  {
    var m := |rows| - from;
    if m == 0 {
      assert BatchCount(0, size) == 0;
    } else if m <= size {
      assert ChunksFrom(rows, from + size, size) == [];
      assert size <= m + size - 1 < 2 * size;
      assert BatchCount(m, size) == 1;
    } else {
      ChunksFromCount(rows, from + size, size);
      assert BatchCount(m, size) == BatchCount(m - size, size) + 1 by {
        assert m + size - 1 == (m - size + size - 1) + size;
        DivStep(m - size + size - 1, size);
      }
    }
  }

  lemma DivStep(x: nat, size: nat)
    requires size > 0
    ensures (x + size) / size == x / size + 1
  {
    var q, r := x / size, x % size;
    assert x + size == (q + 1) * size + r;
    DivUnique(x + size, size, q + 1, r);
  }

  /** Division is determined by quotient and remainder. */
  lemma DivUnique(a: int, size: int, q: int, r: int)
    requires size > 0 && 0 <= r < size && a == q * size + r
    ensures a / size == q
  {
    var d, m := a / size, a % size;
    assert (q - d) * size == m - r;
    if q - d >= 1 {
      MulAtLeast(q - d, size);
    } else if d - q >= 1 {
      MulAtLeast(d - q, size);
    }
  }

  lemma MulAtLeast(k: int, size: int)
    requires k >= 1 && size > 0
    ensures k * size >= size
  {
  }

  /** There are exactly ceil(n / size) batches. */
  lemma ChunkCount(rows: seq<SheetRow>, size: nat)
    requires size > 0
    ensures |Chunks(rows, size)| == BatchCount(|rows|, size)
  {
    ChunksFromCount(rows, 0, size);
  }

  /** The batch total the upload announces in its progress messages. */
  function LoggedBatchTotal(n: nat): (total: nat)
    ensures total > 0
    ensures (total - 1) * ChunkSize <= n < total * ChunkSize
  {
    n / ChunkSize + 1
  }

  /** The announced total is the number of batches sent, except when the
      row count is a multiple of the batch size: then it is one more. */
  lemma LoggedBatchTotalOvercounts(n: nat)
    ensures LoggedBatchTotal(n) == BatchCount(n, ChunkSize) + (if n % ChunkSize == 0 then 1 else 0)
  {
  }

  /** For 15000 rows one batch is sent while two are announced. */
  lemma LoggedBatchTotalAtOneFullBatch()
    ensures LoggedBatchTotal(15000) == 2 && BatchCount(15000, ChunkSize) == 1
  {
  }

  // ---------------------------------------------------------------------
  // The upload
  // ---------------------------------------------------------------------

  /** A table is empty when it has no cells, that is no rows or no columns. */
  predicate IsEmpty(t: Table): (empty: bool)
    ensures empty <==> |t.rows| * |t.header| == 0
  {
    |t.rows| == 0 || |t.header| == 0
  }

  /** The requests a list of batches turns into. */
  function AppendAll(chunks: seq<seq<SheetRow>>): (reqs: seq<Request>)
    ensures |reqs| == |chunks|
    ensures forall k :: 0 <= k < |chunks| ==> reqs[k] == Appended(chunks[k])
  {
    seq(|chunks|, k requires 0 <= k < |chunks| => Appended(chunks[k]))
  }

  /** Replace the tab's content by `table`. `ws` is `null` when the tab
      could not be reached (the credential file is missing, authorisation
      fails, or the spreadsheet or the tab cannot be opened); then, as when
      there is no table or it is empty, no request is sent. Otherwise the
      tab is cleared, the header row is appended on its own, and the body,
      with missing cells filled, is appended batch by batch. */
  method UpdateSheet(table: Option<Table>, ws: Worksheet?)
    modifies ws
    ensures ws != null && (table.None? || IsEmpty(table.value)) ==> unchanged(ws)
    ensures ws != null && table.Some? && !IsEmpty(table.value) ==>
      var body := FillRows(table.value.rows);
      && ws.rows == [table.value.header] + body
      && ws.requests ==
           old(ws.requests) + [Cleared, Appended([table.value.header])] + AppendAll(Chunks(body, ChunkSize))
  {
    if table.None? || IsEmpty(table.value) {
      return;
    }
    if ws == null {
      return;
    }
    var t := table.value;
    ws.Clear();
    ws.AppendRows([t.header]);
    var data := FillRows(t.rows);
    AppendInBatches(ws, data);
  }

  /** The batch loop: append `data` to the tab `ChunkSize` rows at a time. */
  method AppendInBatches(ws: Worksheet, data: seq<SheetRow>)
    modifies ws
    ensures ws.rows == old(ws.rows) + data
    ensures ws.requests == old(ws.requests) + AppendAll(Chunks(data, ChunkSize))
  {
    var i := 0;
    ghost var sent: seq<seq<SheetRow>> := [];
    while i < |data|
      invariant sent + ChunksFrom(data, i, ChunkSize) == Chunks(data, ChunkSize)
      invariant Flatten(sent) == data[..Min(i, |data|)]
      invariant ws.rows == old(ws.rows) + Flatten(sent)
      invariant ws.requests == old(ws.requests) + AppendAll(sent)
      decreases |data| - i
    {
      var chunk := data[i..Min(i + ChunkSize, |data|)];
      ws.AppendRows(chunk);
      BatchStep(data, i, sent);
      sent := sent + [chunk];
      i := i + ChunkSize;
    }
    assert ChunksFrom(data, i, ChunkSize) == [];
    assert data[..Min(i, |data|)] == data;
  }

  /** What one pass of the batch loop adds to what has been sent. */
  lemma BatchStep(data: seq<SheetRow>, i: nat, sent: seq<seq<SheetRow>>)
    requires i < |data|
    requires sent + ChunksFrom(data, i, ChunkSize) == Chunks(data, ChunkSize)
    requires Flatten(sent) == data[..Min(i, |data|)]
    ensures var chunk := data[i..Min(i + ChunkSize, |data|)];
      && (sent + [chunk]) + ChunksFrom(data, i + ChunkSize, ChunkSize) == Chunks(data, ChunkSize)
      && Flatten(sent + [chunk]) == data[..Min(i + ChunkSize, |data|)]
      && Flatten(sent + [chunk]) == Flatten(sent) + chunk
      && AppendAll(sent + [chunk]) == AppendAll(sent) + [Appended(chunk)]
  {
    var end := Min(i + ChunkSize, |data|);
    var chunk := data[i..end];
    assert ChunksFrom(data, i, ChunkSize) == [chunk] + ChunksFrom(data, i + ChunkSize, ChunkSize);
    assert (sent + [chunk]) + ChunksFrom(data, i + ChunkSize, ChunkSize) == sent + ChunksFrom(data, i, ChunkSize);
    FlattenSnoc(sent, chunk);
    assert data[..end] == data[..i] + chunk;
  }
}
