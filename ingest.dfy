/**
 * Chunked ingestion of the raw trip file into the structured store
 * (src/data_ingest.py, `ingest_data`).
 *
 * The file arrives as a sequence of chunks, each a header plus rows. Every
 * chunk is projected onto the eight expected columns; a chunk that lacks one
 * of them raises a key error, is logged and skipped. The first chunk that is
 * ingested replaces the destination table, every later one is appended to it.
 * The counter of ingested chunks advances only on success.
 */
module Ingest {
  import opened Wrappers
  import Seqs

  /** One field of a chunk, as the CSV reader delivers it; `Null` is a missing value. */
  datatype Cell = Null | Int(i: int) | Real(r: real) | Text(s: string) | Timestamp(seconds: int)

  type Row = seq<Cell>

  /** A chunk of the source file: its column names and its rows. */
  datatype Chunk = Chunk(header: seq<string>, rows: seq<Row>)

  /** A table of the store: its column names and its rows. */
  datatype Table = Table(columns: seq<string>, rows: seq<Row>)

  /** The messages the loader logs, one per chunk. */
  datatype LogEntry =
    | Ingested(chunkNo: nat)                           // "Ingested chunk {chunkNo}..."
    | ColumnError(chunkNo: nat, missing: seq<string>)  // "Column error in chunk {chunkNo}: ... Skipping this chunk."

  /** The columns kept, in the order they are stored. */
  const PickupDatetime: string := "pickup_datetime"
  const DropoffDatetime: string := "dropoff_datetime"
  const PickupLongitude: string := "pickup_longitude"
  const PickupLatitude: string := "pickup_latitude"
  const DropoffLongitude: string := "dropoff_longitude"
  const DropoffLatitude: string := "dropoff_latitude"
  const PassengerCount: string := "passenger_count"
  const TripDuration: string := "trip_duration"

  const ExpectedColumns: seq<string> := [
    PickupDatetime, DropoffDatetime, PickupLongitude, PickupLatitude,
    DropoffLongitude, DropoffLatitude, PassengerCount, TripDuration
  ]

  /** The two columns whose values are converted by the timestamp parser. */
  predicate IsTimestampColumn(name: string) {
    name == PickupDatetime || name == DropoffDatetime
  }

  /** Position of the first column called `name`. */
  function IndexOf(header: seq<string>, name: string): (r: Option<nat>)
    ensures r.None? <==> name !in header
    ensures r.Some? ==> r.value < |header| && header[r.value] == name && name !in header[..r.value]
  {
    if header == [] then None
    else if header[0] == name then Some(0)
    else match IndexOf(header[1..], name)
      case None => None
      case Some(i) =>
        assert header[..i + 1] == [header[0]] + header[1..][..i];
        Some(i + 1)
  }

  /** The columns of `wanted` that `header` lacks, in the order of `wanted`. */
  function Missing(wanted: seq<string>, header: seq<string>): (r: seq<string>)
    decreases |wanted|
  {
    if wanted == [] then []
    else (if wanted[0] in header then [] else [wanted[0]]) + Missing(wanted[1..], header)
  }

  /** The expected columns a header lacks, in expected order (the key error's message). */
  function MissingColumns(header: seq<string>): (r: seq<string>)
  {
    Missing(ExpectedColumns, header)
  }

  lemma {:induction false} MissingSpec(wanted: seq<string>, header: seq<string>)
    ensures Missing(wanted, header) == [] <==> forall c :: c in wanted ==> c in header
    decreases |wanted|
  {
    if wanted != [] {
      MissingSpec(wanted[1..], header);
      assert wanted == [wanted[0]] + wanted[1..];
    }
  }

  /** No column is reported missing exactly when every expected column is present. */
  lemma MissingColumnsSpec(header: seq<string>)
    ensures MissingColumns(header) == [] <==> forall c :: c in ExpectedColumns ==> c in header
  {
    MissingSpec(ExpectedColumns, header);
  }

  /** Selecting the expected columns succeeds (no key error). */
  predicate HasExpectedColumns(c: Chunk) {
    MissingColumns(c.header) == []
  }

  /** The value under column `name` in `row`; a row shorter than the header reads as missing. */
  function Field(header: seq<string>, row: Row, name: string): (v: Cell)
    requires name in header
  {
    var i := IndexOf(header, name).value;
    if i < |row| then row[i] else Null
  }

  /** Stored form of a value of column `name`: timestamps go through the parser. */
  function Convert(name: string, value: Cell, parseTime: Cell -> Cell): (v: Cell) {
    if IsTimestampColumn(name) then parseTime(value) else value
  }

  /** `chunk[names]` for one row: the fields under `names`, in that order. */
  function Select(header: seq<string>, row: Row, names: seq<string>): (r: Row)
    requires forall n :: n in names ==> n in header
    ensures |r| == |names|
    ensures forall j :: 0 <= j < |r| ==> r[j] == Field(header, row, names[j])
  {
    if names == [] then [] else [Field(header, row, names[0])] + Select(header, row, names[1..])
  }

  /** Only the first two expected columns hold timestamps. */
  lemma TimestampColumnsFirst()
    ensures forall j :: 0 <= j < |ExpectedColumns| ==> (IsTimestampColumn(ExpectedColumns[j]) <==> j < 2)
  {
  }

  /** `chunk[expected_columns]` followed by the two timestamp conversions, for one row. */
  function ProjectRow(header: seq<string>, row: Row, parseTime: Cell -> Cell): (r: Row)
    requires forall c :: c in ExpectedColumns ==> c in header
    ensures |r| == |ExpectedColumns|
    ensures forall j :: 0 <= j < |r| ==>
      r[j] == Convert(ExpectedColumns[j], Field(header, row, ExpectedColumns[j]), parseTime)
  {
    var selected := Select(header, row, ExpectedColumns);
    TimestampColumnsFirst();
    [parseTime(selected[0]), parseTime(selected[1])] + selected[2..]
  }

  function ProjectChunk(c: Chunk, parseTime: Cell -> Cell): (rows: seq<Row>)
    requires HasExpectedColumns(c)
  {
    MissingColumnsSpec(c.header);
    seq(|c.rows|, i requires 0 <= i < |c.rows| => ProjectRow(c.header, c.rows[i], parseTime))
  }

  // ---------------------------------------------------------------------------
  // Specification of a whole run, by the chunks read so far (the last one peeled off)
  // ---------------------------------------------------------------------------

  /** Number of chunks ingested successfully: the final value of the counter. */
  function ValidCount(cs: seq<Chunk>): (n: nat) {
    if cs == [] then 0
    else ValidCount(cs[..|cs| - 1]) + (if HasExpectedColumns(cs[|cs| - 1]) then 1 else 0)
  }

  /** The projected rows of the well-formed chunks, in order. */
  function ValidRows(cs: seq<Chunk>, parseTime: Cell -> Cell): (rows: seq<Row>) {
    if cs == [] then []
    else
      var last := cs[|cs| - 1];
      ValidRows(cs[..|cs| - 1], parseTime) + (if HasExpectedColumns(last) then ProjectChunk(last, parseTime) else [])
  }

  /** The messages a run logs, one per chunk. */
  function IngestLog(cs: seq<Chunk>): (log: seq<LogEntry>)
    ensures |log| == |cs|
  {
    if cs == [] then []
    else
      var last := cs[|cs| - 1];
      IngestLog(cs[..|cs| - 1]) +
        [if HasExpectedColumns(last) then Ingested(ValidCount(cs))
         else ColumnError(ValidCount(cs[..|cs| - 1]) + 1, MissingColumns(last.header))]
  }

  /** The store after ingesting `cs` into table `name`. */
  function AfterIngest(tables: map<string, Table>, name: string, cs: seq<Chunk>, parseTime: Cell -> Cell)
    : (r: map<string, Table>)
    ensures forall n :: n != name ==> (n in r <==> n in tables) && (n in r ==> r[n] == tables[n])
  {
    if ValidCount(cs) == 0 then tables
    else tables[name := Table(ExpectedColumns, ValidRows(cs, parseTime))]
  }

  /** One more chunk: how the count, the rows and the log of a run grow. */
  lemma IngestStep(cs: seq<Chunk>, c: Chunk, parseTime: Cell -> Cell)
    ensures ValidCount(cs + [c]) == ValidCount(cs) + (if HasExpectedColumns(c) then 1 else 0)
    ensures ValidRows(cs + [c], parseTime)
         == ValidRows(cs, parseTime) + (if HasExpectedColumns(c) then ProjectChunk(c, parseTime) else [])
    ensures IngestLog(cs + [c]) == IngestLog(cs) +
      [if HasExpectedColumns(c) then Ingested(ValidCount(cs) + 1)
       else ColumnError(ValidCount(cs) + 1, MissingColumns(c.header))]
  {
    assert (cs + [c])[..|cs|] == cs;
  }

  lemma OverwriteTwice(m: map<string, Table>, k: string, x: Table, y: Table)
    ensures m[k := x][k := y] == m[k := y]
  {
  }

  /** While no chunk has been counted, no row has been stored. */
  lemma {:induction false} UncountedMeansNoRows(cs: seq<Chunk>, parseTime: Cell -> Cell)
    requires ValidCount(cs) == 0
    ensures ValidRows(cs, parseTime) == []
  {
    if cs != [] {
      UncountedMeansNoRows(cs[..|cs| - 1], parseTime);
    }
  }

  /** The destination store: its tables by name. */
  class Database {
    var tables: map<string, Table>

    constructor (tables: map<string, Table>)
      ensures this.tables == tables
    {
      this.tables := tables;
    }

    /** `ingest_data`: read `chunks` into table `tableName`; returns the messages logged. */
    method IngestData(chunks: seq<Chunk>, tableName: string, parseTime: Cell -> Cell) returns (log: seq<LogEntry>)
      modifies this
      ensures tables == AfterIngest(old(tables), tableName, chunks, parseTime)
      ensures log == IngestLog(chunks)
    {
      var chunkNum: nat := 0;
      log := [];
      for i := 0 to |chunks|
        invariant chunkNum == ValidCount(chunks[..i])
        invariant tables == AfterIngest(old(tables), tableName, chunks[..i], parseTime)
        invariant log == IngestLog(chunks[..i])
      {
        var chunk := chunks[i];
        assert chunks[..i + 1] == chunks[..i] + [chunk];
        StoreStep(old(tables), tableName, chunks[..i], chunk, parseTime);
        IngestStep(chunks[..i], chunk, parseTime);
        var missing := MissingColumns(chunk.header);
        if missing == [] {
          var projected := ProjectChunk(chunk, parseTime);
          if chunkNum == 0 {
            tables := tables[tableName := Table(ExpectedColumns, projected)];
          } else {
            var existing := tables[tableName];
            tables := tables[tableName := Table(existing.columns, existing.rows + projected)];
          }
          chunkNum := chunkNum + 1;
          log := log + [Ingested(chunkNum)];
        } else {
          log := log + [ColumnError(chunkNum + 1, missing)];
        }
      }
      assert chunks[..|chunks|] == chunks;
    }
  }

  /** One more chunk, seen from the store: skip, replace while nothing was ingested, else append. */
  lemma StoreStep(tables: map<string, Table>, name: string, cs: seq<Chunk>, c: Chunk, parseTime: Cell -> Cell)
    ensures var before := AfterIngest(tables, name, cs, parseTime);
      AfterIngest(tables, name, cs + [c], parseTime) ==
        if !HasExpectedColumns(c) then before
        else if ValidCount(cs) == 0 then before[name := Table(ExpectedColumns, ProjectChunk(c, parseTime))]
        else before[name := Table(before[name].columns, before[name].rows + ProjectChunk(c, parseTime))]
  {
    IngestStep(cs, c, parseTime);
    var sofar := ValidRows(cs, parseTime);
    if !HasExpectedColumns(c) {
      assert sofar + [] == sofar;
    } else if ValidCount(cs) == 0 {
      UncountedMeansNoRows(cs, parseTime);
      assert [] + ProjectChunk(c, parseTime) == ProjectChunk(c, parseTime);
    } else {
      var rows := sofar + ProjectChunk(c, parseTime);
      OverwriteTwice(tables, name, Table(ExpectedColumns, sofar), Table(ExpectedColumns, rows));
    }
  }

  // ---------------------------------------------------------------------------
  // Properties of a run
  // ---------------------------------------------------------------------------

  /** Every stored row has exactly one cell per expected column. */
  lemma {:induction false} StoredRowsHaveExpectedWidth(cs: seq<Chunk>, parseTime: Cell -> Cell)
    ensures forall r :: r in ValidRows(cs, parseTime) ==> |r| == |ExpectedColumns|
  {
    if cs != [] {
      StoredRowsHaveExpectedWidth(cs[..|cs| - 1], parseTime);
    }
  }

  /** Ingesting `a` then `b` stores the rows of each, in order, and counts the valid chunks of each. */
  lemma {:induction false} IngestConcat(a: seq<Chunk>, b: seq<Chunk>, parseTime: Cell -> Cell)
    ensures ValidRows(a + b, parseTime) == ValidRows(a, parseTime) + ValidRows(b, parseTime)
    ensures ValidCount(a + b) == ValidCount(a) + ValidCount(b)
  {
    if b == [] {
      assert a + b == a;
    } else {
      var b' := b[..|b| - 1];
      assert (a + b)[..|a + b| - 1] == a + b';
      assert (a + b)[|a + b| - 1] == b[|b| - 1];
      IngestConcat(a, b', parseTime);
    }
  }

  /** A chunk missing a column contributes no rows and is not counted, wherever it occurs. */
  lemma MalformedChunkIsSkipped(before: seq<Chunk>, bad: Chunk, after: seq<Chunk>, parseTime: Cell -> Cell)
    requires !HasExpectedColumns(bad)
    ensures ValidRows(before + [bad] + after, parseTime) == ValidRows(before + after, parseTime)
    ensures ValidCount(before + [bad] + after) == ValidCount(before + after)
  {
    IngestConcat(before + [bad], after, parseTime);
    IngestConcat(before, [bad], parseTime);
    IngestConcat(before, after, parseTime);
    assert [] + [bad] == [bad];
  }

  /** Chunks that are all malformed store nothing and are not counted. */
  lemma {:induction false} AllMalformed(cs: seq<Chunk>, parseTime: Cell -> Cell)
    requires forall i :: 0 <= i < |cs| ==> !HasExpectedColumns(cs[i])
    ensures ValidCount(cs) == 0 && ValidRows(cs, parseTime) == []
  {
    if cs != [] {
      AllMalformed(cs[..|cs| - 1], parseTime);
    }
  }

  /** With no well-formed chunk, the store is left exactly as it was. */
  lemma NoValidChunkLeavesStoreUnchanged(tables: map<string, Table>, name: string, cs: seq<Chunk>, parseTime: Cell -> Cell)
    requires forall i :: 0 <= i < |cs| ==> !HasExpectedColumns(cs[i])
    ensures AfterIngest(tables, name, cs, parseTime) == tables
  {
    AllMalformed(cs, parseTime);
  }

  /**
   * The first well-formed chunk replaces the table even when malformed chunks
   * precede it; nothing of the table's earlier contents remains.
   */
  lemma FirstValidChunkReplaces(tables: map<string, Table>, name: string, bad: seq<Chunk>, first: Chunk,
                                rest: seq<Chunk>, parseTime: Cell -> Cell)
    requires forall i :: 0 <= i < |bad| ==> !HasExpectedColumns(bad[i])
    requires HasExpectedColumns(first)
    ensures AfterIngest(tables, name, bad + [first] + rest, parseTime)
         == tables[name := Table(ExpectedColumns, ProjectChunk(first, parseTime) + ValidRows(rest, parseTime))]
  {
    AllMalformed(bad, parseTime);
    IngestStep(bad, first, parseTime);
    assert ValidCount(bad + [first]) == 1;
    assert ValidRows(bad + [first], parseTime) == ProjectChunk(first, parseTime);
    IngestConcat(bad + [first], rest, parseTime);
    assert ValidRows(bad + [first] + rest, parseTime) == ProjectChunk(first, parseTime) + ValidRows(rest, parseTime);
    assert ValidCount(bad + [first] + rest) > 0;
  }

  /** Running ingestion twice on the same source gives the store one run gives. */
  lemma IngestTwiceIsIngestOnce(tables: map<string, Table>, name: string, cs: seq<Chunk>, parseTime: Cell -> Cell)
    ensures AfterIngest(AfterIngest(tables, name, cs, parseTime), name, cs, parseTime)
         == AfterIngest(tables, name, cs, parseTime)
  {
  }

  /**
   * The k-th message: a success reports the counter after the increment; a skip
   * reports the counter plus one, i.e. the number of chunks ingested so far
   * plus one, not the chunk's position in the file.
   */
  lemma {:induction false} LogEntryAt(cs: seq<Chunk>, k: nat)
    requires k < |cs|
    ensures IngestLog(cs)[k] ==
      if HasExpectedColumns(cs[k]) then Ingested(ValidCount(cs[..k + 1]))
      else ColumnError(ValidCount(cs[..k]) + 1, MissingColumns(cs[k].header))
  {
    var prefix := cs[..|cs| - 1];
    var entry := if HasExpectedColumns(cs[|cs| - 1]) then Ingested(ValidCount(cs))
      else ColumnError(ValidCount(prefix) + 1, MissingColumns(cs[|cs| - 1].header));
    assert IngestLog(cs) == IngestLog(prefix) + [entry];
    if k < |cs| - 1 {
      LogEntryAt(prefix, k);
      assert prefix[..k + 1] == cs[..k + 1] && prefix[..k] == cs[..k];
      assert IngestLog(cs)[k] == IngestLog(prefix)[k];
    } else {
      assert cs[..k + 1] == cs;
      assert cs[..k] == prefix;
    }
  }

  /** Two malformed chunks in a row are both reported as chunk 1. */
  lemma RepeatedSkipNumber(bad1: Chunk, bad2: Chunk)
    requires !HasExpectedColumns(bad1) && !HasExpectedColumns(bad2)
    ensures IngestLog([bad1, bad2])[0].chunkNo == 1
    ensures IngestLog([bad1, bad2])[1].chunkNo == 1
  {
    LogEntryAt([bad1, bad2], 0);
    LogEntryAt([bad1, bad2], 1);
    AllMalformed([bad1], x => x);
    assert [bad1, bad2][..1] == [bad1];
  }

  /** Columns beyond the expected ones are dropped: adding one leaves the stored rows unchanged. */
  lemma ExtraColumnIsDropped(c: Chunk, extra: string, values: seq<Cell>, parseTime: Cell -> Cell)
    requires HasExpectedColumns(c)
    requires extra !in ExpectedColumns
    requires forall i :: 0 <= i < |c.rows| ==> |c.rows[i]| == |c.header|
    requires |values| == |c.rows|
    ensures var wider := Chunk(c.header + [extra], seq(|c.rows|, i requires 0 <= i < |c.rows| => c.rows[i] + [values[i]]));
      HasExpectedColumns(wider) && ProjectChunk(wider, parseTime) == ProjectChunk(c, parseTime)
  {
    var wider := Chunk(c.header + [extra], seq(|c.rows|, i requires 0 <= i < |c.rows| => c.rows[i] + [values[i]]));
    MissingColumnsSpec(c.header);
    MissingColumnsSpec(wider.header);
    forall i | 0 <= i < |c.rows|
      ensures ProjectRow(wider.header, wider.rows[i], parseTime) == ProjectRow(c.header, c.rows[i], parseTime)
    {
      ProjectRowExtended(c.header, extra, c.rows[i], values[i], parseTime);
    }
  }

  /** One row: a trailing extra column changes nothing the projection reads. */
  lemma ProjectRowExtended(header: seq<string>, extra: string, row: Row, v: Cell, parseTime: Cell -> Cell)
    requires forall c :: c in ExpectedColumns ==> c in header
    requires |row| == |header|
    ensures ProjectRow(header + [extra], row + [v], parseTime) == ProjectRow(header, row, parseTime)
  {
    forall e | e in ExpectedColumns ensures Field(header + [extra], row + [v], e) == Field(header, row, e) {
      IndexOfExtended(header, extra, e);
    }
  }

  lemma {:induction false} IndexOfExtended(header: seq<string>, extra: string, name: string)
    requires name in header
    ensures IndexOf(header + [extra], name) == IndexOf(header, name)
  {
    if header[0] != name {
      assert (header + [extra])[1..] == header[1..] + [extra];
      IndexOfExtended(header[1..], extra, name);
    }
  }
}
