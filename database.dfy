/**
  The database manager's record pipeline: a bounded FIFO write queue fed
  by `QueueData`, the batch writer that drains it into a buffer of at most
  `batchSize` records, and the batch insert that keeps only online records
  with a value and writes them under their ERP silo code. The SQL table is
  the sequence of rows inserted; whether the server can be reached is an
  input.
 */
module Database {
  import opened Wrappers
  import opened Status
  import Decimal

  const QueueCapacity: nat := 1000
  const DefaultBatchSize: int := 50

  datatype DatabaseRecord = DatabaseRecord(
    slaveId: int,
    timestamp: int,
    value: Option<int>,
    percent: Option<int>,
    online: bool,
    errorMessage: Option<string>)

  /** A row of the monitoring table: silo code (Cd_xMGSilo), quantity (Qta), time (ultimo_aggiornamento). */
  datatype Row = Row(erpCode: string, quantity: int, updatedAt: int)

  const ErpMapping: map<int, string> := map[
    1 := "S01", 2 := "S02", 3 := "S03", 4 := "S04", 5 := "S05",
    6 := "S06", 7 := "S07", 8 := "S08", 9 := "S09", 10 := "S10",
    11 := "S11", 12 := "S12", 13 := "S13", 14 := "S14", 15 := "S15"]

  /**
    The ERP code of a slave: the fixed table for slaves 1 to 15, `S%02d`
    otherwise. The table agrees with the format, so every id gets
    "S" followed by its two-digit rendering.
   */
  function ErpCode(slaveId: int): (code: string)
    ensures code == "S" + Decimal.Pad2(slaveId)
  {
    if slaveId in ErpMapping then ErpMapping[slaveId] else "S" + Decimal.Pad2(slaveId)
  }

  /** The characters after "S" read back as the slave id. */
  lemma ErpCodeRoundTrip(slaveId: int)
    ensures |ErpCode(slaveId)| >= 3 && ErpCode(slaveId)[0] == 'S'
    ensures Decimal.IsNumeral(ErpCode(slaveId)[1..]) && Decimal.ParseInt(ErpCode(slaveId)[1..]) == slaveId
  {
    assert ErpCode(slaveId)[1..] == Decimal.Pad2(slaveId);
    Decimal.Pad2RoundTrip(slaveId);
  }

  /** Distinct slaves never share an ERP code. */
  lemma ErpCodeInjective(a: int, b: int)
    requires ErpCode(a) == ErpCode(b)
    ensures a == b
  {
    ErpCodeRoundTrip(a);
    ErpCodeRoundTrip(b);
  }

  /** The record `queue_data` builds from a status dictionary at time `now`. */
  function MakeRecord(slaveId: int, status: SiloStatus, now: int): (r: DatabaseRecord)
    ensures r.slaveId == slaveId && r.timestamp == now
    ensures r.value == status.value && r.percent == status.percent && r.errorMessage == status.lastError
    ensures r.online <==> status.online == Some(true)
  {
    DatabaseRecord(slaveId, now, status.value, status.percent, IsOnline(status), status.lastError)
  }

  /** Only a record of an online silo with a value is written. */
  predicate Insertable(r: DatabaseRecord) {
    r.online && r.value.Some?
  }

  function RowOf(r: DatabaseRecord): Row
    requires Insertable(r)
  {
    Row(ErpCode(r.slaveId), r.value.value, r.timestamp)
  }

  /** The rows a batch inserts, in batch order. */
  function InsertedRows(records: seq<DatabaseRecord>): seq<Row> {
    if records == [] then []
    else
      var n := |records| - 1;
      InsertedRows(records[..n]) + if Insertable(records[n]) then [RowOf(records[n])] else []
  }

  lemma {:induction false} InsertedRowsBound(records: seq<DatabaseRecord>)
    ensures |InsertedRows(records)| <= |records|
  {
    if records != [] {
      InsertedRowsBound(records[..|records| - 1]);
    }
  }

  /** Batch order is kept: the rows of a concatenation are the concatenation of the rows. */
  lemma {:induction false} InsertedRowsAppend(a: seq<DatabaseRecord>, b: seq<DatabaseRecord>)
    ensures InsertedRows(a + b) == InsertedRows(a) + InsertedRows(b)
    decreases |b|
  {
    if b != [] {
      var n := |b| - 1;
      var tail := if Insertable(b[n]) then [RowOf(b[n])] else [];
      assert (a + b)[..|a + b| - 1] == a + b[..n];
      assert (a + b)[|a + b| - 1] == b[n];
      calc {
        InsertedRows(a + b);
        InsertedRows(a + b[..n]) + tail;
        { InsertedRowsAppend(a, b[..n]); }
        InsertedRows(a) + InsertedRows(b[..n]) + tail;
        InsertedRows(a) + InsertedRows(b);
      }
    } else {
      assert a + b == a;
    }
  }

  /** Every inserted row comes from an insertable record of the batch. */
  lemma {:induction false} InsertedRowSource(records: seq<DatabaseRecord>, row: Row) returns (i: nat)
    requires row in InsertedRows(records)
    ensures i < |records| && Insertable(records[i]) && RowOf(records[i]) == row
  {
    var n := |records| - 1;
    if row in InsertedRows(records[..n]) {
      i := InsertedRowSource(records[..n], row);
      assert records[..n][i] == records[i];
    } else {
      i := n;
    }
  }

  /** Every insertable record of the batch has its row inserted. */
  lemma {:induction false} InsertedRowPresent(records: seq<DatabaseRecord>, i: nat)
    requires i < |records| && Insertable(records[i])
    ensures RowOf(records[i]) in InsertedRows(records)
  {
    var n := |records| - 1;
    if i < n {
      assert records[..n][i] == records[i];
      InsertedRowPresent(records[..n], i);
    }
  }

  class DatabaseManager {
    const enabled: bool
    const batchSize: int
    var writeQueue: seq<DatabaseRecord>
    /** The batch writer's `records_buffer`. */
    var buffer: seq<DatabaseRecord>
    /** The rows inserted into the monitoring table so far. */
    var table: seq<Row>

    /** The most records the buffer can hold: `batchSize`, or none when it is not positive. */
    function BatchLimit(): nat
      reads this
    {
      if batchSize > 0 then batchSize else 0
    }

    ghost predicate Valid()
      reads this
    {
      |writeQueue| <= QueueCapacity && |buffer| <= BatchLimit()
    }

    constructor (databaseEnabled: bool, batchSizeSetting: Option<int>)
      ensures Valid()
      ensures enabled == databaseEnabled && batchSize == batchSizeSetting.GetOr(DefaultBatchSize)
      ensures writeQueue == [] && buffer == [] && table == []
    {
      enabled := databaseEnabled;
      batchSize := batchSizeSetting.GetOr(DefaultBatchSize);
      writeQueue, buffer, table := [], [], [];
    }

    /**
      Queues a record for `slaveId`; a disabled manager ignores it and a
      full queue drops it.
     */
    method QueueData(slaveId: int, status: SiloStatus, now: int)
      requires Valid()
      modifies this`writeQueue
      ensures Valid()
      ensures writeQueue ==
        if enabled && |old(writeQueue)| < QueueCapacity
        then old(writeQueue) + [MakeRecord(slaveId, status, now)]
        else old(writeQueue)
    {
      if !enabled {
        return;
      }
      var record := MakeRecord(slaveId, status, now);
      if |writeQueue| < QueueCapacity {
        writeQueue := writeQueue + [record];
      }
    }

    /**
      Inserts one batch. An empty batch returns at once. When the connection
      cannot be obtained the batch raises and nothing is inserted; otherwise
      each insertable record adds its row and counts as a successful write.
     */
    method WriteBatch(records: seq<DatabaseRecord>, reachable: bool) returns (successfulWrites: nat, raised: bool)
      modifies this`table
      ensures successfulWrites <= |records|
      ensures records == [] ==> !raised && successfulWrites == 0 && table == old(table)
      ensures records != [] && !reachable ==> raised && successfulWrites == 0 && table == old(table)
      ensures records != [] && reachable ==>
        !raised && table == old(table) + InsertedRows(records) && successfulWrites == |InsertedRows(records)|
    {
      successfulWrites, raised := 0, false;
      if records == [] {
        return;
      }
      if !reachable {
        raised := true;
        return;
      }
      var i := 0;
      while i < |records|
        invariant 0 <= i <= |records|
        invariant table == old(table) + InsertedRows(records[..i])
        invariant successfulWrites == |InsertedRows(records[..i])| <= i
      {
        assert records[..i + 1][..i] == records[..i];
        assert records[..i + 1][i] == records[i];
        InsertedRowsBound(records[..i]);
        var record := records[i];
        if record.online && record.value.Some? {
          table := table + [Row(ErpCode(record.slaveId), record.value.value, record.timestamp)];
          successfulWrites := successfulWrites + 1;
        }
        i := i + 1;
      }
      assert records[..i] == records;
    }

    /**
      One pass of the batch writer: takes records from the head of the
      queue until the buffer holds `batchSize` or the queue is empty, then
      writes a non-empty buffer and clears it, unless the write raised, in
      which case the buffer is kept for the next pass.
     */
    method WriterRound(reachable: bool)
      requires Valid()
      modifies this`writeQueue, this`buffer, this`table
      ensures Valid()
      ensures
        var k := Min(BatchLimit() - |old(buffer)|, |old(writeQueue)|);
        var filled := old(buffer) + old(writeQueue)[..k];
        && writeQueue == old(writeQueue)[k..]
        && (filled == [] ==> buffer == [] && table == old(table))
        && (filled != [] && reachable ==> buffer == [] && table == old(table) + InsertedRows(filled))
        && (filled != [] && !reachable ==> buffer == filled && table == old(table))
    {
      ghost var k := Min(BatchLimit() - |buffer|, |writeQueue|);
      ghost var j := 0;
      while |buffer| < batchSize && |writeQueue| > 0
        invariant 0 <= j <= k
        invariant buffer == old(buffer) + old(writeQueue)[..j]
        invariant writeQueue == old(writeQueue)[j..]
        invariant table == old(table)
        decreases |writeQueue|
      {
        var record := writeQueue[0];
        buffer := buffer + [record];
        writeQueue := writeQueue[1..];
        assert old(writeQueue)[..j + 1] == old(writeQueue)[..j] + [record];
        j := j + 1;
      }
      assert j == k;
      if buffer != [] {
        var _, raised := WriteBatch(buffer, reachable);
        if !raised {
          buffer := [];
        }
      }
    }
  }
}
