/**
 * The daily update script: fold the daily batch file into the master file,
 * then delete the batch.
 *
 * The two files are modelled as optional sequences of rows (`None` is a file
 * that does not exist). Whether each read, the write and the delete succeed
 * is decided by the filesystem and the file parsers, so it is a parameter of
 * the run (`Faults`); a failing step raises and ends the run where it stands.
 */
module Ingestor {
  import opened Wrappers
  import opened Rows
  import opened Dedup

  /** Which of the run's I/O steps fail. */
  datatype Faults = Faults(
    batchUnreadable: bool,   // the batch file exists but does not parse
    masterUnreadable: bool,  // the master file exists but does not parse
    keyColumnsMissing: bool, // the rows lack a SYMBOL or DATE column, so deduplication raises
    writeFails: bool,        // writing the new master fails
    removeFails: bool        // deleting the batch fails
  )

  const NoFaults := Faults(false, false, false, false, false)

  /** The step at which a run stopped with an error. */
  datatype Stage = ReadBatch | ReadMaster | Deduplicate | WriteMaster | RemoveBatch

  datatype Status = NoBatch | Updated | Failed(stage: Stage)

  /** A change the run made to the files, in the order it made them. */
  datatype Effect = MasterWritten(rows: seq<Row>) | BatchRemoved

  /** The batch file and the master file. */
  datatype Files = Files(batch: Option<seq<Row>>, master: Option<seq<Row>>)

  datatype Outcome = Outcome(files: Files, effects: seq<Effect>, status: Status)

  /** The rows the run would write: a missing master counts as no rows. */
  function NewMaster(f: Files): seq<Row>
    requires f.batch.Some?
  {
    Merge(f.master.GetOr([]), f.batch.value)
  }

  /** One run of the script on the files `f`. */
  function Ingest(f: Files, faults: Faults): (o: Outcome)
    // a missing batch is a no-op, and only a missing batch is
    ensures o.status == NoBatch <==> f.batch.None?
    ensures o.status == NoBatch ==> o.files == f && o.effects == []
    // any failure leaves the batch in place for a retry
    ensures o.status.Failed? ==> o.files.batch == f.batch
    // a failure before the write changes nothing at all
    ensures o.status.Failed? && o.status.stage != RemoveBatch ==> o.files == f && o.effects == []
    // whatever is written is the merge, and it has one row per key of master and batch
    ensures o.files.master != f.master ==> o.effects != []
    ensures o.effects != [] ==>
      f.batch.Some? && o.effects[0] == MasterWritten(NewMaster(f)) && o.files.master == Some(NewMaster(f))
    ensures o.files.master != f.master ==>
      DistinctKeys(o.files.master.value) &&
      KeySet(o.files.master.value) == KeySet(f.master.GetOr([])) + KeySet(f.batch.value)
    // the batch is deleted only after the new master was written
    ensures o.files.batch != f.batch ==>
      o.status == Updated && o.effects == [MasterWritten(NewMaster(f)), BatchRemoved]
    ensures o.status == Updated ==> o.files == Files(None, Some(NewMaster(f)))
    // a run succeeds exactly when there is a batch and no step fails
    ensures o.status == Updated <==>
      f.batch.Some? && !faults.batchUnreadable && !(f.master.Some? && faults.masterUnreadable) &&
      !faults.keyColumnsMissing && !faults.writeFails && !faults.removeFails
    // a failing read, deduplication or write leaves both files as they were
    ensures faults.batchUnreadable || (f.master.Some? && faults.masterUnreadable) ||
            faults.keyColumnsMissing || faults.writeFails ==>
      o.files == f && o.effects == []
    // a failing delete still leaves the batch, but only after the merge was written
    ensures f.batch.Some? && faults.removeFails && !faults.batchUnreadable &&
            !(f.master.Some? && faults.masterUnreadable) && !faults.keyColumnsMissing && !faults.writeFails ==>
      o.files == Files(f.batch, Some(NewMaster(f))) && o.effects == [MasterWritten(NewMaster(f))] &&
      o.status == Failed(RemoveBatch)
  {
    if f.batch.None? then Outcome(f, [], NoBatch)
    else if faults.batchUnreadable then Outcome(f, [], Failed(ReadBatch))
    else if f.master.Some? && faults.masterUnreadable then Outcome(f, [], Failed(ReadMaster))
    else if faults.keyColumnsMissing then Outcome(f, [], Failed(Deduplicate))
    else
      var merged := NewMaster(f);
      if faults.writeFails then Outcome(f, [], Failed(WriteMaster))
      else if faults.removeFails then
        Outcome(Files(f.batch, Some(merged)), [MasterWritten(merged)], Failed(RemoveBatch))
      else
        Outcome(Files(None, Some(merged)), [MasterWritten(merged), BatchRemoved], Updated)
  }

  /**
   * A first run, with no master file yet, creates the master from the
   * deduplicated batch alone; whatever the faults, it writes nothing else.
   */
  lemma IngestBootstrap(batch: seq<Row>, faults: Faults)
    ensures Ingest(Files(Some(batch), None), NoFaults).files
         == Files(None, Some(DedupKeepLast(batch)))
    ensures var o := Ingest(Files(Some(batch), None), faults);
      o.files.master == None || o.files.master == Some(DedupKeepLast(batch))
  {
    assert [] + batch == batch;
  }

  /**
   * Delivering the same batch again after a successful run leaves the master
   * as it is.
   */
  lemma IngestRerunSameBatch(f: Files, faults: Faults)
    requires Ingest(f, faults).status == Updated
    ensures var m := Ingest(f, faults).files.master;
      Ingest(Files(f.batch, m), NoFaults).files.master == m
  {
    MergeRerun(f.master.GetOr([]), f.batch.value);
  }

  /**
   * A run that wrote the master but could not delete the batch is safe to
   * retry: the retry writes the same master and then deletes the batch.
   */
  lemma IngestRetryAfterRemoveFailure(f: Files, faults: Faults)
    requires Ingest(f, faults).status == Failed(RemoveBatch)
    ensures var o := Ingest(f, faults);
      Ingest(o.files, NoFaults).files == Files(None, o.files.master)
  {
    MergeRerun(f.master.GetOr([]), f.batch.value);
  }

  /**
   * A worked example: the batch's row for AAA on 2024-01-01 replaces the
   * master's, and BBB is added after it.
   */
  lemma IngestExample()
    ensures
      var aaa10 := Row("AAA", "2024-01-01", map["CLOSE" := "10"]);
      var aaa11 := Row("AAA", "2024-01-01", map["CLOSE" := "11"]);
      var bbb5 := Row("BBB", "2024-01-01", map["CLOSE" := "5"]);
      Ingest(Files(Some([aaa11, bbb5]), Some([aaa10])), NoFaults)
        == Outcome(Files(None, Some([aaa11, bbb5])),
                   [MasterWritten([aaa11, bbb5]), BatchRemoved], Updated)
  {
    var aaa10 := Row("AAA", "2024-01-01", map["CLOSE" := "10"]);
    var aaa11 := Row("AAA", "2024-01-01", map["CLOSE" := "11"]);
    var bbb5 := Row("BBB", "2024-01-01", map["CLOSE" := "5"]);
    var s := [aaa10, aaa11, bbb5];
    assert [aaa10] + [aaa11, bbb5] == s;
    assert s[1..] == [aaa11, bbb5] && [aaa11, bbb5][1..] == [bbb5] && [bbb5][1..] == [];
    assert DedupKeepLast([bbb5]) == [bbb5];
    assert KeySet([bbb5]) == {KeyOf(bbb5)};
    assert DedupKeepLast([aaa11, bbb5]) == [aaa11, bbb5];
    assert KeyOf(aaa10) in KeySet([aaa11, bbb5]) by { assert aaa11 in [aaa11, bbb5]; }
    assert DedupKeepLast(s) == [aaa11, bbb5];
  }

  /**
   * The batch file and the master file as the script sees them, with the
   * changes it has made so far.
   */
  class Store {
    var batch: Option<seq<Row>>
    var master: Option<seq<Row>>
    var effects: seq<Effect>

    constructor(batch: Option<seq<Row>>, master: Option<seq<Row>>)
      ensures this.batch == batch && this.master == master && effects == []
    {
      this.batch := batch;
      this.master := master;
      effects := [];
    }

    function Snapshot(): Files
      reads this
    {
      Files(batch, master)
    }

    /**
     * One run of the script: stop if there is no batch; read the batch, and
     * the master if there is one; merge; write the master; delete the batch.
     */
    method Run(faults: Faults) returns (status: Status)
      modifies this
      ensures var o := Ingest(old(Snapshot()), faults);
        Snapshot() == o.files && effects == old(effects) + o.effects && status == o.status
      ensures old(batch).Some? && batch.None? ==>
        master == Some(Merge(old(master).GetOr([]), old(batch).value)) &&
        effects == old(effects) + [MasterWritten(master.value), BatchRemoved]
    {
      if batch.None? {
        return NoBatch;
      }
      if faults.batchUnreadable {
        return Failed(ReadBatch);
      }
      var incoming := batch.value;
      var current: seq<Row>;
      if master.Some? {
        if faults.masterUnreadable {
          return Failed(ReadMaster);
        }
        current := master.value;
      } else {
        current := [];
      }
      var combined := current + incoming;
      if faults.keyColumnsMissing {
        return Failed(Deduplicate);
      }
      combined := DedupKeepLast(combined);
      if faults.writeFails {
        return Failed(WriteMaster);
      }
      master := Some(combined);
      effects := effects + [MasterWritten(combined)];
      if faults.removeFails {
        return Failed(RemoveBatch);
      }
      batch := None;
      effects := effects + [BatchRemoved];
      status := Updated;
    }
  }
}
