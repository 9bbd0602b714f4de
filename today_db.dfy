/** today.db: the working copy of the day's allocations that every refresh
    updates in place, one UPDATE by rowid at a time. */
module TodayDatabase {
  import opened Nullable
  import opened Clock
  import opened Allocations

  /** What the bulk refresh answers: `totalTrains`, `updatedCount` and
      `errorCount`. */
  datatype BulkReport = BulkReport(totalTrains: nat, counts: Tally)

  class TodayDb {
    /** Whether today.db holds an allocations table; after a failed rebuild
        it does not, and every query on it fails. */
    var present: bool
    /** The table's rows in rowid order. */
    var table: array<Row>

    ghost predicate Valid()
      reads this, table
    {
      DistinctRowids(table[..])
    }

    /** The file as the server finds it at start-up. */
    constructor (rows: seq<Row>, present: bool)
      requires DistinctRowids(rows)
      ensures Valid() && this.present == present && table[..] == rows && fresh(table)
    {
      this.present := present;
      table := new Row[|rows|](i requires 0 <= i < |rows| => rows[i]);
    }

    /** `UPDATE allocations SET real_arrival = ?, delay = ? WHERE rowid = ?`. */
    method UpdateRow(rowid: int, e: Enrichment)
      modifies table
      ensures table[..] == SetWhere(old(table[..]), rowid, e)
    {
      ghost var rows := table[..];
      for i := 0 to table.Length
        invariant forall k :: 0 <= k < i ==> table[k] == if rows[k].rowid == rowid then Enrich(rows[k], e) else rows[k]
        invariant forall k :: i <= k < table.Length ==> table[k] == rows[k]
      {
        if table[i].rowid == rowid {
          table[i] := Enrich(table[i], e);
        }
      }
      assert table[..] == SetWhere(rows, rowid, e);
    }

    /** The table holds the refresh of `rows` by the first `k` picked rows. */
    ghost predicate RefreshedUpTo(rows: seq<Row>, selected: seq<Row>, k: nat, policy: Policy, lookup: Row -> Lookup, accepts: int -> bool)
      requires k <= |selected|
      reads this, table
    {
      table[..] == Refreshed(rows, selected[..k], policy, lookup, accepts)
    }

    /** One picked row: run its lookup and, when the policy writes, send the
        UPDATE; the outcome is what the bulk refresh counts. */
    method RefreshOne(rows: seq<Row>, selected: seq<Row>, k: nat, policy: Policy, lookup: Row -> Lookup, accepts: int -> bool)
      returns (outcome: Outcome)
      requires DistinctRowids(rows)
      requires k < |selected| && selected[k] in rows
      requires RefreshedUpTo(rows, selected, k, policy, lookup, accepts)
      modifies table
      ensures RefreshedUpTo(rows, selected, k + 1, policy, lookup, accepts)
      ensures outcome == Classify(selected[k], policy, lookup, accepts)
    {
      var row := selected[k];
      var write := WriteFor(policy, lookup(row));
      RefreshOneMore(rows, selected, k, policy, lookup, accepts);
      if write.None? {
        outcome := Failed;
      } else if accepts(row.rowid) {
        UpdateRow(row.rowid, write.value);
        outcome := Updated;
      } else {
        outcome := Rejected;
      }
    }

    /** The loop shared by the windowed and catch-up refreshes: for each
        picked row, run the lookup and write what came back, null in both
        columns when the output did not parse. A write the store rejects is
        skipped. */
    method RefreshSelected(selected: seq<Row>, lookup: Row -> Lookup, accepts: int -> bool)
      requires Valid()
      requires forall r :: r in selected ==> r in table[..]
      modifies table
      ensures Valid()
      ensures table[..] == Refreshed(old(table[..]), selected, WriteAlways, lookup, accepts)
    {
      var rows := table[..];
      RefreshNothing(rows, WriteAlways, lookup, accepts);
      assert selected[..0] == [];
      for k := 0 to |selected|
        invariant RefreshedUpTo(rows, selected, k, WriteAlways, lookup, accepts)
      {
        var _ := RefreshOne(rows, selected, k, WriteAlways, lookup, accepts);
      }
      assert selected[..|selected|] == selected;
      RefreshedKeepsRowids(rows, selected, WriteAlways, lookup, accepts);
    }

    /** The every-five-minutes refresh: the rows due in the next half hour.
        Without the table the query fails and nothing happens. */
    method WindowedRefresh(now: int, lookup: Row -> Lookup, accepts: int -> bool)
      requires Valid()
      modifies table
      ensures Valid() && present == old(present)
      ensures present ==> table[..] == Refreshed(old(table[..]), Select(old(table[..]), Upcoming(now)), WriteAlways, lookup, accepts)
      ensures !present ==> table[..] == old(table[..])
    {
      if !present {
        return;
      }
      var selected := Select(table[..], Upcoming(now));
      RefreshSelected(selected, lookup, accepts);
    }

    /** The catch-up refresh: the rows due at or before now. It answers with
        how many rows it picked, or a database error without the table. */
    method CatchUpRefresh(now: int, lookup: Row -> Lookup, accepts: int -> bool) returns (r: Result<nat>)
      requires Valid()
      modifies table
      ensures Valid() && present == old(present)
      ensures present ==> r == Ok(|Select(old(table[..]), UpToNow(now))|)
                          && table[..] == Refreshed(old(table[..]), Select(old(table[..]), UpToNow(now)), WriteAlways, lookup, accepts)
      ensures !present ==> r == DatabaseError && table[..] == old(table[..])
    {
      if !present {
        return DatabaseError;
      }
      var selected := Select(table[..], UpToNow(now));
      RefreshSelected(selected, lookup, accepts);
      r := Ok(|selected|);
    }

    /** The bulk refresh has finished the first `n` rows: the table and the
        counters are what those rows made of them. */
    ghost predicate BulkDone(rows: seq<Row>, n: nat, lookup: Row -> Lookup, accepts: int -> bool, updated: nat, errors: nat)
      requires n <= |rows|
      reads this, table
    {
      RefreshedUpTo(rows, rows, n, WriteOnSuccess, lookup, accepts)
      && Tally(updated, errors) == TallyOf(rows, n, lookup, accepts)
    }

    /** One row of the bulk refresh: an updated row adds to `updatedCount`,
        a failed lookup to `errorCount`, a rejected write to neither. */
    method BulkRow(rows: seq<Row>, j: nat, lookup: Row -> Lookup, accepts: int -> bool,
                   updated0: nat, errors0: nat) returns (updated: nat, errors: nat)
      requires j < |rows| && DistinctRowids(rows)
      requires BulkDone(rows, j, lookup, accepts, updated0, errors0)
      modifies table
      ensures BulkDone(rows, j + 1, lookup, accepts, updated, errors)
    {
      var outcome := RefreshOne(rows, rows, j, WriteOnSuccess, lookup, accepts);
      updated, errors := updated0, errors0;
      if outcome == Updated {
        updated := updated + 1;
      } else if outcome == Failed {
        errors := errors + 1;
      }
    }

    /** One batch of the bulk refresh: rows `start` up to `end`, counted as
        they finish. */
    method RefreshBatch(rows: seq<Row>, start: nat, end: nat, lookup: Row -> Lookup, accepts: int -> bool,
                        updated0: nat, errors0: nat) returns (updated: nat, errors: nat)
      requires start <= end <= |rows| && DistinctRowids(rows)
      requires BulkDone(rows, start, lookup, accepts, updated0, errors0)
      modifies table
      ensures BulkDone(rows, end, lookup, accepts, updated, errors)
      decreases end - start
    {
      if start == end {
        return updated0, errors0;
      }
      updated, errors := BulkRow(rows, start, lookup, accepts, updated0, errors0);
      updated, errors := RefreshBatch(rows, start + 1, end, lookup, accepts, updated, errors);
    }

    /** The bulk refresh: every row, in batches of five; a row is written
        only when its script ran clean and its output parsed. `batches` is
        how the rows were grouped. */
    method BulkRefresh(lookup: Row -> Lookup, accepts: int -> bool) returns (r: Result<BulkReport>, ghost batches: seq<seq<Row>>)
      requires Valid()
      modifies table
      ensures Valid() && present == old(present)
      ensures present ==> r == Ok(BulkReport(table.Length, TallyOf(old(table[..]), table.Length, lookup, accepts)))
                          && table[..] == Refreshed(old(table[..]), old(table[..]), WriteOnSuccess, lookup, accepts)
                          && batches == Batches(old(table[..]))
      ensures !present ==> r == DatabaseError && table[..] == old(table[..])
    {
      batches := [];
      if !present {
        return DatabaseError, batches;
      }
      var rows := table[..];
      var updated, errors := 0, 0;
      var i := 0;
      RefreshNothing(rows, WriteOnSuccess, lookup, accepts);
      assert rows[..0] == [];
      while i < |rows|
        invariant 0 <= i <= |rows|
        invariant batches + Batches(rows[i..]) == Batches(rows)
        invariant BulkDone(rows, i, lookup, accepts, updated, errors)
        decreases |rows| - i
      {
        var end := if i + BatchSize <= |rows| then i + BatchSize else |rows|;
        var batch := rows[i..end];
        updated, errors := RefreshBatch(rows, i, end, lookup, accepts, updated, errors);
        NextBatch(rows, i, batches);
        batches := batches + [batch];
        i := end;
      }
      assert rows[..i] == rows && rows[i..] == [];
      RefreshedKeepsRowids(rows, rows, WriteOnSuccess, lookup, accepts);
      r := Ok(BulkReport(table.Length, Tally(updated, errors)));
    }

    /** createTodayDb. When the old file exists and cannot be deleted
        (`removed` false) it stays, and `CREATE TABLE` on it fails, so an
        existing table is kept as it is. Otherwise the new file is empty: if
        `ATTACH` of the master database fails (`attached` false) it stays
        without a table, else it receives the day's rows. */
    method Rebuild(master: seq<Row>, tag: string, removed: bool, attached: bool)
      requires Valid()
      modifies this
      ensures Valid()
      ensures old(present) && !removed ==> present && table == old(table) && table[..] == old(table[..])
      ensures !(old(present) && !removed) ==> present == attached && fresh(table)
      ensures !(old(present) && !removed) && attached ==> table[..] == DaySnapshot(master, tag)
      ensures !(old(present) && !removed) && !attached ==> table[..] == []
    {
      if present && !removed {
        return;
      }
      DaySnapshotContents(master, tag);
      if attached {
        var rows := DaySnapshot(master, tag);
        table := new Row[|rows|](i requires 0 <= i < |rows| => rows[i]);
        present := true;
      } else {
        table := new Row[0];
        present := false;
      }
    }
  }
}
