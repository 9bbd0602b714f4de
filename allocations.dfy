/** The rows of the allocations table and the pure parts of the real-time
    refresh: the key passed to the lookup script, the time windows that pick
    rows, what a refresh writes into a row, the batches of the bulk refresh
    and its counters, and the filter that builds the day's table. */
module Allocations {
  import opened Nullable
  import opened JsText
  import opened Clock
  import opened TrainStatus

  /** One row of the allocations table: its SQLite rowid and the columns
      `train_number`, `train_name`, `exp_arrival`, `real_arrival`, `delay`,
      `days` and `allocated_platform`. `trainNumber` is the number as the
      template literal renders it. */
  datatype Row = Row(
    rowid: int,
    trainNumber: string,
    trainName: Option<string>,
    expArrival: Option<string>,
    realArrival: Option<string>,
    delay: Option<string>,
    days: Option<string>,
    allocatedPlatform: Option<string>)

  /** SQLite gives every row of a table its own rowid. */
  predicate DistinctRowids(rows: seq<Row>)
  {
    forall i, j :: 0 <= i < j < |rows| ==> rows[i].rowid != rows[j].rowid
  }

  // ---------------------------------------------------------------- lookup key

  /** The argument passed to real_time.py: the train name lower-cased with
      every run of whitespace turned into `-`, then `-` and the number. */
  function LookupKey(name: Option<string>, number: string): (key: string)
  {
    var text := if Truthy(name) then name.value else "";
    Hyphenate(ToLower(text)) + "-" + number
  }

  function KeyOf(row: Row): string
  {
    LookupKey(row.trainName, row.trainNumber)
  }

  /** The key is the hyphenated name, `-` and the number: it ends with
      `-{number}` and has no whitespace before that. */
  lemma KeyShape(name: Option<string>, number: string)
    ensures var key := LookupKey(name, number);
            |key| > |number| && key[|key| - |number| - 1..] == "-" + number
            && NoSpaces(key[..|key| - |number| - 1])
  {
    var text := if Truthy(name) then name.value else "";
    var h := Hyphenate(ToLower(text));
    assert LookupKey(name, number) == h + ("-" + number);
    assert LookupKey(name, number)[..|h|] == h;
  }

  /** A row without a name is looked up as `-{number}`. */
  lemma KeyWithoutName(number: string)
    ensures LookupKey(None, number) == "-" + number
    ensures LookupKey(Some(""), number) == "-" + number
  {
  }

  /** The key holds no whitespace when the number holds none. */
  lemma KeyHasNoSpaces(name: Option<string>, number: string)
    requires NoSpaces(number)
    ensures NoSpaces(LookupKey(name, number))
  {
  }

  lemma LowerKeepsSpaces(s: string)
    ensures AllSpaces(s) ==> AllSpaces(ToLower(s))
    ensures NoSpaces(s) ==> NoSpaces(ToLower(s))
  {
  }

  /** Two words separated by any run of whitespace are joined by one `-`:
      "Rajdhani \t Express", number 12301, gives "rajdhani-express-12301". */
  lemma KeyOfTwoWords(a: string, w: string, b: string, number: string)
    requires a != [] && b != [] && NoSpaces(a) && NoSpaces(b)
    requires w != [] && AllSpaces(w)
    ensures LookupKey(Some(a + w + b), number) == ToLower(a) + "-" + ToLower(b) + "-" + number
  {
    var la, lw, lb := ToLower(a), ToLower(w), ToLower(b);
    assert ToLower(a + w + b) == la + lw + lb;
    LowerKeepsSpaces(a);
    LowerKeepsSpaces(w);
    LowerKeepsSpaces(b);
    HyphenateRun(la, lw, lb);
    HyphenateNoSpaces(la);
    HyphenateNoSpaces(lb);
  }

  // ---------------------------------------------------------------- windows

  /** The rows a refresh looks at: the windowed refresh takes arrivals in
      (now, now + 30], the catch-up refresh arrivals at or before now. */
  datatype Window = Upcoming(now: int) | UpToNow(now: int)

  /** Length of the windowed refresh's look-ahead, in minutes. */
  const LookAhead := 30

  predicate InWindow(row: Row, w: Window)
  {
    match TimeToMinutes(row.expArrival)
    case None => false
    case Some(m) =>
      match w
      case Upcoming(now) => now < m <= now + LookAhead
      case UpToNow(now) => m <= now
  }

  /** `rows.filter(row => ...)` for a window, in table order. */
  function Select(rows: seq<Row>, w: Window): (sel: seq<Row>)
    ensures forall r :: r in sel <==> r in rows && InWindow(r, w)
    ensures |sel| <= |rows|
  {
    if rows == [] then []
    else
      var rest := Select(rows[..|rows| - 1], w);
      assert rows == rows[..|rows| - 1] + [rows[|rows| - 1]];
      if InWindow(rows[|rows| - 1], w) then rest + [rows[|rows| - 1]] else rest
  }

  /** The filter keeps the table's order: filtering a concatenation is
      concatenating the filtered parts. */
  lemma {:induction false} SelectAppend(a: seq<Row>, b: seq<Row>, w: Window)
    ensures Select(a + b, w) == Select(a, w) + Select(b, w)
    decreases |b|
  {
    if b == [] {
      assert a + b == a;
    } else {
      var b' := b[..|b| - 1];
      assert (a + b)[..|a + b| - 1] == a + b' && (a + b)[|a + b| - 1] == b[|b| - 1];
      SelectAppend(a, b', w);
    }
  }

  /** A single row is picked exactly when it is in the window. */
  lemma SelectOne(row: Row, w: Window)
    ensures Select([row], w) == if InWindow(row, w) then [row] else []
  {
    assert [row][..0] == [];
  }

  /** Rows whose arrival is "TBD", missing or malformed are never picked. */
  lemma UnparsedNeverSelected(row: Row, w: Window)
    requires TimeToMinutes(row.expArrival).None?
    ensures !InWindow(row, w)
  {
  }

  lemma At1025() ensures TimeToMinutes(Some("10:25")) == Some(625)
  {
    TimeOfParts("10", "25", "");
    assert "10" + ":" + "25" + "" == "10:25";
  }

  lemma At1031() ensures TimeToMinutes(Some("10:31")) == Some(631)
  {
    TimeOfParts("10", "31", "");
    assert "10" + ":" + "31" + "" == "10:31";
  }

  lemma At0959() ensures TimeToMinutes(Some("09:59")) == Some(599)
  {
    TimeOfParts("09", "59", "");
    assert "09" + ":" + "59" + "" == "09:59";
  }

  lemma At0005() ensures TimeToMinutes(Some("00:05")) == Some(5)
  {
    TimeOfParts("00", "05", "");
    assert "00" + ":" + "05" + "" == "00:05";
  }

  /** At 10:00 the windowed refresh picks a 10:25 arrival but neither 10:31
      nor 09:59; the catch-up refresh picks 09:59. */
  lemma WindowExamples(r: Row)
    ensures InWindow(r.(expArrival := Some("10:25")), Upcoming(600))
    ensures !InWindow(r.(expArrival := Some("10:31")), Upcoming(600))
    ensures !InWindow(r.(expArrival := Some("09:59")), Upcoming(600))
    ensures InWindow(r.(expArrival := Some("09:59")), UpToNow(600))
  {
    At1025();
    At1031();
    At0959();
  }

  /** The window does not wrap past midnight: at 23:50 a 00:05 arrival is
      not upcoming, it counts as already due. */
  lemma NoMidnightWrap(r: Row)
    ensures !InWindow(r.(expArrival := Some("00:05")), Upcoming(1430))
    ensures InWindow(r.(expArrival := Some("00:05")), UpToNow(1430))
  {
    At0005();
  }

  // ---------------------------------------------------------------- lookups

  /** What `JSON.parse` made of the script's output (with `'` turned into `"`). */
  datatype Output = ParseError | Fields(realArrival: Option<string>, delay: Option<string>)

  /** One run of real_time.py: `clean` when it exited with code 0 and wrote
      nothing on stderr. A refresh starts one run per row, with `KeyOf(row)`
      as its argument; the refreshes below take those runs as a function
      `lookup` of the row, so two rows with the same key may be answered
      differently. */
  datatype Lookup = Lookup(clean: bool, output: Output)

  /** The two columns a refresh writes. */
  datatype Enrichment = Enrichment(realArrival: Option<string>, delay: Option<string>)

  /** `value || null`. */
  function OrNull(o: Option<string>): Option<string>
  {
    if Truthy(o) then o else None
  }

  /** The windowed and catch-up refreshes write whatever came back, and null
      in both columns when the output did not parse; the bulk refresh writes
      only a clean run's parsed fields. */
  datatype Policy = WriteAlways | WriteOnSuccess

  function WriteFor(policy: Policy, l: Lookup): (e: Option<Enrichment>)
    ensures policy == WriteAlways ==> e.Some?
    ensures policy == WriteOnSuccess ==> (e.Some? <==> l.clean && l.output.Fields?)
    ensures l.output.ParseError? && e.Some? ==> e.value == Enrichment(None, None)
    ensures l.output.Fields? && e.Some? ==> e.value == Enrichment(OrNull(l.output.realArrival), OrNull(l.output.delay))
  {
    match (policy, l.output)
    case (WriteAlways, ParseError) => Some(Enrichment(None, None))
    case (_, Fields(r, d)) => if policy == WriteOnSuccess && !l.clean then None else Some(Enrichment(OrNull(r), OrNull(d)))
    case (WriteOnSuccess, ParseError) => None
  }

  /** `UPDATE allocations SET real_arrival = ?, delay = ?` on one row. */
  function Enrich(row: Row, e: Enrichment): Row
  {
    row.(realArrival := e.realArrival, delay := e.delay)
  }

  /** `... WHERE rowid = ?` applied to every row of the table. */
  function SetWhere(rows: seq<Row>, rowid: int, e: Enrichment): (r: seq<Row>)
    ensures |r| == |rows|
    ensures forall i :: 0 <= i < |rows| ==> r[i] == if rows[i].rowid == rowid then Enrich(rows[i], e) else rows[i]
  {
    seq(|rows|, i requires 0 <= i < |rows| => if rows[i].rowid == rowid then Enrich(rows[i], e) else rows[i])
  }

  /** With distinct rowids an UPDATE by rowid touches only the row with that
      rowid, and in it only `real_arrival` and `delay`. */
  lemma SetWhereTouchesOneRow(rows: seq<Row>, j: int, e: Enrichment)
    requires DistinctRowids(rows) && 0 <= j < |rows|
    ensures SetWhere(rows, rows[j].rowid, e) == rows[j := Enrich(rows[j], e)]
  {
  }

  /** What a refresh leaves in one row: a picked row whose write the store
      accepted holds the lookup's enrichment, any other row is as it was. */
  function RefreshRow(row: Row, selected: seq<Row>, policy: Policy, lookup: Row -> Lookup, accepts: int -> bool): (r: Row)
    ensures r.(realArrival := row.realArrival, delay := row.delay) == row
    ensures row !in selected || !accepts(row.rowid) ==> r == row
    ensures WriteFor(policy, lookup(row)).None? ==> r == row
    ensures row in selected && accepts(row.rowid) && WriteFor(policy, lookup(row)).Some? ==>
              r == Enrich(row, WriteFor(policy, lookup(row)).value)
  {
    if row in selected && accepts(row.rowid) then
      match WriteFor(policy, lookup(row))
      case None => row
      case Some(e) => Enrich(row, e)
    else row
  }

  /** The table after a refresh of the rows `selected` from it. */
  function Refreshed(rows: seq<Row>, selected: seq<Row>, policy: Policy, lookup: Row -> Lookup, accepts: int -> bool): (r: seq<Row>)
    ensures |r| == |rows|
    ensures forall i :: 0 <= i < |rows| ==> r[i] == RefreshRow(rows[i], selected, policy, lookup, accepts)
  {
    seq(|rows|, i requires 0 <= i < |rows| => RefreshRow(rows[i], selected, policy, lookup, accepts))
  }

  /** A refresh keeps every rowid, so the table keeps distinct rowids. */
  lemma RefreshedKeepsRowids(rows: seq<Row>, selected: seq<Row>, policy: Policy, lookup: Row -> Lookup, accepts: int -> bool)
    requires DistinctRowids(rows)
    ensures DistinctRowids(Refreshed(rows, selected, policy, lookup, accepts))
  {
    var r := Refreshed(rows, selected, policy, lookup, accepts);
    forall i, j | 0 <= i < j < |rows| ensures r[i].rowid != r[j].rowid {
      assert r[i].rowid == rows[i].rowid && r[j].rowid == rows[j].rowid;
    }
  }

  /** Nothing selected, nothing changed. */
  lemma RefreshNothing(rows: seq<Row>, policy: Policy, lookup: Row -> Lookup, accepts: int -> bool)
    ensures Refreshed(rows, [], policy, lookup, accepts) == rows
  {
  }

  /** Processing one more selected row is one UPDATE by its rowid, made when
      the policy writes and the store accepts it. */
  lemma RefreshOneMore(rows: seq<Row>, selected: seq<Row>, k: nat, policy: Policy, lookup: Row -> Lookup, accepts: int -> bool)
    requires DistinctRowids(rows) && k < |selected| && selected[k] in rows
    ensures var before := Refreshed(rows, selected[..k], policy, lookup, accepts);
            var w := WriteFor(policy, lookup(selected[k]));
            Refreshed(rows, selected[..k + 1], policy, lookup, accepts)
            == if w.Some? && accepts(selected[k].rowid) then SetWhere(before, selected[k].rowid, w.value) else before
  {
    var before := Refreshed(rows, selected[..k], policy, lookup, accepts);
    var after := Refreshed(rows, selected[..k + 1], policy, lookup, accepts);
    var r := selected[k];
    var w := WriteFor(policy, lookup(r));
    assert selected[..k + 1] == selected[..k] + [r];
    forall i | 0 <= i < |rows|
      ensures after[i] == if w.Some? && accepts(r.rowid) then SetWhere(before, r.rowid, w.value)[i] else before[i]
    {
      assert before[i].rowid == rows[i].rowid;
      if rows[i].rowid == r.rowid {
        assert rows[i] == r;
      } else {
        assert rows[i] != r;
      }
    }
  }

  // ---------------------------------------------------------------- bulk refresh

  /** The bulk refresh looks up this many trains at a time. */
  const BatchSize := 5

  /** `rows.slice(i, i + batchSize)` for i = 0, 5, 10, ... */
  function Batches<T>(rows: seq<T>): (batches: seq<seq<T>>)
    ensures forall k :: 0 <= k < |batches| ==> 0 < |batches[k]| <= BatchSize
    decreases |rows|
  {
    if rows == [] then []
    else
      var k := if |rows| < BatchSize then |rows| else BatchSize;
      [rows[..k]] + Batches(rows[k..])
  }

  function Flatten<T>(parts: seq<seq<T>>): seq<T>
  {
    if parts == [] then [] else parts[0] + Flatten(parts[1..])
  }

  /** The batches cover the rows in order, each exactly once; there are
      ceil(n / 5) of them, all full except possibly the last, none empty. */
  lemma {:induction false} BatchesPartition<T>(rows: seq<T>)
    ensures Flatten(Batches(rows)) == rows
    ensures |Batches(rows)| == (|rows| + BatchSize - 1) / BatchSize
    ensures forall k :: 0 <= k < |Batches(rows)| ==> 0 < |Batches(rows)[k]| <= BatchSize
    ensures forall k :: 0 <= k < |Batches(rows)| - 1 ==> |Batches(rows)[k]| == BatchSize
  {
    if rows != [] {
      var k := if |rows| < BatchSize then |rows| else BatchSize;
      BatchesPartition(rows[k..]);
      assert rows == rows[..k] + rows[k..];
      var bs := Batches(rows);
      assert bs[1..] == Batches(rows[k..]);
    }
  }

  /** The batches from row i on are the slice starting at i, then the
      batches after it. */
  lemma NextBatch<T>(rows: seq<T>, i: nat, done: seq<seq<T>>)
    requires i < |rows|
    ensures var end := if i + BatchSize <= |rows| then i + BatchSize else |rows|;
            done + Batches(rows[i..]) == (done + [rows[i..end]]) + Batches(rows[end..])
  {
    var end := if i + BatchSize <= |rows| then i + BatchSize else |rows|;
    var k := end - i;
    assert rows[i..][..k] == rows[i..end] && rows[i..][k..] == rows[end..];
    assert Batches(rows[i..]) == [rows[i..end]] + Batches(rows[end..]);
  }

  /** Twelve rows go out as batches of 5, 5 and 2. */
  lemma TwelveRows<T>(rows: seq<T>)
    requires |rows| == 12
    ensures |Batches(rows)| == 3
    ensures |Batches(rows)[0]| == 5 && |Batches(rows)[1]| == 5 && |Batches(rows)[2]| == 2
  {
    var r1, r2 := rows[5..], rows[5..][5..];
    assert |r2| == 2 && r2[..2] == r2 && r2[2..] == [];
    assert Batches(r2) == [r2[..2]] + Batches(r2[2..]);
    assert Batches<T>([]) == [];
    assert Batches(r1) == [r1[..5]] + [r2];
    assert Batches(rows) == [rows[..5]] + ([r1[..5]] + [r2]);
  }

  /** How one row of a refresh ended. */
  datatype Outcome = Updated | Failed | Rejected

  function Classify(row: Row, policy: Policy, lookup: Row -> Lookup, accepts: int -> bool): (o: Outcome)
    ensures o == Failed <==> WriteFor(policy, lookup(row)).None?
    ensures o == Updated <==> WriteFor(policy, lookup(row)).Some? && accepts(row.rowid)
  {
    if WriteFor(policy, lookup(row)).None? then Failed
    else if accepts(row.rowid) then Updated
    else Rejected
  }

  /** The bulk refresh's `updatedCount` and `errorCount`. */
  datatype Tally = Tally(updated: nat, errors: nat)

  /** The counters once the first `n` rows have finished: a row whose script
      failed or whose output did not parse is an error, a row whose UPDATE
      succeeded is updated, a row whose UPDATE failed is neither. */
  function TallyOf(rows: seq<Row>, n: nat, lookup: Row -> Lookup, accepts: int -> bool): (t: Tally)
    requires n <= |rows|
  {
    if n == 0 then Tally(0, 0)
    else
      var t := TallyOf(rows, n - 1, lookup, accepts);
      match Classify(rows[n - 1], WriteOnSuccess, lookup, accepts)
      case Updated => t.(updated := t.updated + 1)
      case Failed => t.(errors := t.errors + 1)
      case Rejected => t
  }

  /** Rows among the first `n` whose UPDATE the store rejected. */
  function RejectedCount(rows: seq<Row>, n: nat, lookup: Row -> Lookup, accepts: int -> bool): nat
    requires n <= |rows|
  {
    if n == 0 then 0
    else RejectedCount(rows, n - 1, lookup, accepts) + if Classify(rows[n - 1], WriteOnSuccess, lookup, accepts) == Rejected then 1 else 0
  }

  /** Every row is updated, an error, or a rejected write, so the two
      reported counters add up to at most the number of trains, and to
      exactly that number when the store takes every write. */
  lemma {:induction false} CountersAddUp(rows: seq<Row>, n: nat, lookup: Row -> Lookup, accepts: int -> bool)
    requires n <= |rows|
    ensures TallyOf(rows, n, lookup, accepts).updated + TallyOf(rows, n, lookup, accepts).errors
            + RejectedCount(rows, n, lookup, accepts) == n
    ensures (forall i :: 0 <= i < n ==> accepts(rows[i].rowid)) ==> RejectedCount(rows, n, lookup, accepts) == 0
  {
    if n > 0 {
      CountersAddUp(rows, n - 1, lookup, accepts);
    }
  }

  /** Whether a write succeeds never turns a row into an error: the error
      count depends on the lookups alone. */
  lemma {:induction false} ErrorsIgnoreStore(rows: seq<Row>, n: nat, lookup: Row -> Lookup, accepts: int -> bool, accepts': int -> bool)
    requires n <= |rows|
    ensures TallyOf(rows, n, lookup, accepts).errors == TallyOf(rows, n, lookup, accepts').errors
  {
    if n > 0 {
      ErrorsIgnoreStore(rows, n - 1, lookup, accepts, accepts');
    }
  }

  /** When every script among the first `n` rows ran clean and parsed and
      the store accepted every write, each row is counted as updated and
      none as an error. */
  lemma {:induction false} AllUpdated(rows: seq<Row>, n: nat, lookup: Row -> Lookup, accepts: int -> bool)
    requires n <= |rows|
    requires forall i :: 0 <= i < n ==>
               lookup(rows[i]).clean && lookup(rows[i]).output.Fields? && accepts(rows[i].rowid)
    ensures TallyOf(rows, n, lookup, accepts) == Tally(n, 0)
  {
    if n > 0 {
      AllUpdated(rows, n - 1, lookup, accepts);
    }
  }

  // ---------------------------------------------------------------- the day's table

  /** `SELECT * FROM mainDb.allocations WHERE days = ?`: the tag must equal
      the whole `days` value; a NULL `days` never matches. */
  function KeepDay(master: seq<Row>, tag: string): (kept: seq<Row>)
    ensures forall r :: r in kept <==> r in master && r.days == Some(tag)
    ensures |kept| <= |master|
  {
    if master == [] then []
    else
      var rest := KeepDay(master[..|master| - 1], tag);
      var last := master[|master| - 1];
      assert master == master[..|master| - 1] + [last];
      if last.days == Some(tag) then rest + [last] else rest
  }

  /** The day's rows keep the master table's order. */
  lemma {:induction false} KeepDayAppend(a: seq<Row>, b: seq<Row>, tag: string)
    ensures KeepDay(a + b, tag) == KeepDay(a, tag) + KeepDay(b, tag)
    decreases |b|
  {
    if b == [] {
      assert a + b == a;
    } else {
      var b' := b[..|b| - 1];
      assert (a + b)[..|a + b| - 1] == a + b' && (a + b)[|a + b| - 1] == b[|b| - 1];
      KeepDayAppend(a, b', tag);
    }
  }

  /** A single master row is kept exactly when its `days` is the tag. */
  lemma KeepDayOne(row: Row, tag: string)
    ensures KeepDay([row], tag) == if row.days == Some(tag) then [row] else []
  {
    assert [row][..0] == [];
  }

  /** `CREATE TABLE allocations AS SELECT ...`: the kept rows with every
      column copied as it is, numbered 1, 2, ... by the new table. */
  function DaySnapshot(master: seq<Row>, tag: string): (rows: seq<Row>)
    ensures |rows| == |KeepDay(master, tag)|
    ensures forall i :: 0 <= i < |rows| ==> rows[i] == KeepDay(master, tag)[i].(rowid := i + 1)
  {
    var kept := KeepDay(master, tag);
    seq(|kept|, i requires 0 <= i < |kept| => kept[i].(rowid := i + 1))
  }

  /** The day's table holds exactly the master rows for that day, columns
      unchanged, under fresh distinct rowids. */
  lemma DaySnapshotContents(master: seq<Row>, tag: string)
    ensures DistinctRowids(DaySnapshot(master, tag))
    ensures forall r :: r in DaySnapshot(master, tag) ==> r.days == Some(tag)
    ensures forall r :: r in master && r.days == Some(tag) ==>
              exists i :: 0 <= i < |DaySnapshot(master, tag)| && DaySnapshot(master, tag)[i] == r.(rowid := i + 1)
  {
    var rows, kept := DaySnapshot(master, tag), KeepDay(master, tag);
    forall r | r in rows ensures r.days == Some(tag) {
      var i :| 0 <= i < |rows| && rows[i] == r;
      assert kept[i] in kept;
    }
    forall r | r in master && r.days == Some(tag)
      ensures exists i :: 0 <= i < |rows| && rows[i] == r.(rowid := i + 1)
    {
      var i :| 0 <= i < |kept| && kept[i] == r;
      assert rows[i] == r.(rowid := i + 1);
    }
  }
}
