/** The server's notion of "today": `todayValue`, `lastTodayDbDay` and the
    rebuild of today.db when the weekday changes. The weekday is passed in
    where the server reads the system clock. */
module DayRollover {
  import opened Nullable
  import opened Clock
  import opened Allocations
  import opened TodayDatabase

  /** The answer of `/api/today`. */
  datatype TodayReply = TodayReply(day: string, rows: seq<Row>)

  class DayTracker {
    /** The weekday tag the day's table was filtered on. */
    var todayValue: Option<string>
    /** The weekday tag today.db was last rebuilt for. */
    var lastTodayDbDay: Option<string>
    /** today.db itself. */
    const db: TodayDb

    ghost predicate Valid()
      reads this, db, db.table
    {
      db.Valid() && todayValue.Some? && lastTodayDbDay == todayValue
    }

    /** Server start: `updateTodayValue()`, `lastTodayDbDay = todayValue`,
        then `createTodayDb()` for that day. */
    constructor (weekday: nat, db: TodayDb, master: seq<Row>, removed: bool, attached: bool)
      requires weekday < 7 && db.Valid()
      modifies db
      ensures Valid() && this.db == db
      ensures todayValue == Some(DayTag(weekday))
      ensures old(db.present) && !removed ==> db.present && db.table == old(db.table) && db.table[..] == old(db.table[..])
      ensures !(old(db.present) && !removed) ==> db.present == attached
      ensures !(old(db.present) && !removed) && attached ==> db.table[..] == DaySnapshot(master, DayTag(weekday))
    {
      var tag := DayTag(weekday);
      todayValue := Some(tag);
      lastTodayDbDay := Some(tag);
      this.db := db;
      new;
      db.Rebuild(master, tag, removed, attached);
    }

    /** `checkAndUpdateTodayDbIfNeeded`: on a new weekday both variables take
        the new tag first, and today.db is rebuilt for it; whether the
        rebuild works does not matter to the variables. On the same weekday
        nothing happens. */
    method CheckAndUpdate(weekday: nat, master: seq<Row>, removed: bool, attached: bool)
      requires Valid() && weekday < 7
      modifies this, db
      ensures Valid()
      ensures todayValue == Some(DayTag(weekday)) && lastTodayDbDay == Some(DayTag(weekday))
      ensures old(lastTodayDbDay) == Some(DayTag(weekday)) ==>
                db.present == old(db.present) && db.table == old(db.table) && db.table[..] == old(db.table[..])
      ensures old(lastTodayDbDay) != Some(DayTag(weekday)) && old(db.present) && !removed ==>
                db.present && db.table == old(db.table) && db.table[..] == old(db.table[..])
      ensures old(lastTodayDbDay) != Some(DayTag(weekday)) && !(old(db.present) && !removed) ==>
                db.present == attached && (attached ==> db.table[..] == DaySnapshot(master, DayTag(weekday)))
    {
      var currentDay := DayTag(weekday);
      if Some(currentDay) != lastTodayDbDay {
        todayValue := Some(currentDay);
        lastTodayDbDay := Some(currentDay);
        db.Rebuild(master, currentDay, removed, attached);
      }
    }

    /** `/api/today`: the rollover check, then every row of today.db with the
        day it was built for, or a database error without the table. The
        rebuild's `CREATE TABLE` is only queued when the check returns, and
        the handler reads today.db on a connection of its own: `readsFirst`
        says that its `SELECT` reached the file before the table existed,
        which on a freshly emptied file is a database error. */
    method Today(weekday: nat, master: seq<Row>, removed: bool, attached: bool, readsFirst: bool) returns (r: Result<TodayReply>)
      requires Valid() && weekday < 7
      modifies this, db
      ensures Valid()
      ensures todayValue == Some(DayTag(weekday)) && lastTodayDbDay == Some(DayTag(weekday))
      ensures old(lastTodayDbDay) == Some(DayTag(weekday)) ==>
                db.present == old(db.present) && db.table == old(db.table) && db.table[..] == old(db.table[..])
      ensures old(lastTodayDbDay) != Some(DayTag(weekday)) && old(db.present) && !removed ==>
                db.present && db.table == old(db.table) && db.table[..] == old(db.table[..])
      ensures old(lastTodayDbDay) != Some(DayTag(weekday)) && !(old(db.present) && !removed) ==>
                db.present == attached && (attached ==> db.table[..] == DaySnapshot(master, DayTag(weekday)))
      ensures var emptied := old(lastTodayDbDay) != Some(DayTag(weekday)) && !(old(db.present) && !removed);
              if !db.present || (emptied && readsFirst) then r == DatabaseError
              else r == Ok(TodayReply(DayTag(weekday), db.table[..]))
    {
      var emptied := Some(DayTag(weekday)) != lastTodayDbDay && !(db.present && !removed);
      CheckAndUpdate(weekday, master, removed, attached);
      if !db.present || (emptied && readsFirst) {
        return DatabaseError;
      }
      r := Ok(TodayReply(todayValue.value, db.table[..]));
    }
  }
}
