/**
 * The command_history table (main.go:43-52) and the operations main.go runs
 * on it: saveCommand, deleteCommand, importFromJSON, listCommands and
 * listCommandsByDay. The SQL engine is replaced by a sequence of rows in rowid
 * order and the AUTOINCREMENT counter (the largest id ever handed out).
 * Timestamps are seconds of local time; a day is a whole number of days.
 */
module Store {
  import opened Wrappers
  import opened Text

  /** CommandRecord (main.go:388-393). */
  datatype CommandRecord = CommandRecord(id: int, command: string, description: string, createdAt: int)

  /** The largest rowid SQLite hands out (a signed 64-bit integer). */
  const MaxRowId: int := 0x7FFF_FFFF_FFFF_FFFF

  const SecondsPerDay: int := 86400

  /** The table's rows, oldest first, and the AUTOINCREMENT counter. */
  datatype Table = Table(rows: seq<CommandRecord>, lastId: int)

  predicate IdsIncreasing(rows: seq<CommandRecord>)
  {
    forall i, j :: 0 <= i < j < |rows| ==> rows[i].id < rows[j].id
  }

  /** Ids are positive, never above the counter, and unique (increasing in rowid order). */
  predicate ValidTable(t: Table)
  {
    && 0 <= t.lastId <= MaxRowId
    && IdsIncreasing(t.rows)
    && forall i :: 0 <= i < |t.rows| ==> 0 < t.rows[i].id <= t.lastId
  }

  // ---------------------------------------------------------------- insert

  /**
   * One INSERT into command_history: the row gets the id after the largest one
   * ever used. It fails when the engine reports an error (`fault`) or when the
   * largest rowid has already been used (AUTOINCREMENT then refuses with
   * SQLITE_FULL); a failed INSERT changes nothing.
   */
  function Insert(t: Table, command: string, description: string, createdAt: int, fault: bool): (res: (Table, bool))
    requires ValidTable(t)
    ensures ValidTable(res.0)
    ensures res.1 <==> !fault && t.lastId < MaxRowId
    ensures res.1 ==> res.0.lastId == t.lastId + 1
                      && res.0.rows == t.rows + [CommandRecord(res.0.lastId, command, description, createdAt)]
    ensures res.1 ==> forall i :: 0 <= i < |t.rows| ==> t.rows[i].id != res.0.lastId
    ensures !res.1 ==> res.0 == t
  {
    if fault || t.lastId == MaxRowId then (t, false)
    else
      var id := t.lastId + 1;
      (Table(t.rows + [CommandRecord(id, command, description, createdAt)], id), true)
  }

  // ---------------------------------------------------------------- delete

  /** SELECT EXISTS(SELECT 1 FROM command_history WHERE id = ?). */
  function HasId(rows: seq<CommandRecord>, id: int): (b: bool)
    ensures b <==> exists i :: 0 <= i < |rows| && rows[i].id == id
  {
    if rows == [] then false else rows[0].id == id || HasId(rows[1..], id)
  }

  /** DELETE FROM command_history WHERE id = ?: the rows whose id differs, in order. */
  function Without(rows: seq<CommandRecord>, id: int): (r: seq<CommandRecord>)
    ensures |r| <= |rows|
  {
    if rows == [] then []
    else (if rows[0].id == id then [] else [rows[0]]) + Without(rows[1..], id)
  }

  /** deleteCommand: the existence check, then the DELETE when the id exists. */
  function Delete(t: Table, id: int): (res: (Table, bool))
    ensures res.1 <==> exists k :: 0 <= k < |t.rows| && t.rows[k].id == id
    ensures !res.1 ==> res.0 == t
    ensures res.0.lastId == t.lastId
    ensures |res.0.rows| <= |t.rows|
  {
    if HasId(t.rows, id) then (Table(Without(t.rows, id), t.lastId), true) else (t, false)
  }

  lemma {:induction false} WithoutAbsent(rows: seq<CommandRecord>, id: int)
    requires forall i :: 0 <= i < |rows| ==> rows[i].id != id
    ensures Without(rows, id) == rows
  {
    if rows != [] {
      WithoutAbsent(rows[1..], id);
      assert [rows[0]] + rows[1..] == rows;
    }
  }

  lemma {:induction false} WithoutUnique(rows: seq<CommandRecord>, id: int, k: nat)
    requires IdsIncreasing(rows) && k < |rows| && rows[k].id == id
    ensures Without(rows, id) == rows[..k] + rows[k + 1..]
  {
    if k == 0 {
      assert forall i :: 0 <= i < |rows[1..]| ==> rows[1..][i] == rows[i + 1];
      WithoutAbsent(rows[1..], id);
    } else {
      WithoutUnique(rows[1..], id, k - 1);
      assert rows[1..][..k - 1] == rows[1..k];
      assert rows[1..][k..] == rows[k + 1..];
      assert [rows[0]] + rows[1..k] == rows[..k];
    }
  }

  /**
   * Deleting an absent id changes nothing; deleting a present one removes
   * exactly that record and keeps every other in order, and the counter is
   * not lowered, so a removed id is never handed out again.
   */
  lemma DeleteExact(t: Table, id: int)
    requires ValidTable(t)
    ensures var (t', found) := Delete(t, id);
            && ValidTable(t')
            && t'.lastId == t.lastId
            && (found <==> exists k :: 0 <= k < |t.rows| && t.rows[k].id == id)
            && (!found ==> t' == t)
            && (found ==> exists k :: 0 <= k < |t.rows| && t.rows[k].id == id
                                      && t'.rows == t.rows[..k] + t.rows[k + 1..])
  {
    if HasId(t.rows, id) {
      var k :| 0 <= k < |t.rows| && t.rows[k].id == id;
      WithoutUnique(t.rows, id, k);
      RemoveAtValid(t, k);
    }
  }

  /** Taking one row out of a valid table leaves a valid table. */
  lemma RemoveAtValid(t: Table, k: nat)
    requires ValidTable(t) && k < |t.rows|
    ensures ValidTable(Table(t.rows[..k] + t.rows[k + 1..], t.lastId))
  {
    var rest := t.rows[..k] + t.rows[k + 1..];
    assert forall i :: 0 <= i < |rest| ==> rest[i] == t.rows[if i < k then i else i + 1];
  }

  // ---------------------------------------------------------------- import

  /**
   * The import loop of main.go:488-497 over the first records: each record's
   * command, description and created_at are inserted as they are (its id is
   * not), record `i` meets an engine error when `i in faults`, and the count
   * is the number of inserts that succeeded.
   */
  function ImportAll(t: Table, recs: seq<CommandRecord>, faults: set<nat>): (res: (Table, nat))
    requires ValidTable(t)
    ensures ValidTable(res.0)
    ensures res.1 <= |recs|
    ensures |res.0.rows| == |t.rows| + res.1 && res.0.rows[..|t.rows|] == t.rows
    ensures res.0.lastId == t.lastId + res.1
    decreases |recs|
  {
    if recs == [] then (t, 0)
    else
      var n := |recs| - 1;
      var (t1, count) := ImportAll(t, recs[..n], faults);
      var (t2, ok) := Insert(t1, recs[n].command, recs[n].description, recs[n].createdAt, n in faults);
      assert ok ==> t2.rows[..|t.rows|] == t1.rows[..|t.rows|];
      (t2, if ok then count + 1 else count)
  }

  /** The records at positions that do not fault, in order. */
  function Kept(recs: seq<CommandRecord>, faults: set<nat>): seq<CommandRecord>
    decreases |recs|
  {
    if recs == [] then []
    else
      var n := |recs| - 1;
      Kept(recs[..n], faults) + (if n in faults then [] else [recs[n]])
  }

  /** Records as the table holds them after insertion: consecutive fresh ids from `first`. */
  function Stamped(recs: seq<CommandRecord>, first: int): (r: seq<CommandRecord>)
  {
    seq(|recs|, j requires 0 <= j < |recs| =>
      CommandRecord(first + j, recs[j].command, recs[j].description, recs[j].createdAt))
  }

  /** One more record: ImportAll is the import of the others followed by one insert. */
  lemma ImportAllSnoc(t: Table, recs: seq<CommandRecord>, faults: set<nat>)
    requires ValidTable(t) && recs != []
    ensures var n := |recs| - 1;
            var (t1, count) := ImportAll(t, recs[..n], faults);
            ImportAll(t, recs, faults)
            == if n in faults || t1.lastId == MaxRowId then (t1, count)
               else (Table(t1.rows + [CommandRecord(t1.lastId + 1, recs[n].command, recs[n].description, recs[n].createdAt)],
                           t1.lastId + 1), count + 1)
  {
  }

  /**
   * When ids do not run out, import appends exactly the records that did not
   * fault, in file order, with their own command, description and created_at
   * and fresh consecutive ids, and counts exactly those.
   */
  lemma {:induction false} ImportAllAppendsKept(t: Table, recs: seq<CommandRecord>, faults: set<nat>)
    requires ValidTable(t) && t.lastId + |recs| <= MaxRowId
    ensures var kept := Kept(recs, faults);
            && |kept| <= |recs|
            && ImportAll(t, recs, faults).1 == |kept|
            && ImportAll(t, recs, faults).0.rows == t.rows + Stamped(kept, t.lastId + 1)
  {
    if recs != [] {
      var n := |recs| - 1;
      ImportAllAppendsKept(t, recs[..n], faults);
      ImportAllSnoc(t, recs, faults);
      var kept0 := Kept(recs[..n], faults);
      var (t1, count) := ImportAll(t, recs[..n], faults);
      assert count == |kept0| <= n;
      assert t1.lastId == t.lastId + count < MaxRowId;
      if n in faults {
        assert Kept(recs, faults) == kept0;
      } else {
        assert Kept(recs, faults) == kept0 + [recs[n]];
        StampedSnoc(kept0, recs[n], t.lastId + 1);
      }
    }
  }

  lemma StampedSnoc(recs: seq<CommandRecord>, r: CommandRecord, first: int)
    ensures Stamped(recs + [r], first)
            == Stamped(recs, first) + [CommandRecord(first + |recs|, r.command, r.description, r.createdAt)]
  {
    assert Stamped(recs + [r], first)[..|recs|] == Stamped(recs, first);
  }

  /** With no record faulting and ids left, every record is imported. */
  lemma {:induction false} KeptAll(recs: seq<CommandRecord>, faults: set<nat>)
    requires forall i :: 0 <= i < |recs| ==> i !in faults
    ensures Kept(recs, faults) == recs
  {
    if recs != [] {
      var n := |recs| - 1;
      KeptAll(recs[..n], faults);
      assert recs[..n] + [recs[n]] == recs;
    }
  }

  /** What importFromJSON reports. */
  datatype ImportReport =
    | MissingPath                         // no file name was given
    | Unreadable                          // the file could not be read or decoded
    | NothingToImport                     // the file holds an empty list
    | Imported(success: nat, total: nat)

  // ---------------------------------------------------------------- listing

  /** Records newest first, as ORDER BY created_at DESC yields them. */
  predicate NewestFirstOrder(rs: seq<CommandRecord>)
  {
    forall i, j :: 0 <= i < j < |rs| ==> rs[i].createdAt >= rs[j].createdAt
  }

  function InsertByTime(x: CommandRecord, rs: seq<CommandRecord>): (r: seq<CommandRecord>)
    ensures |r| == |rs| + 1 && multiset(r) == multiset(rs) + multiset{x}
  {
    if rs == [] || x.createdAt >= rs[0].createdAt then [x] + rs
    else
      assert rs == [rs[0]] + rs[1..];
      [rs[0]] + InsertByTime(x, rs[1..])
  }

  /** Inserting into a newest-first list keeps it newest first. */
  lemma {:induction false} InsertByTimeOrdered(x: CommandRecord, rs: seq<CommandRecord>)
    requires NewestFirstOrder(rs)
    ensures NewestFirstOrder(InsertByTime(x, rs))
    ensures InsertByTime(x, rs)[0] == x || (rs != [] && InsertByTime(x, rs)[0] == rs[0])
  {
    if rs != [] && x.createdAt < rs[0].createdAt {
      var tail := rs[1..];
      InsertByTimeOrdered(x, tail);
      var r := InsertByTime(x, rs);
      assert r == [rs[0]] + InsertByTime(x, tail);
      forall i, j | 0 <= i < j < |r| ensures r[i].createdAt >= r[j].createdAt {
        if i == 0 {
          var t := InsertByTime(x, tail);
          assert r[j] == t[j - 1];
          if j - 1 > 0 {
            assert t[0].createdAt >= t[j - 1].createdAt;
          }
          assert t[0] == x || t[0] == tail[0];
        }
      }
    }
  }

  /** listCommands and exportToJSON: the records ordered by created_at, newest first. */
  function NewestFirst(rows: seq<CommandRecord>): (r: seq<CommandRecord>)
    ensures NewestFirstOrder(r)
    ensures multiset(r) == multiset(rows)
  {
    if rows == [] then []
    else
      assert rows == [rows[0]] + rows[1..];
      var tail := NewestFirst(rows[1..]);
      InsertByTimeOrdered(rows[0], tail);
      InsertByTime(rows[0], tail)
  }

  /** A successful insert shows up in the listing with the fields it was given and a fresh id. */
  lemma InsertedIsListed(t: Table, command: string, description: string, createdAt: int, fault: bool)
    requires ValidTable(t)
    ensures var (t', ok) := Insert(t, command, description, createdAt, fault);
            ok ==> CommandRecord(t'.lastId, command, description, createdAt) in NewestFirst(t'.rows)
                   && forall i :: 0 <= i < |t.rows| ==> t.rows[i].id != t'.lastId
  {
    var (t', ok) := Insert(t, command, description, createdAt, fault);
    if ok {
      var r := CommandRecord(t'.lastId, command, description, createdAt);
      assert r in t'.rows;
      assert r in multiset(t'.rows);
      assert r in multiset(NewestFirst(t'.rows));
    }
  }

  /** date(created_at), as a day number. */
  function DayOf(t: int): (d: int)
    ensures d * SecondsPerDay <= t < (d + 1) * SecondsPerDay
  {
    t / SecondsPerDay
  }

  /** The time of day of a timestamp, in seconds. */
  function ClockOf(t: int): (c: int)
    ensures 0 <= c < SecondsPerDay
    ensures t == DayOf(t) * SecondsPerDay + c
  {
    t % SecondsPerDay
  }

  /** One table line of the by-day listing. */
  datatype DayLine = DayLine(id: int, clock: int, command: string, description: string)

  /** One day of the by-day listing: either "(no records)" or its lines. */
  datatype DayReport = NoRecords(day: int) | Records(day: int, lines: seq<DayLine>)

  /** An empty description is shown as "-" (main.go:305-307). */
  function Display(description: string): (shown: string)
    ensures description == [] ==> shown == "-"
    ensures description != [] ==> shown == description
  {
    if description == [] then "-" else description
  }

  /** The printed row of a record: its id, time of day, command and displayed description. */
  function LineOf(r: CommandRecord): DayLine
  {
    DayLine(r.id, ClockOf(r.createdAt), r.command, Display(r.description))
  }

  /** The lines of the rows created on `day`, in table order. */
  function OnDay(rows: seq<CommandRecord>, day: int): seq<DayLine>
    decreases |rows|
  {
    if rows == [] then []
    else
      var n := |rows| - 1;
      OnDay(rows[..n], day) + (if DayOf(rows[n].createdAt) == day then [LineOf(rows[n])] else [])
  }

  /** One day's report: its lines, or "(no records)" exactly when no record was created that day. */
  function Bucket(rows: seq<CommandRecord>, day: int): (report: DayReport)
    ensures report.day == day
    ensures report.NoRecords? <==> forall i :: 0 <= i < |rows| ==> DayOf(rows[i].createdAt) != day
    ensures report.Records? ==> report.lines == OnDay(rows, day)
  {
    OnDayEmpty(rows, day);
    var lines := OnDay(rows, day);
    if lines == [] then NoRecords(day) else Records(day, lines)
  }

  /** listCommandsByDay (main.go:242-321): today and the six days before it, newest first. */
  function ByDay(rows: seq<CommandRecord>, today: int): (report: seq<DayReport>)
    ensures |report| == 7
    ensures forall k :: 0 <= k < 7 ==> report[k].day == today - k
  {
    seq(7, k requires 0 <= k < 7 => Bucket(rows, today - k))
  }

  /** A day's lines come from exactly the rows created that day. */
  lemma {:induction false} OnDayMembers(rows: seq<CommandRecord>, day: int)
    ensures forall i :: 0 <= i < |rows| && DayOf(rows[i].createdAt) == day ==> LineOf(rows[i]) in OnDay(rows, day)
    ensures forall l :: l in OnDay(rows, day) ==>
              exists i :: 0 <= i < |rows| && DayOf(rows[i].createdAt) == day && LineOf(rows[i]) == l
    ensures |OnDay(rows, day)| <= |rows|
  {
    if rows != [] {
      var n := |rows| - 1;
      var init := rows[..n];
      OnDayMembers(init, day);
      assert forall i :: 0 <= i < n ==> rows[i] == init[i];
    }
  }

  /** Each record of the window lands in the bucket of its own day. */
  lemma RecordLandsInItsDay(rows: seq<CommandRecord>, today: int, i: nat)
    requires i < |rows| && today - 6 <= DayOf(rows[i].createdAt) <= today
    ensures var k := today - DayOf(rows[i].createdAt);
            && ByDay(rows, today)[k].Records?
            && LineOf(rows[i]) in ByDay(rows, today)[k].lines
  {
    var k := today - DayOf(rows[i].createdAt);
    assert ByDay(rows, today)[k] == Bucket(rows, today - k);
    OnDayMembers(rows, DayOf(rows[i].createdAt));
  }

  /** A bucket's lines belong to records of that bucket's day. */
  lemma BucketHoldsItsDay(rows: seq<CommandRecord>, today: int, k: nat, l: DayLine)
    requires k < 7 && ByDay(rows, today)[k].Records? && l in ByDay(rows, today)[k].lines
    ensures exists i :: 0 <= i < |rows| && DayOf(rows[i].createdAt) == today - k && LineOf(rows[i]) == l
  {
    assert ByDay(rows, today)[k] == Bucket(rows, today - k);
    OnDayMembers(rows, today - k);
  }

  /** A day is reported as "(no records)" exactly when no record was created on it. */
  lemma EmptyDayIsMarked(rows: seq<CommandRecord>, today: int, k: nat)
    requires k < 7
    ensures ByDay(rows, today)[k].NoRecords? <==> forall i :: 0 <= i < |rows| ==> DayOf(rows[i].createdAt) != today - k
  {
    assert ByDay(rows, today)[k] == Bucket(rows, today - k);
  }

  /** A day has no lines exactly when no record was created on it. */
  lemma OnDayEmpty(rows: seq<CommandRecord>, day: int)
    ensures OnDay(rows, day) == [] <==> forall i :: 0 <= i < |rows| ==> DayOf(rows[i].createdAt) != day
  {
    OnDayMembers(rows, day);
    if OnDay(rows, day) != [] {
      assert OnDay(rows, day)[0] in OnDay(rows, day);
    }
  }

  // ---------------------------------------------------------------- the store

  /** The database that initDB opens: the table and its counter, updated in place. */
  class CommandStore {
    var rows: seq<CommandRecord>
    var lastId: int

    ghost predicate Valid()
      reads this
    {
      ValidTable(Table(rows, lastId))
    }

    function Snapshot(): Table
      reads this
    {
      Table(rows, lastId)
    }

    /** initDB on a fresh database: CREATE TABLE IF NOT EXISTS leaves an empty table. */
    constructor ()
      ensures Valid() && rows == [] && lastId == 0
    {
      rows := [];
      lastId := 0;
    }

    /** Exec of the prepared INSERT statement. */
    method InsertRow(command: string, description: string, createdAt: int, fault: bool) returns (ok: bool)
      requires Valid()
      modifies this
      ensures Valid()
      ensures (Snapshot(), ok) == Insert(old(Snapshot()), command, description, createdAt, fault)
    {
      if fault || lastId == MaxRowId {
        return false;
      }
      lastId := lastId + 1;
      rows := rows + [CommandRecord(lastId, command, description, createdAt)];
      return true;
    }

    /** saveCommand (main.go:61-84): both fields trimmed, created_at is now. */
    method SaveCommand(command: string, description: string, now: int, fault: bool) returns (saved: bool)
      requires Valid()
      modifies this
      ensures Valid()
      ensures (Snapshot(), saved) == Insert(old(Snapshot()), TrimSpace(command), TrimSpace(description), now, fault)
    {
      var c := TrimSpace(command);
      var d := TrimSpace(description);
      saved := InsertRow(c, d, now, fault);
    }

    /** deleteCommand (main.go:360-385); `removed` is RowsAffected. */
    method DeleteCommand(id: int) returns (found: bool, removed: nat)
      requires Valid()
      modifies this
      ensures Valid()
      ensures (Snapshot(), found) == Delete(old(Snapshot()), id)
      ensures removed == |old(rows)| - |rows| && (found <==> removed == 1) && removed <= 1
    {
      DeleteExact(Snapshot(), id);
      found := HasId(rows, id);
      if !found {
        return found, 0;
      }
      var before := |rows|;
      rows := Without(rows, id);
      removed := before - |rows|;
    }

    /**
     * importFromJSON (main.go:452-500). `decoded` is what reading and
     * unmarshalling the file gave (None on either failure).
     */
    method ImportFromJson(filename: string, decoded: Option<seq<CommandRecord>>, faults: set<nat>)
      returns (report: ImportReport)
      requires Valid()
      modifies this
      ensures Valid()
      ensures filename == [] ==> report == MissingPath && Snapshot() == old(Snapshot())
      ensures filename != [] && decoded.None? ==> report == Unreadable && Snapshot() == old(Snapshot())
      ensures filename != [] && decoded == Some([]) ==> report == NothingToImport && Snapshot() == old(Snapshot())
      ensures filename != [] && decoded.Some? && decoded.value != [] ==>
                var (t, count) := ImportAll(old(Snapshot()), decoded.value, faults);
                report == Imported(count, |decoded.value|) && Snapshot() == t
    {
      if filename == [] {
        return MissingPath;
      }
      if decoded.None? {
        return Unreadable;
      }
      var records := decoded.value;
      if |records| == 0 {
        return NothingToImport;
      }
      var successCount := 0;
      for i := 0 to |records|
        invariant Valid()
        invariant (Snapshot(), successCount) == ImportAll(old(Snapshot()), records[..i], faults)
      {
        assert records[..i + 1][..i] == records[..i];
        ImportAllSnoc(old(Snapshot()), records[..i + 1], faults);
        var r := records[i];
        var ok := InsertRow(r.command, r.description, r.createdAt, i in faults);
        if !ok {
          continue;
        }
        successCount := successCount + 1;
      }
      assert records[..|records|] == records;
      report := Imported(successCount, |records|);
    }

    /** listCommands (main.go:209-239). */
    function List(): (r: seq<CommandRecord>)
      reads this
      ensures NewestFirstOrder(r) && multiset(r) == multiset(rows)
    {
      NewestFirst(rows)
    }

    /** listCommandsByDay (main.go:242-321), one day and one row at a time. */
    method ListCommandsByDay(today: int) returns (report: seq<DayReport>)
      ensures report == ByDay(rows, today)
    {
      report := [];
      for k := 0 to 7
        invariant |report| == k
        invariant forall j :: 0 <= j < k ==> report[j] == Bucket(rows, today - j)
      {
        var day := today - k;
        var lines: seq<DayLine> := [];
        for i := 0 to |rows|
          invariant lines == OnDay(rows[..i], day)
        {
          assert rows[..i + 1][..i] == rows[..i];
          var r := rows[i];
          if DayOf(r.createdAt) == day {
            var desc := r.description;
            if desc == [] {
              desc := "-";
            }
            lines := lines + [DayLine(r.id, ClockOf(r.createdAt), r.command, desc)];
          }
        }
        assert rows[..|rows|] == rows;
        if lines == [] {
          report := report + [NoRecords(day)];
        } else {
          report := report + [Records(day, lines)];
        }
      }
    }
  }
}
