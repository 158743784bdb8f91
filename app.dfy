/**
 * The application shell (App.tsx): it holds the records last read from the
 * store and commits the form's decisions, appending a new session on
 * check-in and closing the session with the given id on check-out, then
 * re-reads the store.
 */
module App {
  import opened Types
  import opened Clock
  import opened Storage
  import opened AttendanceForm

  /** `records.find(r => r.id === id)`: the first record with this id, if any. */
  function FindById(records: seq<Record>, id: string): (o: Option<Record>)
    ensures o.None? <==> forall j :: 0 <= j < |records| ==> records[j].id != id
    ensures o.Some? ==> o.value.id == id && o.value == records[FirstIndexOf(records, id)]
  {
    var i := FirstIndexOf(records, id);
    if i < 0 then None else Some(records[i])
  }

  /**
   * `{...r, checkOutTime, durationMinutes, status: 'Completed'}`: the closed
   * copy of `r`, which keeps its identity, student, system, date, check-in
   * time and creation instant.
   */
  function CompletedRecord(r: Record, checkOutTime: string, duration: int): (u: Record)
    ensures u.id == r.id && u.studentName == r.studentName && u.systemNumber == r.systemNumber
    ensures u.date == r.date && u.checkInTime == r.checkInTime && u.timestamp == r.timestamp
    ensures u.status == Completed && u.checkOutTime == Some(checkOutTime)
    ensures u.durationMinutes == Some(duration)
  {
    r.(checkOutTime := Some(checkOutTime), durationMinutes := Some(duration), status := Completed)
  }

  /** The collection the store holds after `handleCheckOut(id, time, duration)` on `records`. */
  function CheckedOut(records: seq<Record>, id: string, checkOutTime: string, duration: int): (r: seq<Record>)
    ensures |r| == |records|
    ensures forall j :: 0 <= j < |records| && records[j].id != id ==> r[j] == records[j]
  {
    match FindById(records, id)
    case None => records
    case Some(r) => Replaced(records, CompletedRecord(r, checkOutTime, duration))
  }

  /**
   * Checking out an unknown id changes nothing; otherwise exactly the first
   * record with that id is closed, and every other position is kept.
   */
  lemma CheckedOutSpec(records: seq<Record>, id: string, checkOutTime: string, duration: int)
    ensures FirstIndexOf(records, id) < 0 ==> CheckedOut(records, id, checkOutTime, duration) == records
    ensures |CheckedOut(records, id, checkOutTime, duration)| == |records|
    ensures forall j :: 0 <= j < |records| ==>
      CheckedOut(records, id, checkOutTime, duration)[j] ==
        if j == FirstIndexOf(records, id) then CompletedRecord(records[j], checkOutTime, duration)
        else records[j]
  {
    var k := FirstIndexOf(records, id);
    if k >= 0 {
      var u := CompletedRecord(records[k], checkOutTime, duration);
      assert FirstIndexOf(records, u.id) == k;
      ReplacedSpec(records, u);
    }
  }

  /** Appending an open session that passed both guards keeps the single-session rules. */
  lemma AppendKeepsSessionsUnique(records: seq<Record>, r: Record)
    requires SessionsUnique(records)
    requires !StudentActive(records, r.studentName) && !SystemInUse(records, r.systemNumber)
    ensures SessionsUnique(records + [r])
  {
    var s := records + [r];
    forall i, j | 0 <= i < j < |s| && s[i].status == Active && s[j].status == Active
      ensures !SameStudent(s[i].studentName, s[j].studentName)
      ensures s[i].systemNumber != s[j].systemNumber
    {
      if j == |records| {
        assert s[i] == records[i];
        LowerSymmetric(records[i].studentName, r.studentName);
      }
    }
  }

  lemma LowerSymmetric(a: string, b: string)
    ensures SameStudent(a, b) == SameStudent(b, a)
  {
  }

  /**
   * If no student and no system has two open sessions, a successful
   * check-in followed by the append keeps it so.
   */
  lemma CheckInKeepsSessionsUnique(mode: Mode, name: string, system: string, date: string, now: string,
                                   records: seq<Record>, newId: string, newTimestamp: int)
    requires WellFormedTime(now) && CheckInTimesWellFormed(records)
    requires SessionsUnique(records)
    requires Decide(mode, name, system, date, now, records, newId, newTimestamp).CheckIn?
    ensures SessionsUnique(records + [Decide(mode, name, system, date, now, records, newId, newTimestamp).record])
  {
    var r := Decide(mode, name, system, date, now, records, newId, newTimestamp).record;
    AppendKeepsSessionsUnique(records, r);
  }

  /**
   * Closing a session never opens one, so a check-out followed by the update
   * keeps the single-session rules, whatever id, time and duration it is given.
   */
  lemma CheckOutKeepsSessionsUnique(records: seq<Record>, id: string, checkOutTime: string, duration: int)
    requires SessionsUnique(records)
    ensures SessionsUnique(CheckedOut(records, id, checkOutTime, duration))
  {
    CheckedOutSpec(records, id, checkOutTime, duration);
    var s := CheckedOut(records, id, checkOutTime, duration);
    forall i, j | 0 <= i < j < |s| && s[i].status == Active && s[j].status == Active
      ensures !SameStudent(s[i].studentName, s[j].studentName)
      ensures s[i].systemNumber != s[j].systemNumber
    {
      assert s[i] == records[i] && s[j] == records[j];
    }
  }

  /** A check-in of a fresh id keeps every lifecycle invariant. */
  lemma CheckInKeepsConsistent(mode: Mode, name: string, system: string, date: string, now: string,
                               records: seq<Record>, newId: string, newTimestamp: int)
    requires WellFormedTime(now) && Consistent(records)
    requires forall i :: 0 <= i < |records| ==> records[i].id != newId
    requires Decide(mode, name, system, date, now, records, newId, newTimestamp).CheckIn?
    ensures Consistent(records + [Decide(mode, name, system, date, now, records, newId, newTimestamp).record])
  {
    var r := Decide(mode, name, system, date, now, records, newId, newTimestamp).record;
    AppendKeepsSessionsUnique(records, r);
    var s := records + [r];
    assert forall i :: 0 <= i < |records| ==> s[i] == records[i];
    assert s[|records|] == r;
  }

  /**
   * Closing a record with a well-formed check-out time and a duration within
   * one day keeps every lifecycle invariant.
   */
  lemma CheckOutKeepsConsistent(records: seq<Record>, id: string, checkOutTime: string, duration: int)
    requires Consistent(records)
    requires WellFormedTime(checkOutTime) && 0 <= duration < MinutesPerDay
    ensures Consistent(CheckedOut(records, id, checkOutTime, duration))
  {
    CheckedOutSpec(records, id, checkOutTime, duration);
    CheckOutKeepsSessionsUnique(records, id, checkOutTime, duration);
  }

  /**
   * The session a check-out closes is the open one `ActiveSession` found:
   * when ids are unique, the first record carrying its id is that session,
   * and closing it by id leaves every record that was already closed as it was.
   */
  lemma CheckOutClosesOnlyTheOpenSession(records: seq<Record>, name: string, system: string,
                                         checkOutTime: string, duration: int)
    requires UniqueIds(records) && ActiveSession(records, name, system).Some?
    ensures var s := ActiveSession(records, name, system).value;
      var k := FirstIndexOf(records, s.id);
      0 <= k && records[k] == s && IsSessionOf(records[k], name, system)
      && forall j :: 0 <= j < |records| && records[j].status == Completed ==>
           CheckedOut(records, s.id, checkOutTime, duration)[j] == records[j]
  {
    var s := ActiveSession(records, name, system).value;
    var i :| 0 <= i < |records| && records[i] == s;
    var k := FirstIndexOf(records, s.id);
    assert k == i;
    CheckedOutSpec(records, s.id, checkOutTime, duration);
  }

  /**
   * Inputs of one session's lifecycle: a student `name` at system `sys`,
   * and a second system `other` the same student then asks for. None is
   * blank, and the two systems differ.
   */
  predicate ScenarioInputs(name: string, sys: string, other: string)
  {
    !Text.IsBlank(name) && !Text.IsBlank(sys) && !Text.IsBlank(other) && sys != other
  }

  /** The session `name` opens at `sys` at 09:00. */
  function ScenarioSession(name: string, sys: string, date: string, id: string, t: int): Record
  {
    Record(id, name, sys, date, FormatTime(9, 0), None, None, Active, t)
  }

  /** Lifecycle, first step: the student checks in at `sys` at 09:00 on an empty store. */
  lemma ScenarioChecksIn(name: string, sys: string, other: string, date: string, id: string, t: int)
    requires ScenarioInputs(name, sys, other)
    ensures Decide(CheckInMode, name, sys, date, FormatTime(9, 0), [], id, t)
      == CheckIn(ScenarioSession(name, sys, date, id, t))
  {
  }

  /** Lifecycle, second step: while that session is open, the student cannot check in at `other`. */
  lemma ScenarioCannotCheckInTwice(name: string, sys: string, other: string, date: string, id: string, t: int)
    requires ScenarioInputs(name, sys, other)
    ensures Decide(CheckInMode, name, other, date, FormatTime(9, 10), [ScenarioSession(name, sys, date, id, t)], "x", t + 1)
      == Rejected(StudentAlreadyActive)
  {
    var r := ScenarioSession(name, sys, date, id, t);
    assert [r][0].status == Active && SameStudent([r][0].studentName, name);
  }

  /** Lifecycle, third step: the student checks out of `sys` at 09:45, after 45 minutes. */
  lemma ScenarioChecksOut(name: string, sys: string, other: string, date: string, id: string, t: int)
    requires ScenarioInputs(name, sys, other)
    ensures Decide(CheckOutMode, name, sys, date, FormatTime(9, 45), [ScenarioSession(name, sys, date, id, t)], "x", t + 1)
      == CheckOut(id, FormatTime(9, 45), 45)
  {
    var r := ScenarioSession(name, sys, date, id, t);
    assert IsSessionOf([r][0], name, sys);
    assert ActiveSession([r], name, sys) == Some(r);
    assert Duration(FormatTime(9, 0), FormatTime(9, 45)) == 45;
  }

  /** The commit of that check-out replaces the open session by its closed copy. */
  lemma ScenarioCommitsCheckOut(name: string, sys: string, date: string, id: string, t: int)
    ensures CheckedOut([ScenarioSession(name, sys, date, id, t)], id, FormatTime(9, 45), 45)
      == [CompletedRecord(ScenarioSession(name, sys, date, id, t), FormatTime(9, 45), 45)]
  {
    var r := ScenarioSession(name, sys, date, id, t);
    assert FirstIndexOf([r], id) == 0;
    assert [r][0 := CompletedRecord(r, FormatTime(9, 45), 45)] == [CompletedRecord(r, FormatTime(9, 45), 45)];
  }

  /** Lifecycle, last step: once closed, the same pair has no session left to check out. */
  lemma ScenarioCannotCheckOutTwice(name: string, sys: string, other: string, date: string, id: string, t: int)
    requires ScenarioInputs(name, sys, other)
    ensures Decide(CheckOutMode, name, sys, date, FormatTime(10, 0),
                   [CompletedRecord(ScenarioSession(name, sys, date, id, t), FormatTime(9, 45), 45)], "x", t + 2)
      == Rejected(NoActiveSession)
  {
    var u := CompletedRecord(ScenarioSession(name, sys, date, id, t), FormatTime(9, 45), 45);
    assert !IsSessionOf([u][0], name, sys);
    assert ActiveSession([u], name, sys) == None;
  }

  /** The application: the store and the snapshot of its records the views are given. */
  class AttendanceApp {
    const store: RecordStore
    var records: seq<Record>

    /** The snapshot is what the store holds. */
    ghost predicate Synced()
      reads this, store
    {
      records == store.Records()
    }

    /** Mounting: the snapshot is read from the store. */
    constructor (store: RecordStore)
      ensures this.store == store && Synced()
      ensures !store.slot.Saved? ==> records == [] && Consistent(records)
    {
      this.store := store;
      records := store.Records();
    }

    /** `handleRefresh` and the effect it triggers: the snapshot is re-read. */
    method Refresh()
      modifies this
      ensures records == store.Records()
    {
      records := store.GetRecords();
    }

    /** `handleCheckIn`: the new record is appended to the store and the snapshot re-read. */
    method HandleCheckIn(newRecord: Record)
      requires Synced()
      modifies this, store
      ensures Synced()
      ensures records == old(records) + [newRecord]
    {
      store.SaveRecord(newRecord);
      Refresh();
    }

    /**
     * `handleCheckOut`: the record with `recordId` in the snapshot is closed
     * in the store; an id the snapshot does not hold changes nothing at all.
     */
    method HandleCheckOut(recordId: string, checkOutTime: string, duration: int)
      requires Synced()
      modifies this, store
      ensures Synced()
      ensures records == CheckedOut(old(records), recordId, checkOutTime, duration)
      ensures FindById(old(records), recordId).None? ==>
        records == old(records) && store.slot == old(store.slot)
    {
      var recordToUpdate := FindById(records, recordId);
      if recordToUpdate.Some? {
        var updatedRecord := CompletedRecord(recordToUpdate.value, checkOutTime, duration);
        assert FirstIndexOf(records, updatedRecord.id) == FirstIndexOf(records, recordId);
        store.UpdateRecord(updatedRecord);
        Refresh();
      }
    }

    /**
     * One submission of the form against the current snapshot, then its
     * commit. A refusal commits nothing; every lifecycle invariant the
     * records had, they still have afterwards.
     */
    method SubmitForm(mode: Mode, name: string, system: string, date: string, now: string,
                      newId: string, newTimestamp: int) returns (d: Decision)
      requires Synced() && Consistent(records) && WellFormedTime(now)
      requires forall i :: 0 <= i < |records| ==> records[i].id != newId
      modifies this, store
      ensures Synced() && Consistent(records)
      ensures d == Decide(mode, name, system, date, now, old(records), newId, newTimestamp)
      ensures d.Rejected? ==> records == old(records) && store.slot == old(store.slot)
      ensures d.CheckIn? ==> records == old(records) + [d.record]
      ensures d.CheckOut? ==>
        records == CheckedOut(old(records), d.sessionId, d.checkOutTime, d.durationMinutes)
      ensures |records| >= |old(records)|
      ensures forall j :: 0 <= j < |old(records)| && old(records)[j].status == Completed ==>
        records[j] == old(records)[j]
    {
      d := HandleSubmit(mode, name, system, date, now, records, newId, newTimestamp);
      if d.CheckOut? {
        CheckOutClosesOnlyTheOpenSession(records, name, system, d.checkOutTime, d.durationMinutes);
        CheckedOutSpec(records, d.sessionId, d.checkOutTime, d.durationMinutes);
      }
      match d {
        case Rejected(_) =>
        case CheckIn(newRecord) =>
          CheckInKeepsConsistent(mode, name, system, date, now, records, newId, newTimestamp);
          HandleCheckIn(newRecord);
        case CheckOut(sessionId, checkOutTime, duration) =>
          CheckOutKeepsConsistent(records, sessionId, checkOutTime, duration);
          HandleCheckOut(sessionId, checkOutTime, duration);
      }
    }
  }
}
