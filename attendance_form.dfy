/**
 * The check-in/check-out form (components/AttendanceForm.tsx): the guards a
 * submission passes through, the record a check-in creates and the duration
 * a check-out computes. The clock reading, the generated id and the creation
 * instant are inputs of the decision.
 */
module AttendanceForm {
  import opened Types
  import opened Seqs
  import opened Text
  import opened Clock

  /** Which of the two actions the form submits. */
  datatype Mode = CheckInMode | CheckOutMode

  /** Why a submission was refused; each one is reported to the user and nothing is committed. */
  datatype Rejection = MissingFields | StudentAlreadyActive | SystemOccupied | NoActiveSession

  /**
   * The outcome of a submission: a refusal, a new record to append, or the
   * id of the session to close with its check-out time and duration.
   */
  datatype Decision =
    | Rejected(reason: Rejection)
    | CheckIn(record: Record)
    | CheckOut(sessionId: string, checkOutTime: string, durationMinutes: int)

  /** Student names are compared after lower-casing both sides. */
  predicate SameStudent(a: string, b: string)
  {
    Lower(a) == Lower(b)
  }

  /** `r` is an open session of this student (ignoring case) at exactly this system. */
  predicate IsSessionOf(r: Record, name: string, system: string)
  {
    SameStudent(r.studentName, name) && r.systemNumber == system && r.status == Active
  }

  /** `activeSession`: the first open session of this student at this system, if any. */
  function ActiveSession(records: seq<Record>, name: string, system: string): (o: Option<Record>)
    ensures o.Some? ==>
      exists i :: (0 <= i < |records| && records[i] == o.value
                   && forall j :: 0 <= j < i ==> !IsSessionOf(records[j], name, system))
    ensures o.Some? ==> IsSessionOf(o.value, name, system)
    ensures o.None? <==> forall i :: 0 <= i < |records| ==> !IsSessionOf(records[i], name, system)
  {
    var i := IndexWhere(records, r => IsSessionOf(r, name, system));
    if i < 0 then None else Some(records[i])
  }

  /** `isStudentActive`: some open session belongs to this student, at any system. */
  predicate StudentActive(records: seq<Record>, name: string)
  {
    exists i | 0 <= i < |records| :: records[i].status == Active && SameStudent(records[i].studentName, name)
  }

  /** `isSystemOccupied`: some open session is at exactly this system, for any student. */
  predicate SystemInUse(records: seq<Record>, system: string)
  {
    exists i | 0 <= i < |records| :: records[i].status == Active && records[i].systemNumber == system
  }

  /** Every stored check-in time is a clock reading in `HH:mm` form. */
  predicate CheckInTimesWellFormed(records: seq<Record>)
  {
    forall i :: 0 <= i < |records| ==> WellFormedTime(records[i].checkInTime)
  }

  /**
   * The decision `handleSubmit` takes, as a function of the form's fields,
   * the clock reading `now`, the current records and the id and instant a
   * new record would get. The checks run in a fixed order and the first
   * failing one decides.
   */
  function Decide(mode: Mode, name: string, system: string, date: string, now: string,
                  records: seq<Record>, newId: string, newTimestamp: int): (d: Decision)
    requires WellFormedTime(now) && CheckInTimesWellFormed(records)
    ensures d == Rejected(MissingFields) <==> IsBlank(name) || IsBlank(system)
    ensures d == Rejected(StudentAlreadyActive) <==>
      !IsBlank(name) && !IsBlank(system) && mode.CheckInMode? && StudentActive(records, name)
    ensures d == Rejected(SystemOccupied) <==>
      !IsBlank(name) && !IsBlank(system) && mode.CheckInMode? && !StudentActive(records, name)
      && SystemInUse(records, system)
    ensures d.CheckIn? <==>
      !IsBlank(name) && !IsBlank(system) && mode.CheckInMode? && !StudentActive(records, name)
      && !SystemInUse(records, system)
    ensures d.CheckIn? ==>
      d.record == Record(newId, name, system, date, now, None, None, Active, newTimestamp)
    ensures d == Rejected(NoActiveSession) <==>
      !IsBlank(name) && !IsBlank(system) && mode.CheckOutMode?
      && ActiveSession(records, name, system).None?
    ensures d.CheckOut? <==>
      !IsBlank(name) && !IsBlank(system) && mode.CheckOutMode?
      && ActiveSession(records, name, system).Some?
    ensures d.CheckOut? ==>
      && mode.CheckOutMode?
      && ActiveSession(records, name, system).Some?
      && d.sessionId == ActiveSession(records, name, system).value.id
      && d.checkOutTime == now
      && d.durationMinutes == Duration(ActiveSession(records, name, system).value.checkInTime, now)
  {
    if IsBlank(name) || IsBlank(system) then Rejected(MissingFields)
    else if mode.CheckInMode? then
      if StudentActive(records, name) then Rejected(StudentAlreadyActive)
      else if SystemInUse(records, system) then Rejected(SystemOccupied)
      else CheckIn(Record(newId, name, system, date, now, None, None, Active, newTimestamp))
    else
      match ActiveSession(records, name, system)
      case None => Rejected(NoActiveSession)
      case Some(session) => CheckOut(session.id, now, Duration(session.checkInTime, now))
  }

  /**
   * A student with an open session anywhere cannot check in again, whatever
   * system is asked for; an occupied system cannot be taken, whoever asks.
   */
  lemma CheckInRefusals(name: string, system: string, date: string, now: string,
                        records: seq<Record>, newId: string, newTimestamp: int, i: int)
    requires WellFormedTime(now) && CheckInTimesWellFormed(records)
    requires !IsBlank(name) && !IsBlank(system)
    requires 0 <= i < |records| && records[i].status == Active
    ensures SameStudent(records[i].studentName, name) ==>
      Decide(CheckInMode, name, system, date, now, records, newId, newTimestamp) == Rejected(StudentAlreadyActive)
    ensures records[i].systemNumber == system ==>
      Decide(CheckInMode, name, system, date, now, records, newId, newTimestamp).Rejected?
  {
  }

  /**
   * `handleSubmit`, as the form runs it: early returns for each failed
   * check and a duration that is corrected by one day when negative.
   */
  method HandleSubmit(mode: Mode, name: string, system: string, date: string, now: string,
                      records: seq<Record>, newId: string, newTimestamp: int) returns (d: Decision)
    requires WellFormedTime(now) && CheckInTimesWellFormed(records)
    ensures d == Decide(mode, name, system, date, now, records, newId, newTimestamp)
  {
    if IsBlank(name) || IsBlank(system) {
      return Rejected(MissingFields);
    }
    if mode.CheckInMode? {
      if StudentActive(records, name) {
        return Rejected(StudentAlreadyActive);
      }
      if SystemInUse(records, system) {
        return Rejected(SystemOccupied);
      }
      var newRecord := Record(newId, name, system, date, now, None, None, Active, newTimestamp);
      return CheckIn(newRecord);
    } else {
      var activeSession := ActiveSession(records, name, system);
      if activeSession.None? {
        return Rejected(NoActiveSession);
      }
      var session := activeSession.value;
      var durationMinutes := MinutesOfDay(now) - MinutesOfDay(session.checkInTime);
      if durationMinutes < 0 {
        durationMinutes := durationMinutes + MinutesPerDay;
      }
      return CheckOut(session.id, now, durationMinutes);
    }
  }

  // ----- The invariants the guards maintain -----

  /** No two open sessions belong to the same student (names compared ignoring case). */
  predicate OneSessionPerStudent(records: seq<Record>)
  {
    forall i, j :: 0 <= i < j < |records| && records[i].status == Active && records[j].status == Active
      ==> !SameStudent(records[i].studentName, records[j].studentName)
  }

  /** No two open sessions are at the same system. */
  predicate OneSessionPerSystem(records: seq<Record>)
  {
    forall i, j :: 0 <= i < j < |records| && records[i].status == Active && records[j].status == Active
      ==> records[i].systemNumber != records[j].systemNumber
  }

  /** No two records share an id. */
  predicate UniqueIds(records: seq<Record>)
  {
    forall i, j :: 0 <= i < j < |records| ==> records[i].id != records[j].id
  }

  /**
   * An open record has neither check-out field; a closed one has a
   * well-formed check-out time and a duration within one day.
   */
  predicate WellShaped(r: Record)
  {
    && (r.status == Active ==> r.checkOutTime.None? && r.durationMinutes.None?)
    && (r.status == Completed ==>
          && r.checkOutTime.Some? && WellFormedTime(r.checkOutTime.value)
          && r.durationMinutes.Some? && 0 <= r.durationMinutes.value < MinutesPerDay)
  }

  /** The single-session rules. */
  predicate SessionsUnique(records: seq<Record>)
  {
    OneSessionPerStudent(records) && OneSessionPerSystem(records)
  }

  /** Everything the lifecycle keeps true of the stored records. */
  predicate Consistent(records: seq<Record>)
  {
    && SessionsUnique(records)
    && UniqueIds(records)
    && CheckInTimesWellFormed(records)
    && forall i :: 0 <= i < |records| ==> WellShaped(records[i])
  }
}
