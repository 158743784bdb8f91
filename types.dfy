/** The record shape shared by every part of the attendance tracker (types.ts). */
module Types {

  datatype Option<+T> = None | Some(value: T)

  /** Status of a session: open (`Active`) or closed (`Completed`). */
  datatype Status = Active | Completed

  /**
   * One check-in/check-out session. `checkOutTime` and `durationMinutes` are
   * optional fields of the persisted object; `timestamp` is the creation
   * instant used as the sort key.
   */
  datatype Record = Record(
    id: string,
    studentName: string,
    systemNumber: string,
    date: string,
    checkInTime: string,
    checkOutTime: Option<string>,
    durationMinutes: Option<int>,
    status: Status,
    timestamp: int)

  predicate IsActive(r: Record) { r.status == Active }

  predicate IsCompleted(r: Record) { r.status == Completed }
}
