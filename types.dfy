// The value types shared by the timer view and the report view.

module Types {

  /** The four screens of a workday: not started, working, slacking, and the report after finishing. */
  datatype AppState = Idle | Working | Slacking | Finished

  /** What the settings form stores: monthly take-home pay and the standard hours of a workday. */
  datatype UserConfig = UserConfig(monthlySalary: real, standardHours: real)

  /** The snapshot taken when the user finishes the day; `date` is the locale date string. */
  datatype WorkSession = WorkSession(totalSeconds: nat, slackSeconds: nat, date: string)

  /** A value that may be absent (the source's `null`). */
  datatype Option<T> = None | Some(value: T)
}
