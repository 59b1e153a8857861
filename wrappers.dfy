/** Small result types shared by the model. */
module Wrappers {

  /** A value that may be absent: the model of a C# reference that may be null. */
  datatype Option<+T> = None | Some(value: T)

  /** The outcome of a .NET call that can throw ArgumentOutOfRangeException
      (DateTime.AddMonths does, when the result leaves years 1..9999). */
  datatype Checked<+T> = Done(value: T) | ArgumentOutOfRange
}
