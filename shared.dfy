/** Values shared by both receive paths: an optional value (a Java reference that may be
    null) and one write to the decoded-value sink (the process-wide GlobalData store). */
module Shared {

  datatype Option<+T> = None | Some(value: T)

  /** One publication to the sink: `setRequiredByte(status)` followed by
      `setRequiredBytes(count)`. The sink itself is last-write-wins, so its current value
      is the last element of the sequence of readings written so far. */
  datatype Reading = Reading(status: int, count: int)
}
