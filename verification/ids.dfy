/** Document identifiers and timestamps. Identifiers are opaque; only equality matters. */
module Ids {
  type UserId = nat
  type ClassId = nat
  type QuizId = nat
  type AssignmentId = nat
  type MaterialId = nat
  type MarksId = nat

  /** A point in time in milliseconds, as `Date` compares them. */
  type Time = int
}
