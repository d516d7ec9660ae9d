/** Scalar types shared by the stores and the pipeline. */
module Primitives {

  /** A UUID; only its identity matters, so any natural number stands for one. */
  type Uuid = nat

  /** An instant, in whole seconds since the Unix epoch. */
  type Timestamp = int

  /** A signed 32-bit integer, the width of `quantity` and `plan_amount`. */
  type Int32 = x: int | -0x8000_0000 <= x <= 0x7FFF_FFFF

  const SecondsPerDay: int := 86400

  /** Postgres reports a violated unique constraint with this SQLSTATE code. */
  const UniqueViolationCode: string := "23505"

  /** The three shapes of database error the code distinguishes:
      no row matched, an error raised by the database itself (with its SQLSTATE
      code), and every other failure (connection, protocol, decoding). */
  datatype DbError = RowNotFound | Database(code: string) | Io
}
