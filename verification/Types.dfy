/** Values shared by every component: identifiers, bytes, results, time. */
module Types {

  newtype byte = x: int | 0 <= x < 256

  /** A 20-byte account address. */
  type Address = a: seq<byte> | |a| == 20 witness seq(20, _ => 0)

  /** A 128-bit UUID; its BYTEA order is the numeric order. */
  type ExecutionId = nat

  /** A 32-byte hash. */
  type Hash = h: seq<byte> | |h| == 32 witness seq(32, _ => 0)

  const I64_MAX: nat := 0x7FFF_FFFF_FFFF_FFFF
  const U64_SIZE: nat := 0x1_0000_0000_0000_0000

  /** Database timestamps are in microseconds. */
  const SECOND: nat := 1_000_000
  const MINUTE: nat := 60 * SECOND

  datatype Option<+T> = None | Some(value: T)

  datatype Result<+T, +E> = Ok(value: T) | Err(error: E)

  datatype LocalError = DatabaseError | Internal | Invariant | Rejected

  /** What a client sees of one statement sent to the database: it ran, it never
      ran, or it committed and the reply was lost. */
  datatype Db = Up | Down | Lost

  ghost function Pick<T>(s: set<T>): (x: T)
    requires s != {}
    ensures x in s
  {
    var x :| x in s; x
  }

  /** The largest element of a finite set, or `floor` when that is larger. */
  ghost function MaxOf(s: set<int>, floor: int): (m: int)
    ensures m == floor || m in s
    ensures floor <= m && forall x | x in s :: x <= m
  {
    if s == {} then floor
    else
      var x := Pick(s);
      var m := MaxOf(s - {x}, floor);
      assert forall y | y in s :: y == x || y in s - {x};
      if x > m then x else m
  }
}
