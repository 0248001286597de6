/** Shared vocabulary of the model: Java's nullable references, the exceptions the
    services throw, and Java's 32-bit `int`. */
module Common {

  /** A Java reference that may be null. */
  datatype Option<+T> = None | Some(value: T)

  /** The exception a service operation ends with. */
  datatype Failure =
    | IllegalArgument   // IllegalArgumentException: rejected input, thrown before the table is touched
    | Runtime           // RuntimeException: the statement failed (constraint violation, missing row on update)
    | IllegalState      // IllegalStateException: how the SQLite inventory wraps a failed statement
    | NumberFormat      // NumberFormatException from Double.parseDouble

  /** Result of an operation that returns a value or throws. */
  datatype Result<+T> = Ok(value: T) | Err(error: Failure)

  /** Result of a `void` operation. */
  datatype Outcome = Done | Fail(error: Failure)

  const MinInt32: int := -0x8000_0000
  const MaxInt32: int := 0x7fff_ffff

  /** Java's `int`. */
  type Int32 = x: int | MinInt32 <= x <= MaxInt32

  function Max(a: int, b: int): (m: int)
    ensures m >= a && m >= b && (m == a || m == b)
  {
    if a < b then b else a
  }

  /** The low 32 bits of `x` read as a two's-complement `int`: Java's `(int)` cast of a
      `long`, an overflowing `int` product, and `sqlite3_column_int` of a 64-bit value. */
  function Wrap32(x: int): (r: Int32)
    ensures MinInt32 <= x <= MaxInt32 ==> r == x
    ensures (x - r) % 0x1_0000_0000 == 0
  {
    (x - MinInt32) % 0x1_0000_0000 + MinInt32
  }

  /** Truncating a term before adding it truncates to the same `int` as truncating the
      sum: only the low 32 bits of each term reach the low 32 bits of the sum. */
  lemma Wrap32OfSum(a: int, x: int)
    ensures Wrap32(a + Wrap32(x)) == Wrap32(a + x)
  {
    var w := Wrap32(x);
    var q := (x - w) / 0x1_0000_0000;
    assert x == w + 0x1_0000_0000 * q;
    ModShift(a + w - MinInt32, q);
  }

  lemma ModShift(n: int, q: int)
    ensures (n + 0x1_0000_0000 * q) % 0x1_0000_0000 == n % 0x1_0000_0000
  {
  }
}
