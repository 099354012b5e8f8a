/** Shared vocabulary: optional values, results, and the fixed-width integer
    types of the Rust source, with the wrap-around a release build performs. */
module Common {

  datatype Option<+T> = None | Some(value: T) {
    function GetOr(default: T): T {
      match this
      case Some(v) => v
      case None => default
    }
  }

  /** A failure-compatible result, so that `:-` propagates errors as Rust's `?` does. */
  datatype Result<+T, +E> = Ok(value: T) | Err(error: E) {
    predicate IsFailure() {
      Err?
    }

    function PropagateFailure<U>(): Result<U, E>
      requires Err?
    {
      Err(error)
    }

    function Extract(): T
      requires Ok?
    {
      value
    }
  }

  type u8 = x: int | 0 <= x < 0x100
  type u16 = x: int | 0 <= x < 0x1_0000
  type u32 = x: int | 0 <= x < 0x1_0000_0000
  type i64 = x: int | -0x8000_0000_0000_0000 <= x < 0x8000_0000_0000_0000

  const U32_LIMIT: int := 0x1_0000_0000
  const I64_MIN: int := -0x8000_0000_0000_0000
  const I64_LIMIT: int := 0x1_0000_0000_0000_0000

  /** `a * b` on u32 with overflow checks off: the product modulo 2^32. */
  function WrappingMulU32(a: u32, b: u32): (r: u32)
    ensures a * b < U32_LIMIT ==> r == a * b
    ensures (r - a * b) % U32_LIMIT == 0
  {
    (a * b) % U32_LIMIT
  }

  /** `a + b` on i64 with overflow checks off: the two's-complement sum. */
  function WrappingAddI64(a: i64, b: i64): (r: i64)
    ensures I64_MIN <= a + b < I64_MIN + I64_LIMIT ==> r == a + b
    ensures (r - (a + b)) % I64_LIMIT == 0
  {
    (a + b - I64_MIN) % I64_LIMIT + I64_MIN
  }

  // ---------------------------------------------------------------------
  // Row-major grids: cell (row, col) of a grid with `cols` columns is at
  // index row * cols + col.

  lemma MulMonotone(a: nat, b: nat, c: nat)
    requires a <= b
    ensures a * c <= b * c
  {
  }

  lemma MulStep(a: nat, b: nat, c: nat)
    requires a < b
    ensures a * c + c <= b * c
  {
    MulMonotone(a + 1, b, c);
  }

  /** Every cell of the grid has an index below the cell count. */
  lemma CellIndex(row: nat, col: nat, cols: nat, rows: nat)
    requires row < rows && col < cols
    ensures row * cols + col < cols * rows
  {
    MulMonotone(row + 1, rows, cols);
  }

  /** Every index below the cell count names a cell of the grid. */
  lemma CellOf(k: nat, cols: nat, rows: nat)
    requires k < cols * rows
    ensures cols > 0 && k / cols < rows && k % cols < cols
  {
    if k / cols >= rows {
      MulMonotone(rows, k / cols, cols);
    }
  }

  /** The index of a cell gives the cell back. */
  lemma CellRoundTrip(row: nat, col: nat, cols: nat)
    requires col < cols
    ensures (row * cols + col) / cols == row && (row * cols + col) % cols == col
  {
    var k := row * cols + col;
    var q, r := k / cols, k % cols;
    assert q * cols + r == k;
    if q > row {
      MulStep(row, q, cols);
    } else if q < row {
      MulStep(q, row, cols);
    }
  }
}
