/**
 * Types shared by the two shadow-memory tools (cfsan and dstune).
 *
 * Addresses and PCs are C `uptr` values: integers in [0, 2^64).  Where the C
 * code adds to a `uptr` the sum wraps modulo 2^64; `Wrap` writes that out.
 */
module Common {

  /** 2^64, the number of distinct `uptr` values. */
  const WORD: int := 0x1_0000_0000_0000_0000

  /** An unsigned 64-bit machine word (`uptr`, `u64`). */
  type uptr = x: int | 0 <= x < 0x1_0000_0000_0000_0000

  /** Unsigned 64-bit wrap-around of a C `uptr` sum or difference. */
  function Wrap(x: int): (r: uptr)
    ensures 0 <= x < WORD ==> r == x
    ensures WORD <= x < 2 * WORD ==> r == x - WORD
    ensures -WORD <= x < 0 ==> r == x + WORD
  {
    x % WORD
  }

  /** Wrapping part of a sum early does not change the wrapped total. */
  lemma WrapAdd(x: int, y: int)
    ensures Wrap(Wrap(x) + y) == Wrap(x + y)
  {
    var q := x / WORD;
    assert x == q * WORD + Wrap(x);
    assert Wrap(x) + y == (x + y) - q * WORD;
  }

  /** A C `int`: the type of the sizes the tools pass around. */
  type int32 = x: int | -0x8000_0000 <= x < 0x8000_0000

  /** A value of the C `int` type: a sum outside this range is signed overflow, undefined in C. */
  predicate FitsInt32(x: int)
  {
    -0x8000_0000 <= x < 0x8000_0000
  }

  /** What a two's-complement machine makes of an overflowing C `int` sum: the value modulo 2^32. */
  function Wrap32(x: int): (r: int32)
    ensures FitsInt32(x) ==> r == x
    ensures 0x8000_0000 <= x < 0x1_0000_0000 ==> r == x - 0x1_0000_0000
  {
    (x + 0x8000_0000) % 0x1_0000_0000 - 0x8000_0000
  }

  /** The C `int` difference a - b, for operands whose difference does not overflow. */
  function Sub32(a: int32, b: int32): int32
    requires FitsInt32(a - b)
  {
    a - b
  }

  /** The C `int` expression `1 << n`, for the shifts that stay positive. */
  function Shl1(n: int): (p: int)
    requires 0 <= n <= 30
    ensures 1 <= p <= 0x4000_0000
  {
    ((1 as bv32) << n) as int
  }

  datatype Option<T> = None | Some(value: T)

  /**
   * One call of a tool's `processRangeAccess(PC, Addr, Size, IsWrite)`:
   * the entry points and interceptors are modelled by the list of these
   * calls they make.
   */
  datatype RangeAccess = RangeAccess(PC: uptr, Addr: uptr, Size: int, IsWrite: bool)
}
