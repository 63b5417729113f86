/** Fixed-width integer arithmetic of the C++ code, written out on unbounded integers. */
module Numeric {

  /** 2^32: one more than the largest `uint32`. */
  const U32_LIMIT: nat := 0x1_0000_0000

  /** 2^64: one more than the largest `unsigned long` that `strtoul` returns. */
  const U64_LIMIT: nat := 0x1_0000_0000_0000_0000

  predicate IsU32(x: int) {
    0 <= x < U32_LIMIT
  }

  /** The value a `uint32` holds after an assignment of `x` (wrap-around modulo 2^32). */
  function Wrap32(x: int): (r: nat)
    ensures IsU32(r)
    ensures IsU32(x) ==> r == x
    ensures x >= U32_LIMIT && x < 2 * U32_LIMIT ==> r == x - U32_LIMIT
    ensures x < 0 && x >= -(U32_LIMIT as int) ==> r == x + U32_LIMIT
  {
    x % U32_LIMIT
  }

  /** Subtracting after a wrap is the same as subtracting first and wrapping once. */
  lemma Wrap32Sub(x: int, y: int)
    ensures Wrap32(Wrap32(x) - y) == Wrap32(x - y)
  {
    var q := x / U32_LIMIT;
    assert x == q * U32_LIMIT + Wrap32(x);
    assert Wrap32(x) - y == (x - y) - q * U32_LIMIT;
    ModShift(x - y, q);
  }

  lemma ModShift(z: int, q: int)
    ensures (z - q * U32_LIMIT) % U32_LIMIT == z % U32_LIMIT
  {
    var r := z % U32_LIMIT;
    var p := z / U32_LIMIT;
    assert z == p * U32_LIMIT + r && 0 <= r < U32_LIMIT;
    assert z - q * U32_LIMIT == (p - q) * U32_LIMIT + r;
  }

  function Min(a: int, b: int): (r: int)
    ensures r <= a && r <= b && (r == a || r == b)
  {
    if a <= b then a else b
  }

  /** `std::map::operator[]` on a read: a missing key reads as 0. */
  function Get0(m: map<nat, nat>, k: nat): nat {
    if k in m then m[k] else 0
  }
}
