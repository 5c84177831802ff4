/** Machine integers of the stack: octets, and 32-bit sequence numbers compared by signed difference. */
module Bytes {
  newtype Byte = x: int | 0 <= x < 0x100

  const TWO32: int := 0x1_0000_0000
  const TWO31: int := 0x8000_0000

  type U32 = x: int | 0 <= x < 0x1_0000_0000
  type U16 = x: int | 0 <= x < 0x1_0000
  type U8 = x: int | 0 <= x < 0x100

  // Truncation to uint32_t.
  function Wrap(x: int): U32 {
    x % 0x1_0000_0000
  }

  // (int32_t)(a - b) for uint32_t operands.
  function SeqDiff(a: U32, b: U32): int {
    var d := (a - b) % 0x1_0000_0000;
    if d < 0x8000_0000 then d else d - 0x1_0000_0000
  }

  predicate SeqLt(a: U32, b: U32) { SeqDiff(a, b) < 0 }
  predicate SeqLeq(a: U32, b: U32) { SeqDiff(a, b) <= 0 }
  predicate SeqGt(a: U32, b: U32) { SeqDiff(a, b) > 0 }
  predicate SeqGeq(a: U32, b: U32) { SeqDiff(a, b) >= 0 }

  function Min(a: int, b: int): int { if a < b then a else b }
  function Max(a: int, b: int): int { if a < b then b else a }

  // The signed difference of two wrapped positions is their true difference whenever that fits in int32_t.
  lemma SeqDiffOfWrap(x: int, y: int)
    requires -0x8000_0000 <= x - y < 0x8000_0000
    ensures SeqDiff(Wrap(x), Wrap(y)) == x - y
  {
    var q := x / 0x1_0000_0000 - y / 0x1_0000_0000;
    assert Wrap(x) - Wrap(y) == x - y - 0x1_0000_0000 * q;
    assert (x - y - 0x1_0000_0000 * q) % 0x1_0000_0000 == (x - y) % 0x1_0000_0000;
  }

  // Numbers that are not in order are different.
  lemma SeqGtGap(a: U32, b: U32)
    requires !SeqGeq(b, a)
    ensures 0 < Wrap(a - b)
  {
  }

  lemma WrapId(x: U32)
    ensures Wrap(x) == x
  {
  }

  // Wrapping after an addition forgets nothing that the sum's own wrapping keeps.
  lemma WrapAdd(x: int, n: int)
    ensures Wrap(Wrap(x) + n) == Wrap(x + n)
  {
    var q := x / 0x1_0000_0000;
    assert Wrap(x) + n == x + n - 0x1_0000_0000 * q;
  }
}
