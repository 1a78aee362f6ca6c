/** TCP sequence space: 32-bit numbers ordered by the sign of their difference, and its
    relation to unbounded stream offsets. */
module SeqSpace {
  const M: int := 0x1_0000_0000
  const HALF: int := 0x8000_0000

  type u32 = x: int | 0 <= x < 0x1_0000_0000

  /** The sequence number of an unbounded offset. */
  function Wrap(x: int): u32 {
    x % M
  }

  /** Reading a 32-bit pattern as a signed number. */
  function Signed(x: u32): int {
    if x < HALF then x else x - M
  }

  function Diff(a: u32, b: u32): int {
    Signed(Wrap(a - b))
  }

  predicate SeqLt(a: u32, b: u32) {
    Diff(a, b) < 0
  }

  predicate SeqLeq(a: u32, b: u32) {
    Diff(a, b) <= 0
  }

  predicate SeqGt(a: u32, b: u32) {
    Diff(a, b) > 0
  }

  predicate SeqGeq(a: u32, b: u32) {
    Diff(a, b) >= 0
  }

  /** How far forward b lies from a, going round if need be. */
  function Forward(a: u32, b: u32): u32 {
    Wrap(b - a)
  }

  lemma WrapShift(x: int, k: int)
    ensures Wrap(x + k * M) == Wrap(x)
  {
    var q := x / M;
    assert x == q * M + x % M;
    assert x + k * M == (q + k) * M + x % M;
  }

  lemma WrapOfDifference(A: int, B: int)
    ensures Wrap(Wrap(A) - Wrap(B)) == Wrap(A - B)
  {
    var qa, qb := A / M, B / M;
    assert A == qa * M + Wrap(A) && B == qb * M + Wrap(B);
    assert A - B == Wrap(A) - Wrap(B) + (qa - qb) * M;
    WrapShift(Wrap(A) - Wrap(B), qa - qb);
  }

  lemma WrapOfSum(A: int, n: int)
    ensures Wrap(Wrap(A) + n) == Wrap(A + n)
  {
    var q := A / M;
    assert A == q * M + Wrap(A);
    WrapShift(Wrap(A) + n, q);
  }

  lemma SmallWrap(d: int)
    requires -M < d < M
    ensures Wrap(d) == if d >= 0 then d else d + M
  {
    if d < 0 {
      WrapShift(d, 1);
    }
  }

  /** Offsets at most 2^31 apart compare as their sequence numbers do. */
  lemma DiffInWindow(A: int, B: int)
    requires -HALF <= A - B < HALF
    ensures Diff(Wrap(A), Wrap(B)) == A - B
  {
    WrapOfDifference(A, B);
    SmallWrap(A - B);
  }

  /** And within one turn of the space only those do: the comparison is right exactly on the
      half-open window. */
  lemma LtExactlyInWindow(A: int, B: int)
    requires -M < A - B < M
    ensures (SeqLt(Wrap(A), Wrap(B)) <==> A < B) <==> -HALF <= A - B < HALF
  {
    WrapOfDifference(A, B);
    SmallWrap(A - B);
  }

  /** Less than one turn above, a number is taken to be at or above exactly up to half the
      space. */
  lemma GeqWithinTurn(A: int, B: int)
    requires 0 <= A - B < M
    ensures SeqGeq(Wrap(A), Wrap(B)) <==> A - B < HALF
  {
    WrapOfDifference(A, B);
    SmallWrap(A - B);
  }

  /** The cyclic order is transitive exactly where the two steps together stay within half the
      space. */
  lemma LtTransitiveExactly(a: u32, b: u32, c: u32)
    requires SeqLt(a, b) && SeqLt(b, c)
    ensures SeqLt(a, c) <==> Forward(a, b) + Forward(b, c) <= HALF
  {
    SmallWrap(a - b);
    SmallWrap(b - c);
    SmallWrap(a - c);
    SmallWrap(b - a);
    SmallWrap(c - b);
  }

  /** Two numbers half the space apart precede each other. */
  lemma LtNotAntisymmetric(a: u32, b: u32)
    ensures SeqLt(a, b) && SeqLt(b, a) <==> Forward(a, b) == HALF
  {
    SmallWrap(a - b);
    SmallWrap(b - a);
  }

  /** The offset nearest to `near` that carries sequence number s. */
  function Unwrap(near: int, s: u32): (x: int)
    ensures Wrap(x) == s && -HALF <= x - near < HALF
  {
    UnwrapCarries(near, s);
    near + Diff(s, Wrap(near))
  }

  lemma UnwrapCarries(near: int, s: u32)
    ensures Wrap(near + Diff(s, Wrap(near))) == s
  {
    var r := Wrap(near);
    var q := near / M;
    assert near == q * M + r;
    SmallWrap(s - r);
    var d := Diff(s, r);
    assert d == s - r || d == s - r + M || d == s - r - M;
    if d == s - r {
      assert near + d == s + q * M;
      WrapShift(s, q);
    } else if d == s - r + M {
      assert near + d == s + (q + 1) * M;
      WrapShift(s, q + 1);
    } else {
      assert near + d == s + (q - 1) * M;
      WrapShift(s, q - 1);
    }
    SmallWrap(s);
  }

  /** Within the window the nearest reading is the true one. */
  lemma UnwrapIsTrue(near: int, x: int)
    requires -HALF <= x - near < HALF
    ensures Unwrap(near, Wrap(x)) == x
  {
    DiffInWindow(x, near);
  }
}
