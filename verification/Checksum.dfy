/** The Internet checksum of RFC 1071: an unfolded 32-bit accumulator over big-endian words,
    and its folding. */
module Checksum {
  type byte = x: int | 0 <= x < 256
  type u16 = x: int | 0 <= x < 0x1_0000
  type acc32 = x: int | 0 <= x < 0x1_0000_0000

  const ONES: int := 0xffff
  const WIDE: int := 0x1_0000_0000

  function Word(hi: byte, lo: byte): u16 {
    256 * hi + lo
  }

  /** The true sum of the 16-bit words; an odd last byte is a high half. */
  function Total(p: seq<byte>): nat {
    if p == [] then 0
    else if |p| == 1 then Word(p[0], 0)
    else Word(p[0], p[1]) + Total(p[2..])
  }

  /** What the 32-bit accumulator holds. */
  function Sum(p: seq<byte>): acc32 {
    Total(p) % WIDE
  }

  /** One's-complement reduction: the representative modulo 65535 in which only the number
      zero is written zero. */
  function Reduce(n: nat): (r: u16)
    ensures n % ONES == r % ONES && (r == 0 <==> n == 0)
  {
    if n == 0 then 0 else 1 + (n - 1) % ONES
  }

  function Fold(n: nat): u16 {
    ONES - Reduce(n)
  }

  lemma ReduceUnique(n: nat, r: u16)
    requires n % ONES == r % ONES && (r == 0 <==> n == 0)
    ensures r == Reduce(n)
  {
  }

  /** Adding the carries back leaves the reduction alone. */
  lemma CarryKeepsReduce(n: nat)
    ensures Reduce(n % 0x1_0000 + n / 0x1_0000) == Reduce(n)
  {
    var h, l := n / 0x1_0000, n % 0x1_0000;
    assert n == l + h + h * ONES;
    ModShift(l + h, h);
    ReduceUnique(n, Reduce(l + h));
  }

  lemma {:induction false} ModShift(x: int, k: nat)
    ensures (x + k * ONES) % ONES == x % ONES
  {
    if k > 0 {
      ModShift(x, k - 1);
    }
  }

  /** Sums may be chained: a block of even length followed by another sums to the two sums. */
  lemma {:induction false} TotalConcat(a: seq<byte>, b: seq<byte>)
    requires |a| % 2 == 0
    ensures Total(a + b) == Total(a) + Total(b)
    decreases |a|
  {
    if a == [] {
      assert a + b == b;
    } else {
      assert (a + b)[2..] == a[2..] + b;
      TotalConcat(a[2..], b);
    }
  }

  /** The bytes at even (k = 0) or odd (k = 1) places, added up. */
  function Places(p: seq<byte>, k: nat): nat {
    if p == [] then 0
    else Places(p[..|p| - 1], k) + if (|p| - 1) % 2 == k then p[|p| - 1] else 0
  }

  /** Bytes at even places are high halves and bytes at odd places low halves, whatever the
      length. */
  lemma {:induction false} TotalByPlace(p: seq<byte>)
    ensures Total(p) == 256 * Places(p, 0) + Places(p, 1)
    decreases |p|
  {
    if p != [] {
      var n := if |p| % 2 == 1 then |p| - 1 else |p| - 2;
      var w := p[n..];
      assert p == p[..n] + w;
      TotalConcat(p[..n], w);
      TotalShort(w);
      TotalByPlace(p[..n]);
      assert p[..|p| - 1] == p[..n] || p[..|p| - 1][..n] == p[..n];
    }
  }

  lemma {:induction false} TotalBound(p: seq<byte>)
    ensures 2 * Total(p) <= (|p| + 1) * ONES
    decreases |p|
  {
    if |p| > 1 {
      TotalBound(p[2..]);
    }
  }

  /** Storing a word where two zero bytes stood, at an even offset, adds it to the sum. */
  lemma {:induction false} StoreAdds(a: seq<byte>, c: u16, b: seq<byte>)
    requires |a| % 2 == 0
    ensures Total(a + [c / 256, c % 256] + b) == Total(a + [0, 0] + b) + c
  {
    var w: seq<byte> := [c / 256, c % 256];
    TotalConcat(a + w, b);
    TotalConcat(a, w);
    TotalConcat(a + [0, 0], b);
    TotalConcat(a, [0, 0]);
    assert w[2..] == [] && [0, 0][2..] == [];
  }

  /** An accumulator plus its own checksum never overflows and folds to zero. */
  lemma OwnChecksumFoldsToZero(acc: acc32)
    ensures acc + Fold(acc) < WIDE && Fold(acc + Fold(acc)) == 0
  {
    var s := acc + Fold(acc);
    var r := Reduce(acc);
    assert s % ONES == 0 by {
      var k := acc / ONES;
      assert acc == k * ONES + acc % ONES;
      assert acc % ONES == r % ONES;
      assert r % ONES == if r == ONES then 0 else r;
    }
    ReduceUnique(s, ONES);
    assert s < WIDE by {
      var k := s / ONES;
      assert s == k * ONES;
      assert 65538 * ONES == WIDE - 1 + ONES;
      assert acc == s - ONES + r && (acc > 0 ==> r > 0);
    }
  }

  /** Storing the checksum of a block at an even, zeroed offset makes the block, chained after
      any accumulator, verify: whatever its length, and although the accumulator wraps. */
  lemma {:induction false} StoredChecksumVerifies(k: nat, a: seq<byte>, b: seq<byte>)
    requires |a| % 2 == 0
    ensures var c := Fold((k + Total(a + [0, 0] + b)) % WIDE);
            Fold((k + Total(a + [c / 256, c % 256] + b)) % WIDE) == 0
  {
    var n := k + Total(a + [0, 0] + b);
    var acc := n % WIDE;
    var c := Fold(acc);
    StoreAdds(a, c, b);
    OwnChecksumFoldsToZero(acc);
    WideShift(n, c);
  }

  lemma WideShift(n: nat, c: nat)
    requires n % WIDE + c < WIDE
    ensures (n + c) % WIDE == n % WIDE + c
  {
    var q := n / WIDE;
    assert n == q * WIDE + n % WIDE;
  }

  /** The accumulator loop. */
  method SumBe16(p: seq<byte>) returns (sum: acc32)
    ensures sum == Sum(p)
  {
    sum := 0;
    var i := 0;
    while i + 1 < |p|
      invariant i <= |p| && i % 2 == 0 && sum == Sum(p[..i])
    {
      SumSnoc(p, i, i + 2);
      sum := (sum + Word(p[i], p[i + 1])) % WIDE;
      i := i + 2;
    }
    if i < |p| {
      SumSnoc(p, i, i + 1);
      sum := (sum + Word(p[i], 0)) % WIDE;
    }
    assert p[..|p|] == p;
  }

  lemma SumSnoc(p: seq<byte>, i: nat, j: nat)
    requires i % 2 == 0 && i < j <= |p| && j - i <= 2
    ensures Sum(p[..j]) == (Sum(p[..i]) + Word(p[i], if j == i + 2 then p[i + 1] else 0)) % WIDE
  {
    var w := p[i..j];
    assert p[..j] == p[..i] + w;
    TotalConcat(p[..i], w);
    TotalShort(w);
    WideAdd(Total(p[..i]), Total(w));
  }

  lemma {:induction false} TotalShort(w: seq<byte>)
    requires 1 <= |w| <= 2
    ensures Total(w) == Word(w[0], if |w| == 2 then w[1] else 0)
  {
    if |w| == 2 {
      assert w[2..] == [];
    }
  }

  lemma WideAdd(n: nat, c: nat)
    ensures (n % WIDE + c) % WIDE == (n + c) % WIDE
  {
    var q := n / WIDE;
    assert n == q * WIDE + n % WIDE;
  }

  /** The folding loop computes the complement of the one's-complement reduction. */
  method FoldCarries(sum: acc32) returns (r: u16)
    ensures r == Fold(sum)
  {
    var s := sum;
    while s / 0x1_0000 != 0
      invariant 0 <= s < WIDE && Reduce(s) == Reduce(sum)
      decreases s
    {
      CarryKeepsReduce(s);
      s := s % 0x1_0000 + s / 0x1_0000;
    }
    r := 0xffff - s;
  }
}
