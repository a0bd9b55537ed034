/** The Adler-32 checksum, as the agent and the client both compute it. */
module Adler {
  import opened Prelude

  newtype u32 = x: int | 0 <= x < 0x1_0000_0000

  const MOD_ADLER := 65521

  function ByteSum(data: seq<byte>): nat {
    if data == [] then 0 else data[0] + ByteSum(data[1..])
  }

  /** Each byte times the number of bytes from it to the end. */
  function WeightedSum(data: seq<byte>): nat {
    if data == [] then 0 else |data| * data[0] + WeightedSum(data[1..])
  }

  /** The two sums of section 2.2 of RFC 1950 in closed form. */
  function S1(data: seq<byte>): (s: nat)
    ensures s < MOD_ADLER
  {
    (1 + ByteSum(data)) % MOD_ADLER
  }

  function S2(data: seq<byte>): (s: nat)
    ensures s < MOD_ADLER
  {
    (|data| + WeightedSum(data)) % MOD_ADLER
  }

  function Checksum(data: seq<byte>): (c: nat)
    ensures c < 0x1_0000_0000
  {
    S2(data) * 65536 + S1(data)
  }

  lemma {:induction false} ByteSumOfConcat(x: seq<byte>, y: seq<byte>)
    ensures ByteSum(x + y) == ByteSum(x) + ByteSum(y)
  {
    if x == [] {
      assert x + y == y;
    } else {
      ByteSumOfConcat(x[1..], y);
      assert (x + y)[1..] == x[1..] + y;
    }
  }

  lemma Distribute(a: int, b: int, c: int)
    ensures (a + b) * c == a * c + b * c
    ensures c * (a + b) == c * a + c * b
  {
  }

  lemma {:induction false} WeightedSumOfConcat(x: seq<byte>, y: seq<byte>)
    ensures WeightedSum(x + y) == WeightedSum(x) + |y| * ByteSum(x) + WeightedSum(y)
  {
    if x == [] {
      assert x + y == y;
      assert |y| * ByteSum(x) == 0;
    } else {
      var b, rest := x[0], x[1..];
      calc {
        WeightedSum(x + y);
        { assert (x + y)[1..] == rest + y; }
        |x + y| * b + WeightedSum(rest + y);
        { WeightedSumOfConcat(rest, y); }
        |x + y| * b + (WeightedSum(rest) + |y| * ByteSum(rest) + WeightedSum(y));
        { assert |x + y| == |x| + |y|; Distribute(|x|, |y|, b); }
        |x| * b + WeightedSum(rest) + (|y| * b + |y| * ByteSum(rest)) + WeightedSum(y);
        { Distribute(b, ByteSum(rest), |y|); }
        WeightedSum(x) + |y| * ByteSum(x) + WeightedSum(y);
      }
    }
  }

  lemma ResidueOfSum(u: nat, v: nat)
    ensures (u + v) % MOD_ADLER == (u % MOD_ADLER + v) % MOD_ADLER
  {
  }

  lemma SumsOfOne(data: seq<byte>, b: byte)
    ensures ByteSum(data + [b]) == ByteSum(data) + b
    ensures WeightedSum(data + [b]) == WeightedSum(data) + ByteSum(data) + b
  {
    assert ByteSum([b]) == b && WeightedSum([b]) == b by {
      assert [b][1..] == [];
    }
    ByteSumOfConcat(data, [b]);
    WeightedSumOfConcat(data, [b]);
    assert |[b]| * ByteSum(data) == ByteSum(data);
  }

  /** What one turn of the loop does to the two sums. */
  lemma SumsSnoc(data: seq<byte>, b: byte)
    ensures S1(data + [b]) == (S1(data) + b) % MOD_ADLER
    ensures S2(data + [b]) == (S2(data) + S1(data + [b])) % MOD_ADLER
  {
    hide ByteSum, WeightedSum;
    SumsOfOne(data, b);
    ResidueOfSum(1 + ByteSum(data), b);
    var u, v := |data| + WeightedSum(data), 1 + ByteSum(data + [b]);
    assert |data + [b]| + WeightedSum(data + [b]) == u + v;
    ResidueOfSum(u, v);
    ResidueOfSum(v, u % MOD_ADLER);
  }

  /** The loop keeps both accumulators below the modulus, so no 32-bit addition wraps. */
  method Adler32(data: seq<byte>) returns (c: u32)
    ensures c as int == Checksum(data)
    ensures c as int % 65536 == (1 + ByteSum(data)) % 65521
    ensures c as int / 65536 == (|data| + WeightedSum(data)) % 65521
  {
    SumsAre(data);
    hide Checksum, S1, S2;
    Start();
    var a: u32 := 1;
    var b: u32 := 0;
    for i := 0 to |data|
      invariant a as int == S1(data[..i])
      invariant b as int == S2(data[..i])
    {
      assert data[..i + 1] == data[..i] + [data[i]];
      SumsSnoc(data[..i], data[i]);
      a := (a + data[i] as u32) % MOD_ADLER as u32;
      b := (b + a) % MOD_ADLER as u32;
    }
    assert data[..|data|] == data;
    Packed(data);
    c := b * 65536 + a; // both halves are below 2^16: the shift and the bitwise or of the source
  }

  lemma SumsAre(data: seq<byte>)
    ensures S1(data) == (1 + ByteSum(data)) % 65521 && S2(data) == (|data| + WeightedSum(data)) % 65521
  {
  }

  lemma Start()
    ensures S1([]) == 1 && S2([]) == 0
  {
  }

  lemma Packed(data: seq<byte>)
    ensures Checksum(data) == S2(data) * 65536 + S1(data)
  {
  }

  /** The 32-bit word gives both sums back. */
  lemma ChecksumSplits(data: seq<byte>)
    ensures Checksum(data) % 65536 == S1(data)
    ensures Checksum(data) / 65536 == S2(data)
  {
  }

  /** The checksum of a concatenation from the checksums of its parts and the length of the second. */
  function Combine(first: nat, second: nat, secondLength: nat): nat {
    var a, b, a', b' := first % 65536, first / 65536, second % 65536, second / 65536;
    (b + b' + secondLength * (a + MOD_ADLER - 1)) % MOD_ADLER * 65536 + (a + a' + MOD_ADLER - 1) % MOD_ADLER
  }

  lemma SameResidue(u: nat, v: nat, k: int)
    requires v - u == k * MOD_ADLER
    ensures u % MOD_ADLER == v % MOD_ADLER
  {
  }

  lemma S1OfConcat(x: seq<byte>, y: seq<byte>)
    ensures S1(x + y) == (S1(x) + S1(y) + MOD_ADLER - 1) % MOD_ADLER
  {
    ByteSumOfConcat(x, y);
    hide ByteSum;
    var k := (1 + ByteSum(x)) / MOD_ADLER + (1 + ByteSum(y)) / MOD_ADLER - 1;
    SameResidue(S1(x) + S1(y) + MOD_ADLER - 1, 1 + ByteSum(x) + ByteSum(y), k);
  }

  lemma ScaledResidue(n: nat, sum: nat, s1: nat, d: nat)
    requires 1 + sum == d * MOD_ADLER + s1
    ensures n * sum == n * (s1 + MOD_ADLER - 1) + (n * d - n) * MOD_ADLER
  {
    Distribute(s1 + MOD_ADLER - 1, (d - 1) * MOD_ADLER, n);
    assert n * ((d - 1) * MOD_ADLER) == (n * d - n) * MOD_ADLER;
  }

  lemma S2OfConcat(x: seq<byte>, y: seq<byte>)
    ensures S2(x + y) == (S2(x) + S2(y) + |y| * (S1(x) + MOD_ADLER - 1)) % MOD_ADLER
  {
    WeightedSumOfConcat(x, y);
    hide ByteSum, WeightedSum;
    var n, d := |y|, (1 + ByteSum(x)) / MOD_ADLER;
    var k := (|x| + WeightedSum(x)) / MOD_ADLER + (n + WeightedSum(y)) / MOD_ADLER;
    var part := S2(x) + S2(y) + n * (S1(x) + MOD_ADLER - 1);
    var whole := |x + y| + WeightedSum(x + y);
    ScaledResidue(n, ByteSum(x), S1(x), d);
    SameResidue(part, whole, k + n * d - n);
  }

  lemma ChecksumOfConcat(x: seq<byte>, y: seq<byte>)
    ensures Checksum(x + y) == Combine(Checksum(x), Checksum(y), |y|)
  {
    ChecksumSplits(x);
    ChecksumSplits(y);
    S1OfConcat(x, y);
    S2OfConcat(x, y);
  }
}
