/** Integers as little-endian bytes (`to_le_bytes` and `from_le_bytes`). */
module LittleEndian {
  import opened Arithmetic
  import opened Bytes

  /** The k low bytes of n, low byte first. */
  function Le(n: nat, k: nat): (r: seq<byte>)
    ensures |r| == k
  {
    if k == 0 then [] else [n % 256] + Le(n / 256, k - 1)
  }

  function FromLe(s: seq<byte>): nat {
    if s == [] then 0 else s[0] as nat + 256 * FromLe(s[1..])
  }

  lemma {:induction false} FromLeOfLe(n: nat, k: nat)
    requires n < Pow2(8 * k)
    ensures FromLe(Le(n, k)) == n
  {
    if k > 0 {
      Pow2Of64();
      Pow2Sum(8, 8 * (k - 1));
      assert n / 256 < Pow2(8 * (k - 1));
      assert Le(n, k)[1..] == Le(n / 256, k - 1);
      FromLeOfLe(n / 256, k - 1);
    }
  }

  lemma LowByte(low: byte, rest: nat)
    ensures (low + 256 * rest) % 256 == low && (low + 256 * rest) / 256 == rest
  {
  }

  lemma {:induction false} LeOfFromLe(s: seq<byte>)
    ensures Le(FromLe(s), |s|) == s && FromLe(s) < Pow2(8 * |s|)
  {
    if s != [] {
      LeOfFromLe(s[1..]);
      Pow2Of64();
      Pow2Sum(8, 8 * (|s| - 1));
      hide Pow2;
      LowByte(s[0], FromLe(s[1..]));
      assert s == [s[0]] + s[1..];
    }
  }

  /** The i-th byte is the i-th lowest digit to the base 256. */
  lemma {:induction false} LeByte(n: nat, k: nat, i: nat)
    requires i < k
    ensures Pow2(8 * i) > 0 && Le(n, k)[i] == n / Pow2(8 * i) % 256
  {
    Pow2Positive(8 * i);
    if i > 0 {
      LeByte(n / 256, k - 1, i - 1);
      Pow2Of64();
      Pow2Sum(8, 8 * (i - 1));
      DivideTwice(n, 256, Pow2(8 * (i - 1)));
    }
  }

  lemma DivideTwice(n: nat, a: nat, b: nat)
    requires a > 0 && b > 0
    ensures a * b > 0 && n / a / b == n / (a * b)
  {
    var q, r := n / a, n % a;
    var p, s := q / b, q % b;
    assert n == a * q + r && q == b * p + s;
    assert n == (a * b) * p + (a * s + r) by { Regroup(a, b, p, s); }
    SmallRest(a, b, s, r);
    DivModUnique(n, a * b, p, a * s + r);
  }

  lemma Regroup(a: nat, b: nat, p: nat, s: nat)
    ensures a * (b * p + s) == (a * b) * p + a * s && (a * b) * p == p * (a * b)
  {
  }

  lemma SmallRest(a: nat, b: nat, s: nat, r: nat)
    requires s < b && r < a
    ensures 0 <= a * s + r < a * b
  {
    assert a * (s + 1) == a * s + a;
    assert a * (s + 1) <= a * b by { Grows(a, s + 1, b); }
  }

  lemma Grows(a: nat, x: nat, y: nat)
    requires x <= y
    ensures a * x <= a * y
  {
    assert a * y == a * x + a * (y - x);
  }

  function Le32(n: u32): (r: seq<byte>)
    ensures |r| == 4
  {
    Le(n, 4)
  }

  function Le64(n: u64): (r: seq<byte>)
    ensures |r| == 8
  {
    Le(n, 8)
  }

  lemma Le32Reads(n: u32)
    ensures FromLe(Le32(n)) == n
  {
    Pow2Of64();
    Pow2Sum(32, 32);
    assert Pow2(32) == TWO_32 by { Pow2Of32(); }
    FromLeOfLe(n, 4);
  }

  lemma Pow2Of32()
    ensures Pow2(32) == TWO_32
  {
    assert Pow2(8) == 256;
    Pow2Sum(8, 8);
    Pow2Sum(16, 16);
  }

  lemma Le64Reads(n: u64)
    ensures FromLe(Le64(n)) == n
  {
    Pow2Of64();
    FromLeOfLe(n, 8);
  }

  lemma Le32Injective(a: u32, b: u32)
    requires Le32(a) == Le32(b)
    ensures a == b
  {
    Le32Reads(a);
    Le32Reads(b);
  }

  lemma Le64Injective(a: u64, b: u64)
    requires Le64(a) == Le64(b)
    ensures a == b
  {
    Le64Reads(a);
    Le64Reads(b);
  }
}
