/** Bytes and the little-endian integers that the host writes to files and to disk blocks. */
module Bytes {
  import opened Prelude

  type Byte = x: int | 0 <= x < 256

  /** The `k`-byte little-endian image of `n`; higher bytes of `n` are dropped. */
  function LittleEndian(n: nat, k: nat): (s: seq<Byte>)
    ensures |s| == k
  {
    if k == 0 then [] else [n % 256] + LittleEndian(n / 256, k - 1)
  }

  function FromLittleEndian(s: seq<Byte>): nat
  {
    if s == [] then 0 else s[0] + 256 * FromLittleEndian(s[1..])
  }

  function Pow256(k: nat): (r: nat)
    ensures r >= 1
  {
    if k == 0 then 1 else 256 * Pow256(k - 1)
  }

  lemma {:induction false} LittleEndianRoundTrip(n: nat, k: nat)
    requires n < Pow256(k)
    ensures FromLittleEndian(LittleEndian(n, k)) == n
  {
    if k > 0 {
      LittleEndianRoundTrip(n / 256, k - 1);
      assert LittleEndian(n, k)[1..] == LittleEndian(n / 256, k - 1);
    }
  }

  lemma {:induction false} FromLittleEndianInverse(s: seq<Byte>)
    ensures FromLittleEndian(s) < Pow256(|s|)
    ensures LittleEndian(FromLittleEndian(s), |s|) == s
  {
    if s != [] {
      FromLittleEndianInverse(s[1..]);
      var rest := FromLittleEndian(s[1..]);
      assert (s[0] + 256 * rest) % 256 == s[0] && (s[0] + 256 * rest) / 256 == rest;
      assert s == [s[0]] + s[1..];
    }
  }

  /** Byte `i` of a little-endian image is the digit of 256 to the power `i`. */
  lemma {:induction false} LittleEndianAt(n: nat, k: nat, i: nat)
    requires i < k
    ensures LittleEndian(n, k)[i] == n / Pow256(i) % 256
  {
    if i > 0 {
      LittleEndianAt(n / 256, k - 1, i - 1);
      DivideTwice(n, Pow256(i - 1));
    }
  }

  lemma DivideTwice(n: nat, m: nat)
    requires m > 0
    ensures n / 256 / m == n / (256 * m)
  {
    var q, low := n / 256, n % 256;
    var p, rest := q / m, q % m;
    assert n == 256 * (m * p + rest) + low == (256 * m) * p + (256 * rest + low);
    QuotientIs(n, 256 * m, p);
  }
}
