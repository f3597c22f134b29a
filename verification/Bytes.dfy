/** Bytes, and numbers as little-endian sequences of them. */
module Bytes {
  import opened Arithmetic

  type byte = x: int | 0 <= x < 256

  const TWO_32 := 0x1_0000_0000
  const TWO_64 := 0x1_0000_0000_0000_0000

  function Encode(n: int, size: nat): (bs: seq<byte>)
    ensures |bs| == size
    decreases size
  {
    if size == 0 then [] else [n % 256] + Encode(n / 256, size - 1)
  }

  function Decode(bs: seq<byte>): (n: int)
    ensures n >= 0
  {
    if bs == [] then 0 else bs[0] + 256 * Decode(bs[1..])
  }

  function Pow256(size: nat): (p: int)
    ensures p > 0
  {
    if size == 0 then 1 else 256 * Pow256(size - 1)
  }

  lemma ByteStep(n: int, p: int)
    requires p > 0
    ensures n % 256 + 256 * ((n / 256) % p) == n % (256 * p)
  {
    var q, r := (n / 256) / p, (n / 256) % p;
    assert n / 256 == q * p + r;
    assert n == q * (256 * p) + (n % 256 + 256 * r);
    UniqueRemainder(n, 256 * p, q, n % 256 + 256 * r);
  }

  lemma {:induction false} DecodeEncode(n: int, size: nat)
    ensures Decode(Encode(n, size)) == n % Pow256(size)
    decreases size
  {
    if size != 0 {
      DecodeEncode(n / 256, size - 1);
      assert Encode(n, size)[1..] == Encode(n / 256, size - 1);
      ByteStep(n, Pow256(size - 1));
    }
  }

  lemma WordSizes()
    ensures Pow256(4) == TWO_32 && Pow256(8) == TWO_64
  {
    assert Pow256(2) == 0x1_0000 && Pow256(4) == TWO_32;
    assert Pow256(6) == 0x1_0000_0000_0000;
  }

  /** The bytes come least significant first. */
  lemma {:induction false} EncodeAt(n: int, size: nat, i: nat)
    requires i < size
    ensures Encode(n, size)[i] == (n / Pow256(i)) % 256
    decreases size
  {
    if i > 0 {
      EncodeAt(n / 256, size - 1, i - 1);
      DivideTwice(n, 256, Pow256(i - 1));
    }
  }

  lemma DivideTwice(n: int, a: int, b: int)
    requires a > 0 && b > 0
    ensures n / (a * b) == (n / a) / b
  {
    var q, r := n / a, n % a;
    var p, s := q / b, q % b;
    assert n == a * q + r && q == b * p + s;
    Expand(p, b, s, a);
    Bounded(s, b, r, a);
    UniqueRemainder(n, a * b, p, s * a + r);
  }

  lemma Expand(p: int, b: int, s: int, a: int)
    ensures a * (b * p + s) == p * (a * b) + s * a
  {
  }

  lemma Bounded(s: int, b: int, r: int, a: int)
    requires 0 <= s < b && 0 <= r < a
    ensures 0 <= s * a + r < a * b
  {
    assert (b - 1 - s) * a >= 0 && s * a >= 0;
    assert (b - 1 - s) * a == b * a - a - s * a;
  }
}
