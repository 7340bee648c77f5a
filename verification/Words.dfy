/**
  Unsigned words: single bits, as the generated accessors set and test them, and the
  big-endian bytes a buffer holds.
 */
module Words {

  type Byte = b: int | 0 <= b < 256

  /** 256 to the power `w`: what `w` bytes can count. */
  function Limit(w: nat): (n: nat)
    ensures n > 0
  {
    if w == 0 then 1 else 256 * Limit(w - 1)
  }

  function Pow2(k: nat): (n: nat)
    ensures n > 0
  {
    if k == 0 then 1 else 2 * Pow2(k - 1)
  }

  // ------------------------------------------------------------ bits

  /** Whether bit `k` is set. */
  predicate Bit(n: nat, k: nat) {
    if k == 0 then n % 2 == 1 else Bit(n / 2, k - 1)
  }

  /** The word with bit `k` set or cleared. */
  function WithBit(n: nat, k: nat, b: bool): nat {
    if k == 0 then n / 2 * 2 + (if b then 1 else 0) else WithBit(n / 2, k - 1, b) * 2 + n % 2
  }

  lemma {:induction false} BitWithBit(n: nat, k: nat, b: bool, j: nat)
    ensures Bit(WithBit(n, k, b), j) == if j == k then b else Bit(n, j)
  {
    if k > 0 && j > 0 {
      BitWithBit(n / 2, k - 1, b, j - 1);
      assert WithBit(n, k, b) / 2 == WithBit(n / 2, k - 1, b);
    }
  }

  lemma {:induction false} WithBitBound(n: nat, k: nat, b: bool, m: nat)
    requires n < Pow2(m) && k < m
    ensures WithBit(n, k, b) < Pow2(m)
  {
    if k > 0 {
      WithBitBound(n / 2, k - 1, b, m - 1);
    }
  }

  lemma {:induction false} NoBitsBeyond(n: nat, k: nat)
    requires n < Pow2(k)
    ensures !Bit(n, k)
  {
    if k > 0 {
      NoBitsBeyond(n / 2, k - 1);
    }
  }

  /** The byte a group of bits is packed into, first field in the lowest bit. */
  function PackBits(bs: seq<bool>): nat {
    if bs == [] then 0 else WithBit(PackBits(bs[..|bs| - 1]), |bs| - 1, bs[|bs| - 1])
  }

  lemma {:induction false} PackBitsBound(bs: seq<bool>)
    ensures PackBits(bs) < Pow2(|bs|)
  {
    if bs != [] {
      PackBitsBound(bs[..|bs| - 1]);
      WithBitBound(PackBits(bs[..|bs| - 1]), |bs| - 1, bs[|bs| - 1], |bs|);
    }
  }

  lemma {:induction false} PackBitsBit(bs: seq<bool>, j: nat)
    requires j < |bs|
    ensures Bit(PackBits(bs), j) == bs[j]
  {
    var init := bs[..|bs| - 1];
    BitWithBit(PackBits(init), |bs| - 1, bs[|bs| - 1], j);
    if j < |bs| - 1 {
      PackBitsBit(init, j);
    }
  }

  // ------------------------------------------------------------ bytes

  /** `w` bytes, most significant first; higher bits are dropped. */
  function Put(w: nat, v: nat): (bs: seq<Byte>)
    ensures |bs| == w
  {
    if w == 0 then [] else Put(w - 1, v / 256) + [v % 256]
  }

  function Get(bs: seq<Byte>): nat {
    if bs == [] then 0 else Get(bs[..|bs| - 1]) * 256 + bs[|bs| - 1]
  }

  lemma {:induction false} GetPut(w: nat, v: nat)
    requires v < Limit(w)
    ensures Get(Put(w, v)) == v
  {
    if w > 0 {
      GetPut(w - 1, v / 256);
      assert Put(w, v)[..w - 1] == Put(w - 1, v / 256);
    }
  }

  lemma BitTwoDown(v: nat, k: nat)
    ensures Bit(v, k + 2) == Bit(v / 4, k)
  {
    assert Bit(v, k + 2) == Bit(v / 2, k + 1) == Bit(v / 2 / 2, k);
    assert v / 2 / 2 == v / 4;
  }

  lemma BitOfQuotient(v: nat, k: nat)
    ensures Bit(v, k + 8) == Bit(v / 256, k)
  {
    BitTwoDown(v, k + 6);
    BitTwoDown(v / 4, k + 4);
    BitTwoDown(v / 16, k + 2);
    BitTwoDown(v / 64, k);
    assert v / 4 / 4 == v / 16 && v / 16 / 4 == v / 64 && v / 64 / 4 == v / 256;
  }

  lemma {:induction false} BitOfRemainder(v: nat, k: nat, m: nat)
    requires k < m
    ensures Bit(v, k) == Bit(v % Pow2(m), k)
  {
    var p := Pow2(m - 1);
    assert v % (2 * p) % 2 == v % 2 && v % (2 * p) / 2 == v / 2 % p by { HalfOfRemainder(v, p); }
    if k > 0 {
      BitOfRemainder(v / 2, k - 1, m - 1);
    }
  }

  lemma HalfOfRemainder(v: nat, p: nat)
    requires p > 0
    ensures v % (2 * p) % 2 == v % 2
    ensures v % (2 * p) / 2 == v / 2 % p
  {
    var q, r := v / (2 * p), v % (2 * p);
    assert v == 2 * (p * q) + r;
    assert v / 2 == p * q + r / 2;
    assert r / 2 < p;
    assert (v / 2) % p == r / 2 by { ModUnique(v / 2, p, q, r / 2); }
  }

  lemma ModUnique(x: nat, p: nat, q: nat, r: nat)
    requires p > 0 && x == p * q + r && r < p
    ensures x % p == r
  {
    QuotientUnique(x, p, q, r);
  }

  lemma QuotientUnique(x: nat, p: nat, q: nat, r: nat)
    requires p > 0 && x == p * q + r && r < p
    ensures x / p == q
  {
    var d := x / p;
    assert d < q ==> p * d <= p * (q - 1);
    assert d > q ==> p * d >= p * (q + 1);
  }

  /** In the bytes of a word, bit `r` of byte `b` is bit 8(w-1-b)+r of the word. */
  lemma {:induction false} BitOnWire(w: nat, v: nat, b: nat, r: nat)
    requires b < w && r < 8
    ensures Bit(Put(w, v)[b], r) == Bit(v, 8 * (w - 1 - b) + r)
  {
    if b == w - 1 {
      assert Pow2(8) == 256;
      BitOfRemainder(v, r, 8);
    } else {
      BitOnWire(w - 1, v / 256, b, r);
      assert Put(w, v)[b] == Put(w - 1, v / 256)[b];
      BitOfQuotient(v, 8 * (w - 2 - b) + r);
    }
  }
}
