/**
 * Fixed-width, most-significant-bit-first conversion between natural numbers
 * and bit strings, and the regrouping of a bit string into consecutive
 * fixed-width groups. The slug codec uses it twice: with width 8 for the
 * bytes of a UUID and with width 6 for the symbols of a slug.
 */
module Bits {

  type Bit = b: nat | b < 2

  function Pow2(n: nat): (p: nat)
    ensures p >= 1
  {
    if n == 0 then 1 else 2 * Pow2(n - 1)
  }

  /** The `w` low-order bits of `v`, most significant first. */
  function ToBits(v: nat, w: nat): (bs: seq<Bit>)
    ensures |bs| == w
  {
    if w == 0 then [] else ToBits(v / 2, w - 1) + [v % 2]
  }

  /** The number whose binary numeral, most significant bit first, is `bs`. */
  function FromBits(bs: seq<Bit>): (v: nat)
    ensures v < Pow2(|bs|)
  {
    if bs == [] then 0 else 2 * FromBits(bs[..|bs| - 1]) + bs[|bs| - 1]
  }

  lemma {:induction false} FromBitsToBits(v: nat, w: nat)
    requires v < Pow2(w)
    ensures FromBits(ToBits(v, w)) == v
  {
    if w > 0 {
      var bs := ToBits(v, w);
      assert bs[..w - 1] == ToBits(v / 2, w - 1) && bs[w - 1] == v % 2;
      assert v / 2 < Pow2(w - 1);
      FromBitsToBits(v / 2, w - 1);
      assert FromBits(bs) == 2 * (v / 2) + v % 2;
    }
  }

  lemma {:induction false} ToBitsFromBits(bs: seq<Bit>)
    ensures ToBits(FromBits(bs), |bs|) == bs
  {
    if bs != [] {
      var n := |bs|;
      var v := FromBits(bs);
      assert v / 2 == FromBits(bs[..n - 1]) && v % 2 == bs[n - 1];
      ToBitsFromBits(bs[..n - 1]);
      assert bs == bs[..n - 1] + [bs[n - 1]];
    }
  }

  /** Writing `x` in `m` bits and then `y` in `n` bits writes `x * 2^n + y` in `m + n` bits. */
  lemma {:induction false} ToBitsConcat(x: nat, m: nat, y: nat, n: nat)
    requires y < Pow2(n)
    ensures ToBits(x, m) + ToBits(y, n) == ToBits(x * Pow2(n) + y, m + n)
  {
    if n > 0 {
      var k := x * Pow2(n - 1);
      assert x * Pow2(n) == 2 * k;
      assert (2 * k + y) / 2 == k + y / 2 && (2 * k + y) % 2 == y % 2;
      ToBitsConcat(x, m, y / 2, n - 1);
      assert ToBits(y, n) == ToBits(y / 2, n - 1) + [y % 2];
    }
  }

  /** The bits of every value of `vals`, each `w` wide, in order. */
  function Unpack(vals: seq<nat>, w: nat): (bs: seq<Bit>)
    ensures |bs| == |vals| * w
  {
    if vals == [] then [] else ToBits(vals[0], w) + Unpack(vals[1..], w)
  }

  lemma {:induction false} UnpackAppend(a: seq<nat>, b: seq<nat>, w: nat)
    ensures Unpack(a + b, w) == Unpack(a, w) + Unpack(b, w)
  {
    if a != [] {
      assert (a + b)[0] == a[0] && (a + b)[1..] == a[1..] + b;
      UnpackAppend(a[1..], b, w);
    } else {
      assert a + b == b;
    }
  }

  lemma UnpackOne(a: nat, w: nat)
    ensures Unpack([a], w) == ToBits(a, w)
  {
    assert [a][1..] == [];
  }

  /**
   * Cuts `bs` into consecutive groups of `w` bits, most significant group
   * first, and reads each group as a number; a trailing remainder shorter
   * than `w` bits forms no group and is dropped.
   */
  function Pack(bs: seq<Bit>, w: nat): (vals: seq<nat>)
    requires w > 0
    ensures |vals| * w <= |bs| < |vals| * w + w
    ensures AllBelow(vals, Pow2(w))
    decreases |bs|
  {
    if |bs| < w then []
    else
      var rest := Pack(bs[w..], w);
      assert (|rest| + 1) * w == |rest| * w + w;
      [FromBits(bs[..w])] + rest
  }

  predicate AllBelow(vals: seq<nat>, bound: nat) {
    forall i :: 0 <= i < |vals| ==> vals[i] < bound
  }

  lemma {:induction false} PackUnpack(vals: seq<nat>, w: nat)
    requires w > 0 && AllBelow(vals, Pow2(w))
    ensures Pack(Unpack(vals, w), w) == vals
  {
    if vals != [] {
      var bs := Unpack(vals, w);
      assert bs[..w] == ToBits(vals[0], w);
      assert bs[w..] == Unpack(vals[1..], w);
      FromBitsToBits(vals[0], w);
      PackUnpack(vals[1..], w);
    }
  }

  lemma {:induction false} UnpackPack(bs: seq<Bit>, w: nat, k: nat)
    requires w > 0 && |bs| == k * w
    ensures Unpack(Pack(bs, w), w) == bs
  {
    if k > 0 {
      var vals := Pack(bs, w);
      assert |bs| >= w && |bs[w..]| == (k - 1) * w;
      assert vals[0] == FromBits(bs[..w]) && vals[1..] == Pack(bs[w..], w);
      ToBitsFromBits(bs[..w]);
      UnpackPack(bs[w..], w, k - 1);
      assert bs == bs[..w] + bs[w..];
    }
  }

  /** Bits after the last whole group do not change what Pack returns. */
  lemma {:induction false} PackDropsRemainder(bs: seq<Bit>, w: nat, k: nat)
    requires w > 0 && k * w <= |bs| < k * w + w
    ensures Pack(bs, w) == Pack(bs[..k * w], w)
  {
    if k > 0 {
      assert |bs| >= w && (k - 1) * w <= |bs[w..]| < (k - 1) * w + w;
      PackDropsRemainder(bs[w..], w, k - 1);
      assert bs[..k * w][..w] == bs[..w];
      assert bs[..k * w][w..] == bs[w..][..(k - 1) * w];
    }
  }
}
