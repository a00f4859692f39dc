/**
 * Base64 encoding without padding, written the textbook way of section 4 of
 * RFC 4648: every three bytes become four 6-bit values by shifting and
 * masking, and a final group of one or two bytes becomes two or three values
 * whose unused low bits are zero. Section 5 of the same RFC only swaps the
 * alphabet, which is Alphabet's concern. This is a reference definition,
 * independent of the bit-string view in Bits, against which the slug encoder
 * is checked.
 */
module Base64Url {
  import opened Bits
  import opened Alphabet

  predicate AreBytes(bytes: seq<nat>) {
    forall i :: 0 <= i < |bytes| ==> bytes[i] < 256
  }

  /** The four 6-bit values of the three bytes `a`, `b`, `c`. */
  function Quad(a: nat, b: nat, c: nat): (q: seq<nat>)
    requires a < 256 && b < 256 && c < 256
    ensures |q| == 4 && AllBelow(q, 64)
  {
    [a / 4, (a % 4) * 16 + b / 16, (b % 16) * 4 + c / 64, c % 64]
  }

  /**
   * How many 6-bit values `n` bytes fill: four for every whole group of three
   * bytes, and two or three more for a final group of one or two bytes.
   */
  function SextetCount(n: nat): nat {
    4 * (n / 3) + (if n % 3 == 0 then 0 else n % 3 + 1)
  }

  /**
   * The `i`-th 6-bit value of `bytes`: value `i` lies in the group of three
   * bytes starting at byte 3 * (i / 4), and is cut from it by shifting and
   * masking; bytes past the end read as zero.
   */
  function Sextet(bytes: seq<nat>, i: nat): (v: nat)
    requires AreBytes(bytes) && i < SextetCount(|bytes|)
    ensures v < 64
  {
    var k := 3 * (i / 4);
    var a := bytes[k];
    var b := if k + 1 < |bytes| then bytes[k + 1] else 0;
    var c := if k + 2 < |bytes| then bytes[k + 2] else 0;
    if i % 4 == 0 then a / 4
    else if i % 4 == 1 then (a % 4) * 16 + b / 16
    else if i % 4 == 2 then (b % 16) * 4 + c / 64
    else c % 64
  }

  /** The 6-bit values of `bytes`, three bytes to four values. */
  function Sextets(bytes: seq<nat>): (vals: seq<nat>)
    requires AreBytes(bytes)
    ensures |vals| == SextetCount(|bytes|)
    ensures AllBelow(vals, 64)
  {
    seq(SextetCount(|bytes|), i requires 0 <= i < SextetCount(|bytes|) => Sextet(bytes, i))
  }

  /** The unpadded URL-safe Base64 text of `bytes`. */
  function Encode(bytes: seq<nat>): (s: string)
    requires AreBytes(bytes)
    ensures |s| == SextetCount(|bytes|)
  {
    Chars(Sextets(bytes))
  }

  /** The zero bits that complete the last 6-bit value after `n` bytes. */
  function TailZeros(n: nat): (z: seq<Bit>)
    ensures |z| == SextetCount(n) * 6 - 8 * n
    ensures forall i :: 0 <= i < |z| ==> z[i] == 0
  {
    if n % 3 == 1 then [0, 0, 0, 0] else if n % 3 == 2 then [0, 0] else []
  }

  /**
   * The 6-bit values spell out the bits of the bytes, followed by the zero
   * bits that complete the last value.
   */
  lemma {:induction false} SextetsBits(bytes: seq<nat>)
    requires AreBytes(bytes)
    ensures Unpack(Sextets(bytes), 6) == Unpack(bytes, 8) + TailZeros(|bytes|)
  {
    var n := |bytes|;
    if n >= 3 {
      var head, rest := [bytes[0], bytes[1], bytes[2]], bytes[3..];
      var q := Quad(bytes[0], bytes[1], bytes[2]);
      assert bytes == head + rest;
      SextetsSplit(bytes);
      assert TailZeros(n) == TailZeros(|rest|);
      calc {
        Unpack(Sextets(bytes), 6);
        { UnpackAppend(q, Sextets(rest), 6); }
        Unpack(q, 6) + Unpack(Sextets(rest), 6);
        { SextetsBits(rest); QuadBits(bytes[0], bytes[1], bytes[2], q); }
        Unpack(head, 8) + (Unpack(rest, 8) + TailZeros(n));
        { UnpackAppend(head, rest, 8); }
        Unpack(bytes, 8) + TailZeros(n);
      }
    } else if n == 2 {
      TwoByteTail(bytes);
    } else if n == 1 {
      OneByteTail(bytes);
    }
  }

  /** A final group of two bytes: two zero bits complete the third value. */
  lemma TwoByteTail(bytes: seq<nat>)
    requires AreBytes(bytes) && |bytes| == 2
    ensures Unpack(Sextets(bytes), 6) == Unpack(bytes, 8) + TailZeros(2)
  {
    assert bytes == [bytes[0], bytes[1]];
    TwoBytes(bytes[0], bytes[1]);
    assert TailZeros(2) == [0, 0];
  }

  lemma TwoBytes(a: nat, b: nat)
    requires a < 256 && b < 256
    ensures Unpack(Sextets([a, b]), 6) == Unpack([a, b], 8) + [0, 0]
  {
    ShortSextets([a, b]);
    PairBits(a, b);
  }

  /** A final single byte: four zero bits complete the second value. */
  lemma OneByteTail(bytes: seq<nat>)
    requires AreBytes(bytes) && |bytes| == 1
    ensures Unpack(Sextets(bytes), 6) == Unpack(bytes, 8) + TailZeros(1)
  {
    assert bytes == [bytes[0]];
    OneByte(bytes[0]);
    assert TailZeros(1) == [0, 0, 0, 0];
  }

  lemma OneByte(a: nat)
    requires a < 256
    ensures Unpack(Sextets([a]), 6) == Unpack([a], 8) + [0, 0, 0, 0]
  {
    ShortSextets([a]);
    SingleBits(a);
  }

  lemma ShortSextets(bytes: seq<nat>)
    requires AreBytes(bytes) && 1 <= |bytes| <= 2
    ensures |bytes| == 1 ==> Sextets(bytes) == [bytes[0] / 4, (bytes[0] % 4) * 16]
    ensures |bytes| == 2 ==> Sextets(bytes) == [bytes[0] / 4, (bytes[0] % 4) * 16 + bytes[1] / 16, (bytes[1] % 16) * 4]
  {
  }

  /** The first three bytes give the first four values; the rest is the same code again. */
  lemma SextetsSplit(bytes: seq<nat>)
    requires AreBytes(bytes) && |bytes| >= 3
    ensures Sextets(bytes) == Quad(bytes[0], bytes[1], bytes[2]) + Sextets(bytes[3..])
  {
    var rest := bytes[3..];
    var q := Quad(bytes[0], bytes[1], bytes[2]);
    var s, t := Sextets(bytes), Sextets(rest);
    assert |s| == 4 + |t|;
    forall i | 0 <= i < |s|
      ensures s[i] == (q + t)[i]
    {
      if i >= 4 {
        SextetShift(bytes, i);
        assert s[i] == Sextet(bytes, i) && t[i - 4] == Sextet(rest, i - 4);
      } else {
        assert s[i] == Sextet(bytes, i);
      }
    }
  }

  /** Sixteen bytes make five whole blocks and a final block of one byte. */
  lemma SixteenBytes(bytes: seq<nat>)
    requires AreBytes(bytes) && |bytes| == 16
    ensures Sextets(bytes) ==
      Quad(bytes[0], bytes[1], bytes[2]) + Quad(bytes[3], bytes[4], bytes[5]) +
      Quad(bytes[6], bytes[7], bytes[8]) + Quad(bytes[9], bytes[10], bytes[11]) +
      Quad(bytes[12], bytes[13], bytes[14]) + [bytes[15] / 4, (bytes[15] % 4) * 16]
  {
    var b3, b6, b9, b12, b15 := bytes[3..], bytes[6..], bytes[9..], bytes[12..], bytes[15..];
    SextetsSplit(bytes);
    SextetsSplit(b3);
    assert b3[3..] == b6;
    SextetsSplit(b6);
    assert b6[3..] == b9;
    SextetsSplit(b9);
    assert b9[3..] == b12;
    SextetsSplit(b12);
    assert b12[3..] == b15;
    ShortSextets(b15);
  }

  lemma SextetShift(bytes: seq<nat>, i: nat)
    requires AreBytes(bytes) && |bytes| >= 3 && 4 <= i < SextetCount(|bytes|)
    ensures Sextet(bytes, i) == Sextet(bytes[3..], i - 4)
  {
    assert (i - 4) / 4 == i / 4 - 1 && (i - 4) % 4 == i % 4;
  }

  lemma SingleBits(a: nat)
    requires a < 256
    ensures Unpack([a / 4, (a % 4) * 16], 6) == Unpack([a], 8) + [0, 0, 0, 0]
  {
    var w, z := 6, 4;
    assert Pow2(z) == 16 && Pow2(w) == 64 && ToBits(0, z) == [0, 0, 0, 0];
    calc {
      Unpack([a], w + 2) + [0, 0, 0, 0];
      { UnpackOne(a, w + 2); }
      ToBits(a, w + 2) + ToBits(0, z);
      { ToBitsConcat(a, w + 2, 0, z); }
      ToBits(a * 16, w + w);
      { assert a * 16 == (a / 4) * 64 + (a % 4) * 16; }
      ToBits((a / 4) * 64 + (a % 4) * 16, w + w);
      { ToBitsConcat(a / 4, w, (a % 4) * 16, w); }
      ToBits(a / 4, w) + ToBits((a % 4) * 16, w);
      { UnpackTwo(a / 4, (a % 4) * 16, w); }
      Unpack([a / 4, (a % 4) * 16], w);
    }
  }

  lemma PairBits(a: nat, b: nat)
    requires a < 256 && b < 256
    ensures Unpack([a / 4, (a % 4) * 16 + b / 16, (b % 16) * 4], 6) == Unpack([a, b], 8) + [0, 0]
  {
    var d0, d1, d2 := a / 4, (a % 4) * 16 + b / 16, (b % 16) * 4;
    PairAsNumber(a, b);
    TripleAsNumber(d0, d1, d2);
    assert (a * 256 + b) * 4 == (d0 * 64 + d1) * 64 + d2;
  }

  lemma PairAsNumber(a: nat, b: nat)
    requires b < 256
    ensures Unpack([a, b], 8) + [0, 0] == ToBits((a * 256 + b) * 4, 18)
  {
    var w, z := 8, 2;
    assert Pow2(z) == 4 && Pow2(w) == 256 && ToBits(0, z) == [0, 0];
    calc {
      Unpack([a, b], w) + [0, 0];
      { UnpackTwo(a, b, w); }
      ToBits(a, w) + ToBits(b, w) + ToBits(0, z);
      { ToBitsConcat(a, w, b, w); }
      ToBits(a * 256 + b, w + w) + ToBits(0, z);
      { ToBitsConcat(a * 256 + b, w + w, 0, z); }
      ToBits((a * 256 + b) * 4, w + w + z);
    }
  }

  lemma TripleAsNumber(d0: nat, d1: nat, d2: nat)
    requires d1 < 64 && d2 < 64
    ensures Unpack([d0, d1, d2], 6) == ToBits((d0 * 64 + d1) * 64 + d2, 18)
  {
    var w := 6;
    assert Pow2(w) == 64;
    calc {
      Unpack([d0, d1, d2], w);
      { UnpackThree(d0, d1, d2, w); }
      ToBits(d0, w) + ToBits(d1, w) + ToBits(d2, w);
      { ToBitsConcat(d0, w, d1, w); }
      ToBits(d0 * 64 + d1, w + w) + ToBits(d2, w);
      { ToBitsConcat(d0 * 64 + d1, w + w, d2, w); }
      ToBits((d0 * 64 + d1) * 64 + d2, w + w + w);
    }
  }

  lemma QuadBits(a: nat, b: nat, c: nat, q: seq<nat>)
    requires a < 256 && b < 256 && c < 256
    requires q == [a / 4, (a % 4) * 16 + b / 16, (b % 16) * 4 + c / 64, c % 64]
    ensures Unpack(q, 6) == Unpack([a, b, c], 8)
  {
    BytesAsNumber(a, b, c);
    SextetsAsNumber(q[0], q[1], q[2], q[3]);
    QuadValue(a, b, c, q);
  }

  lemma BytesAsNumber(a: nat, b: nat, c: nat)
    requires b < 256 && c < 256
    ensures Unpack([a, b, c], 8) == ToBits((a * 256 + b) * 256 + c, 24)
  {
    var w := 8;
    assert Pow2(w) == 256;
    calc {
      Unpack([a, b, c], w);
      { UnpackThree(a, b, c, w); }
      ToBits(a, w) + ToBits(b, w) + ToBits(c, w);
      { ToBitsConcat(a, w, b, w); }
      ToBits(a * 256 + b, w + w) + ToBits(c, w);
      { ToBitsConcat(a * 256 + b, w + w, c, w); }
      ToBits((a * 256 + b) * 256 + c, w + w + w);
    }
  }

  lemma SextetsAsNumber(d0: nat, d1: nat, d2: nat, d3: nat)
    requires d1 < 64 && d2 < 64 && d3 < 64
    ensures Unpack([d0, d1, d2, d3], 6) == ToBits(((d0 * 64 + d1) * 64 + d2) * 64 + d3, 24)
  {
    var w := 6;
    var t0, t1, t2, t3 := ToBits(d0, w), ToBits(d1, w), ToBits(d2, w), ToBits(d3, w);
    assert Pow2(w) == 64;
    calc {
      Unpack([d0, d1, d2, d3], w);
      { UnpackFour(d0, d1, d2, d3, w); }
      t0 + t1 + t2 + t3;
      { ToBitsConcat(d0, w, d1, w); }
      ToBits(d0 * 64 + d1, w + w) + t2 + t3;
      { ToBitsConcat(d0 * 64 + d1, w + w, d2, w); }
      ToBits((d0 * 64 + d1) * 64 + d2, w + w + w) + t3;
      { ToBitsConcat((d0 * 64 + d1) * 64 + d2, w + w + w, d3, w); }
      ToBits(((d0 * 64 + d1) * 64 + d2) * 64 + d3, w + w + w + w);
    }
  }



  lemma QuadValue(a: nat, b: nat, c: nat, q: seq<nat>)
    requires a < 256 && b < 256 && c < 256
    requires q == [a / 4, (a % 4) * 16 + b / 16, (b % 16) * 4 + c / 64, c % 64]
    ensures ((q[0] * 64 + q[1]) * 64 + q[2]) * 64 + q[3] == (a * 256 + b) * 256 + c
  {
  }

  lemma UnpackTwo(a: nat, b: nat, w: nat)
    ensures Unpack([a, b], w) == ToBits(a, w) + ToBits(b, w)
  {
    assert [a, b] == [a] + [b];
    UnpackAppend([a], [b], w);
    UnpackOne(a, w);
    UnpackOne(b, w);
  }

  lemma UnpackThree(a: nat, b: nat, c: nat, w: nat)
    ensures Unpack([a, b, c], w) == ToBits(a, w) + ToBits(b, w) + ToBits(c, w)
  {
    assert [a, b, c] == [a, b] + [c];
    UnpackAppend([a, b], [c], w);
    UnpackTwo(a, b, w);
    UnpackOne(c, w);
  }

  lemma UnpackFour(a: nat, b: nat, c: nat, d: nat, w: nat)
    ensures Unpack([a, b, c, d], w) == ToBits(a, w) + ToBits(b, w) + ToBits(c, w) + ToBits(d, w)
  {
    assert [a, b, c, d] == [a, b, c] + [d];
    UnpackAppend([a, b, c], [d], w);
    UnpackThree(a, b, c, w);
    UnpackOne(d, w);
  }
}
