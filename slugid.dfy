/**
 * The slug codec: a 16-byte UUID and a 22-character slug are two spellings of
 * the same 128 bits. Encoding reads the bits most significant first, appends
 * four zero bits to reach 132, and writes each consecutive 6-bit group as one
 * character of the URL-safe Base64 alphabet. Decoding reads the 22 groups back
 * and keeps the first 128 bits.
 */
module Slugid {
  import opened Bits
  import opened Alphabet
  import Base64Url

  type Byte = b: nat | b < 256

  /** A UUID as its 16 bytes, most significant byte first. */
  type Uuid = u: seq<Byte> | |u| == 16
    witness [0, 0, 0, 0, 0, 0, 0, 0, 0, 0, 0, 0, 0, 0, 0, 0]

  const SlugLength: nat := 22

  /** The four zero bits that complete the last 6-bit group. */
  const Padding: seq<Bit> := [0, 0, 0, 0]

  /** A string that Decode accepts: 22 characters of the alphabet. */
  predicate IsSlug(s: string) {
    |s| == SlugLength && forall i :: 0 <= i < |s| ==> IsSlugChar(s[i])
  }

  /** The 128 bits of `u`, most significant first. */
  function UuidBits(u: Uuid): (bs: seq<Bit>)
    ensures |bs| == 128
  {
    Unpack(u, 8)
  }

  /** The 132 bits a slug spells, most significant first. */
  function SlugBits(s: string): (bs: seq<Bit>)
    requires IsSlug(s)
    ensures |bs| == 132
  {
    Unpack(Values(s), 6)
  }

  function Encode(u: Uuid): (s: string)
    ensures IsSlug(s)
    ensures SlugBits(s) == UuidBits(u) + Padding
  {
    var bits := UuidBits(u) + Padding;
    var groups := Pack(bits, 6);
    assert |groups| == 22;
    var s := Chars(groups);
    ValuesOfChars(groups);
    UnpackPack(bits, 6, 22);
    s
  }

  function Decode(s: string): (u: Uuid)
    requires IsSlug(s)
    ensures UuidBits(u) == SlugBits(s)[..128]
  {
    var bits := SlugBits(s);
    PackDropsRemainder(bits, 8, 16);
    UnpackPack(bits[..128], 8, 16);
    Pack(bits, 8)
  }

  /** A slug is determined by the bits it spells. */
  lemma SlugBitsInjective(s: string, t: string)
    requires IsSlug(s) && IsSlug(t) && SlugBits(s) == SlugBits(t)
    ensures s == t
  {
    assert Pow2(6) == 64;
    PackUnpack(Values(s), 6);
    PackUnpack(Values(t), 6);
    forall i | 0 <= i < |s| ensures s[i] == t[i] {
      assert s[i] == CharOf(Values(s)[i]) && t[i] == CharOf(Values(t)[i]);
    }
  }

  /** A UUID is determined by its bits. */
  lemma UuidBitsInjective(u: Uuid, v: Uuid)
    requires UuidBits(u) == UuidBits(v)
    ensures u == v
  {
    assert Pow2(8) == 256;
    PackUnpack(u, 8);
    PackUnpack(v, 8);
  }

  /** Decoding an encoded UUID gives the UUID back. */
  lemma DecodeEncode(u: Uuid)
    ensures Decode(Encode(u)) == u
  {
    var s := Encode(u);
    assert (UuidBits(u) + Padding)[..128] == UuidBits(u);
    UuidBitsInjective(Decode(s), u);
  }

  /**
   * The last four bits a slug spells are the low four bits of the value of its
   * last character.
   */
  lemma SlugTailBits(s: string)
    requires IsSlug(s)
    ensures SlugBits(s)[..128] + ToBits(ValueOf(s[21]) % 16, 4) == SlugBits(s)
  {
    var vals := Values(s);
    var v := ValueOf(s[21]);
    assert vals == vals[..21] + [v] by {
      CharOfValueOf(s[21]);
      ValueOfCharOf(vals[21]);
    }
    UnpackAppend(vals[..21], [v], 6);
    UnpackOne(v, 6);
    assert Pow2(4) == 16;
    ToBitsConcat(v / 16, 2, v % 16, 4);
    assert v / 16 * 16 + v % 16 == v;
  }

  lemma LowBitsZero(x: nat)
    requires x < 16
    ensures ToBits(x, 4) == Padding <==> x == 0
  {
    assert Pow2(4) == 16 && ToBits(0, 4) == Padding;
    FromBitsToBits(x, 4);
    FromBitsToBits(0, 4);
  }

  /**
   * Encoding a decoded slug gives the slug back exactly when the four bits
   * that decoding drops were zero, that is when the value of the last
   * character is a multiple of 16.
   */
  lemma EncodeDecode(s: string)
    requires IsSlug(s)
    ensures Encode(Decode(s)) == s <==> ValueOf(s[21]) % 16 == 0
  {
    var t := Encode(Decode(s));
    var low := ToBits(ValueOf(s[21]) % 16, 4);
    SlugTailBits(s);
    LowBitsZero(ValueOf(s[21]) % 16);
    assert SlugBits(t) == SlugBits(s)[..128] + Padding;
    if ValueOf(s[21]) % 16 == 0 {
      SlugBitsInjective(t, s);
    }
  }

  /** Every slug the encoder produces ends in a character whose value is a multiple of 16. */
  lemma EncodeLastChar(u: Uuid)
    ensures ValueOf(Encode(u)[21]) % 16 == 0
  {
    DecodeEncode(u);
    EncodeDecode(Encode(u));
  }

  /** Decoding then re-encoding a slug that came from the encoder is the identity. */
  lemma SlugDecodeEncode(u: Uuid)
    ensures Encode(Decode(Encode(u))) == Encode(u)
  {
    DecodeEncode(u);
  }

  /** The slug of a UUID is the unpadded URL-safe Base64 text of its 16 bytes. */
  lemma EncodeIsBase64Url(u: Uuid)
    ensures Encode(u) == Base64Url.Encode(u)
  {
    var t := Base64Url.Encode(u);
    var vals := Base64Url.Sextets(u);
    Base64Url.SextetsBits(u);
    assert Base64Url.TailZeros(16) == Padding;
    assert IsSlug(t);
    ValuesOfChars(vals);
    SlugBitsInjective(Encode(u), t);
  }

  /**
   * The layout of a slug: each run of three bytes becomes four characters,
   * and the last byte becomes two, the second holding its low two bits
   * followed by four zero bits.
   */
  lemma EncodeLayout(u: Uuid)
    ensures Values(Encode(u)) ==
      Base64Url.Quad(u[0], u[1], u[2]) + Base64Url.Quad(u[3], u[4], u[5]) +
      Base64Url.Quad(u[6], u[7], u[8]) + Base64Url.Quad(u[9], u[10], u[11]) +
      Base64Url.Quad(u[12], u[13], u[14]) + [u[15] / 4, (u[15] % 4) * 16]
  {
    EncodeIsBase64Url(u);
    ValuesOfChars(Base64Url.Sextets(u));
    Base64Url.SixteenBytes(u);
  }
}
