/**
 * The fixed UUID/slug pairs of the package's examples and tests, each shown
 * to be produced by the model in both directions.
 */
module Vectors {
  import opened Alphabet
  import opened Slugid
  import Base64Url

  /** A slug whose values are the blocks of `u` is the slug of `u`. */
  lemma EncodeByBlocks(u: Uuid, vals: seq<nat>)
    requires vals ==
      Base64Url.Quad(u[0], u[1], u[2]) + Base64Url.Quad(u[3], u[4], u[5]) +
      Base64Url.Quad(u[6], u[7], u[8]) + Base64Url.Quad(u[9], u[10], u[11]) +
      Base64Url.Quad(u[12], u[13], u[14]) + [u[15] / 4, (u[15] % 4) * 16]
    ensures forall i :: 0 <= i < |vals| ==> vals[i] < 64
    ensures Encode(u) == Chars(vals)
  {
    EncodeLayout(u);
    CharsOfValues(Encode(u));
  }

  /** 796220c0-c831-49f7-9743-7ea23db3b189 */
  function ExampleUuid(): Uuid {
    [0x79, 0x62, 0x20, 0xc0, 0xc8, 0x31, 0x49, 0xf7,
     0x97, 0x43, 0x7e, 0xa2, 0x3d, 0xb3, 0xb1, 0x89]
  }

  function ExampleSlug(): string {
    "eWIgwMgxSfeXQ36iPbOxiQ"
  }

  /** The 6-bit values of ExampleSlug. */
  function ExampleValues(): seq<nat> {
    [30, 22, 8, 32, 48, 12, 32, 49, 18, 31, 30, 23, 16, 55, 58, 34, 15, 27, 14, 49, 34, 16]
  }

  lemma ExampleBlocks()
    ensures Base64Url.Quad(0x79, 0x62, 0x20) +
      Base64Url.Quad(0xc0, 0xc8, 0x31) +
      Base64Url.Quad(0x49, 0xf7, 0x97) +
      Base64Url.Quad(0x43, 0x7e, 0xa2) +
      Base64Url.Quad(0x3d, 0xb3, 0xb1) +
      [0x89 / 4, (0x89 % 4) * 16] == ExampleValues()
  {
  }

  lemma ExampleChars()
    ensures Chars(ExampleValues()) == ExampleSlug()
  {
    var v, s := ExampleValues(), ExampleSlug();
    forall i | 0 <= i < 22 ensures v[i] < 64 && CharOf(v[i]) == s[i] {
    }
    CharsSpell(v, s);
  }

  /** The documented example pair. */
  lemma EncodeExample()
    ensures Encode(ExampleUuid()) == ExampleSlug()
  {
    ExampleBlocks();
    EncodeByBlocks(ExampleUuid(), ExampleValues());
    ExampleChars();
  }

  lemma DecodeExample()
    ensures Decode(ExampleSlug()) == ExampleUuid()
  {
    EncodeExample();
    DecodeEncode(ExampleUuid());
  }

  /** 804f3fc8-dfcb-4b06-89fb-aefad5e18754 */
  function FirstBitSetUuid(): Uuid {
    [0x80, 0x4f, 0x3f, 0xc8, 0xdf, 0xcb, 0x4b, 0x06,
     0x89, 0xfb, 0xae, 0xfa, 0xd5, 0xe1, 0x87, 0x54]
  }

  function FirstBitSetSlug(): string {
    "gE8_yN_LSwaJ-6761eGHVA"
  }

  /** The 6-bit values of FirstBitSetSlug. */
  function FirstBitSetValues(): seq<nat> {
    [32, 4, 60, 63, 50, 13, 63, 11, 18, 48, 26, 9, 62, 58, 59, 58, 53, 30, 6, 7, 21, 0]
  }

  lemma FirstBitSetBlocks()
    ensures Base64Url.Quad(0x80, 0x4f, 0x3f) +
      Base64Url.Quad(0xc8, 0xdf, 0xcb) +
      Base64Url.Quad(0x4b, 0x06, 0x89) +
      Base64Url.Quad(0xfb, 0xae, 0xfa) +
      Base64Url.Quad(0xd5, 0xe1, 0x87) +
      [0x54 / 4, (0x54 % 4) * 16] == FirstBitSetValues()
  {
  }

  lemma FirstBitSetChars()
    ensures Chars(FirstBitSetValues()) == FirstBitSetSlug()
  {
    var v, s := FirstBitSetValues(), FirstBitSetSlug();
    forall i | 0 <= i < 22 ensures v[i] < 64 && CharOf(v[i]) == s[i] {
    }
    CharsSpell(v, s);
  }

  /** A UUID whose first bit is set; its slug holds both '-' and '_'. */
  lemma EncodeFirstBitSet()
    ensures Encode(FirstBitSetUuid()) == FirstBitSetSlug()
  {
    FirstBitSetBlocks();
    EncodeByBlocks(FirstBitSetUuid(), FirstBitSetValues());
    FirstBitSetChars();
  }

  /** fbefbefb-efbe-43ef-bfff-fffffffffffd */
  function LeadingDashUuid(): Uuid {
    [0xfb, 0xef, 0xbe, 0xfb, 0xef, 0xbe, 0x43, 0xef,
     0xbf, 0xff, 0xff, 0xff, 0xff, 0xff, 0xff, 0xfd]
  }

  function LeadingDashSlug(): string {
    "--------Q--__________Q"
  }

  /** The 6-bit values of LeadingDashSlug. */
  function LeadingDashValues(): seq<nat> {
    [62, 62, 62, 62, 62, 62, 62, 62, 16, 62, 62, 63, 63, 63, 63, 63, 63, 63, 63, 63, 63, 16]
  }

  lemma LeadingDashBlocks()
    ensures Base64Url.Quad(0xfb, 0xef, 0xbe) +
      Base64Url.Quad(0xfb, 0xef, 0xbe) +
      Base64Url.Quad(0x43, 0xef, 0xbf) +
      Base64Url.Quad(0xff, 0xff, 0xff) +
      Base64Url.Quad(0xff, 0xff, 0xff) +
      [0xfd / 4, (0xfd % 4) * 16] == LeadingDashValues()
  {
  }

  lemma LeadingDashChars()
    ensures Chars(LeadingDashValues()) == LeadingDashSlug()
  {
    var v, s := LeadingDashValues(), LeadingDashSlug();
    forall i | 0 <= i < 22 ensures v[i] < 64 && CharOf(v[i]) == s[i] {
    }
    CharsSpell(v, s);
  }

  /** A slug that begins with '-' and holds '_'; its UUID has the first bit set. */
  lemma EncodeLeadingDash()
    ensures Encode(LeadingDashUuid()) == LeadingDashSlug()
  {
    LeadingDashBlocks();
    EncodeByBlocks(LeadingDashUuid(), LeadingDashValues());
    LeadingDashChars();
  }

  /** Decoding that slug gives the UUID back. */
  lemma DecodeLeadingDash()
    ensures Decode(LeadingDashSlug()) == LeadingDashUuid()
  {
    EncodeLeadingDash();
    DecodeEncode(LeadingDashUuid());
  }
}
