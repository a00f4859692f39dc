# slugid: UUIDs as 22-character slugs

This project models the codec at the heart of `slugid-go`. `slugid.Encode`
turns a 16-byte UUID into a 22-character slug, and `slugid.Decode` turns the
slug back into the UUID. The model follows what the package's tests pin down:

- the bit diagrams of `TestEncode` and `TestDecode`;
- the fixed UUID/slug pairs of the examples and tests;
- the two round-trip tests.

A slug is the unpadded URL-safe Base64 spelling of the UUID. The encoder
reads the 128 bits of the UUID most significant first and appends four zero
bits to reach 132. It then writes each consecutive 6-bit group as one
character of the alphabet of section 5 of RFC 4648 (`A`-`Z`, `a`-`z`,
`0`-`9`, `-`, `_`). Decoding reads the 22 groups back and keeps the first 128
bits.

Modules:

- `Bits` converts between numbers and fixed-width bit strings, most
  significant bit first. `Pack` cuts a bit string into fixed-width groups and
  `Unpack` joins them back.
- `Alphabet` holds the 64-character alphabet and its maps in both
  directions.
- `Base64Url` is an independent reference definition of unpadded Base64, in
  the shift-and-mask form of section 4 of RFC 4648. The slug encoder is
  proved equal to it.
- `Slugid` holds `Encode`, `Decode` and their laws.
- `Vectors` holds the test vectors as byte and string literals.

A UUID is a sequence of 16 numbers below 256. A slug is a string; `Decode`
accepts any 22 characters of the alphabet.

The character row of the `TestDecode` diagram (slugid/slugid_test.go:53)
shows three `-` after the first `Q` and nine `_`. The bit row above it
(:51) and the slug literal the test decodes (:54) both give two `-` and ten
`_`. The model follows the bits and the literal.

## Model

| member | source | states |
|---|---|---|
| `Slugid.Encode` | slugid/slugid_test.go:36-38 | The slug has 22 characters, all from the alphabet, and the bits it spells are the 128 UUID bits, most significant first, followed by four zero bits. |
| `Slugid.Decode` | slugid/slugid_test.go:51-56 | The bits of the decoded UUID are the first 128 of the 132 bits the slug spells. |
| `Slugid.EncodeLayout` | slugid/slugid_test.go:36-38 | Each three bytes become four characters by regrouping 24 bits into four 6-bit groups. The last byte becomes two characters: its top six bits, then its low two bits followed by four zero bits. |
| `Slugid.EncodeIsBase64Url` | slugid/slugid_test.go:36-38 | The slug of a UUID is the unpadded URL-safe Base64 text of its 16 bytes, as computed by the reference definition. |
| `Slugid.EncodeLastChar` | slugid/slugid_test.go:36-38 | The last character of every slug has a value that is a multiple of 16: its low four bits are the padding zeros. |
| `Slugid.DecodeEncode` | slugid/slugid_test.go:63-73 | Decoding the slug of any UUID gives that UUID back. |
| `Slugid.EncodeDecode` | slugid/slugid_test.go:75-85 | Encoding the decoded form of a slug gives the slug back exactly when its last character's value is a multiple of 16. So it holds for every slug the encoder can produce, and fails for every other slug. |
| `Slugid.SlugDecodeEncode` | slugid/slugid_test.go:75-85 | Decoding and then re-encoding any slug the encoder produced gives that slug. |
| `Alphabet.ValueOfCharOf` | slugid/slugid_test.go:38 | The character for each value 0..63 reads back as that value. |
| `Alphabet.CharOfValueOf` | slugid/slugid_test.go:53 | Each alphabet character is the character of the value it reads as, so no two values share a character. |
| `Vectors.EncodeExample` | slugid/slugid_test.go:22-25 | `796220c0-c831-49f7-9743-7ea23db3b189` encodes to `eWIgwMgxSfeXQ36iPbOxiQ`. |
| `Vectors.DecodeExample` | slugid/slugid_test.go:17-20 | `eWIgwMgxSfeXQ36iPbOxiQ` decodes to `796220c0-c831-49f7-9743-7ea23db3b189`. |
| `Vectors.EncodeFirstBitSet` | slugid/slugid_test.go:34-46 | `804f3fc8-dfcb-4b06-89fb-aefad5e18754` encodes to `gE8_yN_LSwaJ-6761eGHVA`, which holds both `-` and `_` and ends in `A`. |
| `Vectors.EncodeLeadingDash` | slugid/slugid_test.go:51-55 | `fbefbefb-efbe-43ef-bfff-fffffffffffd` encodes to `--------Q--__________Q`. |
| `Vectors.DecodeLeadingDash` | slugid/slugid_test.go:50-60 | `--------Q--__________Q`, which begins with `-`, decodes to `fbefbefb-efbe-43ef-bfff-fffffffffffd`. |

## Left out

- The implementation of `slugid.Encode` and `slugid.Decode` is not part of this model. Their behaviour is taken from the tests and their diagrams.
- Decode: requires a well-formed slug (22 characters of the alphabet). Its behaviour on any other string is not shown, and no error result is modelled.
- Random generation (`slugid.V4`, `slugid.Nice`, `uuid.NewRandom`) draws entropy from the system. It is not modelled, and neither are the version and variant bits it sets.
- Parsing and printing UUIDs as text (`uuid.Parse`, `String`, `fmt`) belongs to other libraries. The model takes a UUID as its 16 bytes.
- The 10000-trial loops and the `testing.T` reporting are test harness. Their assertions are stated as lemmas over all UUIDs and all slugs.
