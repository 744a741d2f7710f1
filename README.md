# Inform packet decoder, modelled in Dafny

This project models the decoder for the "inform" packets that managed UBNT
devices exchange with their controller (`src/informpacket.ts`). An inform
packet is a 40-byte big-endian header followed by a payload. The payload may be
encrypted (AES-CBC or AES-GCM), may be compressed (zlib or Snappy), and ends as
UTF-8 JSON.

The model has five modules:

- `Wrappers` (`wrappers.dfy`): `Option` and `Result`.
- `Primitives` (`primitives.dfy`): the JavaScript and Node operations the
  parser is built from. These are `readUint32BE`/`readUint16BE`,
  `Number.prototype.toString(radix)`, `padStart`, `join` and `reverse`.
- `InformFlags` (`flags.dfy`): decoding the 16-bit flag word the way the source
  does it, through its binary text. It also derives the encryption and
  compression methods. `Bit`/`SetBits` are an arithmetic reference that the
  text-based decoding is proved equal to.
- `InformHeader` (`header.dfy`): `readInformHeader` as a function returning
  `Result<InformPacketHeader, HeaderError>`, plus the MAC text and its inverse
  `ParseMac`.
- `InformPipeline` (`pipeline.dfy`): `decryptPacket`, `decompressPacket`, key
  selection, and `parseInformPacket` as a method. The method assigns `head`,
  `keyUsed`, `data` and `error` step by step, as the source does.

Foreign code is passed in as the function-valued fields of `Delegates<J>`,
where `J` is the type of a parsed JSON value. That covers WebCrypto key import
and decryption, `Buffer.from(key, "hex")`, the payload's backing buffer,
`inflateSync`, snappyjs `uncompress`, and `JSON.parse` of the decoded text. A
delegate result of `None` stands for an exception. The key provider is a plain
function from the MAC text to an optional string.

## Behaviour of the code worth knowing

- An unrecognised set flag bit (bit 4 or above) is recorded as `Unk_1`, not
  tagged with its bit index. The callback concatenates the digit `v`, which is
  always `"1"`, rather than the index `x` (`src/informpacket.ts:55`). So
  several unknown bits give several identical `Unk_1` entries.
- Without encryption, `decryptPacket` returns `new Uint8Array(header.payload.buffer)`.
  That is the payload's whole backing buffer, not the payload slice. The model
  keeps this as the abstract delegate `backingBuffer`.
- The code accepts packets shorter than 40 bytes as input:
  - fewer than 4 bytes fails at the magic read (`OutOfRange(0, _)`);
  - 4 to 39 bytes has its magic checked first, then fails at the length read
    (`OutOfRange(36, _)`).
- `keyUsed` is `"(default)"` when the chosen key equals `UBNT_DEFAULT_KEY`. It
  is also `"(default)"` when the provider itself returns the string
  `"(default)"`, because that string is then reported as is.
- `SelectKey` treats the empty string like `undefined`, since `""` is falsy.
- `dataType` is the raw 32-bit value at offset 32, not limited to the two
  enumerated tags.

## Model

| member | source | states |
|---|---|---|
| `Primitives.ReadUint32BE` | src/informpacket.ts:37 | a big-endian read of four bytes is an unsigned 32-bit value |
| `Primitives.ReadEncodeUint32BE` | src/informpacket.ts:40 | writing a 32-bit number big-endian and reading it back gives the number |
| `Primitives.EncodeReadUint32BE` | src/informpacket.ts:40 | the four bytes are recovered from the value read from them |
| `Primitives.ReadUint32BEInjective` | src/informpacket.ts:37 | two 4-byte windows read the same value iff they hold the same bytes |
| `Primitives.ReadUint16BEBytes` | src/informpacket.ts:45 | the value read from two bytes has the first byte as its high byte and the second as its low byte |
| `Primitives.ReadUint16BEInjective` | src/informpacket.ts:45 | two 2-byte windows read the same value iff they hold the same bytes |
| `Primitives.NumberToString` | src/informpacket.ts:46 | `toString(radix)` yields at least one character, exactly one when n < radix, and no leading zero for n > 0 |
| `Primitives.NumberToStringDigits` | src/informpacket.ts:46 | every character `toString(radix)` yields is a lower-case digit of that radix |
| `Primitives.NumberToStringValue` | src/informpacket.ts:66 | the digits printed for n denote n (printing and reading back is the identity) |
| `Primitives.PadStartShape` | src/informpacket.ts:66 | the padded text has length max(len, \|s\|), ends with s and is filled in front with the pad character |
| `Primitives.JoinPairs` | src/informpacket.ts:66 | joining n two-character parts with one separator puts the separator at each 3k+2 and part k at 3k, 3k+1 |
| `Primitives.Reverse` | src/informpacket.ts:48 | the reversed sequence holds element \|s\|-1-i at position i |
| `InformFlags.FlagsOfBits` | src/informpacket.ts:49-56 | one flag per bit position, in the same order, named as the source names bits 0-3 and `Unk_1` above |
| `InformFlags.DecodeFlagsExact` | src/informpacket.ts:44-57 | the text-based decoding (toString(2), reverse, map, filter) equals one flag per set bit of the word, in ascending bit order |
| `InformFlags.SetBitsMembers` | src/informpacket.ts:44-57 | the reference positions are exactly the set bits and are strictly ascending |
| `InformFlags.KnownFlagPresent` | src/informpacket.ts:50-54 | `Encrypted`, `Compressed`, `CompressedSnappy`, `EncryptedGCM` are present iff bit 0, 1, 2, 3 respectively is set |
| `InformFlags.UnknownFlagPresent` | src/informpacket.ts:55 | `Unk_1` is present iff some bit above bit 3 is set (the word is at least 16) |
| `InformFlags.DecodedFlagsAreKnownOrUnk1` | src/informpacket.ts:49-57 | cleared bits add nothing: there is one decoded entry per bit that is set, and every entry is one of the four names or `Unk_1` |
| `InformFlags.EncryptionOfWord` | src/informpacket.ts:67-70 | the encryption method is AES-GCM if bit 3 is set, else AES-CBC if bit 0 is set, else none |
| `InformFlags.CompressionOfWord` | src/informpacket.ts:71-74 | the compression method is Snappy if bit 2 is set, else zlib if bit 1 is set, else none |
| `InformFlags.UnknownBitsIgnored` | src/informpacket.ts:67-74 | bits 4-15 never change either derived method |
| `InformHeader.HexByteDigits` | src/informpacket.ts:66 | each MAC byte prints as exactly two lower-case hex digits, high nibble first |
| `InformHeader.MacChars` | src/informpacket.ts:66 | the MAC text of n bytes has length 3n-1, a colon at each 3k+2, and the two digits of byte k at 3k, 3k+1 |
| `InformHeader.MacShape` | src/informpacket.ts:66 | the MAC text of six bytes is 17 characters, lower-case hex with exactly five colons at positions 2, 5, 8, 11, 14 |
| `InformHeader.ParseFormatMac` | src/informpacket.ts:66 | parsing the MAC text gives back the six bytes |
| `InformHeader.FormatParseMac` | src/informpacket.ts:66 | canonical MAC text is the printed form of the bytes it parses to, so the format is a bijection |
| `InformHeader.ReadInformHeader` | src/informpacket.ts:34-86 | parsing succeeds iff the packet has 40 bytes, the magic is 1414414933 and the declared length fits after the header; then the payload is exactly bytes 40 to 40+payloadLength |
| `InformHeader.MagicCheckedFirst` | src/informpacket.ts:37-38 | once 4 bytes exist, the first four bytes differ from "TNBU" iff parsing fails with MagicMismatch carrying those bytes and their value, whatever follows |
| `InformHeader.TruncatedPayloadRejected` | src/informpacket.ts:40-41 | with a valid magic, a declared length over \|packet\|-40 fails with PayloadTooShort, and only then |
| `InformHeader.HeaderFieldPlacement` | src/informpacket.ts:60-80 | the raw header is bytes 0-39, version is the u32 at 4, iv is bytes 16-31 (always 16 bytes), dataType is the u32 at 32 |
| `InformHeader.HeaderFlags` | src/informpacket.ts:44-57 | the parsed flags are one entry per set bit of the u16 at offset 14, in ascending bit order |
| `InformHeader.HeaderMethods` | src/informpacket.ts:67-74 | the parsed methods follow bits 3/0 (GCM over CBC) and 2/1 (Snappy over zlib) of the u16 at offset 14 |
| `InformHeader.HeaderMac` | src/informpacket.ts:66 | the parsed `mac` is 17-character canonical text with five colons that parses back to bytes 8-13 |
| `InformHeader.VersionNeverRejects` | src/informpacket.ts:81-82 | replacing the version bytes never changes whether parsing succeeds (a nonzero version only warns) |
| `InformHeader.FlagsNeverReject` | src/informpacket.ts:58 | replacing the flag word never changes whether parsing succeeds (unknown flags only warn) |
| `InformHeader.ExamplePacketHeader` | src/informpacket.ts:34-86 | a flag-free packet from aa:bb:cc:dd:ee:ff with a 7-byte payload parses, with no flags, no encryption, no compression, that MAC and that payload |
| `InformPipeline.DecryptPacket` | src/informpacket.ts:88-94 | without encryption the backing buffer is returned; otherwise key import failure and decryption failure are errors, and the cipher gets the header's IV and the raw 40-byte header as additional data |
| `InformPipeline.DecryptNoneIgnoresKey` | src/informpacket.ts:90 | an unencrypted packet decrypts the same whatever the key |
| `InformPipeline.DecryptSeesIvAadPayload` | src/informpacket.ts:92-93 | an encrypted packet's decryption depends on the header only through method, IV, raw header and payload |
| `InformPipeline.DecompressPacket` | src/informpacket.ts:97-102 | `none` is the identity; zlib and Snappy return their decoder's output, and a decoder failure is an error with no output |
| `InformPipeline.SelectKey` | src/informpacket.ts:112-114 | the key is UBNT_DEFAULT_KEY iff the provider gave undefined, "" or that key; otherwise it is the provider's string |
| `InformPipeline.ParseInformPacket` | src/informpacket.ts:104-123 | a header failure leaves only `error`; otherwise `head` and `keyUsed` are set, `keyUsed` is "(default)" for the default key and the provider's string otherwise; the first failing stage is the error; `data` is present iff `error` is absent; an unencrypted, uncompressed packet's data is the JSON of its buffer |

## Left out

- AES-CBC and AES-GCM semantics: key import, GCM tag checking, and what
  decryption returns. These are WebCrypto calls, modelled as the abstract
  `importKey`/`decrypt` delegates. A tampered-header GCM failure and the
  encrypt/decrypt round trip are therefore not stated.
- zlib `inflateSync`, snappyjs `uncompress`, UTF-8 decoding and `JSON.parse`.
  These are foreign libraries, modelled as abstract, partial delegates.
- `Buffer.from(key, "hex")`. Node's hex decoding stops at the first bad pair
  and never throws, so it is a total abstract delegate `hexDecode`.
- The exact bytes of the "none"-encryption result. `header.payload.buffer` is
  the packet's backing `ArrayBuffer`, which depends on Node's buffer pooling.
  It is the abstract `backingBuffer` delegate.
- `console.warn` for unknown flags (`src/informpacket.ts:58`) and for a
  nonzero version (`src/informpacket.ts:82`). These are logging only; the model
  proves instead that neither condition causes a failure.
- Error message texts. Each `HeaderError` carries the data its message is
  built from (the magic bytes and value, the expected and available lengths),
  not the string.
- The unreachable `"Unknown compression method"` branch of `decompressPacket`.
  `CompressionMethod` has exactly the three handled cases.
- `await` on the key provider, and a provider that throws. The provider is a
  total function from MAC text to `Option<string>`.
- Buffer views and aliasing. `subarray` is modelled as a slice value.
- `src/index.ts` (the HTTP relay, MongoDB storage, `keys.txt` loading) is not
  part of this model: it is I/O glue.
- `src/types/InformPacket.ts` only repeats the type declarations of
  `src/informpacket.ts:6-28`.
- ExamplePacketHeader: states the example's MAC as `ParseMac(mac) == Some([0xaa, 0xbb, 0xcc, 0xdd, 0xee, 0xff])`
  rather than as the literal text `"aa:bb:cc:dd:ee:ff"`. By `FormatParseMac`
  this identifies the same text.
