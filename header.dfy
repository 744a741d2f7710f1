/**
 * `readInformHeader`: the fixed 40-byte inform header.
 *
 *   offset  size  field
 *        0     4  magic "TNBU" (1414414933)
 *        4     4  version
 *        8     6  MAC address
 *       14     2  flag word
 *       16    16  IV
 *       32     4  data type
 *       36     4  payload length
 *       40     n  payload
 *
 * All integers are big-endian. Reads past the end of the header raise a
 * Node `RangeError` in the source; here that is the `OutOfRange` error.
 */
module InformHeader {
  import opened Wrappers
  import opened Primitives
  import opened InformFlags

  const MAGIC: nat := 1414414933
  /** The magic as it appears on the wire: the characters `T`, `N`, `B`, `U`. */
  const TNBU: seq<byte> := [84, 78, 66, 85]
  const HEADER_LENGTH: nat := 40

  datatype HeaderError =
    | OutOfRange(offset: nat, length: nat)     // a 4-byte read at `offset` of a `length`-byte header
    | MagicMismatch(magic: seq<byte>, value: nat)
    | PayloadTooShort(expected: nat, available: nat)

  /** `InformPacketHeader.fields`. */
  datatype HeaderFields = HeaderFields(
    version: nat,
    mac: string,
    encryptionMethod: EncryptionMethod,
    compressionMethod: CompressionMethod,
    iv: seq<byte>,
    dataType: nat,
    flags: seq<Flag>,
    payloadLength: nat)

  /** `InformPacketHeader`: the packet, its first 40 bytes, the payload and the fields. */
  datatype InformPacketHeader = InformPacketHeader(
    rawPacket: seq<byte>,
    rawHeader: seq<byte>,
    payload: seq<byte>,
    fields: HeaderFields)

  // ---------------------------------------------------------------------------
  // MAC address text
  // ---------------------------------------------------------------------------

  /** `b.toString(16).padStart(2, '0')`. */
  function HexByte(b: byte): string {
    PadStart(NumberToString(b, 16), 2, '0')
  }

  /** `[...bytes].map(HexByte)`. */
  function HexBytes(bytes: seq<byte>): (parts: seq<string>)
    ensures |parts| == |bytes|
  {
    seq(|bytes|, i requires 0 <= i < |bytes| => HexByte(bytes[i]))
  }

  /** `[...bytes].map(HexByte).join(":")`. */
  function FormatMac(bytes: seq<byte>): string {
    Join(HexBytes(bytes), ":")
  }

  /** Canonical MAC text: 17 characters, `:` at every third position, lower-case hex elsewhere. */
  predicate IsMacText(s: string) {
    |s| == 17 &&
    forall i :: 0 <= i < 17 ==> if i % 3 == 2 then s[i] == ':' else IsDigit(s[i], 16)
  }

  /** Reads canonical MAC text back into its six bytes. */
  function ParseMac(s: string): Option<seq<byte>> {
    if IsMacText(s) then
      Some(seq(6, k requires 0 <= k < 6 =>
        assert IsDigit(s[3 * k], 16) && IsDigit(s[3 * k + 1], 16);
        DigitValue(s[3 * k]) * 16 + DigitValue(s[3 * k + 1])))
    else None
  }

  /** Every byte prints as exactly two lower-case hex digits, high nibble first. */
  lemma HexByteDigits(b: byte)
    ensures HexByte(b) == [DigitChar(b / 16), DigitChar(b % 16)]
  {
    if b >= 16 {
      assert NumberToString(b, 16) == NumberToString(b / 16, 16) + [DigitChar(b % 16)];
    } else {
      assert NumberToString(b, 16) == [DigitChar(b)];
      assert PadStart([DigitChar(b)], 2, '0') == PadStart(['0', DigitChar(b)], 2, '0');
    }
  }

  lemma DigitCharOfValue(c: char)
    requires IsDigit(c, 16)
    ensures DigitChar(DigitValue(c)) == c
  {
  }

  /** Position `i` of the text of `bytes`: a colon, or a digit of byte `i / 3`. */
  lemma MacChars(bytes: seq<byte>)
    requires |bytes| >= 1
    ensures |FormatMac(bytes)| == 3 * |bytes| - 1
    ensures forall i :: 0 <= i < 3 * |bytes| - 1 ==>
      FormatMac(bytes)[i] ==
        if i % 3 == 2 then ':'
        else if i % 3 == 0 then DigitChar(bytes[i / 3] / 16)
        else DigitChar(bytes[i / 3] % 16)
  {
    var parts := HexBytes(bytes);
    forall k | 0 <= k < |bytes|
      ensures parts[k] == [DigitChar(bytes[k] / 16), DigitChar(bytes[k] % 16)]
    {
      HexByteDigits(bytes[k]);
    }
    JoinPairs(parts, ':');
  }

  /** The text of six bytes is canonical MAC text: length 17 with exactly five colons. */
  lemma MacShape(bytes: seq<byte>)
    requires |bytes| == 6
    ensures IsMacText(FormatMac(bytes))
    ensures forall i :: 0 <= i < |FormatMac(bytes)| ==> (FormatMac(bytes)[i] == ':' <==> i % 3 == 2)
  {
    MacChars(bytes);
    var mac := FormatMac(bytes);
    forall i | 0 <= i < 17 && i % 3 != 2
      ensures IsDigit(mac[i], 16)
    {
      DigitValueOfChar(bytes[i / 3] / 16);
      DigitValueOfChar(bytes[i / 3] % 16);
    }
  }

  /** Parsing the printed MAC gives back the six bytes. */
  lemma ParseFormatMac(bytes: seq<byte>)
    requires |bytes| == 6
    ensures ParseMac(FormatMac(bytes)) == Some(bytes)
  {
    MacShape(bytes);
    MacChars(bytes);
    var mac := FormatMac(bytes);
    var back := ParseMac(mac).value;
    forall k | 0 <= k < 6 ensures back[k] == bytes[k] {
      assert (3 * k) / 3 == k && (3 * k) % 3 == 0 && (3 * k + 1) / 3 == k && (3 * k + 1) % 3 == 1;
      assert mac[3 * k] == DigitChar(bytes[k] / 16) && mac[3 * k + 1] == DigitChar(bytes[k] % 16);
      DigitValueOfChar(bytes[k] / 16);
      DigitValueOfChar(bytes[k] % 16);
    }
    assert back == bytes;
  }

  /** The two digits of byte `k` of parsed MAC text print back as they were. */
  lemma ParsedByteDigits(s: string, k: nat)
    requires IsMacText(s) && k < 6
    ensures DigitChar(ParseMac(s).value[k] / 16) == s[3 * k]
    ensures DigitChar(ParseMac(s).value[k] % 16) == s[3 * k + 1]
  {
    assert (3 * k) % 3 == 0 && (3 * k + 1) % 3 == 1;
    var hi, lo := DigitValue(s[3 * k]), DigitValue(s[3 * k + 1]);
    var b := ParseMac(s).value[k];
    assert b == hi * 16 + lo;
    assert b / 16 == hi && b % 16 == lo;
    DigitCharOfValue(s[3 * k]);
    DigitCharOfValue(s[3 * k + 1]);
  }

  /** Canonical MAC text is the printed form of the bytes it parses to. */
  lemma FormatParseMac(s: string)
    requires IsMacText(s)
    ensures ParseMac(s).Some? && FormatMac(ParseMac(s).value) == s
  {
    var bytes := ParseMac(s).value;
    MacChars(bytes);
    var mac := FormatMac(bytes);
    forall i | 0 <= i < 17 ensures mac[i] == s[i] {
      if i % 3 != 2 {
        ParsedByteDigits(s, i / 3);
        assert i == 3 * (i / 3) + i % 3;
      }
    }
  }

  // ---------------------------------------------------------------------------
  // The header parser
  // ---------------------------------------------------------------------------

  /** The packets `readInformHeader` accepts: a full header, the magic, and a payload length that fits. */
  predicate HeaderAccepts(packet: seq<byte>) {
    |packet| >= HEADER_LENGTH && ReadUint32BE(packet, 0) == MAGIC &&
    ReadUint32BE(packet, 36) <= |packet| - HEADER_LENGTH
  }

  /**
   * `readInformHeader(packet)`. `packet.subarray(0, 40)` clamps to the packet,
   * so a short packet fails at the first read that does not fit.
   */
  function ReadInformHeader(packet: seq<byte>): (r: Result<InformPacketHeader, HeaderError>)
    ensures r.Success? <==> HeaderAccepts(packet)
    ensures r.Success? ==>
      r.value.fields.payloadLength == ReadUint32BE(packet, 36) &&
      r.value.payload == packet[HEADER_LENGTH..HEADER_LENGTH + r.value.fields.payloadLength] &&
      |r.value.payload| == r.value.fields.payloadLength
  {
    // `header` is a view of the packet's first (at most) 40 bytes, so a read at
    // an offset below 40 sees the packet's own byte there.
    var headerLength := if |packet| < HEADER_LENGTH then |packet| else HEADER_LENGTH;
    if headerLength < 4 then Failure(OutOfRange(0, headerLength))
    else if ReadUint32BE(packet, 0) != MAGIC then
      Failure(MagicMismatch(packet[..4], ReadUint32BE(packet, 0)))
    else if headerLength < HEADER_LENGTH then Failure(OutOfRange(36, headerLength))
    else
      var payloadLength := ReadUint32BE(packet, 36);
      if payloadLength > |packet| - HEADER_LENGTH then
        Failure(PayloadTooShort(payloadLength, |packet| - HEADER_LENGTH))
      else
        var flags := DecodeFlags(ReadUint16BE(packet, 14));
        Success(InformPacketHeader(
          rawPacket := packet,
          rawHeader := packet[..HEADER_LENGTH],
          payload := packet[HEADER_LENGTH..payloadLength + HEADER_LENGTH],
          fields := HeaderFields(
            version := ReadUint32BE(packet, 4),
            mac := FormatMac(packet[8..14]),
            encryptionMethod := EncryptionOf(flags),
            compressionMethod := CompressionOf(flags),
            iv := packet[16..32],
            dataType := ReadUint32BE(packet, 32),
            flags := flags,
            payloadLength := payloadLength)))
  }

  /** The flag word a successfully parsed header was decoded from. */
  function FlagWord(packet: seq<byte>): nat
    requires |packet| >= HEADER_LENGTH
  {
    ReadUint16BE(packet, 14)
  }

  /**
   * The magic is checked before anything else that can fail: whenever the
   * first four bytes are not "TNBU", parsing fails with `MagicMismatch`
   * whatever the rest of the packet holds, and only then.
   */
  lemma MagicCheckedFirst(packet: seq<byte>)
    requires |packet| >= 4
    ensures packet[..4] != TNBU <==>
      ReadInformHeader(packet) == Failure(MagicMismatch(packet[..4], ReadUint32BE(packet, 0)))
  {
    ReadUint32BEInjective(packet, 0, TNBU, 0);
    assert TNBU[0..4] == TNBU;
    assert packet[0..4] == packet[..4];
  }

  /** A declared payload longer than what follows the header fails with `PayloadTooShort`, and only it. */
  lemma TruncatedPayloadRejected(packet: seq<byte>)
    requires |packet| >= HEADER_LENGTH
    requires packet[..4] == TNBU
    ensures ReadUint32BE(packet, 36) > |packet| - HEADER_LENGTH <==>
      ReadInformHeader(packet) ==
        Failure(PayloadTooShort(ReadUint32BE(packet, 36), |packet| - HEADER_LENGTH))
  {
    MagicCheckedFirst(packet);
  }

  /**
   * Where each field comes from: version, IV and data type at fixed offsets
   * (the IV even without encryption), the whole header kept as raw bytes,
   * and the flags one per set bit of the flag word, in ascending bit order.
   */
  lemma HeaderFieldPlacement(packet: seq<byte>)
    requires HeaderAccepts(packet)
    ensures ReadInformHeader(packet).value.rawPacket == packet
    ensures ReadInformHeader(packet).value.rawHeader == packet[..HEADER_LENGTH]
    ensures ReadInformHeader(packet).value.fields.version == ReadUint32BE(packet, 4)
    ensures ReadInformHeader(packet).value.fields.iv == packet[16..32]
    ensures |ReadInformHeader(packet).value.fields.iv| == 16
    ensures ReadInformHeader(packet).value.fields.dataType == ReadUint32BE(packet, 32)
  {
  }

  /** The flags hold one entry per set bit of the flag word, in ascending bit order. */
  lemma HeaderFlags(packet: seq<byte>)
    requires HeaderAccepts(packet)
    ensures ReadInformHeader(packet).value.fields.flags == FlagsOfBits(SetBits(FlagWord(packet), 0))
  {
    assert ReadInformHeader(packet).value.fields.flags == DecodeFlags(FlagWord(packet));
    DecodeFlagsExact(FlagWord(packet));
  }

  /** The methods follow the flag bits, GCM over CBC and Snappy over zlib. */
  lemma HeaderMethods(packet: seq<byte>)
    requires HeaderAccepts(packet)
    ensures var h := ReadInformHeader(packet).value;
      h.fields.encryptionMethod ==
        (if Bit(FlagWord(packet), 3) then AesGcm
         else if Bit(FlagWord(packet), 0) then AesCbc
         else NoEncryption) &&
      h.fields.compressionMethod ==
        (if Bit(FlagWord(packet), 2) then Snappy
         else if Bit(FlagWord(packet), 1) then Zlib
         else NoCompression)
  {
    EncryptionOfWord(FlagWord(packet));
    CompressionOfWord(FlagWord(packet));
  }

  /** The `mac` field is the canonical text of bytes 8-13 and parses back to them. */
  lemma HeaderMac(packet: seq<byte>)
    requires HeaderAccepts(packet)
    ensures var mac := ReadInformHeader(packet).value.fields.mac;
      |mac| == 17 && IsMacText(mac) &&
      (forall i :: 0 <= i < 17 ==> (mac[i] == ':' <==> i % 3 == 2)) &&
      ParseMac(mac) == Some(packet[8..14])
  {
    MacShape(packet[8..14]);
    ParseFormatMac(packet[8..14]);
  }

  /** The version field never decides acceptance: bytes 4-7 can be replaced freely. */
  lemma VersionNeverRejects(packet: seq<byte>, version: seq<byte>)
    requires |packet| >= 8 && |version| == 4
    ensures ReadInformHeader(packet[..4] + version + packet[8..]).Success? ==
            ReadInformHeader(packet).Success?
  {
    var other := packet[..4] + version + packet[8..];
    assert |other| == |packet|;
    assert other[..4] == packet[..4];
    if |packet| >= HEADER_LENGTH {
      assert other[36..40] == packet[36..40];
      ReadUint32BEInjective(other, 36, packet, 36);
    }
    ReadUint32BEInjective(other, 0, packet, 0);
  }

  /** The unrecognised flag bits (4-15) never decide acceptance either. */
  lemma FlagsNeverReject(packet: seq<byte>, flagWord: seq<byte>)
    requires |packet| >= 16 && |flagWord| == 2
    ensures ReadInformHeader(packet[..14] + flagWord + packet[16..]).Success? ==
            ReadInformHeader(packet).Success?
  {
    var other := packet[..14] + flagWord + packet[16..];
    assert |other| == |packet|;
    assert other[..4] == packet[..4];
    if |packet| >= HEADER_LENGTH {
      assert other[36..40] == packet[36..40];
      ReadUint32BEInjective(other, 36, packet, 36);
    }
    ReadUint32BEInjective(other, 0, packet, 0);
  }

  // ---------------------------------------------------------------------------
  // A worked example
  // ---------------------------------------------------------------------------

  const EXAMPLE_MAC: seq<byte> := [0xaa, 0xbb, 0xcc, 0xdd, 0xee, 0xff]
  const EXAMPLE_IV: seq<byte> := [1, 2, 3, 4, 5, 6, 7, 8, 9, 10, 11, 12, 13, 14, 15, 16]
  /** The UTF-8 bytes of `{"a":1}`. */
  const EXAMPLE_PAYLOAD: seq<byte> := [123, 34, 97, 34, 58, 49, 125]

  /** A packet from device aa:bb:cc:dd:ee:ff, version 0, no flags, data type 1, carrying `{"a":1}`. */
  const EXAMPLE_PACKET: seq<byte> :=
    TNBU + [0, 0, 0, 0] + EXAMPLE_MAC + [0, 0] + EXAMPLE_IV + [0, 0, 0, 1] + [0, 0, 0, 7] + EXAMPLE_PAYLOAD

  lemma ExamplePacketHeader()
    ensures ReadInformHeader(EXAMPLE_PACKET).Success?
    ensures ParseMac(ReadInformHeader(EXAMPLE_PACKET).value.fields.mac) == Some(EXAMPLE_MAC)
    ensures ReadInformHeader(EXAMPLE_PACKET).value.fields.flags == []
    ensures ReadInformHeader(EXAMPLE_PACKET).value.fields.encryptionMethod == NoEncryption
    ensures ReadInformHeader(EXAMPLE_PACKET).value.fields.compressionMethod == NoCompression
    ensures ReadInformHeader(EXAMPLE_PACKET).value.payload == EXAMPLE_PAYLOAD
  {
    var p := EXAMPLE_PACKET;
    assert |p| == 47;
    assert p[..4] == TNBU;
    assert p[8..14] == EXAMPLE_MAC;
    assert p[14..16] == [0, 0];
    assert p[36..40] == [0, 0, 0, 7];
    assert p[40..47] == EXAMPLE_PAYLOAD;
    assert ReadUint32BE(p, 0) == MAGIC by {
      assert p[0] == 84 && p[1] == 78 && p[2] == 66 && p[3] == 85;
    }
    assert ReadUint32BE(p, 36) == 7 by {
      assert p[36] == 0 && p[37] == 0 && p[38] == 0 && p[39] == 7;
    }
    assert FlagWord(p) == 0 by {
      assert p[14] == 0 && p[15] == 0;
    }
    HeaderFlags(p);
    HeaderMethods(p);
    assert !Bit(0, 0) && !Bit(0, 1) && !Bit(0, 2) && !Bit(0, 3);
    HeaderMac(p);
  }
}
