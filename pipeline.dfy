/**
 * `decryptPacket`, `decompressPacket` and `parseInformPacket`: header, key
 * selection, decryption, decompression and JSON, in that order, with any
 * failure caught into the `error` field of the result.
 *
 * WebCrypto, zlib, Snappy, hex decoding and `JSON.parse` are foreign code:
 * they are the function-valued fields of `Delegates`, and `None` stands for
 * an exception thrown by one of them.
 */
module InformPipeline {
  import opened Wrappers
  import opened Primitives
  import opened InformFlags
  import opened InformHeader

  /** The default key of UBNT devices, `md5("ubnt")` in hex. */
  const UBNT_DEFAULT_KEY: string := "ba86f2bbe107c7c57eb5f2690775c712"
  /** What `keyUsed` reports when the default key was used. */
  const DEFAULT_KEY_LABEL: string := "(default)"

  datatype Delegates<J> = Delegates(
    /** `Buffer.from(key, "hex")`, which never throws. */
    hexDecode: string -> seq<byte>,
    /** `new Uint8Array(header.payload.buffer)`: the payload's whole backing buffer. */
    backingBuffer: InformPacketHeader -> seq<byte>,
    /** `subtle.importKey('raw', key, method, ...)` succeeds. */
    importKey: (EncryptionMethod, seq<byte>) -> bool,
    /** `subtle.decrypt({name: method, iv, additionalData}, key, data)`: method, key, iv, additional data, data. */
    decrypt: (EncryptionMethod, seq<byte>, seq<byte>, seq<byte>, seq<byte>) -> Option<seq<byte>>,
    /** `inflateSync`. */
    inflate: seq<byte> -> Option<seq<byte>>,
    /** snappyjs `uncompress`. */
    unsnappy: seq<byte> -> Option<seq<byte>>,
    /** `JSON.parse(buffer.toString())`. */
    parseJson: seq<byte> -> Option<J>)

  /** What the `catch` in `parseInformPacket` can receive. */
  datatype PacketError =
    | HeaderInvalid(cause: HeaderError)
    | KeyImportFailed(cipher: EncryptionMethod)
    | DecryptionFailed(cipher: EncryptionMethod)
    | DecompressionFailed(compression: CompressionMethod)
    | JsonInvalid

  /** `{ head, data, error, keyUsed }`, `None` for a field left `undefined`. */
  datatype PacketResult<J> = PacketResult(
    head: Option<HeaderFields>,
    data: Option<J>,
    error: Option<PacketError>,
    keyUsed: Option<string>)

  /**
   * `decryptPacket(header, key)`. Without encryption the payload's backing
   * buffer is returned and the key is not looked at; otherwise the key is
   * imported for the header's method and the payload decrypted with the
   * header's IV and the raw 40-byte header as additional data.
   */
  function DecryptPacket<J>(d: Delegates<J>, header: InformPacketHeader, key: seq<byte>): (r: Result<seq<byte>, PacketError>)
    ensures header.fields.encryptionMethod == NoEncryption ==> r == Success(d.backingBuffer(header))
    ensures header.fields.encryptionMethod != NoEncryption ==>
      var m := header.fields.encryptionMethod;
      (!d.importKey(m, key) ==> r == Failure(KeyImportFailed(m))) &&
      (d.importKey(m, key) ==>
        var plain := d.decrypt(m, key, header.fields.iv, header.rawHeader, header.payload);
        r == if plain.Some? then Success(plain.value) else Failure(DecryptionFailed(m)))
  {
    var m := header.fields.encryptionMethod;
    if m == NoEncryption then Success(d.backingBuffer(header))
    else if !d.importKey(m, key) then Failure(KeyImportFailed(m))
    else
      match d.decrypt(m, key, header.fields.iv, header.rawHeader, header.payload)
      case Some(plain) => Success(plain)
      case None => Failure(DecryptionFailed(m))
  }

  /** The key makes no difference to a packet that is not encrypted. */
  lemma DecryptNoneIgnoresKey<J>(d: Delegates<J>, header: InformPacketHeader, k1: seq<byte>, k2: seq<byte>)
    requires header.fields.encryptionMethod == NoEncryption
    ensures DecryptPacket(d, header, k1) == DecryptPacket(d, header, k2)
  {
  }

  /**
   * An encrypted packet's decryption sees the header only through its method,
   * IV, raw header bytes (the additional data) and payload.
   */
  lemma DecryptSeesIvAadPayload<J>(d: Delegates<J>, h1: InformPacketHeader, h2: InformPacketHeader, key: seq<byte>)
    requires h1.fields.encryptionMethod == h2.fields.encryptionMethod != NoEncryption
    requires h1.fields.iv == h2.fields.iv && h1.rawHeader == h2.rawHeader && h1.payload == h2.payload
    ensures DecryptPacket(d, h1, key) == DecryptPacket(d, h2, key)
  {
  }

  /**
   * `decompressPacket(method, compressed)`: `none` is the identity, zlib and
   * Snappy hand the bytes to their decoder, whose failure gives no output.
   */
  function DecompressPacket<J>(d: Delegates<J>, compression: CompressionMethod, compressed: seq<byte>): (r: Result<seq<byte>, PacketError>)
    ensures compression == NoCompression ==> r == Success(compressed)
    ensures compression == Zlib ==>
      r == if d.inflate(compressed).Some? then Success(d.inflate(compressed).value) else Failure(DecompressionFailed(Zlib))
    ensures compression == Snappy ==>
      r == if d.unsnappy(compressed).Some? then Success(d.unsnappy(compressed).value) else Failure(DecompressionFailed(Snappy))
  {
    match compression
    case Zlib =>
      (match d.inflate(compressed)
       case Some(out) => Success(out)
       case None => Failure(DecompressionFailed(Zlib)))
    case Snappy =>
      (match d.unsnappy(compressed)
       case Some(out) => Success(out)
       case None => Failure(DecompressionFailed(Snappy)))
    case NoCompression => Success(compressed)
  }

  /**
   * `await keyProvider(mac) || UBNT_DEFAULT_KEY`: `undefined` and `""` are
   * falsy and fall back to the default key; any other string is used as is.
   */
  function SelectKey(provided: Option<string>): (key: string)
    ensures key != ""
    ensures key == UBNT_DEFAULT_KEY <==>
      provided == None || provided == Some("") || provided == Some(UBNT_DEFAULT_KEY)
    ensures key != UBNT_DEFAULT_KEY ==> provided == Some(key)
  {
    match provided
    case Some(k) => if k != "" then k else UBNT_DEFAULT_KEY
    case None => UBNT_DEFAULT_KEY
  }

  /**
   * `parseInformPacket(packet, keyProvider)`. The fields are declared
   * `undefined`, then assigned stage by stage; the first stage that fails
   * sets `error` and leaves every later field as it was.
   */
  method ParseInformPacket<J>(packet: seq<byte>, keyProvider: string -> Option<string>, d: Delegates<J>)
    returns (result: PacketResult<J>)
    // A header that does not parse leaves everything but `error` undefined.
    ensures ReadInformHeader(packet).Failure? ==>
      result == PacketResult(None, None, Some(HeaderInvalid(ReadInformHeader(packet).error)), None)
    // Which fields are present.
    ensures result.head.Some? <==> ReadInformHeader(packet).Success?
    ensures result.keyUsed.Some? <==> result.head.Some?
    ensures result.data.Some? <==> result.error.None?
    ensures result.head.Some? ==> result.head.value == ReadInformHeader(packet).value.fields
    // Key selection and the label reported for it.
    ensures ReadInformHeader(packet).Success? ==>
      var provided := keyProvider(ReadInformHeader(packet).value.fields.mac);
      var key := SelectKey(provided);
      (provided == None || provided == Some("") ==> result.keyUsed == Some(DEFAULT_KEY_LABEL)) &&
      (key == UBNT_DEFAULT_KEY ==> result.keyUsed == Some(DEFAULT_KEY_LABEL)) &&
      (key != UBNT_DEFAULT_KEY ==> result.keyUsed == provided)
    // The stages, in order: the first failure is the error, and data only when all succeed.
    ensures ReadInformHeader(packet).Success? ==>
      var h := ReadInformHeader(packet).value;
      var decrypted := DecryptPacket(d, h, d.hexDecode(SelectKey(keyProvider(h.fields.mac))));
      (decrypted.Failure? ==> result.error == Some(decrypted.error)) &&
      (decrypted.Success? ==>
        var decompressed := DecompressPacket(d, h.fields.compressionMethod, decrypted.value);
        (decompressed.Failure? ==> result.error == Some(decompressed.error)) &&
        (decompressed.Success? ==>
          result.data == d.parseJson(decompressed.value) &&
          (result.error == Some(JsonInvalid) <==> result.data.None?)))
    // A packet that is neither encrypted nor compressed is parsed straight from its buffer.
    ensures (ReadInformHeader(packet).Success? &&
             ReadInformHeader(packet).value.fields.encryptionMethod == NoEncryption &&
             ReadInformHeader(packet).value.fields.compressionMethod == NoCompression) ==>
      result.data == d.parseJson(d.backingBuffer(ReadInformHeader(packet).value))
  {
    var head: Option<HeaderFields> := None;
    var keyUsed: Option<string> := None;
    var data: Option<J> := None;
    var error: Option<PacketError> := None;

    var header := ReadInformHeader(packet);
    if header.Failure? {
      error := Some(HeaderInvalid(header.error));
    } else {
      head := Some(header.value.fields);
      var key := SelectKey(keyProvider(header.value.fields.mac));
      keyUsed := Some(key);
      if key == UBNT_DEFAULT_KEY {
        keyUsed := Some(DEFAULT_KEY_LABEL);
      }
      var decrypted := DecryptPacket(d, header.value, d.hexDecode(key));
      if decrypted.Failure? {
        error := Some(decrypted.error);
      } else {
        var decompressed := DecompressPacket(d, header.value.fields.compressionMethod, decrypted.value);
        if decompressed.Failure? {
          error := Some(decompressed.error);
        } else {
          data := d.parseJson(decompressed.value);
          if data.None? {
            error := Some(JsonInvalid);
          }
        }
      }
    }
    result := PacketResult(head, data, error, keyUsed);
  }
}
