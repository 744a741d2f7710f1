/**
 * The 16-bit flag word of an inform header (offset 14) and the encryption and
 * compression methods derived from it.
 *
 * The source decodes the word through its binary text: `toString(2)`, split
 * into characters, reversed so that index `x` is bit `x`, each `"1"` mapped to
 * a flag name and every `"0"` dropped. `Bit` and `SetBits` below are the
 * arithmetic reference the text-based decoding is proved against.
 */
module InformFlags {
  import opened Wrappers
  import opened Primitives

  /** `InformPacketFlag`: the four known names and `Unk_<suffix>`. */
  datatype Flag = Encrypted | Compressed | CompressedSnappy | EncryptedGCM | Unk(suffix: string)

  datatype EncryptionMethod = NoEncryption | AesGcm | AesCbc

  datatype CompressionMethod = NoCompression | Zlib | Snappy

  /** The flag an unrecognised set bit produces: `"Unk_" + v` with `v == "1"`. */
  const UNKNOWN_FLAG: Flag := Unk("1")

  // ---------------------------------------------------------------------------
  // The decoding as the source writes it
  // ---------------------------------------------------------------------------

  /** The callback given to `map`: digit `v` at index `x` of the reversed text. */
  function FlagOfDigit(v: char, x: nat): Option<Flag> {
    if v == '1' then
      Some(if x == 0 then Encrypted
           else if x == 1 then Compressed
           else if x == 2 then CompressedSnappy
           else if x == 3 then EncryptedGCM
           else Unk([v]))
    else None
  }

  /** `map` followed by `filter(a => !!a)`, with indices counted from `x`. */
  function CollectFlags(digits: string, x: nat): seq<Flag>
    decreases |digits|
  {
    if digits == [] then []
    else
      (match FlagOfDigit(digits[0], x)
       case Some(f) => [f]
       case None => [])
      + CollectFlags(digits[1..], x + 1)
  }

  /** The flag list of a header word: its binary text read least significant digit first, one entry per `1`. */
  function DecodeFlags(word: nat): seq<Flag> {
    CollectFlags(Reverse(NumberToString(word, 2)), 0)
  }

  /** AES-GCM if `EncryptedGCM` is present, else AES-CBC if `Encrypted` is present, else none. */
  function EncryptionOf(flags: seq<Flag>): EncryptionMethod {
    if EncryptedGCM in flags then AesGcm
    else if Encrypted in flags then AesCbc
    else NoEncryption
  }

  /** Snappy if `CompressedSnappy` is present, else zlib if `Compressed` is present, else none. */
  function CompressionOf(flags: seq<Flag>): CompressionMethod {
    if CompressedSnappy in flags then Snappy
    else if Compressed in flags then Zlib
    else NoCompression
  }

  // ---------------------------------------------------------------------------
  // Arithmetic reference: bit positions
  // ---------------------------------------------------------------------------

  /** Whether bit `i` (bit 0 the least significant) of `w` is set. */
  predicate Bit(w: nat, i: nat)
    decreases i
  {
    if i == 0 then w % 2 == 1 else Bit(w / 2, i - 1)
  }

  /** The positions of the set bits of `w`, numbered from `i`, in ascending order. */
  function SetBits(w: nat, i: nat): seq<nat>
    decreases w
  {
    if w == 0 then []
    else (if w % 2 == 1 then [i] else []) + SetBits(w / 2, i + 1)
  }

  /** The flag the source assigns to a set bit at position `i`. */
  function FlagOfBit(i: nat): Flag {
    if i == 0 then Encrypted
    else if i == 1 then Compressed
    else if i == 2 then CompressedSnappy
    else if i == 3 then EncryptedGCM
    else UNKNOWN_FLAG
  }

  /** `FlagOfBit` applied to every position. */
  function FlagsOfBits(ps: seq<nat>): (fs: seq<Flag>)
    ensures |fs| == |ps|
    ensures forall k :: 0 <= k < |ps| ==> fs[k] == FlagOfBit(ps[k])
    decreases |ps|
  {
    if ps == [] then [] else [FlagOfBit(ps[0])] + FlagsOfBits(ps[1..])
  }

  // ---------------------------------------------------------------------------
  // Lemmas
  // ---------------------------------------------------------------------------

  /** The binary digits of `w`, least significant first. */
  function LsbDigits(w: nat): string
    decreases w
  {
    [DigitChar(w % 2)] + (if w < 2 then [] else LsbDigits(w / 2))
  }

  lemma ReverseSnoc(s: string, c: char)
    ensures Reverse(s + [c]) == [c] + Reverse(s)
  {
    var r, e := Reverse(s + [c]), [c] + Reverse(s);
    assert |r| == |e|;
    forall i | 0 <= i < |r| ensures r[i] == e[i] {
      if i > 0 {
        assert r[i] == s[|s| - i];
      }
    }
  }

  lemma {:induction false} ReversedBinary(w: nat)
    ensures Reverse(NumberToString(w, 2)) == LsbDigits(w)
    decreases w
  {
    if w >= 2 {
      var prefix := NumberToString(w / 2, 2);
      assert NumberToString(w, 2) == prefix + [DigitChar(w % 2)];
      ReverseSnoc(prefix, DigitChar(w % 2));
      ReversedBinary(w / 2);
    }
  }

  lemma {:induction false} CollectLsbDigits(w: nat, x: nat)
    ensures CollectFlags(LsbDigits(w), x) == FlagsOfBits(SetBits(w, x))
    decreases w
  {
    var d := LsbDigits(w);
    var head: seq<nat> := if w % 2 == 1 then [x] else [];
    assert d[0] == DigitChar(w % 2);
    assert FlagOfDigit(d[0], x) == if w % 2 == 1 then Some(FlagOfBit(x)) else None;
    if w < 2 {
      assert d[1..] == [];
      assert SetBits(w, x) == head by {
        if w == 1 { assert SetBits(0, x + 1) == []; }
      }
    } else {
      assert d[1..] == LsbDigits(w / 2);
      CollectLsbDigits(w / 2, x + 1);
      var tail := SetBits(w / 2, x + 1);
      assert SetBits(w, x) == head + tail;
      assert FlagsOfBits(head + tail) == FlagsOfBits(head) + FlagsOfBits(tail);
    }
  }

  /**
   * The flag list holds exactly one entry per set bit, in ascending bit
   * order: bits 0-3 give their names and every higher bit gives `Unk_1`.
   */
  lemma DecodeFlagsExact(w: nat)
    ensures DecodeFlags(w) == FlagsOfBits(SetBits(w, 0))
  {
    ReversedBinary(w);
    CollectLsbDigits(w, 0);
  }

  /** `SetBits(w, i)` lists exactly the set bits, shifted by `i`, strictly ascending. */
  lemma {:induction false} SetBitsMembers(w: nat, i: nat)
    ensures forall k :: k in SetBits(w, i) <==> k >= i && Bit(w, k - i)
    ensures forall a, b :: 0 <= a < b < |SetBits(w, i)| ==> SetBits(w, i)[a] < SetBits(w, i)[b]
    ensures forall a :: 0 <= a < |SetBits(w, i)| ==> SetBits(w, i)[a] >= i
    decreases w
  {
    if w == 0 {
      forall k: nat ensures !Bit(0, k) { ZeroHasNoBits(k); }
    } else {
      SetBitsMembers(w / 2, i + 1);
      var head: seq<nat> := if w % 2 == 1 then [i] else [];
      var tail := SetBits(w / 2, i + 1);
      assert SetBits(w, i) == head + tail;
      forall k ensures k in SetBits(w, i) <==> k >= i && Bit(w, k - i) {
        if k > i { assert Bit(w, k - i) == Bit(w / 2, k - (i + 1)); }
      }
    }
  }

  lemma {:induction false} ZeroHasNoBits(k: nat)
    ensures !Bit(0, k)
    decreases k
  {
    if k > 0 { ZeroHasNoBits(k - 1); }
  }

  /** Only a positive number has a set bit. */
  lemma BitImpliesPositive(v: nat, k: nat)
    requires Bit(v, k)
    ensures v > 0
  {
    ZeroHasNoBits(k);
  }

  /** `f` occurs among the flags of the positions `ps` iff some position maps to it. */
  lemma FlagsOfBitsMember(ps: seq<nat>, f: Flag)
    ensures f in FlagsOfBits(ps) <==> exists k :: k in ps && FlagOfBit(k) == f
  {
    var fs := FlagsOfBits(ps);
    if f in fs {
      var j :| 0 <= j < |fs| && fs[j] == f;
      assert ps[j] in ps && FlagOfBit(ps[j]) == f;
    }
    if exists k :: k in ps && FlagOfBit(k) == f {
      var k :| k in ps && FlagOfBit(k) == f;
      var j :| 0 <= j < |ps| && ps[j] == k;
      assert fs[j] == f;
    }
  }

  /** The set bits of `w`, numbered from 0, are exactly the positions `k` with `Bit(w, k)`. */
  lemma SetBitsOfWord(w: nat)
    ensures forall k :: k in SetBits(w, 0) <==> Bit(w, k)
  {
    SetBitsMembers(w, 0);
    forall k ensures k in SetBits(w, 0) <==> Bit(w, k) {
      assert k - 0 == k;
    }
  }

  /** Among the flags of the set bits, a known flag is present iff its bit is set. */
  lemma KnownFlagOfSetBits(w: nat, i: nat)
    requires i < 4
    ensures FlagOfBit(i) in FlagsOfBits(SetBits(w, 0)) <==> Bit(w, i)
  {
    var ps := SetBits(w, 0);
    FlagsOfBitsMember(ps, FlagOfBit(i));
    SetBitsOfWord(w);
    if FlagOfBit(i) in FlagsOfBits(ps) {
      var k :| k in ps && FlagOfBit(k) == FlagOfBit(i);
      assert k == i;
    }
    if Bit(w, i) {
      assert i in ps;
    }
  }

  /** A known flag is present iff its bit is set (bits 0-3). */
  lemma KnownFlagPresent(w: nat, i: nat)
    requires i < 4
    ensures FlagOfBit(i) in DecodeFlags(w) <==> Bit(w, i)
  {
    DecodeFlagsExact(w);
    KnownFlagOfSetBits(w, i);
  }

  /**
   * Cleared bits add nothing: there is one decoded entry per set bit of the
   * word; and every decoded flag is one of the four known names or `Unk_1`.
   */
  lemma DecodedFlagsAreKnownOrUnk1(w: nat)
    ensures |DecodeFlags(w)| == |SetBits(w, 0)|
    ensures forall k :: k in SetBits(w, 0) <==> Bit(w, k)
    ensures forall f :: f in DecodeFlags(w) ==>
      f in {Encrypted, Compressed, CompressedSnappy, EncryptedGCM, UNKNOWN_FLAG}
  {
    DecodeFlagsExact(w);
    SetBitsOfWord(w);
  }

  /** Some bit at or above position 4 is set iff the word is at least 16. */
  lemma {:induction false} HighBitSet(w: nat)
    ensures (exists k :: k >= 4 && Bit(w, k)) <==> w >= 16
  {
    if w >= 16 {
      var k := SomeBitOf(w / 16);
      BitShift(w, k);
      assert Bit(w, k + 4);
    } else {
      forall k | k >= 4 ensures !Bit(w, k) {
        BitShift(w, k - 4);
        ZeroHasNoBits(k - 4);
      }
    }
  }

  /** Bit `k + 4` of `w` is bit `k` of `w / 16`. */
  lemma BitShift(w: nat, k: nat)
    ensures Bit(w, k + 4) == Bit(w / 16, k)
  {
    assert Bit(w, k + 4) == Bit(w / 2, k + 3);
    assert Bit(w / 2, k + 3) == Bit(w / 2 / 2, k + 2);
    assert Bit(w / 2 / 2, k + 2) == Bit(w / 2 / 2 / 2, k + 1);
    assert Bit(w / 2 / 2 / 2, k + 1) == Bit(w / 2 / 2 / 2 / 2, k);
    assert w / 2 / 2 / 2 / 2 == w / 16;
  }

  /** A positive number has a set bit. */
  lemma {:induction false} SomeBitOf(v: nat) returns (k: nat)
    requires v > 0
    ensures Bit(v, k)
    decreases v
  {
    if v % 2 == 1 {
      k := 0;
    } else {
      var j := SomeBitOf(v / 2);
      k := j + 1;
    }
  }

  /** `FlagOfBit(k)` is `Unk_1` exactly for the positions above 3. */
  lemma UnknownFlagOfBit(k: nat)
    ensures FlagOfBit(k) == UNKNOWN_FLAG <==> k >= 4
  {
  }

  /** A word of at least 16 has a set bit above position 3. */
  lemma HighPositionOfLargeWord(w: nat) returns (k: nat)
    requires w >= 16
    ensures k in SetBits(w, 0) && k >= 4
  {
    HighBitSet(w);
    k :| k >= 4 && Bit(w, k);
    SetBitsOfWord(w);
  }

  /** A set bit above position 3 means the word is at least 16. */
  lemma LargeWordOfHighPosition(w: nat, k: nat)
    requires k in SetBits(w, 0) && k >= 4
    ensures w >= 16
  {
    SetBitsOfWord(w);
    assert Bit(w, k);
    BitShift(w, k - 4);
    BitImpliesPositive(w / 16, k - 4);
  }

  /** `Unk_1` is present iff some bit above bit 3 is set. */
  lemma UnknownFlagPresent(w: nat)
    ensures UNKNOWN_FLAG in DecodeFlags(w) <==> w >= 16
  {
    var ps := SetBits(w, 0);
    var fs := FlagsOfBits(ps);
    assert DecodeFlags(w) == fs by { DecodeFlagsExact(w); }
    FlagsOfBitsMember(ps, UNKNOWN_FLAG);
    if w >= 16 {
      var k := HighPositionOfLargeWord(w);
      UnknownFlagOfBit(k);
    }
    if UNKNOWN_FLAG in fs {
      var k :| k in ps && FlagOfBit(k) == UNKNOWN_FLAG;
      UnknownFlagOfBit(k);
      LargeWordOfHighPosition(w, k);
    }
  }

  /** The encryption method: GCM wins over CBC, and only bits 0 and 3 matter. */
  lemma EncryptionOfWord(w: nat)
    ensures EncryptionOf(DecodeFlags(w)) ==
      if Bit(w, 3) then AesGcm else if Bit(w, 0) then AesCbc else NoEncryption
  {
    KnownFlagPresent(w, 3);
    KnownFlagPresent(w, 0);
  }

  /** The compression method: Snappy wins over zlib, and only bits 1 and 2 matter. */
  lemma CompressionOfWord(w: nat)
    ensures CompressionOf(DecodeFlags(w)) ==
      if Bit(w, 2) then Snappy else if Bit(w, 1) then Zlib else NoCompression
  {
    KnownFlagPresent(w, 2);
    KnownFlagPresent(w, 1);
  }

  /** Bits 0-3 of `w` and of `w % 16` agree. */
  lemma LowBitsOfRemainder(w: nat, i: nat)
    requires i < 4
    ensures Bit(w, i) == Bit(w % 16, i)
  {
    var q, r := w / 16, w % 16;
    assert w == 16 * q + r;
    assert w / 2 == 8 * q + r / 2;
    assert w / 2 / 2 == 4 * q + r / 2 / 2;
    assert w / 2 / 2 / 2 == 2 * q + r / 2 / 2 / 2;
    if i == 1 {
      assert Bit(w, 1) == ((w / 2) % 2 == 1) && Bit(r, 1) == ((r / 2) % 2 == 1);
    } else if i == 2 {
      assert Bit(w, 2) == Bit(w / 2, 1) == ((w / 2 / 2) % 2 == 1);
      assert Bit(r, 2) == Bit(r / 2, 1) == ((r / 2 / 2) % 2 == 1);
    } else if i == 3 {
      assert Bit(w, 3) == Bit(w / 2, 2) == Bit(w / 2 / 2, 1) == ((w / 2 / 2 / 2) % 2 == 1);
      assert Bit(r, 3) == Bit(r / 2, 2) == Bit(r / 2 / 2, 1) == ((r / 2 / 2 / 2) % 2 == 1);
    }
  }

  /** Unknown (high) bits never change either derived method. */
  lemma UnknownBitsIgnored(w: nat)
    ensures EncryptionOf(DecodeFlags(w)) == EncryptionOf(DecodeFlags(w % 16))
    ensures CompressionOf(DecodeFlags(w)) == CompressionOf(DecodeFlags(w % 16))
  {
    EncryptionOfWord(w);
    EncryptionOfWord(w % 16);
    CompressionOfWord(w);
    CompressionOfWord(w % 16);
    LowBitsOfRemainder(w, 0);
    LowBitsOfRemainder(w, 1);
    LowBitsOfRemainder(w, 2);
    LowBitsOfRemainder(w, 3);
  }
}
