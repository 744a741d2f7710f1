/**
 * The few JavaScript and Node `Buffer` primitives the inform-packet code is
 * built from: big-endian integer reads, `Number.prototype.toString(radix)`,
 * `String.prototype.padStart`, `Array.prototype.join` and `reverse`.
 */
module Primitives {

  type byte = x: int | 0 <= x < 256

  // ---------------------------------------------------------------------------
  // Big-endian reads (`Buffer.readUint32BE`, `Buffer.readUint16BE`)
  // ---------------------------------------------------------------------------

  /** The unsigned 32-bit big-endian integer stored at `off`. */
  function ReadUint32BE(s: seq<byte>, off: nat): (r: nat)
    requires off + 4 <= |s|
    ensures r < 0x1_0000_0000
  {
    (s[off] as int) * 0x100_0000 + (s[off + 1] as int) * 0x1_0000
      + (s[off + 2] as int) * 0x100 + (s[off + 3] as int)
  }

  /** The unsigned 16-bit big-endian integer stored at `off`. */
  function ReadUint16BE(s: seq<byte>, off: nat): (r: nat)
    requires off + 2 <= |s|
    ensures r < 0x1_0000
  {
    (s[off] as int) * 0x100 + (s[off + 1] as int)
  }

  /** The two bytes at `off` are the high and low byte of the number read from them. */
  lemma ReadUint16BEBytes(s: seq<byte>, off: nat)
    requires off + 2 <= |s|
    ensures ReadUint16BE(s, off) / 0x100 == s[off]
    ensures ReadUint16BE(s, off) % 0x100 == s[off + 1]
  {
    var a: nat, b: nat := s[off], s[off + 1];
    ByteSplit(a, b);
  }

  /** Two 2-byte windows read the same value iff they hold the same bytes. */
  lemma ReadUint16BEInjective(s: seq<byte>, off: nat, t: seq<byte>, off': nat)
    requires off + 2 <= |s| && off' + 2 <= |t|
    ensures ReadUint16BE(s, off) == ReadUint16BE(t, off') <==> s[off..off + 2] == t[off'..off' + 2]
  {
    ReadUint16BEBytes(s, off);
    ReadUint16BEBytes(t, off');
    if s[off..off + 2] == t[off'..off' + 2] {
      assert s[off] == t[off'] && s[off + 1] == t[off' + 1];
    }
  }

  /** The four bytes that store `n` big-endian (`Buffer.writeUint32BE`). */
  function EncodeUint32BE(n: nat): (s: seq<byte>)
    requires n < 0x1_0000_0000
    ensures |s| == 4
  {
    [n / 0x100_0000, (n / 0x1_0000) % 0x100, (n / 0x100) % 0x100, n % 0x100]
  }

  /** Splitting `q * 256 + r` at a byte boundary. */
  lemma ByteSplit(q: nat, r: nat)
    requires r < 0x100
    ensures (q * 0x100 + r) / 0x100 == q && (q * 0x100 + r) % 0x100 == r
  {
  }

  /** Reading back what was written gives the number. */
  lemma ReadEncodeUint32BE(n: nat)
    requires n < 0x1_0000_0000
    ensures ReadUint32BE(EncodeUint32BE(n), 0) == n
  {
    var s := EncodeUint32BE(n);
    assert n == (n / 0x100) * 0x100 + n % 0x100;
    assert n / 0x100 == (n / 0x1_0000) * 0x100 + (n / 0x100) % 0x100;
    assert n / 0x1_0000 == (n / 0x100_0000) * 0x100 + (n / 0x1_0000) % 0x100;
  }

  /** The four bytes at `off` are determined by the number read from them. */
  lemma EncodeReadUint32BE(s: seq<byte>, off: nat)
    requires off + 4 <= |s|
    ensures EncodeUint32BE(ReadUint32BE(s, off)) == s[off..off + 4]
  {
    var n := ReadUint32BE(s, off);
    var a: nat, b: nat, c: nat, d: nat := s[off], s[off + 1], s[off + 2], s[off + 3];
    var ab: nat := a * 0x100 + b;
    var abc: nat := ab * 0x100 + c;
    assert n == abc * 0x100 + d;
    ByteSplit(abc, d);
    ByteSplit(ab, c);
    ByteSplit(a, b);
    assert n / 0x1_0000 == (n / 0x100) / 0x100;
    assert n / 0x100_0000 == ((n / 0x100) / 0x100) / 0x100;
  }

  /** Corollary: two byte windows holding the same 32-bit value are equal. */
  lemma ReadUint32BEInjective(s: seq<byte>, off: nat, t: seq<byte>, off': nat)
    requires off + 4 <= |s| && off' + 4 <= |t|
    ensures ReadUint32BE(s, off) == ReadUint32BE(t, off') <==> s[off..off + 4] == t[off'..off' + 4]
  {
    EncodeReadUint32BE(s, off);
    EncodeReadUint32BE(t, off');
    if s[off..off + 4] == t[off'..off' + 4] {
      assert s[off] == t[off'] && s[off + 1] == t[off' + 1];
      assert s[off + 2] == t[off' + 2] && s[off + 3] == t[off' + 3];
    }
  }

  // ---------------------------------------------------------------------------
  // Digits (`Number.prototype.toString(radix)` on non-negative integers)
  // ---------------------------------------------------------------------------

  /** The lower-case digit character for `d` (`0`-`9`, then `a`-`f`). */
  function DigitChar(d: nat): (c: char)
    requires d < 16
  {
    if d < 10 then ('0' as int + d) as char else ('a' as int + d - 10) as char
  }

  /** The value of a lower-case digit character, 16 for anything else. */
  function DigitValue(c: char): (d: nat)
    ensures d <= 16
  {
    if '0' <= c <= '9' then c as int - '0' as int
    else if 'a' <= c <= 'f' then c as int - 'a' as int + 10
    else 16
  }

  /** A digit character of the given radix. */
  predicate IsDigit(c: char, radix: nat) {
    DigitValue(c) < radix
  }

  lemma DigitValueOfChar(d: nat)
    requires d < 16
    ensures DigitValue(DigitChar(d)) == d
  {
  }

  /** Euclid's division of `n` by `radix`, in the shape the digit lemmas need. */
  lemma DivMod(n: nat, radix: nat)
    requires 2 <= radix <= 16
    ensures n == (n / radix) * radix + n % radix
    ensures n % radix < radix
    ensures n >= radix ==> 1 <= n / radix < n
  {
    var q, r := n / radix, n % radix;
    assert n == q * radix + r;
    if n >= radix {
      assert q * radix >= q * 2 by { assert q * radix - q * 2 == q * (radix - 2); }
    }
  }

  /**
   * `n.toString(radix)`: the digits of `n`, most significant first, with no
   * leading zero (so `0` gives `"0"`).
   */
  function NumberToString(n: nat, radix: nat): (s: string)
    requires 2 <= radix <= 16
    ensures |s| >= 1
    ensures n < radix <==> |s| == 1
    ensures n != 0 ==> s[0] != '0'
    decreases n
  {
    if n < radix then [DigitChar(n)]
    else
      DivMod(n, radix);
      NumberToString(n / radix, radix) + [DigitChar(n % radix)]
  }

  /** `n.toString(radix)` consists of digits of that radix only. */
  lemma {:induction false} NumberToStringDigits(n: nat, radix: nat)
    requires 2 <= radix <= 16
    ensures forall i :: 0 <= i < |NumberToString(n, radix)| ==> IsDigit(NumberToString(n, radix)[i], radix)
    decreases n
  {
    if n >= radix {
      DivMod(n, radix);
      NumberToStringDigits(n / radix, radix);
      DigitValueOfChar(n % radix);
    } else {
      DigitValueOfChar(n);
    }
  }

  /** The number a string of digits denotes (most significant digit first). */
  function DigitsValue(s: string, radix: nat): nat
    decreases |s|
  {
    if s == [] then 0
    else DigitsValue(s[..|s| - 1], radix) * radix + (DigitValue(s[|s| - 1]) as nat)
  }

  /** Printing a number and reading its digits back gives the number. */
  lemma {:induction false} NumberToStringValue(n: nat, radix: nat)
    requires 2 <= radix <= 16
    ensures DigitsValue(NumberToString(n, radix), radix) == n
    decreases n
  {
    var s := NumberToString(n, radix);
    if n < radix {
      assert s[..0] == [];
    } else {
      var prefix := NumberToString(n / radix, radix);
      assert s[..|s| - 1] == prefix;
      DivMod(n, radix);
      NumberToStringValue(n / radix, radix);
    }
  }

  // ---------------------------------------------------------------------------
  // Strings and arrays
  // ---------------------------------------------------------------------------

  /** `s.padStart(len, [c])`: `c` repeated in front of `s` up to length `len`. */
  function PadStart(s: string, len: nat, c: char): string
    decreases len - |s|
  {
    if |s| >= len then s else PadStart([c] + s, len, c)
  }

  /** The padded text has length `max(|s|, len)`, ends with `s` and is `c` in front. */
  lemma {:induction false} PadStartShape(s: string, len: nat, c: char)
    ensures |PadStart(s, len, c)| == if |s| >= len then |s| else len
    ensures PadStart(s, len, c)[|PadStart(s, len, c)| - |s|..] == s
    ensures forall i :: 0 <= i < |PadStart(s, len, c)| - |s| ==> PadStart(s, len, c)[i] == c
    decreases len - |s|
  {
    if |s| < len {
      PadStartShape([c] + s, len, c);
      var r := PadStart([c] + s, len, c);
      assert r[|r| - |s|..] == r[|r| - |s| - 1..][1..];
    }
  }

  /** `parts.join(sep)`. */
  function Join(parts: seq<string>, sep: string): string
    decreases |parts|
  {
    if |parts| == 0 then ""
    else if |parts| == 1 then parts[0]
    else parts[0] + sep + Join(parts[1..], sep)
  }

  /**
   * Joining `n >= 1` two-character strings with a one-character separator
   * puts the separator at every position `3k + 2` and the `k`-th string at
   * positions `3k` and `3k + 1`.
   */
  lemma {:induction false} JoinPairs(parts: seq<string>, sep: char)
    requires |parts| >= 1
    requires forall k :: 0 <= k < |parts| ==> |parts[k]| == 2
    ensures |Join(parts, [sep])| == 3 * |parts| - 1
    ensures forall i :: 0 <= i < 3 * |parts| - 1 ==>
      Join(parts, [sep])[i] == if i % 3 == 2 then sep else parts[i / 3][i % 3]
    decreases |parts|
  {
    if |parts| > 1 {
      var rest := Join(parts[1..], [sep]);
      JoinPairs(parts[1..], sep);
      var j := Join(parts, [sep]);
      assert j == parts[0] + [sep] + rest;
      forall i | 0 <= i < 3 * |parts| - 1
        ensures j[i] == if i % 3 == 2 then sep else parts[i / 3][i % 3]
      {
        if i >= 3 {
          assert j[i] == rest[i - 3];
          assert (i - 3) / 3 == i / 3 - 1 && (i - 3) % 3 == i % 3;
          assert parts[1..][(i - 3) / 3] == parts[i / 3];
        }
      }
    }
  }

  /** `arr.reverse()` (on a copy). */
  function Reverse<T>(s: seq<T>): (r: seq<T>)
    ensures |r| == |s|
    ensures forall i :: 0 <= i < |s| ==> r[i] == s[|s| - 1 - i]
    decreases |s|
  {
    if s == [] then [] else Reverse(s[1..]) + [s[0]]
  }
}
