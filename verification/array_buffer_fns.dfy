/**
 * The byte <-> text codec of lib/commands/functions/arrayBufferFns.js: the
 * base64 encoding of section 4 of RFC 4648, with a decoder that first drops
 * every character outside the alphabet (padding and line breaks included).
 *
 * The source packs three bytes into a 24-bit accumulator with `|=` and `<<`
 * and unpacks it with `>>>` and `&`. Every `|=` there lands on bits that are
 * still zero, so it is written here as `+`; a shift by `k` is a
 * multiplication or division by 2^k. No value exceeds 2^24, so JavaScript's
 * 32-bit bitwise operators never wrap.
 */
module ArrayBufferFns {
  import opened JsValues

  /** The 64 characters of the base64 alphabet, in value order (table 1 of RFC 4648). */
  const Alphabet: string := "ABCDEFGHIJKLMNOPQRSTUVWXYZ" + "abcdefghijklmnopqrstuvwxyz" + "0123456789" + "+/"

  /** The characters the decoder keeps: the class `[A-Za-z0-9+/]`. */
  predicate IsBase64Char(c: char)
  {
    ('A' <= c <= 'Z') || ('a' <= c <= 'z') || ('0' <= c <= '9') || c == '+' || c == '/'
  }

  /** uint6ToBase64: the character code of a 6-bit value; 65 ('A') outside 0..63. */
  function Uint6ToBase64(uint6: int): int
  {
    if uint6 < 26 then uint6 + 65
    else if uint6 < 52 then uint6 + 71
    else if uint6 < 62 then uint6 - 4
    else if uint6 == 62 then 43
    else if uint6 == 63 then 47
    else 65
  }

  /** base64ToUint6: the 6-bit value of a character code; 0 outside the alphabet. */
  function Base64ToUint6(charCode: int): int
  {
    if charCode > 64 && charCode < 91 then charCode - 65
    else if charCode > 96 && charCode < 123 then charCode - 71
    else if charCode > 47 && charCode < 58 then charCode + 4
    else if charCode == 43 then 62
    else if charCode == 47 then 63
    else 0
  }

  /** The character `String.fromCharCode(uint6ToBase64(d))` for a digit `d`. */
  function DigitChar(d: int): (c: char)
    requires 0 <= d < 64
    ensures IsBase64Char(c)
  {
    Uint6ToBase64(d) as char
  }

  /** base64ToUint6 on a character: a 6-bit value for every character. */
  function DigitValue(c: char): (d: int)
    ensures 0 <= d < 64
  {
    Base64ToUint6(c as int)
  }

  /** `b64.replace(/[^A-Za-z0-9+/]/g, '')`. */
  function Filter(s: string): (r: string)
    ensures |r| <= |s|
    ensures forall i :: 0 <= i < |r| ==> IsBase64Char(r[i])
    ensures forall c :: c in r ==> c in s
    ensures (forall i :: 0 <= i < |s| ==> IsBase64Char(s[i])) ==> r == s
    ensures (forall i :: 0 <= i < |s| ==> !IsBase64Char(s[i])) ==> r == ""
  {
    if |s| == 0 then ""
    else if IsBase64Char(s[0]) then [s[0]] + Filter(s[1..])
    else Filter(s[1..])
  }

  // ---------------------------------------------------------------------------
  // Reference definitions, one three-byte group at a time.

  /** Three bytes as one 24-bit number, the first byte most significant. */
  function Pack(b0: byte, b1: byte, b2: byte): (u: nat)
    ensures u < 0x100_0000
  {
    b0 * 0x1_0000 + b1 * 0x100 + b2
  }

  /** The four characters naming the four 6-bit digits of `u`, most significant first. */
  function Quad(u: nat): (q: string)
    requires u < 0x100_0000
    ensures |q| == 4
  {
    [DigitChar(u / 0x4_0000 % 64), DigitChar(u / 0x1000 % 64), DigitChar(u / 64 % 64), DigitChar(u % 64)]
  }

  /**
   * The encoding of section 4 of RFC 4648: each group of three bytes becomes
   * four characters; a final single byte becomes two characters and `==`, a
   * final pair three characters and `=`.
   */
  function Encode(b: seq<byte>): string
  {
    if |b| == 0 then ""
    else if |b| == 1 then Quad(Pack(b[0], 0, 0))[..2] + "=="
    else if |b| == 2 then Quad(Pack(b[0], b[1], 0))[..3] + "="
    else Quad(Pack(b[0], b[1], b[2])) + Encode(b[3..])
  }

  /** The value of 64^(3 - j): the weight of the `j`-th character of a group. */
  function Weight(j: nat): nat
    requires j < 4
  {
    if j == 0 then 0x4_0000 else if j == 1 then 0x1000 else if j == 2 then 64 else 1
  }

  /** 64^(4 - k): the headroom left in the accumulator after `k` characters. */
  function Room(k: nat): nat
    requires k <= 4
  {
    if k == 0 then 0x100_0000 else if k == 1 then 0x4_0000 else if k == 2 then 0x1000 else if k == 3 then 64 else 1
  }

  /** The 24-bit accumulator after the characters of a (possibly partial) group. */
  function Unpack(g: string): (u: nat)
    requires |g| <= 4
    ensures u <= 0x100_0000 - Room(|g|)
  {
    if |g| == 0 then 0
    else
      var prefix, d := Unpack(g[..|g| - 1]), DigitValue(g[|g| - 1]);
      assert d * Weight(|g| - 1) <= 63 * Weight(|g| - 1) by {
        if |g| == 1 {} else if |g| == 2 {} else if |g| == 3 {} else {}
      }
      prefix + d * Weight(|g| - 1)
  }

  /** The three bytes of a 24-bit number, most significant first. */
  function Bytes(u: nat): (r: seq<byte>)
    requires u < 0x100_0000
    ensures |r| == 3
  {
    [u / 0x1_0000 % 256, u / 0x100 % 256, u % 256]
  }

  /** How many bytes a group of `k` characters yields: `(3k + 1) >> 2`. */
  function PartialLength(k: nat): nat
    requires k <= 4
  {
    (3 * k + 1) / 4
  }

  /**
   * The decoder on already-filtered text: each group of four characters gives
   * three bytes; a final group of one, two or three characters gives zero-padded
   * accumulator bytes, as many as `PartialLength` says.
   */
  function DecodeFiltered(s: string): (r: seq<byte>)
    ensures |r| == (3 * |s| + 1) / 4
  {
    if |s| == 0 then []
    else if |s| < 4 then Bytes(Unpack(s))[..PartialLength(|s|)]
    else Bytes(Unpack(s[..4])) + DecodeFiltered(s[4..])
  }

  /** `base64ToArrayBuffer(b64)` as a whole. */
  function Decode(b64: string): (r: seq<byte>)
    ensures |r| == (3 * |Filter(b64)| + 1) / 4
    ensures (forall i :: 0 <= i < |b64| ==> !IsBase64Char(b64[i])) ==> r == []
  {
    DecodeFiltered(Filter(b64))
  }

  // ---------------------------------------------------------------------------
  // The alphabet.

  /** uint6ToBase64 names the `d`-th character of the RFC 4648 alphabet. */
  lemma DigitCharIsAlphabet(d: int)
    requires 0 <= d < 64
    ensures DigitChar(d) == Alphabet[d]
  {
  }

  /** base64ToUint6 undoes uint6ToBase64 on 0..63, so uint6ToBase64 is injective there. */
  lemma DigitValueOfDigitChar(d: int)
    requires 0 <= d < 64
    ensures DigitValue(DigitChar(d)) == d
  {
  }

  /** uint6ToBase64 undoes base64ToUint6 on the alphabet, so every alphabet character is reached. */
  lemma DigitCharOfDigitValue(c: char)
    requires IsBase64Char(c)
    ensures DigitChar(DigitValue(c)) == c
    ensures Alphabet[DigitValue(c)] == c
  {
  }

  /** The characters the decoder keeps are exactly those of the alphabet. */
  lemma AlphabetIsKeptClass(c: char)
    ensures IsBase64Char(c) <==> c in Alphabet
  {
    if IsBase64Char(c) {
      DigitCharOfDigitValue(c);
    } else if c in Alphabet {
      var d :| 0 <= d < 64 && Alphabet[d] == c;
      DigitCharIsAlphabet(d);
    }
  }

  // ---------------------------------------------------------------------------
  // Encoding length and padding.

  /** The `=` characters ending the encoding of `n` bytes. */
  function Padding(n: nat): string
  {
    if n % 3 == 1 then "==" else if n % 3 == 2 then "=" else ""
  }

  /** The alphabet characters of an encoding: the encoding without its padding. */
  function Unpadded(b: seq<byte>): (r: string)
    ensures forall i :: 0 <= i < |r| ==> IsBase64Char(r[i])
  {
    if |b| == 0 then ""
    else if |b| == 1 then Quad(Pack(b[0], 0, 0))[..2]
    else if |b| == 2 then Quad(Pack(b[0], b[1], 0))[..3]
    else Quad(Pack(b[0], b[1], b[2])) + Unpadded(b[3..])
  }

  /** One full group peeled off the front of an encoding. */
  lemma EncodeStep(b: seq<byte>)
    requires |b| >= 3
    ensures Encode(b) == Quad(Pack(b[0], b[1], b[2])) + Encode(b[3..])
    ensures Unpadded(b) == Quad(Pack(b[0], b[1], b[2])) + Unpadded(b[3..])
  {
  }

  lemma PaddingStep(n: nat)
    requires n >= 3
    ensures Padding(n) == Padding(n - 3)
  {
  }

  lemma EncodeZero(b: seq<byte>)
    requires |b| == 0
    ensures Encode(b) == Unpadded(b) + Padding(|b|)
  {
  }

  lemma EncodeOne(b: seq<byte>)
    requires |b| == 1
    ensures Encode(b) == Unpadded(b) + Padding(|b|)
  {
  }

  lemma EncodeTwo(b: seq<byte>)
    requires |b| == 2
    ensures Encode(b) == Unpadded(b) + Padding(|b|)
  {
  }

  lemma EncodeShort(b: seq<byte>)
    requires |b| < 3
    ensures Encode(b) == Unpadded(b) + Padding(|b|)
  {
    if |b| == 0 { EncodeZero(b); } else if |b| == 1 { EncodeOne(b); } else { EncodeTwo(b); }
  }

  lemma Reassociate(q: string, u: string, p: string, e: string)
    requires e == u + p
    ensures q + e == (q + u) + p
  {
  }

  /**
   * An encoding is alphabet characters followed by `==` when the byte count
   * is 1 mod 3, by `=` when it is 2 mod 3, and by nothing otherwise.
   */
  lemma {:induction false} EncodeShape(b: seq<byte>)
    ensures Encode(b) == Unpadded(b) + Padding(|b|)
    decreases |b|
  {
    if |b| < 3 {
      EncodeShort(b);
    } else {
      var q, rest := Quad(Pack(b[0], b[1], b[2])), b[3..];
      EncodeShape(rest);
      EncodeStep(b);
      PaddingStep(|b|);
      Reassociate(q, Unpadded(rest), Padding(|rest|), Encode(rest));
    }
  }

  /** Encoding n bytes yields 4 * ceil(n / 3) characters; nothing for no bytes. */
  lemma {:induction false} EncodeLength(b: seq<byte>)
    ensures |Encode(b)| == 4 * ((|b| + 2) / 3)
    decreases |b|
  {
    if |b| >= 3 {
      EncodeLength(b[3..]);
      EncodeStep(b);
      assert |Encode(b)| == 4 + |Encode(b[3..])|;
      CeilThirdStep(|b|);
    } else if |b| > 0 {
      assert |Encode(b)| == 4;
      assert (|b| + 2) / 3 == 1;
    }
  }

  lemma CeilThirdStep(n: int)
    requires n >= 3
    ensures (n + 2) / 3 == (n - 3 + 2) / 3 + 1
  {
  }

  // ---------------------------------------------------------------------------
  // The round trip.

  lemma {:induction false} FilterAppend(a: string, b: string)
    ensures Filter(a + b) == Filter(a) + Filter(b)
    decreases |a|
  {
    if |a| == 0 {
      assert a + b == b;
    } else {
      assert (a + b)[0] == a[0];
      assert (a + b)[1..] == a[1..] + b;
      FilterAppend(a[1..], b);
    }
  }

  /** The filter keeps one alphabet character and drops any other: with FilterAppend, this determines it. */
  lemma FilterOne(c: char)
    ensures Filter([c]) == if IsBase64Char(c) then [c] else ""
  {
    assert [c][1..] == "";
  }

  /**
   * The decoder's lenience: characters outside the alphabet, wherever they
   * stand, change nothing about the bytes decoded.
   */
  lemma DecodeSkipsNoise(before: string, noise: string, after: string)
    requires forall i :: 0 <= i < |noise| ==> !IsBase64Char(noise[i])
    ensures Decode(before + noise + after) == Decode(before + after)
  {
    FilterAppend(before + noise, after);
    FilterAppend(before, noise);
    FilterAppend(before, after);
    assert Filter(noise) == "";
    assert Filter(before) + "" == Filter(before);
  }

  lemma FilterEncode(b: seq<byte>)
    ensures Filter(Encode(b)) == Unpadded(b)
  {
    EncodeShape(b);
    FilterAppend(Unpadded(b), Padding(|b|));
    assert Filter(Padding(|b|)) == "";
  }

  /** Every 24-bit number is the sum of its four 6-bit digits at their weights. */
  lemma SixBitDigits(u: nat)
    requires u < 0x100_0000
    ensures u == (u / 0x4_0000 % 64) * 0x4_0000 + (u / 0x1000 % 64) * 0x1000 + (u / 64 % 64) * 64 + u % 64
  {
    var q1, r0 := u / 64, u % 64;
    var q2, r1 := q1 / 64, q1 % 64;
    var q3, r2 := q2 / 64, q2 % 64;
    assert u == q2 * 0x1000 + r1 * 64 + r0;
    assert u / 0x1000 == q2;
    assert u == q3 * 0x4_0000 + r2 * 0x1000 + r1 * 64 + r0;
    assert u / 0x4_0000 == q3;
  }

  /** The accumulator of four characters, spelled out. */
  lemma UnpackFour(g: string)
    requires |g| == 4
    requires forall i :: 0 <= i < |g| ==> IsBase64Char(g[i])
    ensures Unpack(g) == DigitValue(g[0]) * 0x4_0000 + DigitValue(g[1]) * 0x1000 + DigitValue(g[2]) * 64 + DigitValue(g[3])
  {
    assert g[..1][..0] == [];
    assert Unpack(g[..1]) == DigitValue(g[0]) * 0x4_0000;
    assert g[..2][..1] == g[..1];
    assert Unpack(g[..2]) == Unpack(g[..1]) + DigitValue(g[1]) * 0x1000;
    assert g[..3][..2] == g[..2];
    assert Unpack(g[..3]) == Unpack(g[..2]) + DigitValue(g[2]) * 64;
    assert g[..3] == g[..|g| - 1];
  }

  /** Unpacking the four characters of `Quad(u)` gives back `u`. */
  lemma UnpackQuad(u: nat)
    requires u < 0x100_0000
    ensures Unpack(Quad(u)) == u
  {
    var q := Quad(u);
    UnpackFour(q);
    DigitValueOfDigitChar(u / 0x4_0000 % 64);
    DigitValueOfDigitChar(u / 0x1000 % 64);
    DigitValueOfDigitChar(u / 64 % 64);
    DigitValueOfDigitChar(u % 64);
    SixBitDigits(u);
  }

  lemma BytesOfPack(b0: byte, b1: byte, b2: byte)
    ensures Bytes(Pack(b0, b1, b2)) == [b0, b1, b2]
  {
    var u := Pack(b0, b1, b2);
    assert u / 0x100 == b0 * 0x100 + b1;
    assert u / 0x1_0000 == b0;
  }

  /** A full group of four characters decodes to the three bytes it encodes. */
  lemma GroupRoundTrip(b0: byte, b1: byte, b2: byte)
    ensures Bytes(Unpack(Quad(Pack(b0, b1, b2)))) == [b0, b1, b2]
  {
    UnpackQuad(Pack(b0, b1, b2));
    BytesOfPack(b0, b1, b2);
  }

  /** The accumulator of the first two and three characters of a group, spelled out. */
  lemma UnpackPrefixes(g: string)
    requires |g| == 4
    requires forall i :: 0 <= i < |g| ==> IsBase64Char(g[i])
    ensures Unpack(g[..2]) == DigitValue(g[0]) * 0x4_0000 + DigitValue(g[1]) * 0x1000
    ensures Unpack(g[..3]) == DigitValue(g[0]) * 0x4_0000 + DigitValue(g[1]) * 0x1000 + DigitValue(g[2]) * 64
  {
    assert g[..1][..0] == [];
    assert Unpack(g[..1]) == DigitValue(g[0]) * 0x4_0000;
    assert g[..2][..1] == g[..1];
    assert g[..3][..2] == g[..2];
  }

  /** The low digits of a multiple of 64^k vanish. */
  lemma LowDigits(u: nat)
    requires u < 0x100_0000
    ensures u % 0x1000 == 0 ==> u == (u / 0x4_0000 % 64) * 0x4_0000 + (u / 0x1000 % 64) * 0x1000
    ensures u % 64 == 0 ==> u == (u / 0x4_0000 % 64) * 0x4_0000 + (u / 0x1000 % 64) * 0x1000 + (u / 64 % 64) * 64
  {
    SixBitDigits(u);
    if u % 0x1000 == 0 {
      var k := u / 0x1000;
      assert u == k * 0x1000;
      assert u / 64 == k * 64;
    }
  }

  /** A multiple of 64^2 is given back by the first two characters of its group. */
  lemma UnpackTwo(u: nat)
    requires u < 0x100_0000 && u % 0x1000 == 0
    ensures Unpack(Quad(u)[..2]) == u
  {
    var q := Quad(u);
    UnpackPrefixes(q);
    DigitValueOfDigitChar(u / 0x4_0000 % 64);
    DigitValueOfDigitChar(u / 0x1000 % 64);
    LowDigits(u);
  }

  /** A multiple of 64 is given back by the first three characters of its group. */
  lemma UnpackThree(u: nat)
    requires u < 0x100_0000 && u % 64 == 0
    ensures Unpack(Quad(u)[..3]) == u
  {
    var q := Quad(u);
    UnpackPrefixes(q);
    DigitValueOfDigitChar(u / 0x4_0000 % 64);
    DigitValueOfDigitChar(u / 0x1000 % 64);
    DigitValueOfDigitChar(u / 64 % 64);
    LowDigits(u);
  }

  /** A final single byte survives its two characters. */
  lemma OneByteRoundTrip(b0: byte)
    ensures Bytes(Unpack(Quad(Pack(b0, 0, 0))[..2]))[..1] == [b0]
  {
    var u := Pack(b0, 0, 0);
    assert u == (b0 * 16) * 0x1000;
    UnpackTwo(u);
    BytesOfPack(b0, 0, 0);
  }

  /** A final pair of bytes survives its three characters. */
  lemma TwoBytesRoundTrip(b0: byte, b1: byte)
    ensures Bytes(Unpack(Quad(Pack(b0, b1, 0))[..3]))[..2] == [b0, b1]
  {
    var u := Pack(b0, b1, 0);
    assert u == (b0 * 0x400 + b1 * 4) * 64;
    UnpackThree(u);
    BytesOfPack(b0, b1, 0);
  }

  lemma {:induction false} DecodeUnpadded(b: seq<byte>)
    ensures DecodeFiltered(Unpadded(b)) == b
    decreases |b|
  {
    if |b| == 1 {
      OneByteRoundTrip(b[0]);
    } else if |b| == 2 {
      TwoBytesRoundTrip(b[0], b[1]);
    } else if |b| >= 3 {
      var q := Quad(Pack(b[0], b[1], b[2]));
      var s := Unpadded(b);
      assert s[..4] == q;
      assert s[4..] == Unpadded(b[3..]);
      GroupRoundTrip(b[0], b[1], b[2]);
      DecodeUnpadded(b[3..]);
      assert b == [b[0], b[1], b[2]] + b[3..];
    }
  }

  /** Decoding an encoding gives back the original bytes, for every byte sequence. */
  lemma RoundTrip(b: seq<byte>)
    ensures Decode(Encode(b)) == b
  {
    FilterEncode(b);
    DecodeUnpadded(b);
  }

  // ---------------------------------------------------------------------------
  // The loops of the source, shown to compute the reference definitions.

  /** `16 >>> k & 24` as a power of two: where the `k`-th byte of a group lands. */
  function ByteWeight(k: nat): nat
    requires k < 3
  {
    if k == 0 then 0x1_0000 else if k == 1 then 0x100 else 1
  }

  /** `uint24 |= buffer[index] << (16 >>> k & 24)`, on bits that are still zero. */
  function AddByte(uint24: nat, x: byte, k: nat): nat
    requires k < 3
  {
    uint24 + x * ByteWeight(k)
  }

  /** `uint24 |= base64ToUint6(c) << 6 * (3 - k)`, on bits that are still zero. */
  function AddDigit(uint24: nat, c: char, k: nat): nat
    requires k < 4
  {
    uint24 + DigitValue(c) * Weight(k)
  }

  /** `uint24 >>> (16 >>> k & 24) & 255`: the `k`-th byte of the accumulator. */
  function ByteAt(uint24: nat, k: nat): byte
    requires k < 3
  {
    uint24 / ByteWeight(k) % 256
  }

  /** The accumulator after the bytes of a (possibly partial) group; missing bytes count as zero. */
  function Head(g: seq<byte>): (u: nat)
    requires |g| <= 3
    ensures u < 0x100_0000
  {
    Pack(if |g| > 0 then g[0] else 0, if |g| > 1 then g[1] else 0, if |g| > 2 then g[2] else 0)
  }

  /** The four characters of every group, a partial final group included, before trimming and padding. */
  function RawEncode(b: seq<byte>): (r: string)
    ensures |b| > 0 ==> |r| >= 4
  {
    if |b| == 0 then "" else if |b| <= 3 then Quad(Head(b)) else Quad(Head(b[..3])) + RawEncode(b[3..])
  }

  lemma HeadStep(g: seq<byte>, x: byte)
    requires |g| < 3
    ensures Head(g + [x]) == Head(g) + x * ByteWeight(|g|)
  {
  }

  lemma {:induction false} RawEncodeAppend(a: seq<byte>, g: seq<byte>)
    requires |a| % 3 == 0 && 1 <= |g| <= 3
    ensures RawEncode(a + g) == RawEncode(a) + Quad(Head(g))
    decreases |a|
  {
    if |a| == 0 {
      assert a + g == g;
    } else {
      assert (a + g)[..3] == a[..3];
      assert (a + g)[3..] == a[3..] + g;
      RawEncodeAppend(a[3..], g);
    }
  }

  /** Trimming the raw text by the characters the padding replaces leaves the unpadded encoding. */
  lemma RawEncodeTrim(b: seq<byte>)
    requires |b| > 0
    ensures |RawEncode(b)| - 2 + (|b| - 1) % 3 >= 0
    ensures Unpadded(b) == RawEncode(b)[..|RawEncode(b)| - 2 + (|b| - 1) % 3]
  {
    RawEncodePrefix(b);
    RawEncodeLengths(b);
  }

  /** The unpadded encoding is a prefix of the raw text. */
  lemma {:induction false} RawEncodePrefix(b: seq<byte>)
    ensures |Unpadded(b)| <= |RawEncode(b)|
    ensures Unpadded(b) == RawEncode(b)[..|Unpadded(b)|]
    decreases |b|
  {
    if |b| > 3 {
      RawEncodePrefix(b[3..]);
      var q, r, u := Quad(Head(b[..3])), RawEncode(b[3..]), Unpadded(b[3..]);
      assert Head(b[..3]) == Pack(b[0], b[1], b[2]);
      EncodeStep(b);
      assert RawEncode(b) == q + r;
      assert (q + r)[..|q| + |u|] == q + r[..|u|];
    } else if |b| > 0 {
      assert Head(b) == Pack(b[0], if |b| > 1 then b[1] else 0, if |b| > 2 then b[2] else 0);
    }
  }

  /** The raw text is longer than the unpadded encoding by the number of padding characters. */
  lemma {:induction false} RawEncodeLengths(b: seq<byte>)
    requires |b| > 0
    ensures |RawEncode(b)| - |Unpadded(b)| == 2 - (|b| - 1) % 3
    decreases |b|
  {
    if |b| > 3 {
      RawEncodeLengths(b[3..]);
      EncodeStep(b);
      assert |RawEncode(b)| == 4 + |RawEncode(b[3..])|;
      assert |Unpadded(b)| == 4 + |Unpadded(b[3..])|;
      ModThreeShift(|b|);
    } else if |b| == 1 {
      assert |Unpadded(b)| == 2 && (|b| - 1) % 3 == 0;
    } else if |b| == 2 {
      assert |Unpadded(b)| == 3 && (|b| - 1) % 3 == 1;
    } else {
      assert |Unpadded(b)| == 4 && (|b| - 1) % 3 == 2;
    }
  }

  lemma ModThreeShift(n: int)
    requires n >= 4
    ensures (n - 1) % 3 == (n - 4) % 3
  {
  }

  /**
   * What the encoder loop has built after `index` bytes: the raw text of every
   * group it has flushed, and in the accumulator the bytes of the group in progress.
   */
  predicate EncoderState(buffer: seq<byte>, index: nat, text: string, uint24: nat)
    requires index <= |buffer|
  {
    if index % 3 == 0 || index == |buffer| then text == RawEncode(buffer[..index]) && uint24 == 0
    else text == RawEncode(buffer[..index - index % 3]) && uint24 == Head(buffer[index - index % 3..index])
  }

  lemma AccumulatorStep(buffer: seq<byte>, index: nat, uint24: nat)
    requires index < |buffer|
    requires uint24 == Head(buffer[index - index % 3..index])
    ensures AddByte(uint24, buffer[index], index % 3) == Head(buffer[index - index % 3..index + 1])
  {
    var start := index - index % 3;
    HeadStep(buffer[start..index], buffer[index]);
    assert buffer[start..index] + [buffer[index]] == buffer[start..index + 1];
  }

  lemma FlushStep(buffer: seq<byte>, index: nat)
    requires index < |buffer|
    ensures RawEncode(buffer[..index + 1]) == RawEncode(buffer[..index - index % 3]) + Quad(Head(buffer[index - index % 3..index + 1]))
  {
    var start := index - index % 3;
    RawEncodeAppend(buffer[..start], buffer[start..index + 1]);
    assert buffer[..start] + buffer[start..index + 1] == buffer[..index + 1];
  }

  lemma GroupEnd(index: nat)
    requires index % 3 == 2
    ensures (index + 1) % 3 == 0
  {
  }

  lemma NextGroupStart(index: nat)
    requires index % 3 != 2
    ensures (index + 1) % 3 != 0 && (index + 1) - (index + 1) % 3 == index - index % 3
  {
  }

  lemma EncoderStep(buffer: seq<byte>, index: nat, text: string, uint24: nat)
    requires index < |buffer| && EncoderState(buffer, index, text, uint24)
    ensures text == RawEncode(buffer[..index - index % 3])
    ensures AddByte(uint24, buffer[index], index % 3) == Head(buffer[index - index % 3..index + 1])
  {
    var start := index - index % 3;
    if index % 3 == 0 {
      assert buffer[start..index] == [];
    }
    AccumulatorStep(buffer, index, uint24);
  }

  lemma EncoderFlush(buffer: seq<byte>, index: nat)
    requires index < |buffer| && (index % 3 == 2 || |buffer| - index == 1)
    ensures EncoderState(buffer, index + 1,
      RawEncode(buffer[..index - index % 3]) + Quad(Head(buffer[index - index % 3..index + 1])), 0)
  {
    FlushStep(buffer, index);
    if index % 3 == 2 {
      GroupEnd(index);
    }
    assert (index + 1) % 3 == 0 || index + 1 == |buffer|;
  }

  lemma EncoderKeep(buffer: seq<byte>, index: nat)
    requires index < |buffer| && index % 3 != 2 && |buffer| - index != 1
    ensures EncoderState(buffer, index + 1, RawEncode(buffer[..index - index % 3]), Head(buffer[index - index % 3..index + 1]))
  {
    NextGroupStart(index);
  }

  /** The `=` signs the source appends, chosen by the position of the last byte in its group. */
  function PadFor(mod3: nat): string
  {
    if mod3 == 2 then "" else if mod3 == 1 then "=" else "=="
  }

  lemma PadForLast(n: nat)
    requires n > 0
    ensures PadFor((n - 1) % 3) == Padding(n)
  {
  }

  /** arrayBufferToBase64: the source's loop computes `Encode`. */
  method ArrayBufferToBase64(buffer: seq<byte>) returns (b64: string)
    ensures b64 == Encode(buffer)
  {
    var mod3 := 2;
    var text := "";
    var uint24: nat := 0;
    var index := 0;
    while index < |buffer|
      invariant 0 <= index <= |buffer|
      invariant index == 0 ==> mod3 == 2
      invariant index > 0 ==> mod3 == (index - 1) % 3
      invariant EncoderState(buffer, index, text, uint24)
    {
      EncoderStep(buffer, index, text, uint24);
      mod3 := index % 3;
      uint24 := AddByte(uint24, buffer[index], mod3);
      if mod3 == 2 || |buffer| - index == 1 {
        EncoderFlush(buffer, index);
        text := text + Quad(uint24);
        uint24 := 0;
      } else {
        EncoderKeep(buffer, index);
      }
      index := index + 1;
    }
    assert buffer[..index] == buffer;
    EncoderResult(buffer, mod3);
    b64 := text[..|text| - 2 + mod3] + PadFor(mod3);
  }

  /** The loop's raw text, trimmed and padded as the last remainder says, is the encoding. */
  lemma EncoderResult(buffer: seq<byte>, mod3: nat)
    requires |buffer| == 0 ==> mod3 == 2
    requires |buffer| > 0 ==> mod3 == (|buffer| - 1) % 3
    ensures |RawEncode(buffer)| - 2 + mod3 >= 0
    ensures RawEncode(buffer)[..|RawEncode(buffer)| - 2 + mod3] + PadFor(mod3) == Encode(buffer)
  {
    EncodeShape(buffer);
    if |buffer| > 0 {
      RawEncodeTrim(buffer);
      PadForLast(|buffer|);
    }
  }

  lemma UnpackStep(g: string, c: char)
    requires |g| < 4
    requires forall i :: 0 <= i < |g| ==> IsBase64Char(g[i])
    requires IsBase64Char(c)
    ensures Unpack(g + [c]) == Unpack(g) + DigitValue(c) * Weight(|g|)
  {
    assert (g + [c])[..|g|] == g;
  }

  /** Decoding splits at a group boundary, the final group giving `PartialLength` bytes. */
  lemma {:induction false} DecodeAppend(a: string, g: string)
    requires |a| % 4 == 0 && 1 <= |g| <= 4
    requires forall i :: 0 <= i < |a| ==> IsBase64Char(a[i])
    requires forall i :: 0 <= i < |g| ==> IsBase64Char(g[i])
    ensures DecodeFiltered(a + g) == DecodeFiltered(a) + Bytes(Unpack(g))[..PartialLength(|g|)]
    decreases |a|
  {
    if |a| == 0 {
      assert a + g == g;
      DecodeGroup(g);
    } else {
      assert (a + g)[..4] == a[..4];
      assert (a + g)[4..] == a[4..] + g;
      DecodeAppend(a[4..], g);
    }
  }

  /** One (possibly partial) group decodes to its leading bytes. */
  lemma DecodeGroup(g: string)
    requires 1 <= |g| <= 4
    requires forall i :: 0 <= i < |g| ==> IsBase64Char(g[i])
    ensures DecodeFiltered(g) == Bytes(Unpack(g))[..PartialLength(|g|)]
  {
    if |g| == 4 {
      assert g[..4] == g;
      assert g[4..] == [];
    }
  }

  /**
   * What the decoder loop has written after `inIdx` characters of the filtered
   * text `s`: the bytes of every group it has flushed, and in the accumulator
   * the characters of the group in progress.
   */
  predicate DecoderState(s: string, inIdx: nat, outIdx: nat, bytes: seq<byte>, uint24: nat)
    requires inIdx <= |s|
  {
    |bytes| == (3 * |s| + 1) / 4 &&
    if inIdx % 4 == 0 || inIdx == |s| then
      outIdx == (3 * inIdx + 1) / 4 && bytes[..outIdx] == DecodeFiltered(s[..inIdx]) && uint24 == 0
    else
      var start := inIdx - inIdx % 4;
      outIdx == 3 * start / 4 && bytes[..outIdx] == DecodeFiltered(s[..start]) && uint24 == Unpack(s[start..inIdx])
  }

  lemma QuadStart(inIdx: nat)
    requires inIdx % 4 == 0
    ensures inIdx - inIdx % 4 == inIdx && (3 * inIdx + 1) / 4 == 3 * inIdx / 4
  {
    var q := inIdx / 4;
    assert 3 * inIdx == 4 * (3 * q);
  }

  lemma DecoderStep(s: string, inIdx: nat, outIdx: nat, bytes: seq<byte>, uint24: nat)
    requires forall i :: 0 <= i < |s| ==> IsBase64Char(s[i])
    requires inIdx < |s| && DecoderState(s, inIdx, outIdx, bytes, uint24)
    ensures |bytes| == (3 * |s| + 1) / 4
    ensures outIdx == 3 * (inIdx - inIdx % 4) / 4 && bytes[..outIdx] == DecodeFiltered(s[..inIdx - inIdx % 4])
    ensures AddDigit(uint24, s[inIdx], inIdx % 4) == Unpack(s[inIdx - inIdx % 4..inIdx + 1])
  {
    var start := inIdx - inIdx % 4;
    DecoderGroupSoFar(s, inIdx, outIdx, bytes, uint24);
    UnpackStep(s[start..inIdx], s[inIdx]);
    assert s[start..inIdx] + [s[inIdx]] == s[start..inIdx + 1];
  }

  /** Before a character is read, the accumulator holds the characters of its group read so far. */
  lemma DecoderGroupSoFar(s: string, inIdx: nat, outIdx: nat, bytes: seq<byte>, uint24: nat)
    requires forall i :: 0 <= i < |s| ==> IsBase64Char(s[i])
    requires inIdx < |s| && DecoderState(s, inIdx, outIdx, bytes, uint24)
    ensures |bytes| == (3 * |s| + 1) / 4
    ensures outIdx == 3 * (inIdx - inIdx % 4) / 4 && bytes[..outIdx] == DecodeFiltered(s[..inIdx - inIdx % 4])
    ensures uint24 == Unpack(s[inIdx - inIdx % 4..inIdx])
  {
    if inIdx % 4 == 0 {
      QuadStart(inIdx);
      assert s[inIdx..inIdx] == [];
    }
  }

  lemma NextQuadStart(inIdx: nat)
    requires inIdx % 4 != 3
    ensures (inIdx + 1) % 4 != 0 && (inIdx + 1) - (inIdx + 1) % 4 == inIdx - inIdx % 4
  {
  }

  /** The output positions of a group: where it starts, and how many bytes it adds. */
  lemma FlushArithmetic(inIdx: nat, inLen: nat)
    requires inIdx < inLen && (inIdx % 4 == 3 || inLen - inIdx == 1)
    ensures var start, k := inIdx - inIdx % 4, PartialLength(inIdx % 4 + 1);
      3 * start / 4 + k <= (3 * inLen + 1) / 4 && (k == 3 || 3 * start / 4 + k == (3 * inLen + 1) / 4) &&
      3 * start / 4 + k == (3 * (inIdx + 1) + 1) / 4
  {
    var q := inIdx / 4;
    assert inIdx - inIdx % 4 == 4 * q;
    assert 3 * (4 * q) / 4 == 3 * q;
    if inIdx % 4 == 3 {
      assert (3 * (inIdx + 1) + 1) / 4 == 3 * q + 3;
    } else {
      assert inLen == inIdx + 1;
    }
  }

  /** Where a group ends, its bytes fit in the output and complete the decoding so far. */
  lemma DecoderFlush(s: string, inIdx: nat, outIdx: nat)
    requires forall i :: 0 <= i < |s| ==> IsBase64Char(s[i])
    requires inIdx < |s| && (inIdx % 4 == 3 || |s| - inIdx == 1)
    requires outIdx == 3 * (inIdx - inIdx % 4) / 4
    ensures var k := PartialLength(inIdx % 4 + 1);
      outIdx + k <= (3 * |s| + 1) / 4 && (k == 3 || outIdx + k == (3 * |s| + 1) / 4) &&
      outIdx + k == (3 * (inIdx + 1) + 1) / 4 &&
      DecodeFiltered(s[..inIdx + 1])
        == DecodeFiltered(s[..inIdx - inIdx % 4]) + Bytes(Unpack(s[inIdx - inIdx % 4..inIdx + 1]))[..k]
  {
    FlushArithmetic(inIdx, |s|);
    DecodedGroup(s, inIdx);
  }

  /** The bytes of the group ending at `inIdx`, appended to those before it. */
  lemma DecodedGroup(s: string, inIdx: nat)
    requires forall i :: 0 <= i < |s| ==> IsBase64Char(s[i])
    requires inIdx < |s|
    ensures DecodeFiltered(s[..inIdx + 1])
      == DecodeFiltered(s[..inIdx - inIdx % 4]) + Bytes(Unpack(s[inIdx - inIdx % 4..inIdx + 1]))[..PartialLength(inIdx % 4 + 1)]
  {
    var start := inIdx - inIdx % 4;
    DecodeAppend(s[..start], s[start..inIdx + 1]);
    assert s[..start] + s[start..inIdx + 1] == s[..inIdx + 1];
  }

  /** The group's bytes written at the end of a group, the decoder is in the state after it. */
  lemma DecoderWrote(s: string, inIdx: nat, outIdx: nat, bytes: seq<byte>, u: nat, written: seq<byte>, next: nat)
    requires forall i :: 0 <= i < |s| ==> IsBase64Char(s[i])
    requires inIdx < |s| && (inIdx % 4 == 3 || |s| - inIdx == 1)
    requires |bytes| == (3 * |s| + 1) / 4
    requires outIdx == 3 * (inIdx - inIdx % 4) / 4 && bytes[..outIdx] == DecodeFiltered(s[..inIdx - inIdx % 4])
    requires u == Unpack(s[inIdx - inIdx % 4..inIdx + 1])
    requires |written| == |bytes| && next == outIdx + PartialLength(inIdx % 4 + 1)
    requires written[..next] == bytes[..outIdx] + Bytes(u)[..PartialLength(inIdx % 4 + 1)]
    ensures DecoderState(s, inIdx + 1, next, written, 0)
  {
    DecoderFlush(s, inIdx, outIdx);
    DecoderFlushed(s, inIdx, next, written);
  }

  lemma DecoderFlushed(s: string, inIdx: nat, outIdx: nat, bytes: seq<byte>)
    requires forall i :: 0 <= i < |s| ==> IsBase64Char(s[i])
    requires inIdx < |s| && (inIdx % 4 == 3 || |s| - inIdx == 1)
    requires |bytes| == (3 * |s| + 1) / 4
    requires outIdx == (3 * (inIdx + 1) + 1) / 4 && bytes[..outIdx] == DecodeFiltered(s[..inIdx + 1])
    ensures DecoderState(s, inIdx + 1, outIdx, bytes, 0)
  {
    if inIdx % 4 == 3 {
      GroupEndFour(inIdx);
    }
  }

  lemma GroupEndFour(inIdx: nat)
    requires inIdx % 4 == 3
    ensures (inIdx + 1) % 4 == 0
  {
  }

  lemma BytesAt(u: nat, k: nat)
    requires u < 0x100_0000 && k < 3
    ensures Bytes(u)[k] == ByteAt(u, k)
  {
  }

  lemma WriteStep(bytes: seq<byte>, done: seq<byte>, group: seq<byte>, i: nat, m: nat, v: byte)
    requires i < |bytes| && m < |group| && group[m] == v
    requires bytes[..i] == done + group[..m]
    ensures bytes[i := v][..i + 1] == done + group[..m + 1]
  {
    assert group[..m + 1] == group[..m] + [v];
    assert bytes[i := v][..i + 1] == bytes[..i] + [v];
  }

  lemma DecoderKeep(s: string, inIdx: nat, outIdx: nat, bytes: seq<byte>, u: nat)
    requires forall i :: 0 <= i < |s| ==> IsBase64Char(s[i])
    requires inIdx < |s| && inIdx % 4 != 3 && |s| - inIdx != 1
    requires |bytes| == (3 * |s| + 1) / 4
    requires outIdx == 3 * (inIdx - inIdx % 4) / 4 && bytes[..outIdx] == DecodeFiltered(s[..inIdx - inIdx % 4])
    requires u == Unpack(s[inIdx - inIdx % 4..inIdx + 1])
    ensures DecoderState(s, inIdx + 1, outIdx, bytes, u)
  {
    NextQuadStart(inIdx);
  }

  /**
   * The inner loop of base64ToArrayBuffer: writes the accumulator's bytes at
   * `outIdx` until three are written or the output is full, which happens
   * after `k` bytes.
   */
  method WriteGroup(bytes: seq<byte>, outIdx: nat, uint24: nat, ghost k: nat) returns (written: seq<byte>, next: nat)
    requires uint24 < 0x100_0000 && k <= 3
    requires outIdx + k <= |bytes| && (k == 3 || outIdx + k == |bytes|)
    ensures |written| == |bytes| && next == outIdx + k
    ensures written[..next] == bytes[..outIdx] + Bytes(uint24)[..k]
  {
    ghost var done := bytes[..outIdx];
    ghost var group := Bytes(uint24);
    written, next := bytes, outIdx;
    var mod3 := 0;
    while mod3 < 3 && next < |written|
      invariant 0 <= mod3 <= k && next == outIdx + mod3
      invariant |written| == |bytes|
      invariant written[..next] == done + group[..mod3]
    {
      BytesAt(uint24, mod3);
      WriteStep(written, done, group, next, mod3, ByteAt(uint24, mod3));
      written := written[next := ByteAt(uint24, mod3)];
      mod3, next := mod3 + 1, next + 1;
    }
  }

  /** The decoder loop's invariant: a position in the text and the state there. */
  predicate Decoding(s: string, inIdx: nat, outIdx: nat, bytes: seq<byte>, uint24: nat)
  {
    inIdx <= |s| && DecoderState(s, inIdx, outIdx, bytes, uint24)
  }

  /** base64ToArrayBuffer: the source's loops compute `Decode`. */
  method Base64ToArrayBuffer(b64: string) returns (bytes: seq<byte>)
    ensures bytes == Decode(b64)
  {
    var b64Enc := Filter(b64);
    var inLen := |b64Enc|;
    var outLen := (inLen * 3 + 1) / 4;
    bytes := seq(outLen, _ => 0);
    var uint24: nat := 0;
    var outIdx: nat := 0;
    var inIdx := 0;
    assert bytes[..0] == [] && b64Enc[..0] == [];
    while inIdx < inLen
      invariant Decoding(b64Enc, inIdx, outIdx, bytes, uint24)
    {
      bytes, outIdx, uint24 := DecodeChar(b64Enc, inIdx, outIdx, bytes, uint24);
      inIdx := inIdx + 1;
    }
    assert b64Enc[..inLen] == b64Enc;
    assert bytes[..outIdx] == bytes;
  }

  /**
   * One turn of the decoder's outer loop: the character at `inIdx` enters the
   * accumulator, which is written out at the end of a group or of the text.
   */
  method DecodeChar(s: string, inIdx: nat, outIdx: nat, bytes: seq<byte>, uint24: nat)
    returns (bytes': seq<byte>, outIdx': nat, uint24': nat)
    requires forall i :: 0 <= i < |s| ==> IsBase64Char(s[i])
    requires inIdx < |s| && Decoding(s, inIdx, outIdx, bytes, uint24)
    ensures Decoding(s, inIdx + 1, outIdx', bytes', uint24')
  {
    DecoderStep(s, inIdx, outIdx, bytes, uint24);
    var mod4 := inIdx % 4;
    uint24' := AddDigit(uint24, s[inIdx], mod4);
    if mod4 == 3 || |s| - inIdx == 1 {
      FlushArithmetic(inIdx, |s|);
      bytes', outIdx' := WriteGroup(bytes, outIdx, uint24', PartialLength(mod4 + 1));
      DecoderWrote(s, inIdx, outIdx, bytes, uint24', bytes', outIdx');
      uint24' := 0;
    } else {
      DecoderKeep(s, inIdx, outIdx, bytes, uint24');
      bytes', outIdx' := bytes, outIdx;
    }
  }

  // ---------------------------------------------------------------------------
  // The worked example of the source's own tests: two emoji in UTF-8.

  lemma QuadDigits(u: nat, d0: nat, d1: nat, d2: nat, d3: nat)
    requires u < 0x100_0000 && d0 < 64 && d1 < 64 && d2 < 64 && d3 < 64
    requires u == d0 * 0x4_0000 + d1 * 0x1000 + d2 * 64 + d3
    ensures Quad(u) == [DigitChar(d0), DigitChar(d1), DigitChar(d2), DigitChar(d3)]
  {
    SixBitSplit(u, d0, d1, d2, d3);
  }

  /** The 6-bit digits of a 24-bit number, read back with shifts and masks. */
  lemma SixBitSplit(u: nat, d0: nat, d1: nat, d2: nat, d3: nat)
    requires d0 < 64 && d1 < 64 && d2 < 64 && d3 < 64
    requires u == d0 * 0x4_0000 + d1 * 0x1000 + d2 * 64 + d3
    ensures u / 0x4_0000 % 64 == d0 && u / 0x1000 % 64 == d1 && u / 64 % 64 == d2 && u % 64 == d3
  {
    assert u / 64 == d0 * 0x1000 + d1 * 64 + d2;
    assert u / 0x1000 == d0 * 64 + d1;
    assert u / 0x4_0000 == d0;
  }

  lemma EmojiEncodes()
    ensures Encode([240, 159, 152, 131, 240, 159, 152, 132]) == "8J+Yg/CfmIQ="
  {
    var b: seq<byte> := [240, 159, 152, 131, 240, 159, 152, 132];
    QuadDigits(Pack(240, 159, 152), 60, 9, 62, 24);
    QuadDigits(Pack(131, 240, 159), 32, 63, 2, 31);
    QuadDigits(Pack(152, 132, 0), 38, 8, 16, 0);
    EncodeStep(b);
    EncodeStep(b[3..]);
    assert b[3..][3..] == [152, 132];
  }

  lemma EmojiDecodes()
    ensures Decode("8J+Yg/CfmIQ=") == [240, 159, 152, 131, 240, 159, 152, 132]
  {
    EmojiEncodes();
    RoundTrip([240, 159, 152, 131, 240, 159, 152, 132]);
  }
}
