/** The one-shot SHA-256 function of FIPS 180-4, stated over whole byte strings.
    Nothing here knows about buffers, chunks or in-place updates. */
module Sha256Spec {

  type byte = bv8
  type word = bv32

  const BLOCK_BYTES := 64

  /** Working variables a..h, and also a hash value H0..H7. */
  datatype Vars = Vars(a: word, b: word, c: word, d: word, e: word, f: word, g: word, h: word)

  // ----- Section 3.2: the circular right shift -----

  function RotateRight(value: word, bits: word): word
    requires 0 < bits < 32
  {
    (value >> bits) | (value << (32 - bits))
  }

  // ----- Section 4.1.2: the six logical functions -----

  function Ch(x: word, y: word, z: word): word { (x & y) ^ (!x & z) }
  function Maj(x: word, y: word, z: word): word { (x & y) ^ (x & z) ^ (y & z) }
  function BigSigma0(x: word): word { RotateRight(x, 2) ^ RotateRight(x, 13) ^ RotateRight(x, 22) }
  function BigSigma1(x: word): word { RotateRight(x, 6) ^ RotateRight(x, 11) ^ RotateRight(x, 25) }
  function SmallSigma0(x: word): word { RotateRight(x, 7) ^ RotateRight(x, 18) ^ (x >> 3) }
  function SmallSigma1(x: word): word { RotateRight(x, 17) ^ RotateRight(x, 19) ^ (x >> 10) }

  // ----- Section 4.2.2: the sixty-four constants -----

  const K: seq<seq<nat>> := [
    [0x428a2f98, 0x71374491, 0xb5c0fbcf, 0xe9b5dba5, 0x3956c25b, 0x59f111f1, 0x923f82a4, 0xab1c5ed5],
    [0xd807aa98, 0x12835b01, 0x243185be, 0x550c7dc3, 0x72be5d74, 0x80deb1fe, 0x9bdc06a7, 0xc19bf174],
    [0xe49b69c1, 0xefbe4786, 0x0fc19dc6, 0x240ca1cc, 0x2de92c6f, 0x4a7484aa, 0x5cb0a9dc, 0x76f988da],
    [0x983e5152, 0xa831c66d, 0xb00327c8, 0xbf597fc7, 0xc6e00bf3, 0xd5a79147, 0x06ca6351, 0x14292967],
    [0x27b70a85, 0x2e1b2138, 0x4d2c6dfc, 0x53380d13, 0x650a7354, 0x766a0abb, 0x81c2c92e, 0x92722c85],
    [0xa2bfe8a1, 0xa81a664b, 0xc24b8b70, 0xc76c51a3, 0xd192e819, 0xd6990624, 0xf40e3585, 0x106aa070],
    [0x19a4c116, 0x1e376c08, 0x2748774c, 0x34b0bcb5, 0x391c0cb3, 0x4ed8aa4a, 0x5b9cca4f, 0x682e6ff3],
    [0x748f82ee, 0x78a5636f, 0x84c87814, 0x8cc70208, 0x90befffa, 0xa4506ceb, 0xbef9a3f7, 0xc67178f2]]

  function ConstantBits(t: nat): (bits: nat)
    requires t < 64
    ensures bits < 0x1_0000_0000
  {
    RowsFit(t / 8, t % 8);
    K[t / 8][t % 8]
  }

  lemma {:induction false} RowsFit(i: nat, j: nat)
    requires i < 8 && j < 8
    ensures |K[i]| == 8 && K[i][j] < 0x1_0000_0000
  {
  }

  function Constant(t: nat): word
    requires t < 64
  {
    ConstantBits(t) as word
  }

  // ----- Section 5.3.3: the initial hash value -----

  const INITIAL := Vars(0x6a09e667, 0xbb67ae85, 0x3c6ef372, 0xa54ff53a,
                        0x510e527f, 0x9b05688c, 0x1f83d9ab, 0x5be0cd19)

  // ----- Section 5.2.1: parsing a block into big-endian words -----

  function BigEndianWord(b0: byte, b1: byte, b2: byte, b3: byte): word {
    (b0 as word) * 0x100_0000 + (b1 as word) * 0x1_0000 + (b2 as word) * 0x100 + (b3 as word)
  }

  // ----- Section 6.2.2: schedule, rounds, compression (addition is modulo 2^32) -----

  function Schedule(block: seq<byte>, t: nat): word
    requires |block| == BLOCK_BYTES && t < 64
  {
    if t < 16 then
      BigEndianWord(block[4 * t], block[4 * t + 1], block[4 * t + 2], block[4 * t + 3])
    else
      Extend(SmallSigma1(Schedule(block, t - 2)), Schedule(block, t - 7),
             SmallSigma0(Schedule(block, t - 15)), Schedule(block, t - 16))
  }

  function Extend(s1: word, w7: word, s0: word, w16: word): word { s1 + w7 + s0 + w16 }

  function Round(v: Vars, k: word, w: word): Vars {
    var t1 := Sum5(v.h, BigSigma1(v.e), Ch(v.e, v.f, v.g), k, w);
    var t2 := Sum2(BigSigma0(v.a), Maj(v.a, v.b, v.c));
    Vars(Sum2(t1, t2), v.a, v.b, v.c, Sum2(v.d, t1), v.e, v.f, v.g)
  }

  function Sum2(x: word, y: word): word { x + y }
  function Sum5(x: word, y: word, z: word, u: word, v: word): word { x + y + z + u + v }

  function Rounds(start: Vars, block: seq<byte>, t: nat): Vars
    requires |block| == BLOCK_BYTES && t <= 64
  {
    if t == 0 then start else Round(Rounds(start, block, t - 1), Constant(t - 1), Schedule(block, t - 1))
  }

  function Plus(x: Vars, y: Vars): Vars {
    Vars(Sum2(x.a, y.a), Sum2(x.b, y.b), Sum2(x.c, y.c), Sum2(x.d, y.d),
         Sum2(x.e, y.e), Sum2(x.f, y.f), Sum2(x.g, y.g), Sum2(x.h, y.h))
  }

  function Compress(hash: Vars, block: seq<byte>): Vars
    requires |block| == BLOCK_BYTES
  {
    Plus(hash, Rounds(hash, block, 64))
  }

  /** Folds compression over the full blocks of `bytes`, left to right; a short tail is not consumed. */
  function Fold(hash: Vars, bytes: seq<byte>): Vars
    decreases |bytes|
  {
    if |bytes| < BLOCK_BYTES then hash
    else Fold(Compress(hash, bytes[..BLOCK_BYTES]), bytes[BLOCK_BYTES..])
  }

  // ----- Section 5.1.1: padding -----

  /** The congruence l + 1 + k = 448 (mod 512) of section 5.1.1, read in bytes. */
  predicate Fills(length: nat, zeros: nat) { (length + 1 + zeros) % 64 == 56 }

  /** The number of zero bytes after the 0x80 byte: the smallest solution of the congruence. */
  function ZeroBytes(length: nat): (z: nat)
    ensures Fills(length, z)
    ensures forall y: nat :: y < z ==> !Fills(length, y)
  {
    (119 - length % 64) % 64
  }

  const TWO_64 := 0x1_0000_0000_0000_0000

  /** Byte of a 64-bit count at a bit offset. */
  function CountByte(count: bv64, shift: bv64): byte
    requires shift < 64
  {
    ((count >> shift) & 0xff) as byte
  }

  /** The eight bytes of a 64-bit count, most significant first. */
  function CountBytes(count: bv64): seq<byte> {
    [CountByte(count, 56), CountByte(count, 48), CountByte(count, 40), CountByte(count, 32),
     CountByte(count, 24), CountByte(count, 16), CountByte(count, 8), CountByte(count, 0)]
  }

  /** Reads eight bytes as a 64-bit count. */
  function ReadCount(b: seq<byte>): bv64
    requires |b| == 8
  {
    ((b[0] as bv64) << 56) | ((b[1] as bv64) << 48) | ((b[2] as bv64) << 40) | ((b[3] as bv64) << 32)
    | ((b[4] as bv64) << 24) | ((b[5] as bv64) << 16) | ((b[6] as bv64) << 8) | (b[7] as bv64)
  }

  /** Eight times a byte count, in 64 bits. */
  function BitCount(bytes: nat): bv64 { AsCount(8 * bytes % TWO_64) }

  function AsCount(n: nat): bv64
    requires n < TWO_64
  {
    n as bv64
  }

  /** The 64-bit length field.  FIPS 180-4 defines it for messages of fewer than 2^64 bits; beyond that the
      counter of the program wraps, and so does this field. */
  function LengthField(length: nat): (bytes: seq<byte>)
    ensures |bytes| == 8
  {
    CountBytes(BitCount(length))
  }

  function Padding(length: nat): seq<byte> {
    [0x80] + seq(ZeroBytes(length), _ => 0) + LengthField(length)
  }

  function Pad(message: seq<byte>): seq<byte> { message + Padding(|message|) }

  function Digest(message: seq<byte>): Vars { Fold(INITIAL, Pad(message)) }

  // ----- The digest as sixty-four lower-case hexadecimal digits -----

  function HexDigit(d: nat): char
    requires d < 16
  {
    "0123456789abcdef"[d]
  }

  /** The low `width` hexadecimal digits of `n`, most significant first. */
  function FixedHex(n: nat, width: nat): (s: string)
    ensures |s| == width
  {
    if width == 0 then "" else FixedHex(n / 16, width - 1) + [HexDigit(n % 16)]
  }

  function Words(v: Vars): seq<word> { [v.a, v.b, v.c, v.d, v.e, v.f, v.g, v.h] }

  function HexWords(ws: seq<word>): (s: string)
    ensures |s| == 8 * |ws|
  {
    if ws == [] then "" else HexWords(ws[..|ws| - 1]) + FixedHex(ws[|ws| - 1] as nat, 8)
  }

  function DigestHex(message: seq<byte>): string { HexWords(Words(Digest(message))) }

  // ----- Laws of the specification -----

  /** A rotation moves the low `bits` bits to the top and the others down, and loses none. */
  lemma {:induction false} RotationMovesBits(value: word, bits: word)
    requires 0 < bits < 32
    ensures RotateRight(value, bits) >> (32 - bits) == value & ((1 << bits) - 1)
    ensures RotateRight(value, bits) & ((1 << (32 - bits)) - 1) == value >> bits
  {
  }

  /** Digits print as 0 to 9 and a to f. */
  lemma {:induction false} HexDigitChar(d: nat)
    requires d < 16
    ensures HexDigit(d) as int == if d < 10 then '0' as int + d else 'a' as int + d - 10
  {
  }

  /** Folding is compositional at block boundaries. */
  lemma {:induction false} FoldAppend(hash: Vars, first: seq<byte>, rest: seq<byte>)
    requires |first| % BLOCK_BYTES == 0
    ensures Fold(hash, first + rest) == Fold(Fold(hash, first), rest)
    decreases |first|
  {
    hide Compress;
    if first == [] {
      assert first + rest == rest;
    } else {
      assert (first + rest)[..BLOCK_BYTES] == first[..BLOCK_BYTES];
      assert (first + rest)[BLOCK_BYTES..] == first[BLOCK_BYTES..] + rest;
      FoldAppend(Compress(hash, first[..BLOCK_BYTES]), first[BLOCK_BYTES..], rest);
    }
  }

  /** A tail shorter than a block does not change the fold. */
  lemma {:induction false} FoldIgnoresTail(hash: Vars, full: seq<byte>, tail: seq<byte>)
    requires |full| % BLOCK_BYTES == 0 && |tail| < BLOCK_BYTES
    ensures Fold(hash, full + tail) == Fold(hash, full)
  {
    hide Compress;
    FoldAppend(hash, full, tail);
  }

  lemma {:induction false} CountRoundTrip(count: bv64)
    ensures ReadCount(CountBytes(count)) == count
  {
  }

  /** The padded message is a whole number of blocks, extends the message, is at most 72 bytes longer, and for every
      message that FIPS 180-4 admits its last eight bytes spell the bit length. */
  lemma {:induction false} PadShape(message: seq<byte>)
    ensures |Pad(message)| % BLOCK_BYTES == 0
    ensures message <= Pad(message)
    ensures 9 <= |Pad(message)| - |message| <= 72
    ensures |message| < 0x2000_0000_0000_0000 ==>
              ReadCount(Pad(message)[|Pad(message)| - 8..]) == (8 * |message|) as bv64
  {
    hide CountBytes, ReadCount;
    PadLength(message);
    PadTail(message);
    CountRoundTrip(BitCount(|message|));
  }

  lemma {:induction false} PadLength(message: seq<byte>)
    ensures |Pad(message)| == |message| + 9 + ZeroBytes(|message|)
    ensures |Pad(message)| % BLOCK_BYTES == 0
  {
    hide LengthField;
    assert Fills(|message|, ZeroBytes(|message|));
  }

  lemma {:induction false} PadTail(message: seq<byte>)
    ensures |Pad(message)| >= 8 && Pad(message)[|Pad(message)| - 8..] == LengthField(|message|)
  {
    hide LengthField;
  }

  // ----- Padding can be taken off again -----

  function DropTrailingZeros(bytes: seq<byte>): seq<byte> {
    if bytes != [] && bytes[|bytes| - 1] == 0 then DropTrailingZeros(bytes[..|bytes| - 1]) else bytes
  }

  /** Takes off the length field, the zeros and the marker byte. */
  function Unpad(padded: seq<byte>): seq<byte> {
    var body := DropTrailingZeros(if |padded| < 8 then [] else padded[..|padded| - 8]);
    if body == [] then [] else body[..|body| - 1]
  }

  lemma {:induction false} DropsExactlyTheZeros(front: seq<byte>, zeros: nat)
    requires front != [] && front[|front| - 1] != 0
    ensures DropTrailingZeros(front + seq(zeros, _ => 0)) == front
  {
    if zeros == 0 {
      assert front + seq(0, _ => 0) == front;
    } else {
      var bytes := front + seq(zeros, _ => 0);
      assert bytes[..|bytes| - 1] == front + seq(zeros - 1, _ => 0);
      DropsExactlyTheZeros(front, zeros - 1);
    }
  }

  lemma {:induction false} UnpadPad(message: seq<byte>)
    ensures Unpad(Pad(message)) == message
  {
    hide LengthField;
    var marked, zeros := message + [0x80], ZeroBytes(|message|);
    var padded := Pad(message);
    assert padded[..|padded| - 8] == marked + seq(zeros, _ => 0);
    DropsExactlyTheZeros(marked, zeros);
    assert marked[..|message|] == message;
  }

  /** Padding is injective, without any bound on the length. */
  lemma {:induction false} PadInjective(x: seq<byte>, y: seq<byte>)
    requires Pad(x) == Pad(y)
    ensures x == y
  {
    hide Pad, Unpad;
    UnpadPad(x);
    UnpadPad(y);
  }

  function HexValue(c: char): nat {
    if '0' <= c <= '9' then (c - '0') as nat else if 'a' <= c <= 'f' then (c - 'a') as nat + 10 else 0
  }

  function Unhex(s: string): nat {
    if s == "" then 0 else Unhex(s[..|s| - 1]) * 16 + HexValue(s[|s| - 1])
  }

  function Power16(k: nat): (p: nat)
    ensures p > 0
  {
    if k == 0 then 1 else 16 * Power16(k - 1)
  }

  lemma {:induction false} HexRoundTrip(n: nat, width: nat)
    requires n < Power16(width)
    ensures Unhex(FixedHex(n, width)) == n
  {
    hide HexValue, HexDigit;
    if width > 0 {
      HexRoundTrip(n / 16, width - 1);
      UnhexSnoc(FixedHex(n / 16, width - 1), HexDigit(n % 16));
      HexDigitValue(n % 16);
    }
  }

  lemma {:induction false} UnhexSnoc(front: string, c: char)
    ensures Unhex(front + [c]) == Unhex(front) * 16 + HexValue(c)
  {
    assert (front + [c])[..|front|] == front;
  }

  lemma {:induction false} HexDigitValue(d: nat)
    requires d < 16
    ensures HexValue(HexDigit(d)) == d
  {
  }

  /** The printed digest loses nothing: equal strings come from equal word lists. */
  lemma {:induction false} HexWordsInjective(x: seq<word>, y: seq<word>)
    requires HexWords(x) == HexWords(y)
    ensures x == y
    decreases |x|
  {
    hide FixedHex;
    assert |x| == |y| by { assert |HexWords(x)| == 8 * |x| && |HexWords(y)| == 8 * |y|; }
    if x != [] {
      var n := |x| - 1;
      SameHexSameLast(x, y);
      HexWordsInjective(x[..n], y[..n]);
      assert x == x[..n] + [x[n]] && y == y[..n] + [y[n]];
    }
  }

  lemma {:induction false} SameHexSameLast(x: seq<word>, y: seq<word>)
    requires HexWords(x) == HexWords(y) && |x| == |y| > 0
    ensures x[|x| - 1] == y[|x| - 1]
    ensures HexWords(x[..|x| - 1]) == HexWords(y[..|x| - 1])
  {
    HexWordsSplit(x);
    HexWordsSplit(y);
    FixedHexInjective(x[|x| - 1], y[|x| - 1]);
  }

  lemma {:induction false} HexWordsSplit(ws: seq<word>)
    requires ws != []
    ensures HexWords(ws)[..8 * (|ws| - 1)] == HexWords(ws[..|ws| - 1])
    ensures HexWords(ws)[8 * (|ws| - 1)..] == FixedHex(ws[|ws| - 1] as nat, 8)
  {
  }

  lemma {:induction false} FixedHexInjective(x: word, y: word)
    requires FixedHex(x as nat, 8) == FixedHex(y as nat, 8)
    ensures x == y
  {
    assert Power16(8) == 0x1_0000_0000 by { assert Power16(4) == 0x1_0000; }
    HexRoundTrip(x as nat, 8);
    HexRoundTrip(y as nat, 8);
    SameValueSameWord(x, y);
  }

  lemma {:induction false} SameValueSameWord(x: word, y: word)
    requires x as nat == y as nat
    ensures x == y
  {
    assert (x as nat) as word == x && (y as nat) as word == y;
  }
}
