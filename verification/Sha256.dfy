/** The streaming digest of the packet study: fields updated in place, one 64-byte buffer, arbitrary chunking.
    Everything is proved against the one-shot function in Sha256Spec. */
module Sha256 {
  import opened Sha256Spec

  /** The program assembles words with shifts and ors; the result is the positional value of the four bytes. */
  function LoadWord(b0: byte, b1: byte, b2: byte, b3: byte): (w: word)
    ensures w == BigEndianWord(b0, b1, b2, b3)
  {
    ((b0 as word) << 24) | ((b1 as word) << 16) | ((b2 as word) << 8) | (b3 as word)
  }

  function VarsOf(s: seq<word>): Vars
    requires |s| == 8
  {
    Vars(s[0], s[1], s[2], s[3], s[4], s[5], s[6], s[7])
  }

  function Zeros(n: nat): seq<byte> { seq(n, _ => 0) }

  // ----- Printing a word through a hexadecimal stream -----

  /** Digits without leading zeros, as a stream in hexadecimal mode prints a number. */
  function StreamHex(n: nat): (s: string)
    ensures |s| > 0
  {
    if n < 16 then [HexDigit(n)] else StreamHex(n / 16) + [HexDigit(n % 16)]
  }

  /** A stream with field width `width` and fill character '0'. */
  function FillTo(s: string, width: nat): string {
    if |s| >= width then s else seq(width - |s|, _ => '0') + s
  }

  /** Zero-filled stream output of a number that fits is exactly its fixed-width form. */
  lemma {:induction false} StreamedWordIsFixedWidth(n: nat, width: nat)
    requires width > 0 && n < Power16(width)
    ensures FillTo(StreamHex(n), width) == FixedHex(n, width)
    ensures |StreamHex(n)| <= width
  {
    if n < 16 {
      SmallIsFixedWidth(n, width);
    } else {
      StreamedWordIsFixedWidth(n / 16, width - 1);
      var head := StreamHex(n / 16);
      assert FillTo(StreamHex(n), width) == FillTo(head, width - 1) + [HexDigit(n % 16)];
    }
  }

  lemma {:induction false} PrintedWord(w: word)
    ensures FillTo(StreamHex(w as nat), 8) == FixedHex(w as nat, 8)
  {
    hide FillTo, StreamHex, FixedHex;
    assert Power16(8) == 0x1_0000_0000 by { assert Power16(4) == 0x1_0000; }
    StreamedWordIsFixedWidth(w as nat, 8);
  }

  lemma {:induction false} SmallIsFixedWidth(n: nat, width: nat)
    requires width > 0 && n < 16
    ensures FillTo(StreamHex(n), width) == FixedHex(n, width)
  {
    hide HexDigit;
    ZeroIsFixedWidth(width - 1);
    assert n / 16 == 0 && n % 16 == n;
    assert FillTo([HexDigit(n)], width) == seq(width - 1, _ => '0') + [HexDigit(n)];
  }

  lemma {:induction false} ZeroIsFixedWidth(width: nat)
    ensures FixedHex(0, width) == seq(width, _ => '0')
  {
    if width > 0 {
      ZeroIsFixedWidth(width - 1);
      assert seq(width, _ => '0') == seq(width - 1, _ => '0') + ['0'];
    }
  }

  // ----- What one buffer fill does to the fold -----

  lemma {:induction false} RemainderGrows(m: nat, n: nat)
    requires m % 64 + n <= 64
    ensures (m + n) % 64 == if m % 64 + n == 64 then 0 else m % 64 + n
  {
  }

  lemma {:induction false} AbsorbShort(fed: seq<byte>, chunk: seq<byte>)
    requires |fed| % 64 + |chunk| < 64
    ensures Fold(INITIAL, fed + chunk) == Fold(INITIAL, fed)
    ensures |fed + chunk| % 64 == |fed| % 64 + |chunk|
  {
    hide Compress, Fold;
    RemainderGrows(|fed|, |chunk|);
    var cut := |fed| - |fed| % 64;
    assert fed == fed[..cut] + fed[cut..];
    assert fed + chunk == fed[..cut] + (fed[cut..] + chunk);
    FoldIgnoresTail(INITIAL, fed[..cut], fed[cut..]);
    FoldIgnoresTail(INITIAL, fed[..cut], fed[cut..] + chunk);
  }

  lemma {:induction false} AbsorbBlock(fed: seq<byte>, chunk: seq<byte>)
    requires |fed| % 64 + |chunk| == 64
    ensures |fed + chunk| % 64 == 0
    ensures Fold(INITIAL, fed + chunk) == Compress(Fold(INITIAL, fed), fed[|fed| - |fed| % 64..] + chunk)
  {
    hide Compress, Fold;
    RemainderGrows(|fed|, |chunk|);
    var cut := |fed| - |fed| % 64;
    var block := fed[cut..] + chunk;
    assert fed == fed[..cut] + fed[cut..];
    assert fed + chunk == fed[..cut] + block;
    FoldIgnoresTail(INITIAL, fed[..cut], fed[cut..]);
    FoldAppend(INITIAL, fed[..cut], block);
    FoldOneBlock(Fold(INITIAL, fed[..cut]), block);
  }

  lemma FoldEmpty()
    ensures Fold(INITIAL, []) == INITIAL
  {
  }

  lemma {:induction false} FoldOneBlock(hash: Vars, block: seq<byte>)
    requires |block| == 64
    ensures Fold(hash, block) == Compress(hash, block)
  {
    hide Compress;
    assert block[..64] == block && block[64..] == [];
  }

  /** The buffer of a one-block tail: at most 55 bytes are waiting. */
  lemma {:induction false} FinishInOneBlock(fed: seq<byte>)
    requires |fed| % 64 < 56
    ensures var waiting := fed[|fed| - |fed| % 64..];
            var block := waiting + [0x80] + Zeros(55 - |fed| % 64) + LengthField(|fed|);
            |block| == 64 && Digest(fed) == Compress(Fold(INITIAL, fed), block)
  {
    hide Compress, Fold, LengthField;
    var n := |fed| % 64;
    assert ZeroBytes(|fed|) == 55 - n;
    var waiting := fed[|fed| - n..];
    var block := waiting + [0x80] + Zeros(55 - n) + LengthField(|fed|);
    assert block == waiting + Padding(|fed|);
    AbsorbBlock(fed, Padding(|fed|));
  }

  lemma {:induction false} ZeroBytesOfLongTail(length: nat)
    requires length % 64 >= 56
    ensures ZeroBytes(length) == 119 - length % 64
  {
  }

  /** The two buffers of a two-block tail: 56 to 63 bytes are waiting. */
  lemma {:induction false} FinishInTwoBlocks(fed: seq<byte>)
    requires |fed| % 64 >= 56
    ensures var waiting := fed[|fed| - |fed| % 64..];
            var first := waiting + [0x80] + Zeros(63 - |fed| % 64);
            var second := Zeros(56) + LengthField(|fed|);
            |first| == 64 && |second| == 64
            && Digest(fed) == Compress(Compress(Fold(INITIAL, fed), first), second)
  {
    hide Compress, Fold, LengthField, ZeroBytes;
    ZeroBytesOfLongTail(|fed|);
    var n := |fed| % 64;
    var waiting := fed[|fed| - n..];
    var chunk := [0x80] + Zeros(63 - n);
    var second := Zeros(56) + LengthField(|fed|);
    assert Padding(|fed|) == chunk + second;
    assert Pad(fed) == (fed + chunk) + second;
    AbsorbBlock(fed, chunk);
    FoldAppend(INITIAL, fed + chunk, second);
    FoldOneBlock(Fold(INITIAL, fed + chunk), second);
    assert waiting + [0x80] + Zeros(63 - n) == waiting + chunk;
  }

  // ----- One round and one schedule word, in the program's own expressions -----

  lemma {:induction false} SumsAgree(a: word, b: word, c: word, e: word, f: word, g: word)
    ensures RotateRight(e, 6) ^ RotateRight(e, 11) ^ RotateRight(e, 25) == BigSigma1(e)
    ensures (e & f) ^ (!e & g) == Ch(e, f, g)
    ensures RotateRight(a, 2) ^ RotateRight(a, 13) ^ RotateRight(a, 22) == BigSigma0(a)
    ensures (a & b) ^ (a & c) ^ (b & c) == Maj(a, b, c)
  {
  }

  lemma {:induction false} AdditionsAgree(x: word, y: word, z: word, u: word, v: word)
    ensures Sum5(x, y, z, u, v) == x + y + z + u + v
    ensures Sum2(x, y) == x + y
  {
  }

  lemma {:induction false} SmallSigmasAgree(x: word, y: word)
    ensures RotateRight(x, 7) ^ RotateRight(x, 18) ^ (x >> 3) == SmallSigma0(x)
    ensures RotateRight(y, 17) ^ RotateRight(y, 19) ^ (y >> 10) == SmallSigma1(y)
  {
  }

  lemma {:induction false} ExtendAgrees(s1: word, w7: word, s0: word, w16: word)
    ensures Extend(s1, w7, s0, w16) == w16 + s0 + w7 + s1
  {
  }

  class Sha256 {
    const state: array<word>
    const buffer: array<byte>
    var bufferSize: nat
    var totalBytes: nat
    /** Every byte given to Update since the last reset. */
    ghost var fed: seq<byte>

    /** The state is the fold over the full blocks fed so far and the buffer holds the rest. */
    ghost predicate Tracks()
      reads this`bufferSize, this`fed, state, buffer
    {
      && state.Length == 8 && buffer.Length == 64
      && bufferSize == |fed| % 64
      && buffer[..bufferSize] == fed[|fed| - bufferSize..]
      && VarsOf(state[..]) == Fold(INITIAL, fed)
    }

    ghost predicate Valid()
      reads this, state, buffer
    {
      Tracks() && totalBytes == |fed| % TWO_64
    }

    constructor ()
      ensures Valid() && fed == [] && fresh(state) && fresh(buffer)
    {
      state := new word[8](_ => 0);
      buffer := new byte[64](_ => 0);
      bufferSize := 0;
      totalBytes := 0;
      fed := [];
      new;
      Reset();
    }

    method Reset()
      requires state.Length == 8 && buffer.Length == 64
      modifies this, state
      ensures Valid() && fed == [] && bufferSize == 0 && totalBytes == 0
    {
      hide Fold, Compress;
      FoldEmpty();
      state[0], state[1], state[2], state[3] := 0x6a09e667, 0xbb67ae85, 0x3c6ef372, 0xa54ff53a;
      state[4], state[5], state[6], state[7] := 0x510e527f, 0x9b05688c, 0x1f83d9ab, 0x5be0cd19;
      bufferSize := 0;
      totalBytes := 0;
      fed := [];
    }

    /** However the bytes arrive, feeding them appends them to what was fed. */
    method Update(data: seq<byte>)
      requires Valid()
      modifies this, state, buffer
      ensures Valid() && fed == old(fed) + data
    {
      hide Tracks;
      CountWraps(|fed|, |data|);
      totalBytes := (totalBytes + |data|) % TWO_64;
      var pos := 0;
      while pos < |data|
        invariant 0 <= pos <= |data|
        invariant Tracks() && fed == old(fed) + data[..pos]
        invariant totalBytes == (|old(fed)| + |data|) % TWO_64
      {
        BufferNotFull();
        var take := if |data| - pos < 64 - bufferSize then |data| - pos else 64 - bufferSize;
        Absorb(data[pos..pos + take]);
        assert data[..pos + take] == data[..pos] + data[pos..pos + take];
        pos := pos + take;
      }
      assert data[..pos] == data;
    }

    lemma BufferNotFull()
      requires Tracks()
      ensures bufferSize < 64
    {
    }

    /** One turn of the update loop: fill the buffer as far as the chunk goes, compress it when it is full. */
    method Absorb(chunk: seq<byte>)
      requires Tracks() && bufferSize + |chunk| <= 64
      modifies this`bufferSize, this`fed, state, buffer
      ensures Tracks() && fed == old(fed) + chunk
    {
      hide Fold, Compress;
      CopyIn(chunk);
      bufferSize := bufferSize + |chunk|;
      ghost var before := fed;
      fed := before + chunk;
      if bufferSize == 64 {
        AbsorbBlock(before, chunk);
        assert buffer[..] == before[|before| - |before| % 64..] + chunk;
        Transform(buffer);
        bufferSize := 0;
      } else {
        AbsorbShort(before, chunk);
      }
    }

    method CopyIn(chunk: seq<byte>)
      requires buffer.Length == 64 && bufferSize + |chunk| <= 64
      modifies buffer
      ensures buffer[..bufferSize + |chunk|] == old(buffer[..bufferSize]) + chunk
    {
      for i := 0 to |chunk|
        invariant buffer[..bufferSize + i] == old(buffer[..bufferSize]) + chunk[..i]
      {
        buffer[bufferSize + i] := chunk[i];
        assert buffer[..bufferSize + i + 1] == buffer[..bufferSize + i] + [chunk[i]];
      }
      assert chunk[..|chunk|] == chunk;
    }

    /** Writes zeros up to `limit`. */
    method ZeroTo(limit: nat)
      requires buffer.Length == 64 && bufferSize <= limit <= 64
      modifies this`bufferSize, buffer
      ensures bufferSize == limit
      ensures buffer[..limit] == old(buffer[..bufferSize]) + Zeros(limit - old(bufferSize))
    {
      while bufferSize < limit
        invariant old(bufferSize) <= bufferSize <= limit
        invariant buffer[..bufferSize] == old(buffer[..bufferSize]) + Zeros(bufferSize - old(bufferSize))
      {
        buffer[bufferSize] := 0;
        bufferSize := bufferSize + 1;
        assert buffer[..bufferSize] == buffer[..bufferSize - 1] + [0];
      }
    }

    /** Writes the eight bytes of the bit count, most significant first. */
    method WriteLength(bitCount: bv64)
      requires buffer.Length == 64 && bufferSize == 56
      modifies this`bufferSize, buffer
      ensures bufferSize == 64
      ensures buffer[..] == old(buffer[..56]) + CountBytes(bitCount)
    {
      hide CountByte;
      var shifts: seq<bv64> := [56, 48, 40, 32, 24, 16, 8, 0];
      for i := 0 to 8
        invariant bufferSize == 56 + i
        invariant buffer[..bufferSize] == old(buffer[..56]) + CountBytes(bitCount)[..i]
      {
        buffer[bufferSize] := CountByte(bitCount, shifts[i]);
        bufferSize := bufferSize + 1;
        assert buffer[..bufferSize] == buffer[..bufferSize - 1] + [CountBytes(bitCount)[i]];
      }
      assert buffer[..] == buffer[..64];
    }

    /** Returns the FIPS 180-4 digest of everything fed and leaves the object as a fresh one. */
    method FinishHex() returns (hex: string)
      requires Valid()
      modifies this, state, buffer
      ensures hex == DigestHex(old(fed))
      ensures Valid() && fed == [] && bufferSize == 0 && totalBytes == 0
    {
      hide Fold, HexWords, CountBytes, BitCount, Pad;
      BitCountOfWrapped(|fed|);
      CompressTail(BitCount(totalBytes));
      hex := PrintState();
      Reset();
    }

    /** Pads in the buffer, with one or two compressions. */
    method CompressTail(bitCount: bv64)
      requires Tracks() && CountBytes(bitCount) == LengthField(|fed|)
      modifies this`bufferSize, state, buffer
      ensures VarsOf(state[..]) == Digest(fed)
    {
      hide Compress, Fold, LengthField, CountBytes, Digest;
      ghost var waiting, n := buffer[..bufferSize], bufferSize;
      buffer[bufferSize] := 0x80;
      bufferSize := bufferSize + 1;
      assert buffer[..bufferSize] == waiting + [0x80];
      if bufferSize > 56 {
        FinishInTwoBlocks(fed);
        FlushLongTail();
        assert buffer[..56] == Zeros(56);
      } else {
        FinishInOneBlock(fed);
        ZeroTo(56);
      }
      WriteLength(bitCount);
      Transform(buffer);
    }

    /** No room for the length field: compress what is there and start a block of zeros. */
    method FlushLongTail()
      requires state.Length == 8 && buffer.Length == 64 && bufferSize <= 64
      modifies this`bufferSize, state, buffer
      ensures bufferSize == 56 && buffer[..56] == Zeros(56)
      ensures VarsOf(state[..])
           == Compress(VarsOf(old(state[..])), old(buffer[..bufferSize]) + Zeros(64 - old(bufferSize)))
    {
      hide Compress;
      ZeroTo(64);
      assert buffer[..] == old(buffer[..bufferSize]) + Zeros(64 - old(bufferSize));
      Transform(buffer);
      bufferSize := 0;
      ZeroTo(56);
      assert buffer[..56] == Zeros(56);
    }

    static lemma {:induction false} CountWraps(m: nat, n: nat)
      ensures (m % TWO_64 + n) % TWO_64 == (m + n) % TWO_64
    {
      assert m + n == m % TWO_64 + n + TWO_64 * (m / TWO_64);
    }

    /** The wrapped byte counter still gives the 64-bit bit count. */
    static lemma {:induction false} BitCountOfWrapped(length: nat)
      ensures BitCount(length % TWO_64) == BitCount(length)
    {
      hide AsCount;
      WrapTimesEight(length);
    }

    static lemma {:induction false} WrapTimesEight(length: nat)
      ensures 8 * (length % TWO_64) % TWO_64 == 8 * length % TWO_64
    {
      var q := length / TWO_64;
      assert 8 * length == length % TWO_64 * 8 + TWO_64 * (8 * q);
    }

    method PrintState() returns (hex: string)
      requires state.Length == 8
      ensures hex == HexWords(Words(VarsOf(state[..])))
    {
      hide FillTo, StreamHex, FixedHex;
      hex := "";
      for i := 0 to 8
        invariant hex == HexWords(state[..i])
      {
        PrintedWord(state[i]);
        hex := hex + FillTo(StreamHex(state[i] as nat), 8);
        assert state[..i + 1][..i] == state[..i];
      }
      assert state[..8] == Words(VarsOf(state[..]));
    }

    /** The in-place schedule and the eight rotating variables compute the compression of section 6.2.2. */
    method Transform(block: array<byte>)
      requires state.Length == 8 && block.Length == 64
      modifies state
      ensures VarsOf(state[..]) == Compress(VarsOf(old(state[..])), block[..])
    {
      hide Round, Schedule, Constant, Plus;
      var words := ExpandWords(block);
      var a, b, c, d := state[0], state[1], state[2], state[3];
      var e, f, g, h := state[4], state[5], state[6], state[7];
      ghost var start, bytes := VarsOf(state[..]), block[..];
      for i := 0 to 64
        invariant state[..] == old(state[..]) && block[..] == bytes
        invariant forall t :: 0 <= t < 64 ==> words[t] == Schedule(bytes, t)
        invariant Vars(a, b, c, d, e, f, g, h) == Rounds(start, bytes, i)
      {
        a, b, c, d, e, f, g, h := OneRound(a, b, c, d, e, f, g, h, Constant(i), words[i]);
      }
      AddToState(a, b, c, d, e, f, g, h);
    }

    static method OneRound(a0: word, b0: word, c0: word, d0: word, e0: word, f0: word, g0: word, h0: word,
                           constant: word, scheduled: word)
      returns (a: word, b: word, c: word, d: word, e: word, f: word, g: word, h: word)
      ensures Vars(a, b, c, d, e, f, g, h)
           == Round(Vars(a0, b0, c0, d0, e0, f0, g0, h0), constant, scheduled)
    {
      hide RotateRight, BigSigma1, BigSigma0, Ch, Maj, Sum2, Sum5;
      a, b, c, d, e, f, g, h := a0, b0, c0, d0, e0, f0, g0, h0;
      var sum1 := RotateRight(e, 6) ^ RotateRight(e, 11) ^ RotateRight(e, 25);
      var choose := (e & f) ^ (!e & g);
      var temporary1 := h + sum1 + choose + constant + scheduled;
      var sum0 := RotateRight(a, 2) ^ RotateRight(a, 13) ^ RotateRight(a, 22);
      var majority := (a & b) ^ (a & c) ^ (b & c);
      var temporary2 := sum0 + majority;
      SumsAgree(a, b, c, e, f, g);
      AdditionsAgree(h, sum1, choose, constant, scheduled);
      AdditionsAgree(sum0, majority, 0, 0, 0);
      AdditionsAgree(d, temporary1, 0, 0, 0);
      AdditionsAgree(temporary1, temporary2, 0, 0, 0);
      h := g;
      g := f;
      f := e;
      e := d + temporary1;
      d := c;
      c := b;
      b := a;
      a := temporary1 + temporary2;
    }

    method AddToState(a: word, b: word, c: word, d: word, e: word, f: word, g: word, h: word)
      requires state.Length == 8
      modifies state
      ensures VarsOf(state[..]) == Plus(VarsOf(old(state[..])), Vars(a, b, c, d, e, f, g, h))
    {
      hide Sum2;
      AddAt(0, a);
      AddAt(1, b);
      AddAt(2, c);
      AddAt(3, d);
      AddAt(4, e);
      AddAt(5, f);
      AddAt(6, g);
      AddAt(7, h);
    }

    method AddAt(i: nat, x: word)
      requires i < state.Length
      modifies state
      ensures state[..] == old(state[..])[i := Sum2(old(state[i]), x)]
    {
      state[i] := state[i] + x;
    }

    static method ExpandWords(block: array<byte>) returns (words: array<word>)
      requires block.Length == 64
      ensures fresh(words) && words.Length == 64
      ensures forall t :: 0 <= t < 64 ==> words[t] == Schedule(block[..], t)
    {
      hide Schedule;
      words := LoadWords(block);
      ExtendWords(words, block[..]);
    }

    static method LoadWords(block: array<byte>) returns (words: array<word>)
      requires block.Length == 64
      ensures fresh(words) && words.Length == 64
      ensures forall t :: 0 <= t < 16 ==> words[t] == Schedule(block[..], t)
    {
      hide BigEndianWord, LoadWord, Extend;
      words := new word[64](_ => 0);
      for i := 0 to 16
        invariant forall t :: 0 <= t < i ==> words[t] == Schedule(block[..], t)
      {
        var offset := i * 4;
        words[i] := LoadWord(block[offset], block[offset + 1], block[offset + 2], block[offset + 3]);
      }
    }

    static method ExtendWords(words: array<word>, ghost bytes: seq<byte>)
      requires words.Length == 64 && |bytes| == 64
      requires forall t :: 0 <= t < 16 ==> words[t] == Schedule(bytes, t)
      modifies words
      ensures forall t :: 0 <= t < 64 ==> words[t] == Schedule(bytes, t)
    {
      hide SmallSigma0, SmallSigma1, Extend, BigEndianWord;
      for i := 16 to 64
        invariant forall t :: 0 <= t < i ==> words[t] == Schedule(bytes, t)
      {
        words[i] := NextWord(words[i - 16], words[i - 15], words[i - 7], words[i - 2]);
      }
    }

    static method NextWord(w16: word, w15: word, w7: word, w2: word) returns (w: word)
      ensures w == Extend(SmallSigma1(w2), w7, SmallSigma0(w15), w16)
    {
      hide SmallSigma0, SmallSigma1, Extend, RotateRight;
      var s0 := RotateRight(w15, 7) ^ RotateRight(w15, 18) ^ (w15 >> 3);
      var s1 := RotateRight(w2, 17) ^ RotateRight(w2, 19) ^ (w2 >> 10);
      SmallSigmasAgree(w15, w2);
      ExtendAgrees(s1, w7, s0, w16);
      w := w16 + s0 + w7 + s1;
    }
  }

  /** The one-shot convenience call. */
  method Sha256Hex(data: seq<byte>) returns (hex: string)
    ensures hex == DigestHex(data)
  {
    hide DigestHex;
    var digest := new Sha256();
    digest.Update(data);
    assert [] + data == data;
    hex := digest.FinishHex();
  }

  function Concat(chunks: seq<seq<byte>>): seq<byte> {
    if chunks == [] then [] else Concat(chunks[..|chunks| - 1]) + chunks[|chunks| - 1]
  }

  /** Chunking independence, twice over: two messages fed to one object in arbitrary pieces, with the second starting
      after the first was finished, give the digests of the two concatenations. */
  method DigestInPieces(first: seq<seq<byte>>, second: seq<seq<byte>>) returns (hex1: string, hex2: string)
    ensures hex1 == DigestHex(Concat(first))
    ensures hex2 == DigestHex(Concat(second))
  {
    hide DigestHex, Sha256.Valid;
    var digest := new Sha256();
    for i := 0 to |first|
      invariant digest.Valid() && digest.fed == Concat(first[..i])
      invariant fresh(digest) && fresh(digest.state) && fresh(digest.buffer)
    {
      digest.Update(first[i]);
      assert first[..i + 1][..i] == first[..i];
    }
    assert first[..|first|] == first;
    hex1 := digest.FinishHex();
    for i := 0 to |second|
      invariant digest.Valid() && digest.fed == Concat(second[..i])
      invariant fresh(digest) && fresh(digest.state) && fresh(digest.buffer)
    {
      digest.Update(second[i]);
      assert second[..i + 1][..i] == second[..i];
    }
    assert second[..|second|] == second;
    hex2 := digest.FinishHex();
  }
}
