/** Shannon over 32-bit words: the arithmetic of the two platforms, and the laws of its byte
    coding. */
module ShannonWords {
  import opened WordStream
  import opened Shannon

  type Word = bv32
  type Byte = bv8

  function Low(w: Word): Byte { (w & 0xFF) as bv8 }

  /** `(uint8_t)(w >> k)` and `(uint32_t)b << k`, k one of 0, 8, 16, 24. */
  function ByteAt(w: Word, k: int): Byte {
    if k <= 0 then Low(w) else if k <= 8 then Low(w >> 8) else if k <= 16 then Low(w >> 16) else Low(w >> 24)
  }

  function Place(b: Byte, k: int): Word {
    if k <= 0 then b as bv32
    else if k <= 8 then (b as bv32) << 8
    else if k <= 16 then (b as bv32) << 16
    else (b as bv32) << 24
  }

  /** BYTE2WORD and WORD2BYTE. */
  function Byte2Word(a: Byte, b: Byte, c: Byte, d: Byte): Word {
    Place(d, 24) | Place(c, 16) | Place(b, 8) | Place(a, 0)
  }

  function Word2Byte(w: Word): (Byte, Byte, Byte, Byte) {
    (ByteAt(w, 0), ByteAt(w, 8), ByteAt(w, 16), ByteAt(w, 24))
  }

  function XorWord(v: Word, w: Word): Word { v ^ w }
  function MixByte(b: Byte, w: Word, k: int): Byte { b ^ ByteAt(w, k) }
  function FoldByte(w: Word, b: Byte, k: int): Word { w ^ Place(b, k) }

  function Rotl(w: Word, c: nat): Word
    requires 0 < c < 32
  {
    (w << c) | (w >> (32 - c))
  }

  /** `w ^= rotl32(w, c) | rotl32(w, d)`. */
  function OrRotated(w: Word, c: nat, d: nat): Word
    requires 0 < c < 32 && 0 < d < 32
  {
    w ^ (Rotl(w, c) | Rotl(w, d))
  }

  function Sbox1(p: Platform, w: Word): Word {
    if p.Posix? then w ^ Rotl(w, 5) ^ Rotl(w, 7) ^ Rotl(w, 19) ^ Rotl(w, 22)
    else OrRotated(OrRotated(w, 5, 7), 19, 22)
  }

  function Sbox2(p: Platform, w: Word): Word {
    if p.Posix? then Sbox1(p, w)
    else OrRotated(OrRotated(w, 7, 22), 5, 19)
  }

  function InitKonst(p: Platform): Word { if p.Posix? then 0x6996c75a else 0x6996c53a }

  function Words(p: Platform): Ops<Word, Byte> {
    Ops(p, 0, 1, InitKonst(p), 0, XorWord, (v: Word, w: Word) => v + w,
        w => Sbox1(p, w), w => Sbox2(p, w), w => Rotl(w, 1), (n: nat) => (n % 0x1_0000_0000) as bv32,
        MixByte, FoldByte, Byte2Word, Word2Byte)
  }

  // ---------- the coding is lawful ----------

  lemma WordOfBytes(w: Word)
    ensures Byte2Word(ByteAt(w, 0), ByteAt(w, 8), ByteAt(w, 16), ByteAt(w, 24)) == w
  {
    assert (w >> 24) & 0xFF == w >> 24;
    assert ((w >> 24) << 24) | (((w >> 16) & 0xFF) << 16) | (((w >> 8) & 0xFF) << 8) | (w & 0xFF) == w;
  }

  lemma BytesOfWord(a: Byte, b: Byte, c: Byte, d: Byte)
    ensures Word2Byte(Byte2Word(a, b, c, d)) == (a, b, c, d)
  {
  }

  lemma LowXor(a: Word, b: Word)
    ensures Low(a ^ b) == Low(a) ^ Low(b)
  {
    assert (a ^ b) & 0xFF == (a & 0xFF) ^ (b & 0xFF);
  }

  lemma ByteXor(w: Word, s: Word, k: int)
    ensures ByteAt(w ^ s, k) == ByteAt(w, k) ^ ByteAt(s, k)
  {
    if k <= 0 {
      LowXor(w, s);
    } else if k <= 8 {
      assert (w ^ s) >> 8 == (w >> 8) ^ (s >> 8);
      LowXor(w >> 8, s >> 8);
    } else if k <= 16 {
      assert (w ^ s) >> 16 == (w >> 16) ^ (s >> 16);
      LowXor(w >> 16, s >> 16);
    } else {
      assert (w ^ s) >> 24 == (w >> 24) ^ (s >> 24);
      LowXor(w >> 24, s >> 24);
    }
  }

  lemma MixFour(v: Word, w: Word)
    ensures
      var t := Word2Byte(v);
      Word2Byte(XorWord(v, w)) == (MixByte(t.0, w, 0), MixByte(t.1, w, 8), MixByte(t.2, w, 16), MixByte(t.3, w, 24))
  {
    ByteXor(v, w, 0);
    ByteXor(v, w, 8);
    ByteXor(v, w, 16);
    ByteXor(v, w, 24);
  }

  lemma FoldFour(a: Byte, b: Byte, c: Byte, d: Byte)
    ensures FoldByte(FoldByte(FoldByte(FoldByte(0, a, 0), b, 8), c, 16), d, 24) == Byte2Word(a, b, c, d)
  {
  }

  lemma MixTwice(b: Byte, w: Word, k: int)
    ensures MixByte(MixByte(b, w, k), w, k) == b
  {
  }

  lemma XorTwice(v: Word, w: Word)
    ensures XorWord(XorWord(v, w), w) == v
  {
  }

  /** BYTE2WORD, WORD2BYTE and the byte-wise handling of a partial word fit together. */
  lemma CodingIsLawful(p: Platform)
    ensures Lawful(CoreOf(Words(p)))
  {
    var c := CoreOf(Words(p));
    forall s: Byte, t: Byte, u: Byte, v: Byte
      ensures c.unpack(c.pack(s, t, u, v)) == (s, t, u, v)
      ensures c.fold(c.fold(c.fold(c.fold(c.zero, s, 0), t, 8), u, 16), v, 24) == c.pack(s, t, u, v)
    {
      BytesOfWord(s, t, u, v);
      FoldFour(s, t, u, v);
    }
    forall w: Word
      ensures c.pack(c.unpack(w).0, c.unpack(w).1, c.unpack(w).2, c.unpack(w).3) == w
    {
      WordOfBytes(w);
    }
    forall s: Byte, t: Byte, u: Byte, v: Byte, w: Word
      ensures c.unpack(c.xor(c.pack(s, t, u, v), w)) == (c.mix(s, w, 0), c.mix(t, w, 8), c.mix(u, w, 16), c.mix(v, w, 24))
    {
      MixFour(Byte2Word(s, t, u, v), w);
      BytesOfWord(s, t, u, v);
    }
    forall b: Byte, w: Word, k: int
      ensures c.mix(c.mix(b, w, k), w, k) == b
    {
      MixTwice(b, w, k);
    }
    forall v: Word, w: Word
      ensures c.xor(c.xor(v, w), w) == v
    {
      XorTwice(v, w);
    }
  }
}
