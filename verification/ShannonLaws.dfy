/** What the cipher promises: chunking does not matter (POSIX), decryption undoes encryption,
    and a nonce resets all history. */
module ShannonLaws {
  import opened WordStream
  import opened Shannon
  import opened ShannonWords

  type Cipher<W> = State<Register<W>, W>

  // ---------- the nonce resets all history ----------

  /** A stale mbuf does not reach the MAC. */
  lemma FinishSame<W, B>(o: Ops<W, B>, a: Cipher<W>, b: Cipher<W>)
    requires Same(a, b)
    ensures Finish(o, a).1 == Finish(o, b).1 && Same(Finish(o, a).0, Finish(o, b).0)
  {
  }

  datatype Op<B> = Crypt(d: Direction, data: seq<B>) | TakeMac | Nonce(bytes: seq<B>)

  function Apply<W, B>(o: Ops<W, B>, st: Cipher<W>, op: Op<B>): (r: (Cipher<W>, seq<B>))
    requires Between(st.nbuf)
    ensures Between(r.0.nbuf)
  {
    match op
    case Crypt(d, data) => Call(CoreOf(o), d, st, data)
    case TakeMac => Finish(o, st)
    case Nonce(bytes) => (SetNonce(o, st, bytes), [])
  }

  /** A sequence of calls on one cipher: the last state and all outputs. */
  function Run<W, B>(o: Ops<W, B>, st: Cipher<W>, ops: seq<Op<B>>): (r: (Cipher<W>, seq<seq<B>>))
    requires Between(st.nbuf)
    ensures Between(r.0.nbuf)
    decreases |ops|
  {
    if ops == [] then (st, [])
    else
      var h := Apply(o, st, ops[0]);
      var r := Run(o, h.0, ops[1..]);
      (r.0, [h.1] + r.1)
  }

  /** All that a key or nonce load depends on. */
  ghost predicate Agree<W>(g: Register<W>, h: Register<W>) { g.R == h.R && g.konst == h.konst }

  lemma {:induction false} LoadWordsAgree<W, B>(o: Ops<W, B>, g: Register<W>, h: Register<W>, key: seq<B>)
    requires Agree(g, h)
    ensures Agree(LoadWords(o, g, key), LoadWords(o, h, key)) && LoadWords(o, g, key).initR == g.initR
    decreases |key|
  {
    if |key| >= 4 {
      LoadWordsAgree(o, AddCycle(o, g, KeyWord(o, key[..4])), AddCycle(o, h, KeyWord(o, key[..4])), key[4..]);
    }
  }

  /** Loading leaves nothing of the old state but initR. */
  lemma LoadKeyAgree<W, B>(o: Ops<W, B>, g: Register<W>, h: Register<W>, key: seq<B>)
    requires Agree(g, h)
    ensures LoadKey(o, g, key).initR == g.initR && LoadKey(o, g, key).(initR := h.initR) == LoadKey(o, h, key)
  {
    LoadWordsAgree(o, g, h, key);
    LoadWordsAgree(o, h, g, key);
    var a := AddCycle(o, LoadWords(o, g, key), o.number(|key|));
    var b := AddCycle(o, LoadWords(o, h, key), o.number(|key|));
    assert a.R == b.R && a.konst == b.konst;
  }

  lemma NonceAgree<W, B>(o: Ops<W, B>, a: Cipher<W>, b: Cipher<W>, nonce: seq<B>)
    requires a.reg.initR == b.reg.initR
    ensures Same(SetNonce(o, a, nonce), SetNonce(o, b, nonce)) && SetNonce(o, a, nonce).reg.initR == a.reg.initR
  {
    LoadKeyAgree(o, a.reg.(R := a.reg.initR, konst := o.initKonst), b.reg.(R := b.reg.initR, konst := o.initKonst), nonce);
  }

  lemma {:induction false} RunKeepsInit<W(!new), B>(o: Ops<W, B>, st: Cipher<W>, ops: seq<Op<B>>)
    requires Between(st.nbuf)
    ensures Run(o, st, ops).0.reg.initR == st.reg.initR
    decreases |ops|
  {
    if ops != [] {
      match ops[0] {
        case Crypt(d, data) => CallKeeps(CoreOf(o), (g: Register<W>) => g.initR, d, st, data);
        case TakeMac =>
        case Nonce(bytes) => NonceAgree(o, st, st, bytes);
      }
      RunKeepsInit(o, Apply(o, st, ops[0]).0, ops[1..]);
    }
  }

  /** States that differ only in a stale mbuf cannot be told apart by any sequence of calls. */
  lemma {:induction false} RunSame<W, B>(o: Ops<W, B>, a: Cipher<W>, b: Cipher<W>, ops: seq<Op<B>>)
    requires Between(a.nbuf) && Same(a, b)
    ensures Run(o, a, ops).1 == Run(o, b, ops).1 && Same(Run(o, a, ops).0, Run(o, b, ops).0)
    decreases |ops|
  {
    if ops != [] {
      match ops[0] {
        case Crypt(d, data) => CallSame(CoreOf(o), d, a, b, data);
        case TakeMac => FinishSame(o, a, b);
        case Nonce(bytes) => NonceAgree(o, a, b, bytes);
      }
      RunSame(o, Apply(o, a, ops[0]).0, Apply(o, b, ops[0]).0, ops[1..]);
    }
  }

  /** On either platform: two ciphers given the same key, then put through different calls,
      produce the same outputs and MACs once they are given the same nonce, whatever memory they
      started from. */
  lemma NonceResetsHistory<W(!new), B>(o: Ops<W, B>, a: Cipher<W>, b: Cipher<W>, key: seq<B>, past: seq<Op<B>>,
                                       otherPast: seq<Op<B>>, nonce: seq<B>, ops: seq<Op<B>>)
    ensures
      var x := SetNonce(o, Run(o, SetKey(o, a, key), past).0, nonce);
      var y := SetNonce(o, Run(o, SetKey(o, b, key), otherPast).0, nonce);
      Run(o, x, ops).1 == Run(o, y, ops).1 && Same(Run(o, x, ops).0, Run(o, y, ops).0)
  {
    LoadKeyAgree(o, a.reg.(R := InitR(o, 16), konst := o.initKonst), b.reg.(R := InitR(o, 16), konst := o.initKonst), key);
    RunKeepsInit(o, SetKey(o, a, key), past);
    RunKeepsInit(o, SetKey(o, b, key), otherPast);
    var u, v := Run(o, SetKey(o, a, key), past).0, Run(o, SetKey(o, b, key), otherPast).0;
    NonceAgree(o, u, v, nonce);
    RunSame(o, SetNonce(o, u, nonce), SetNonce(o, v, nonce), ops);
  }

  // ---------- chunks ----------

  /** POSIX: a plaintext split over any sequence of encrypt calls gives the ciphertext, the
      state (mbuf where a word is pending) and the MAC of one call. */
  lemma PosixChunks(st: Cipher<Word>, chunks: seq<seq<Byte>>)
    requires Between(st.nbuf)
    ensures
      var many := Calls(CoreOf(Words(Posix)), Encrypt, st, chunks);
      var one := Call(CoreOf(Words(Posix)), Encrypt, st, Concat(chunks));
      && Concat(many.1) == one.1 && Same(many.0, one.0)
      && Finish(Words(Posix), many.0).1 == Finish(Words(Posix), one.0).1
  {
    CodingIsLawful(Posix);
    var c := CoreOf(Words(Posix));
    ChunkingIrrelevant(c, st, chunks);
    FinishSame(Words(Posix), Calls(c, Encrypt, st, chunks).0, Call(c, Encrypt, st, Concat(chunks)).0);
  }

  // ---------- decryption ----------

  /** ESP32: with the same chunk lengths, of any size, decryption returns the plaintext chunks
      and ends in the identical state, hence with the same MAC. */
  lemma Esp32Decrypts(st: Cipher<Word>, chunks: seq<seq<Byte>>)
    requires Between(st.nbuf)
    ensures
      var e := Calls(CoreOf(Words(Esp32)), Encrypt, st, chunks);
      Calls(CoreOf(Words(Esp32)), Decrypt, st, e.1) == (e.0, chunks)
  {
    CodingIsLawful(Esp32);
    CallsUndone(CoreOf(Words(Esp32)), st, chunks);
  }

  /** POSIX: one call from a word boundary recovers a plaintext of any length.  The two states
      agree exactly when the keystream has zero bytes for what comes after the last whole word; in
      particular when nothing does, and then the MACs agree. */
  lemma PosixDecrypts(st: Cipher<Word>, data: seq<Byte>)
    requires st.nbuf == 0
    ensures
      var e := Call(CoreOf(Words(Posix)), Encrypt, st, data);
      var d := Call(CoreOf(Words(Posix)), Decrypt, st, e.1);
      && d.1 == data
      && (Same(d.0, e.0) <==> ZeroBytes(LastKey(CoreOf(Words(Posix)), st.reg, data), |data| % 4))
      && (|data| % 4 == 0 ==> Finish(Words(Posix), d.0).1 == Finish(Words(Posix), e.0).1)
  {
    CodingIsLawful(Posix);
    var c := CoreOf(Words(Posix));
    CallFromBoundary(c, st, data);
    KeepsIsZero(st, data);
    if |data| % 4 == 0 {
      FinishSame(Words(Posix), Call(c, Decrypt, st, Call(c, Encrypt, st, data).1).0, Call(c, Encrypt, st, data).0);
    }
  }

  /** The first `n` bytes of a keystream word are zero. */
  predicate ZeroBytes(w: Word, n: nat) {
    forall i | 0 <= i < n :: ByteAt(w, 8 * i) == 0
  }

  lemma KeepsIsZero(st: Cipher<Word>, data: seq<Byte>)
    ensures KeepsLeftover(CoreOf(Words(Posix)), st.reg, data) <==> ZeroBytes(LastKey(CoreOf(Words(Posix)), st.reg, data), |data| % 4)
  {
    var c := CoreOf(Words(Posix));
    var key := LastKey(c, st.reg, data);
    forall i | 0 <= i < |data| % 4
      ensures c.mix(Leftover(data)[i], key, 8 * i) == Leftover(data)[i] <==> ByteAt(key, 8 * i) == 0
    {
      MixKeeps(Leftover(data)[i], key, 8 * i);
    }
  }

  lemma MixKeeps(b: Byte, w: Word, k: int)
    ensures CoreOf(Words(Posix)).mix(b, w, k) == b <==> ByteAt(w, k) == 0
  {
    XorKeeps(b, ByteAt(w, k));
  }

  lemma XorKeeps(b: Byte, k: Byte)
    ensures b ^ k == b <==> k == 0
  {
  }

  /** A register whose next keystream word is 1. */
  const ONE_IN_NINE: Register<Word> :=
    Register([0, 0, 0, 0, 0, 0, 0, 0, 0, 1, 0, 0, 0, 0, 0, 0], [0, 0, 0, 0, 0, 0, 0, 0, 0, 0, 0, 0, 0, 0, 0, 0],
             [0, 0, 0, 0, 0, 0, 0, 0, 0, 0, 0, 0, 0, 0, 0, 0], 0, 0)

  /** The next keystream word of sixteen words. */
  lemma NextKeyIs<W, B>(o: Ops<W, B>, r: seq<W>, konst: W)
    requires |r| == 16
    ensures
      var t := o.xor(o.sbox1(o.xor(o.xor(r[12], r[13]), konst)), o.rotl1(r[0]));
      NextKey(o, r, konst) == o.xor(o.xor(o.sbox2(o.xor(r[3], t)), r[9]), r[13])
  {
  }

  lemma ZeroIsFixed()
    ensures Sbox1(Posix, 0) == 0 && Sbox2(Posix, 0) == 0 && Rotl(0, 1) == 0
  {
  }

  lemma KeyIsOne()
    ensures NextKey(Words(Posix), ONE_IN_NINE.R, 0) == 1
  {
    var r := ONE_IN_NINE.R;
    NextKeyIs(Words(Posix), r, 0);
    ZeroIsFixed();
    assert r[0] == r[3] == r[12] == r[13] == 0 && r[9] == 1;
    assert XorWord(0, 0) == 0 && XorWord(0, 1) == 1 && XorWord(1, 0) == 1;
  }

  /** POSIX: after one byte the two ends differ. */
  lemma PosixEndsDiffer()
    ensures
      var st: Cipher<Word>, data: seq<Byte> := State(ONE_IN_NINE, 0, 0), [0];
      var e := Call(CoreOf(Words(Posix)), Encrypt, st, data);
      var d := Call(CoreOf(Words(Posix)), Decrypt, st, e.1);
      d.1 == data && !Same(d.0, e.0)
  {
    var st: Cipher<Word>, data: seq<Byte> := State(ONE_IN_NINE, 0, 0), [0];
    PosixDecrypts(st, data);
    LastKeyIsOne(data);
    assert ByteAt(1, 8 * 0) == 1;
  }

  lemma LastKeyIsOne(data: seq<Byte>)
    requires |data| < 4
    ensures LastKey(CoreOf(Words(Posix)), ONE_IN_NINE, data) == 1
  {
    KeyIsOne();
  }

  /** Chunks that keep to word boundaries make no difference on ESP32 either, to the output, the
      state or the MAC. */
  lemma Esp32WordChunks(d: Direction, st: Cipher<Word>, chunks: seq<seq<Byte>>)
    requires st.nbuf == 0 && WordChunks(chunks)
    ensures
      var many := Calls(CoreOf(Words(Esp32)), d, st, chunks);
      (many.0, Concat(many.1)) == Call(CoreOf(Words(Esp32)), d, st, Concat(chunks))
  {
    WordChunksIrrelevant(CoreOf(Words(Esp32)), d, st, chunks);
  }
}
