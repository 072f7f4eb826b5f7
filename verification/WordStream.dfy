/** A stream cipher that works on four-byte words, with a buffer for a partial word: the shape
    of platform_shannon_encrypt and platform_shannon_decrypt, for any register underneath and
    any coding of words.  Shannon.dfy supplies both. */
module WordStream {

  datatype Direction = Encrypt | Decrypt

  /** What the stream needs to know.
      Register: stepping it, the keystream word (sbuf), accumulating a plaintext word.
      Coding: word exclusive-or, `b ^ (uint8_t)(w >> k)`, `w ^ (uint32_t)b << k`, BYTE2WORD and
      WORD2BYTE.
      Behaviour: whether decryption folds its output (the plaintext) or its input into a
      partial word, and whether a completed partial word is accumulated. */
  datatype Core<!R, !W, !B> = Core(
    cycle: R -> R, key: R -> W, mac: (R, W) -> R,
    zero: W, xor: (W, W) -> W, mix: (B, W, int) -> B, fold: (W, B, int) -> W,
    pack: (B, B, B, B) -> W, unpack: W -> (B, B, B, B),
    foldsOutput: bool, flushes: bool)

  /** The register, and the partial word: mbuf and the number of its bits still to come. */
  datatype State<R, W> = State(reg: R, mbuf: W, nbuf: nat)

  /** The laws of the coding: packing is a bijection, folding four bytes into zero packs them,
      mixing four bytes is word exclusive-or, and exclusive-or undoes itself. */
  ghost predicate Lawful<R, W(!new), B(!new)>(c: Core<R, W, B>) {
    && (forall s, t, u, v :: c.unpack(c.pack(s, t, u, v)) == (s, t, u, v))
    && (forall w :: c.pack(c.unpack(w).0, c.unpack(w).1, c.unpack(w).2, c.unpack(w).3) == w)
    && (forall s, t, u, v :: c.fold(c.fold(c.fold(c.fold(c.zero, s, 0), t, 8), u, 16), v, 24) == c.pack(s, t, u, v))
    && (forall s, t, u, v, w :: c.unpack(c.xor(c.pack(s, t, u, v), w)) == (c.mix(s, w, 0), c.mix(t, w, 8), c.mix(u, w, 16), c.mix(v, w, 24)))
    && (forall b, w, k {:trigger c.mix(c.mix(b, w, k), w, k)} :: c.mix(c.mix(b, w, k), w, k) == b)
    && (forall v, w {:trigger c.xor(c.xor(v, w), w)} :: c.xor(c.xor(v, w), w) == v)
  }

  function Pack<R, W, B>(c: Core<R, W, B>, s: seq<B>): W
    requires |s| >= 4
  {
    c.pack(s[0], s[1], s[2], s[3])
  }

  function Unpack<R, W, B>(c: Core<R, W, B>, w: W): (s: seq<B>)
    ensures |s| == 4
  {
    var t := c.unpack(w);
    [t.0, t.1, t.2, t.3]
  }

  // ---------- encryption and decryption ----------

  predicate Bits(nbuf: nat) { nbuf <= 32 && nbuf % 8 == 0 }

  /** Between calls: a partial word has 1 to 3 bytes, or there is none. */
  predicate Between(nbuf: nat) { Bits(nbuf) && nbuf < 32 }

  /** The next output byte inside a partial word. */
  function Mixed<R, W, B>(c: Core<R, W, B>, st: State<R, W>, b: B): B {
    c.mix(b, c.key(st.reg), 32 - st.nbuf)
  }

  /** One byte folded into the partial word. */
  function Fold<R, W, B>(c: Core<R, W, B>, st: State<R, W>, m: B): (r: State<R, W>)
    requires st.nbuf >= 8
    ensures r.nbuf == st.nbuf - 8 && r.reg == st.reg
  {
    st.(mbuf := c.fold(st.mbuf, m, 32 - st.nbuf), nbuf := st.nbuf - 8)
  }

  /** The byte that is folded for input `b` and output `o`. */
  function Folded<R, W, B>(c: Core<R, W, B>, d: Direction, b: B, o: B): B {
    if c.foldsOutput && d.Decrypt? then o else b
  }

  /** The loop over a partial word: until the word or the data is used up. */
  function Partial<R, W, B>(c: Core<R, W, B>, d: Direction, st: State<R, W>, data: seq<B>): (r: (State<R, W>, seq<B>))
    requires Bits(st.nbuf)
    ensures |r.1| <= |data| && r.0.nbuf == st.nbuf - 8 * |r.1| && r.0.reg == st.reg
    ensures r.0.nbuf != 0 ==> |r.1| == |data|
    decreases |data|
  {
    if st.nbuf == 0 || data == [] then (st, [])
    else
      var o := Mixed(c, st, data[0]);
      Prefix([o], Partial(c, d, Fold(c, st, Folded(c, d, data[0], o)), data[1..]))
  }

  function Prefix<S, B>(out: seq<B>, r: (S, seq<B>)): (S, seq<B>) {
    (r.0, out + r.1)
  }

  lemma PrefixTwice<S, B>(a: seq<B>, b: seq<B>, r: (S, seq<B>))
    ensures Prefix(a, Prefix(b, r)) == Prefix(a + b, r)
  {
    assert a + (b + r.1) == a + b + r.1;
  }

  lemma PrefixNone<S, B>(r: (S, seq<B>))
    ensures Prefix([], r) == r
  {
    assert [] + r.1 == r.1;
  }

  /** Progress of the byte loop: one more byte is done. */
  lemma PartialStep<R, W, B>(c: Core<R, W, B>, d: Direction, st: State<R, W>, done: seq<B>, rest: seq<B>)
    requires Bits(st.nbuf) && st.nbuf != 0 && rest != []
    ensures
      var o := Mixed(c, st, rest[0]);
      Prefix(done, Partial(c, d, st, rest)) == Prefix(done + [o], Partial(c, d, Fold(c, st, Folded(c, d, rest[0], o)), rest[1..]))
  {
    var o := Mixed(c, st, rest[0]);
    PrefixTwice(done, [o], Partial(c, d, Fold(c, st, Folded(c, d, rest[0], o)), rest[1..]));
  }

  /** One whole word: output, and the new register. */
  function WordOut<R, W, B>(c: Core<R, W, B>, reg: R, w: W): W { c.xor(w, c.key(c.cycle(reg))) }

  function WordStep<R, W, B>(c: Core<R, W, B>, d: Direction, reg: R, w: W): R {
    c.mac(c.cycle(reg), if d.Encrypt? then w else WordOut(c, reg, w))
  }

  /** The loop over whole words; at most three bytes are left over. */
  function Whole<R, W, B>(c: Core<R, W, B>, d: Direction, reg: R, data: seq<B>): (r: (R, seq<B>))
    ensures |r.1| <= |data| < |r.1| + 4
    decreases |data|
  {
    if |data| < 4 then (reg, [])
    else
      var w := Pack(c, data[..4]);
      Prefix(Unpack(c, WordOut(c, reg, w)), Whole(c, d, WordStep(c, d, reg, w), data[4..]))
  }

  lemma {:induction false} WholeLength<R, W, B>(c: Core<R, W, B>, d: Direction, reg: R, data: seq<B>)
    ensures |Whole(c, d, reg, data).1| % 4 == 0
    decreases |data|
  {
    if |data| >= 4 {
      WholeLength(c, d, WordStep(c, d, reg, Pack(c, data[..4])), data[4..]);
    }
  }

  /** Progress of the word loop: one more word is done. */
  lemma WholeStep<R, W, B>(c: Core<R, W, B>, d: Direction, reg: R, done: seq<B>, rest: seq<B>)
    requires |rest| >= 4
    ensures
      var w := Pack(c, rest[..4]);
      Prefix(done, Whole(c, d, reg, rest)) ==
      Prefix(done + Unpack(c, WordOut(c, reg, w)), Whole(c, d, WordStep(c, d, reg, w), rest[4..]))
  {
    var w := Pack(c, rest[..4]);
    PrefixTwice(done, Unpack(c, WordOut(c, reg, w)), Whole(c, d, WordStep(c, d, reg, w), rest[4..]));
  }

  lemma WholeDone<R, W, B>(c: Core<R, W, B>, d: Direction, reg: R, done: seq<B>, rest: seq<B>)
    requires |rest| < 4
    ensures Prefix(done, Whole(c, d, reg, rest)) == (reg, done)
  {
    assert done + [] == done;
  }

  /** Starting a partial word. */
  function Begin<R, W, B>(c: Core<R, W, B>, reg: R): State<R, W> {
    State(c.cycle(reg), c.zero, 32)
  }

  /** The up to three bytes after the last whole word. */
  function Tail<R, W, B>(c: Core<R, W, B>, d: Direction, st: State<R, W>, data: seq<B>): (r: (State<R, W>, seq<B>))
    requires st.nbuf == 0 && |data| < 4
    ensures Between(r.0.nbuf) && |r.1| == |data|
  {
    if data == [] then (st, []) else Partial(c, d, Begin(c, st.reg), data)
  }

  /** A complete partial word is accumulated, if the cipher does that. */
  function Completed<R, W, B>(c: Core<R, W, B>, st: State<R, W>): (r: State<R, W>)
    ensures r.nbuf == st.nbuf
  {
    if c.flushes && st.nbuf == 0 then st.(reg := c.mac(st.reg, st.mbuf)) else st
  }

  /** From a word boundary. */
  function Aligned<R, W, B>(c: Core<R, W, B>, d: Direction, st: State<R, W>, data: seq<B>): (r: (State<R, W>, seq<B>))
    requires st.nbuf == 0
    ensures Between(r.0.nbuf) && |r.1| == |data|
  {
    var w := Whole(c, d, st.reg, data);
    Prefix(w.1, Tail(c, d, st.(reg := w.0), data[|w.1|..]))
  }

  /** platform_shannon_encrypt and platform_shannon_decrypt: the new state and the new
      contents of the buffer. */
  function Call<R, W, B>(c: Core<R, W, B>, d: Direction, st: State<R, W>, data: seq<B>): (r: (State<R, W>, seq<B>))
    requires Between(st.nbuf)
    ensures Between(r.0.nbuf) && |r.1| == |data|
  {
    if st.nbuf == 0 then Aligned(c, d, st, data)
    else
      var h := Partial(c, d, st, data);
      if h.0.nbuf != 0 then h else Prefix(h.1, Aligned(c, d, Completed(c, h.0), data[|h.1|..]))
  }

  // ---------- the byte-at-a-time machine ----------

  /** Equal states, but for an mbuf that no partial word uses. */
  ghost predicate Same<R, W>(a: State<R, W>, b: State<R, W>) {
    a.reg == b.reg && a.nbuf == b.nbuf && (a.nbuf != 0 ==> a.mbuf == b.mbuf)
  }

  function Started<R, W, B>(c: Core<R, W, B>, st: State<R, W>): State<R, W> {
    if st.nbuf == 0 then Begin(c, st.reg) else st
  }

  /** Encrypting one byte: a word is begun if need be, one byte of keystream used, and a
      complete word accumulated. */
  function ByteStep<R, W, B>(c: Core<R, W, B>, st: State<R, W>, b: B): (r: (State<R, W>, B))
    requires Bits(st.nbuf)
    ensures Bits(r.0.nbuf)
  {
    var s := Started(c, st);
    (Completed(c, Fold(c, s, b)), Mixed(c, s, b))
  }

  function ByteRun<R, W, B>(c: Core<R, W, B>, st: State<R, W>, data: seq<B>): (r: (State<R, W>, seq<B>))
    requires Bits(st.nbuf)
    ensures Bits(r.0.nbuf) && |r.1| == |data|
    decreases |data|
  {
    if data == [] then (st, [])
    else
      var s := ByteStep(c, st, data[0]);
      Prefix([s.1], ByteRun(c, s.0, data[1..]))
  }

  lemma {:induction false} ByteRunAppend<R, W, B>(c: Core<R, W, B>, st: State<R, W>, a: seq<B>, b: seq<B>)
    requires Bits(st.nbuf)
    ensures ByteRun(c, st, a + b) == Prefix(ByteRun(c, st, a).1, ByteRun(c, ByteRun(c, st, a).0, b))
    decreases |a|
  {
    if a == [] {
      assert a + b == b;
      PrefixNone(ByteRun(c, st, b));
    } else {
      var s := ByteStep(c, st, a[0]);
      assert (a + b)[1..] == a[1..] + b;
      ByteRunAppend(c, s.0, a[1..], b);
      var r := ByteRun(c, s.0, a[1..]);
      PrefixTwice([s.1], r.1, ByteRun(c, r.0, b));
    }
  }

  lemma ByteRunSame<R, W, B>(c: Core<R, W, B>, a: State<R, W>, b: State<R, W>, data: seq<B>)
    requires Same(a, b) && Bits(a.nbuf)
    ensures ByteRun(c, a, data).1 == ByteRun(c, b, data).1 && Same(ByteRun(c, a, data).0, ByteRun(c, b, data).0)
  {
    if data != [] {
      assert Started(c, a) == Started(c, b);
    }
  }

  /** A partial word, byte by byte. */
  lemma {:induction false} PartialRefines<R, W, B>(c: Core<R, W, B>, st: State<R, W>, data: seq<B>)
    requires Bits(st.nbuf) && st.nbuf > 0 && c.flushes
    ensures
      var h := Partial(c, Encrypt, st, data);
      ByteRun(c, st, data) == Prefix(h.1, ByteRun(c, Completed(c, h.0), data[|h.1|..]))
    decreases |data|
  {
    var h := Partial(c, Encrypt, st, data);
    if data == [] {
      PrefixNone(ByteRun(c, st, data));
    } else {
      var st' := Fold(c, st, data[0]);
      var o := Mixed(c, st, data[0]);
      var r := Partial(c, Encrypt, st', data[1..]);
      assert h == Prefix([o], r) && ByteStep(c, st, data[0]) == (Completed(c, st'), o);
      assert data[1..][|r.1|..] == data[|h.1|..];
      if st'.nbuf == 0 {
        assert r == (st', []) && [o] + [] == [o];
      } else {
        PartialRefines(c, st', data[1..]);
        PrefixTwice([o], r.1, ByteRun(c, Completed(c, h.0), data[|h.1|..]));
      }
    }
  }

  lemma BeginFirst<R, W, B>(c: Core<R, W, B>, st: State<R, W>, data: seq<B>)
    requires st.nbuf == 0 && data != []
    ensures ByteRun(c, st, data) == ByteRun(c, Begin(c, st.reg), data)
  {
  }

  lemma ByteRunFour<R, W, B>(c: Core<R, W, B>, st: State<R, W>, s: seq<B>)
    requires Bits(st.nbuf) && |s| == 4
    ensures
      var a := ByteStep(c, st, s[0]);
      var b := ByteStep(c, a.0, s[1]);
      var d := ByteStep(c, b.0, s[2]);
      var e := ByteStep(c, d.0, s[3]);
      ByteRun(c, st, s) == (e.0, [a.1, b.1, d.1, e.1])
  {
    var a := ByteStep(c, st, s[0]);
    var b := ByteStep(c, a.0, s[1]);
    var d := ByteStep(c, b.0, s[2]);
    var e := ByteStep(c, d.0, s[3]);
    assert s[1..][1..] == s[2..] && s[2..][1..] == s[3..] && s[3..][1..] == [];
    assert ByteRun(c, d.0, s[3..]) == (e.0, [e.1]) by {
      assert ByteRun(c, e.0, []) == (e.0, []) && [e.1] + [] == [e.1];
    }
    assert ByteRun(c, b.0, s[2..]) == (e.0, [d.1, e.1]) by {
      assert [d.1] + [e.1] == [d.1, e.1];
    }
    assert ByteRun(c, a.0, s[1..]) == (e.0, [b.1, d.1, e.1]) by {
      assert [b.1] + [d.1, e.1] == [b.1, d.1, e.1];
    }
    assert [a.1] + [b.1, d.1, e.1] == [a.1, b.1, d.1, e.1];
  }

  /** A whole word is four bytes of the machine. */
  lemma WordRefines<R, W(!new), B(!new)>(c: Core<R, W, B>, st: State<R, W>, s: seq<B>)
    requires st.nbuf == 0 && |s| == 4 && c.flushes && Lawful(c)
    ensures ByteRun(c, st, s).1 == Unpack(c, WordOut(c, st.reg, Pack(c, s)))
    ensures Same(ByteRun(c, st, s).0, st.(reg := WordStep(c, Encrypt, st.reg, Pack(c, s))))
  {
    BeginFirst(c, st, s);
    ByteRunFour(c, Begin(c, st.reg), s);
    FourSteps(c, Begin(c, st.reg), s);
  }

  lemma FourSteps<R, W, B>(c: Core<R, W, B>, a: State<R, W>, s: seq<B>)
    requires a.nbuf == 32 && |s| == 4 && c.flushes
    ensures
      var m := c.fold(c.fold(c.fold(c.fold(a.mbuf, s[0], 0), s[1], 8), s[2], 16), s[3], 24);
      var w := ByteStep(c, a, s[0]);
      var x := ByteStep(c, w.0, s[1]);
      var y := ByteStep(c, x.0, s[2]);
      var z := ByteStep(c, y.0, s[3]);
      && z.0 == State(c.mac(a.reg, m), m, 0)
      && w.1 == c.mix(s[0], c.key(a.reg), 0) && x.1 == c.mix(s[1], c.key(a.reg), 8)
      && y.1 == c.mix(s[2], c.key(a.reg), 16) && z.1 == c.mix(s[3], c.key(a.reg), 24)
  {
  }

  lemma {:induction false} WholeRefines<R, W(!new), B(!new)>(c: Core<R, W, B>, st: State<R, W>, data: seq<B>)
    requires st.nbuf == 0 && c.flushes && Lawful(c)
    ensures
      var w := Whole(c, Encrypt, st.reg, data);
      var r := ByteRun(c, st.(reg := w.0), data[|w.1|..]);
      ByteRun(c, st, data).1 == w.1 + r.1 && Same(ByteRun(c, st, data).0, r.0)
    decreases |data|
  {
    var w := Whole(c, Encrypt, st.reg, data);
    if |data| < 4 {
      assert data[0..] == data;
      PrefixNone(ByteRun(c, st, data));
    } else {
      var head, rest := data[..4], data[4..];
      assert data == head + rest;
      ByteRunAppend(c, st, head, rest);
      WordRefines(c, st, head);
      var st' := st.(reg := WordStep(c, Encrypt, st.reg, Pack(c, head)));
      ByteRunSame(c, ByteRun(c, st, head).0, st', rest);
      WholeRefines(c, st', rest);
      var v := Whole(c, Encrypt, st'.reg, rest);
      assert rest[|v.1|..] == data[|w.1|..];
      PrefixTwice(Unpack(c, WordOut(c, st.reg, Pack(c, head))), v.1, ByteRun(c, st'.(reg := v.0), rest[|v.1|..]));
    }
  }

  lemma TailRefines<R, W, B>(c: Core<R, W, B>, st: State<R, W>, data: seq<B>)
    requires st.nbuf == 0 && |data| < 4 && c.flushes
    ensures Tail(c, Encrypt, st, data) == ByteRun(c, st, data)
  {
    if data != [] {
      var t := Tail(c, Encrypt, st, data);
      BeginFirst(c, st, data);
      PartialRefines(c, Begin(c, st.reg), data);
      assert ByteRun(c, t.0, data[|t.1|..]) == (t.0, []) && t.1 + [] == t.1;
    }
  }

  lemma AlignedRefines<R, W(!new), B(!new)>(c: Core<R, W, B>, st: State<R, W>, data: seq<B>)
    requires st.nbuf == 0 && c.flushes && Lawful(c)
    ensures Aligned(c, Encrypt, st, data).1 == ByteRun(c, st, data).1
    ensures Same(Aligned(c, Encrypt, st, data).0, ByteRun(c, st, data).0)
  {
    WholeRefines(c, st, data);
    var w := Whole(c, Encrypt, st.reg, data);
    TailRefines(c, st.(reg := w.0), data[|w.1|..]);
  }

  /** The word loop and its buffer refine the byte machine: same output, and the same state
      wherever mbuf is in use. */
  lemma EncryptRefinesBytes<R, W(!new), B(!new)>(c: Core<R, W, B>, st: State<R, W>, data: seq<B>)
    requires Between(st.nbuf) && c.flushes && Lawful(c)
    ensures Call(c, Encrypt, st, data).1 == ByteRun(c, st, data).1
    ensures Same(Call(c, Encrypt, st, data).0, ByteRun(c, st, data).0)
  {
    if st.nbuf == 0 {
      AlignedRefines(c, st, data);
    } else {
      var h := Partial(c, Encrypt, st, data);
      PartialRefines(c, st, data);
      if h.0.nbuf != 0 {
        assert ByteRun(c, h.0, data[|h.1|..]) == (h.0, []) && h.1 + [] == h.1;
      } else {
        AlignedRefines(c, Completed(c, h.0), data[|h.1|..]);
      }
    }
  }

  // ---------- chunks ----------

  function Concat<B>(chunks: seq<seq<B>>): seq<B> {
    if chunks == [] then [] else chunks[0] + Concat(chunks[1..])
  }

  /** One call per chunk, and the outputs in a row. */
  function Calls<R, W, B>(c: Core<R, W, B>, d: Direction, st: State<R, W>, chunks: seq<seq<B>>): (r: (State<R, W>, seq<seq<B>>))
    requires Between(st.nbuf)
    ensures Between(r.0.nbuf) && |r.1| == |chunks|
    decreases |chunks|
  {
    if chunks == [] then (st, [])
    else
      var h := Call(c, d, st, chunks[0]);
      var r := Calls(c, d, h.0, chunks[1..]);
      (r.0, [h.1] + r.1)
  }

  lemma {:induction false} ChunksRefineBytes<R, W(!new), B(!new)>(c: Core<R, W, B>, st: State<R, W>, chunks: seq<seq<B>>)
    requires Between(st.nbuf) && c.flushes && Lawful(c)
    ensures Concat(Calls(c, Encrypt, st, chunks).1) == ByteRun(c, st, Concat(chunks)).1
    ensures Same(Calls(c, Encrypt, st, chunks).0, ByteRun(c, st, Concat(chunks)).0)
    decreases |chunks|
  {
    if chunks != [] {
      var h := Call(c, Encrypt, st, chunks[0]);
      var b := ByteRun(c, st, chunks[0]);
      EncryptRefinesBytes(c, st, chunks[0]);
      ChunksRefineBytes(c, h.0, chunks[1..]);
      ByteRunSame(c, h.0, b.0, Concat(chunks[1..]));
      ByteRunAppend(c, st, chunks[0], Concat(chunks[1..]));
      var r := Calls(c, Encrypt, h.0, chunks[1..]);
      assert ([h.1] + r.1)[1..] == r.1;
    }
  }

  /** Splitting a plaintext over any sequence of encrypt calls changes neither the ciphertext
      nor the state. */
  lemma ChunkingIrrelevant<R, W(!new), B(!new)>(c: Core<R, W, B>, st: State<R, W>, chunks: seq<seq<B>>)
    requires Between(st.nbuf) && c.flushes && Lawful(c)
    ensures Concat(Calls(c, Encrypt, st, chunks).1) == Call(c, Encrypt, st, Concat(chunks)).1
    ensures Same(Calls(c, Encrypt, st, chunks).0, Call(c, Encrypt, st, Concat(chunks)).0)
  {
    ChunksRefineBytes(c, st, chunks);
    EncryptRefinesBytes(c, st, Concat(chunks));
  }

  /** Whole words may be cut off in front, in either direction and on either platform. */
  lemma {:induction false} WholeAppend<R, W, B>(c: Core<R, W, B>, d: Direction, reg: R, a: seq<B>, b: seq<B>)
    requires |a| % 4 == 0
    ensures Whole(c, d, reg, a + b) == Prefix(Whole(c, d, reg, a).1, Whole(c, d, Whole(c, d, reg, a).0, b))
    decreases |a|
  {
    if a == [] {
      assert a + b == b;
      PrefixNone(Whole(c, d, reg, b));
    } else {
      var w := Pack(c, a[..4]);
      assert (a + b)[..4] == a[..4] && (a + b)[4..] == a[4..] + b;
      WholeAppend(c, d, WordStep(c, d, reg, w), a[4..], b);
      var r := Whole(c, d, WordStep(c, d, reg, w), a[4..]);
      PrefixTwice(Unpack(c, WordOut(c, reg, w)), r.1, Whole(c, d, r.0, b));
    }
  }

  lemma AlignedWhole<R, W, B>(c: Core<R, W, B>, d: Direction, st: State<R, W>, a: seq<B>)
    requires st.nbuf == 0 && |a| % 4 == 0
    ensures Aligned(c, d, st, a) == (st.(reg := Whole(c, d, st.reg, a).0), Whole(c, d, st.reg, a).1)
  {
    var w := Whole(c, d, st.reg, a);
    WholeLength(c, d, st.reg, a);
    assert a[|w.1|..] == [] && w.1 + [] == w.1;
  }

  lemma AlignedAppend<R, W, B>(c: Core<R, W, B>, d: Direction, st: State<R, W>, a: seq<B>, b: seq<B>)
    requires st.nbuf == 0 && |a| % 4 == 0
    ensures Aligned(c, d, st, a).0.nbuf == 0
    ensures Aligned(c, d, st, a + b) == Prefix(Aligned(c, d, st, a).1, Aligned(c, d, Aligned(c, d, st, a).0, b))
  {
    AlignedWhole(c, d, st, a);
    WholeAppend(c, d, st.reg, a, b);
    WholeLength(c, d, st.reg, a);
    var v := Whole(c, d, st.reg, a);
    var w := Whole(c, d, v.0, b);
    assert (a + b)[|v.1 + w.1|..] == b[|w.1|..];
    PrefixTwice(v.1, w.1, Tail(c, d, st.(reg := w.0), b[|w.1|..]));
  }

  /** Chunks that keep every call on a word boundary: all but the last have whole words only. */
  predicate WordChunks<B>(chunks: seq<seq<B>>) {
    forall i | 0 <= i < |chunks| - 1 :: |chunks[i]| % 4 == 0
  }

  /** Then they make no difference, to the output or to any part of the state. */
  lemma {:induction false} WordChunksIrrelevant<R, W, B>(c: Core<R, W, B>, d: Direction, st: State<R, W>, chunks: seq<seq<B>>)
    requires st.nbuf == 0 && WordChunks(chunks)
    ensures
      var many := Calls(c, d, st, chunks);
      (many.0, Concat(many.1)) == Call(c, d, st, Concat(chunks))
    decreases |chunks|
  {
    if chunks == [] {
      AlignedWhole(c, d, st, []);
    } else if |chunks| == 1 {
      var h := Call(c, d, st, chunks[0]);
      assert chunks[1..] == [] && chunks[0] + [] == chunks[0];
      assert [h.1] + [] == [h.1] && [h.1][1..] == [] && h.1 + [] == h.1;
    } else {
      var h := Call(c, d, st, chunks[0]);
      AlignedAppend(c, d, st, chunks[0], Concat(chunks[1..]));
      WordChunksIrrelevant(c, d, h.0, chunks[1..]);
      var r := Calls(c, d, h.0, chunks[1..]);
      assert ([h.1] + r.1)[1..] == r.1;
    }
  }

  // ---------- decryption undoes encryption ----------

  /** A partial word: the plaintext comes back, whatever is in mbuf at the two ends. */
  lemma {:induction false} PartialUndone<R, W(!new), B(!new)>(c: Core<R, W, B>, a: State<R, W>, b: State<R, W>, data: seq<B>)
    requires Bits(a.nbuf) && Lawful(c) && 8 * |data| <= a.nbuf && a.reg == b.reg && a.nbuf == b.nbuf
    ensures Partial(c, Decrypt, b, Partial(c, Encrypt, a, data).1).1 == data
    decreases |data|
  {
    if data != [] {
      var o := Mixed(c, a, data[0]);
      var a' := Fold(c, a, data[0]);
      MixedTwice(c, b, data[0]);
      PartialUndone(c, a', Fold(c, b, Folded(c, Decrypt, o, data[0])), data[1..]);
      PartialHead(c, b, o, data[0], Partial(c, Encrypt, a', data[1..]).1);
      assert [data[0]] + data[1..] == data;
    }
  }

  /** mbuf agrees as well when decryption folds plaintext. */
  lemma {:induction false} PartialAgrees<R, W(!new), B(!new)>(c: Core<R, W, B>, st: State<R, W>, data: seq<B>)
    requires Bits(st.nbuf) && Lawful(c) && 8 * |data| <= st.nbuf && c.foldsOutput
    ensures Partial(c, Decrypt, st, Partial(c, Encrypt, st, data).1) == (Partial(c, Encrypt, st, data).0, data)
    decreases |data|
  {
    if data != [] {
      var st' := Fold(c, st, data[0]);
      MixedTwice(c, st, data[0]);
      PartialAgrees(c, st', data[1..]);
      PartialHead(c, st, Mixed(c, st, data[0]), data[0], Partial(c, Encrypt, st', data[1..]).1);
      assert [data[0]] + data[1..] == data;
    }
  }

  /** The keystream cancels out. */
  lemma MixedTwice<R, W(!new), B(!new)>(c: Core<R, W, B>, st: State<R, W>, b: B)
    requires Lawful(c)
    ensures Mixed(c, st, Mixed(c, st, b)) == b
  {
  }

  lemma PartialHead<R, W, B>(c: Core<R, W, B>, st: State<R, W>, o: B, b: B, rest: seq<B>)
    requires Bits(st.nbuf) && st.nbuf != 0 && Mixed(c, st, o) == b
    ensures Partial(c, Decrypt, st, [o] + rest) == Prefix([b], Partial(c, Decrypt, Fold(c, st, Folded(c, Decrypt, o, b)), rest))
  {
    assert ([o] + rest)[0] == o && ([o] + rest)[1..] == rest;
  }

  /** Data after the end of the word is not looked at. */
  lemma {:induction false} PartialStops<R, W, B>(c: Core<R, W, B>, d: Direction, st: State<R, W>, data: seq<B>, more: seq<B>)
    requires Bits(st.nbuf) && 8 * |data| == st.nbuf
    ensures Partial(c, d, st, data + more) == Partial(c, d, st, data)
    decreases |data|
  {
    if data != [] {
      assert (data + more)[1..] == data[1..] + more;
      PartialStops(c, d, Fold(c, st, Folded(c, d, data[0], Mixed(c, st, data[0]))), data[1..], more);
    }
  }

  /** The word in front. */
  lemma WholeHead<R, W, B>(c: Core<R, W, B>, d: Direction, reg: R, s: seq<B>, rest: seq<B>)
    requires |s| == 4
    ensures
      var w := Pack(c, s);
      Whole(c, d, reg, s + rest) == Prefix(Unpack(c, WordOut(c, reg, w)), Whole(c, d, WordStep(c, d, reg, w), rest))
  {
    assert (s + rest)[..4] == s && (s + rest)[4..] == rest;
  }

  lemma TakeJoined<B>(s: seq<B>, rest: seq<B>, n: nat)
    requires n <= |rest|
    ensures s + rest[..n] == (s + rest)[..|s| + n]
  {
  }

  lemma {:induction false} WholeUndone<R, W(!new), B(!new)>(c: Core<R, W, B>, reg: R, data: seq<B>, more: seq<B>)
    requires Lawful(c) && |more| < 4
    ensures
      var e := Whole(c, Encrypt, reg, data);
      Whole(c, Decrypt, reg, e.1 + more) == (e.0, data[..|e.1|])
    decreases |data|
  {
    var e := Whole(c, Encrypt, reg, data);
    if |data| >= 4 {
      var s, rest := data[..4], data[4..];
      assert data == s + rest;
      WordUndone(c, reg, s);
      WholeUndone(c, WordStep(c, Encrypt, reg, Pack(c, s)), rest, more);
      WholeUndoneStep(c, reg, s, rest, more, Unpack(c, WordOut(c, reg, Pack(c, s))));
    } else {
      assert e.1 + more == more;
    }
  }

  /** If the first word comes back, and what is behind it, then all of it does. */
  lemma WholeUndoneStep<R, W, B>(c: Core<R, W, B>, reg: R, s: seq<B>, rest: seq<B>, more: seq<B>, o: seq<B>)
    requires |s| == 4 && o == Unpack(c, WordOut(c, reg, Pack(c, s))) && Unpack(c, WordOut(c, reg, Pack(c, o))) == s
    requires WordStep(c, Decrypt, reg, Pack(c, o)) == WordStep(c, Encrypt, reg, Pack(c, s))
    requires
      var reg' := WordStep(c, Encrypt, reg, Pack(c, s));
      var e' := Whole(c, Encrypt, reg', rest);
      Whole(c, Decrypt, reg', e'.1 + more) == (e'.0, rest[..|e'.1|])
    ensures
      var e := Whole(c, Encrypt, reg, s + rest);
      Whole(c, Decrypt, reg, e.1 + more) == (e.0, (s + rest)[..|e.1|])
  {
    var e' := Whole(c, Encrypt, WordStep(c, Encrypt, reg, Pack(c, s)), rest);
    WholeHead(c, Encrypt, reg, s, rest);
    WholeHead(c, Decrypt, reg, o, e'.1 + more);
    TakeJoined(s, rest, |e'.1|);
    assert o + e'.1 + more == o + (e'.1 + more);
  }

  lemma WordUndone<R, W(!new), B(!new)>(c: Core<R, W, B>, reg: R, s: seq<B>)
    requires Lawful(c) && |s| == 4
    ensures
      var w := Pack(c, s);
      var v := Pack(c, Unpack(c, WordOut(c, reg, w)));
      Unpack(c, WordOut(c, reg, v)) == s && WordStep(c, Decrypt, reg, v) == WordStep(c, Encrypt, reg, w)
  {
    var w := Pack(c, s);
    assert Pack(c, Unpack(c, WordOut(c, reg, w))) == WordOut(c, reg, w);
    assert c.unpack(w) == (s[0], s[1], s[2], s[3]);
  }

  /** From a word boundary: any length comes back, with the same register and position; the
      whole state agrees when decryption folds plaintext, or nothing is left in a word. */
  lemma AlignedUndone<R, W(!new), B(!new)>(c: Core<R, W, B>, st: State<R, W>, data: seq<B>)
    requires st.nbuf == 0 && Lawful(c)
    ensures
      var e := Aligned(c, Encrypt, st, data);
      var d := Aligned(c, Decrypt, st, e.1);
      && d.1 == data && d.0.reg == e.0.reg && d.0.nbuf == e.0.nbuf
      && (c.foldsOutput ==> d.0 == e.0)
  {
    var w := Whole(c, Encrypt, st.reg, data);
    var st' := st.(reg := w.0);
    var rest := data[|w.1|..];
    var t := Tail(c, Encrypt, st', rest);
    WholeUndone(c, st.reg, data, t.1);
    assert (w.1 + t.1)[|w.1|..] == t.1;
    if rest != [] {
      PartialUndone(c, Begin(c, w.0), Begin(c, w.0), rest);
      if c.foldsOutput {
        PartialAgrees(c, Begin(c, w.0), rest);
      }
    }
    Rejoined(data, |w.1|);
  }

  lemma Rejoined<B>(s: seq<B>, k: nat)
    requires k <= |s|
    ensures s[..k] + s[k..] == s
  {
  }

  /** Decrypting what one encrypt call produced, from the same state, where decryption folds
      plaintext: the plaintext and the identical state. */
  lemma CallUndone<R, W(!new), B(!new)>(c: Core<R, W, B>, st: State<R, W>, data: seq<B>)
    requires Between(st.nbuf) && Lawful(c) && c.foldsOutput
    ensures Call(c, Decrypt, st, Call(c, Encrypt, st, data).1) == (Call(c, Encrypt, st, data).0, data)
  {
    if st.nbuf == 0 {
      AlignedUndone(c, st, data);
    } else if 8 * |data| < st.nbuf {
      PartialAgrees(c, st, data);
    } else {
      var head, rest := data[..st.nbuf / 8], data[st.nbuf / 8..];
      assert data == head + rest;
      CallSplit(c, Encrypt, st, head, rest);
      var h := Partial(c, Encrypt, st, head);
      var a := Aligned(c, Encrypt, Completed(c, h.0), rest);
      CallSplit(c, Decrypt, st, h.1, a.1);
      PartialAgrees(c, st, head);
      AlignedUndone(c, Completed(c, h.0), rest);
    }
  }

  /** A call that completes the partial word. */
  lemma CallSplit<R, W, B>(c: Core<R, W, B>, d: Direction, st: State<R, W>, head: seq<B>, rest: seq<B>)
    requires Between(st.nbuf) && 0 < st.nbuf == 8 * |head|
    ensures
      var h := Partial(c, d, st, head);
      h.0.nbuf == 0 && Call(c, d, st, head + rest) == Prefix(h.1, Aligned(c, d, Completed(c, h.0), rest))
  {
    PartialStops(c, d, st, head, rest);
    assert (head + rest)[|head|..] == rest;
  }

  /** The same over any list of chunks. */
  lemma {:induction false} CallsUndone<R, W(!new), B(!new)>(c: Core<R, W, B>, st: State<R, W>, chunks: seq<seq<B>>)
    requires Between(st.nbuf) && Lawful(c) && c.foldsOutput
    ensures Calls(c, Decrypt, st, Calls(c, Encrypt, st, chunks).1) == (Calls(c, Encrypt, st, chunks).0, chunks)
    decreases |chunks|
  {
    if chunks != [] {
      var h := Call(c, Encrypt, st, chunks[0]);
      var r := Calls(c, Encrypt, h.0, chunks[1..]);
      CallUndone(c, st, chunks[0]);
      CallsUndone(c, h.0, chunks[1..]);
      CallsHead(c, Decrypt, st, h.1, r.1);
      assert [chunks[0]] + chunks[1..] == chunks;
    }
  }

  lemma CallsHead<R, W, B>(c: Core<R, W, B>, d: Direction, st: State<R, W>, chunk: seq<B>, chunks: seq<seq<B>>)
    requires Between(st.nbuf)
    ensures
      var h := Call(c, d, st, chunk);
      var r := Calls(c, d, h.0, chunks);
      Calls(c, d, st, [chunk] + chunks) == (r.0, [h.1] + r.1)
  {
    assert ([chunk] + chunks)[1..] == chunks;
  }

  // ---------- what a stale mbuf can do: nothing ----------

  lemma CallSame<R, W, B>(c: Core<R, W, B>, d: Direction, a: State<R, W>, b: State<R, W>, data: seq<B>)
    requires Same(a, b) && Between(a.nbuf)
    ensures Call(c, d, a, data).1 == Call(c, d, b, data).1
    ensures Same(Call(c, d, a, data).0, Call(c, d, b, data).0)
  {
  }

  // ---------- what the register keeps ----------

  /** Part of the register that neither cycling nor accumulating changes. */
  ghost predicate Kept<R(!new), W(!new), B, V>(c: Core<R, W, B>, view: R -> V) {
    (forall g :: view(c.cycle(g)) == view(g)) && (forall g, w :: view(c.mac(g, w)) == view(g))
  }

  lemma {:induction false} WholeKeeps<R(!new), W(!new), B, V>(c: Core<R, W, B>, view: R -> V, d: Direction, reg: R, data: seq<B>)
    requires Kept(c, view)
    ensures view(Whole(c, d, reg, data).0) == view(reg)
    decreases |data|
  {
    if |data| >= 4 {
      WholeKeeps(c, view, d, WordStep(c, d, reg, Pack(c, data[..4])), data[4..]);
    }
  }

  lemma CallKeeps<R(!new), W(!new), B, V>(c: Core<R, W, B>, view: R -> V, d: Direction, st: State<R, W>, data: seq<B>)
    requires Between(st.nbuf) && Kept(c, view)
    ensures view(Call(c, d, st, data).0.reg) == view(st.reg)
  {
    if st.nbuf == 0 {
      WholeKeeps(c, view, d, st.reg, data);
    } else {
      var h := Partial(c, d, st, data);
      WholeKeeps(c, view, d, Completed(c, h.0).reg, data[|h.1|..]);
    }
  }

  // ---------- decryption that folds ciphertext ----------

  /** Folding a run of bytes into a word from bit `k` on. */
  function FoldBytes<R, W, B>(c: Core<R, W, B>, m: W, s: seq<B>, k: int): W
    decreases |s|
  {
    if s == [] then m else FoldBytes(c, c.fold(m, s[0], k), s[1..], k + 8)
  }

  lemma {:induction false} FoldBytesAppend<R, W, B>(c: Core<R, W, B>, m: W, s: seq<B>, t: seq<B>, k: int)
    ensures FoldBytes(c, m, s + t, k) == FoldBytes(c, FoldBytes(c, m, s, k), t, k + 8 * |s|)
    decreases |s|
  {
    if s == [] {
      assert s + t == t;
    } else {
      assert (s + t)[1..] == s[1..] + t;
      FoldBytesAppend(c, c.fold(m, s[0], k), s[1..], t, k + 8);
    }
  }

  /** Up to four bytes can be read off the word they were folded into. */
  lemma FoldBytesInjective<R, W(!new), B(!new)>(c: Core<R, W, B>, s: seq<B>, t: seq<B>)
    requires Lawful(c) && |s| == |t| < 4 && FoldBytes(c, c.zero, s, 0) == FoldBytes(c, c.zero, t, 0)
    ensures s == t
  {
    if s != [] {
      PaddedInjective(c, s, t, seq(4 - |s|, _ => s[0]));
    }
  }

  lemma PaddedInjective<R, W(!new), B(!new)>(c: Core<R, W, B>, s: seq<B>, t: seq<B>, pad: seq<B>)
    requires Lawful(c) && |s| == |t| && |s| + |pad| == 4 && FoldBytes(c, c.zero, s, 0) == FoldBytes(c, c.zero, t, 0)
    ensures s == t
  {
    FoldBytesAppend(c, c.zero, s, pad, 0);
    FoldBytesAppend(c, c.zero, t, pad, 0);
    FoldBytesFour(c, s + pad);
    FoldBytesFour(c, t + pad);
    PackInjective(c, s + pad, t + pad);
    assert s == (s + pad)[..|s|] && t == (t + pad)[..|s|];
  }

  lemma PackInjective<R, W(!new), B(!new)>(c: Core<R, W, B>, s: seq<B>, t: seq<B>)
    requires Lawful(c) && |s| == |t| == 4 && Pack(c, s) == Pack(c, t)
    ensures s == t
  {
    assert c.unpack(c.pack(s[0], s[1], s[2], s[3])) == c.unpack(c.pack(t[0], t[1], t[2], t[3]));
  }

  lemma FoldBytesFour<R, W(!new), B(!new)>(c: Core<R, W, B>, s: seq<B>)
    requires Lawful(c) && |s| == 4
    ensures FoldBytes(c, c.zero, s, 0) == Pack(c, s)
  {
    assert s[1..][1..] == s[2..] && s[2..][1..] == s[3..] && s[3..][1..] == [];
    var a := c.fold(c.zero, s[0], 0);
    var b := c.fold(a, s[1], 8);
    var d := c.fold(b, s[2], 16);
    assert FoldBytes(c, d, s[3..], 24) == c.fold(d, s[3], 24);
    assert FoldBytes(c, b, s[2..], 16) == FoldBytes(c, d, s[3..], 24);
    assert FoldBytes(c, a, s[1..], 8) == FoldBytes(c, b, s[2..], 16);
  }

  /** What Partial leaves in mbuf, when the whole data fits into the word. */
  lemma {:induction false} PartialFolds<R, W, B>(c: Core<R, W, B>, d: Direction, st: State<R, W>, data: seq<B>)
    requires Bits(st.nbuf) && 8 * |data| <= st.nbuf && !(c.foldsOutput && d.Decrypt?)
    ensures Partial(c, d, st, data).0.mbuf == FoldBytes(c, st.mbuf, data, 32 - st.nbuf)
    decreases |data|
  {
    if data != [] {
      PartialFolds(c, d, Fold(c, st, data[0]), data[1..]);
    }
  }

  /** Where decryption folds ciphertext, the two ends still agree after one call from a word
      boundary exactly when the last partial word, if any, reads the same in plain and cipher
      text. */
  lemma AlignedAgreesExactly<R, W(!new), B(!new)>(c: Core<R, W, B>, st: State<R, W>, data: seq<B>)
    requires st.nbuf == 0 && Lawful(c) && !c.foldsOutput
    ensures
      var e := Aligned(c, Encrypt, st, data);
      var d := Aligned(c, Decrypt, st, e.1);
      var n := |data| - |data| % 4;
      Same(d.0, e.0) <==> e.1[n..] == data[n..]
  {
    var w := Whole(c, Encrypt, st.reg, data);
    var e := Aligned(c, Encrypt, st, data);
    var n := |data| - |data| % 4;
    WholeLength(c, Encrypt, st.reg, data);
    assert |w.1| == n;
    AlignedUndone(c, st, data);
    var p, q := data[n..], e.1[n..];
    WholeUndone(c, st.reg, data, q);
    assert e.1 == w.1 + q;
    if p != [] {
      TailAgreesExactly(c, w.0, p, q);
    }
  }

  /** What Partial puts out, when the whole data fits into the word. */
  lemma {:induction false} PartialOutput<R, W, B>(c: Core<R, W, B>, d: Direction, st: State<R, W>, data: seq<B>, i: nat)
    requires Bits(st.nbuf) && 8 * |data| <= st.nbuf && i < |data|
    ensures |Partial(c, d, st, data).1| == |data|
    ensures Partial(c, d, st, data).1[i] == c.mix(data[i], c.key(st.reg), 32 - st.nbuf + 8 * i)
    decreases |data|
  {
    var o := Mixed(c, st, data[0]);
    var st' := Fold(c, st, Folded(c, d, data[0], o));
    if i > 0 {
      PartialOutput(c, d, st', data[1..], i - 1);
      assert Partial(c, d, st, data).1 == [o] + Partial(c, d, st', data[1..]).1;
    }
  }

  /** The keystream word for the bytes after the last whole word. */
  function LastKey<R, W, B>(c: Core<R, W, B>, reg: R, data: seq<B>): W {
    c.key(c.cycle(Whole(c, Encrypt, reg, data).0))
  }

  /** Its bytes leave the bytes after the last whole word as they are. */
  ghost predicate KeepsLeftover<R, W, B>(c: Core<R, W, B>, reg: R, data: seq<B>) {
    forall i | 0 <= i < |data| % 4 :: c.mix(Leftover(data)[i], LastKey(c, reg, data), 8 * i) == Leftover(data)[i]
  }

  /** The condition on the keystream: the bytes after the last whole word read the same. */
  lemma LeftoverSame<R, W, B>(c: Core<R, W, B>, st: State<R, W>, data: seq<B>)
    requires st.nbuf == 0
    ensures Leftover(Aligned(c, Encrypt, st, data).1) == Leftover(data) <==> KeepsLeftover(c, st.reg, data)
  {
    var w := Whole(c, Encrypt, st.reg, data);
    WholeLength(c, Encrypt, st.reg, data);
    var p := Leftover(data);
    assert data[|w.1|..] == p;
    var t := Tail(c, Encrypt, st.(reg := w.0), p).1;
    assert Leftover(Aligned(c, Encrypt, st, data).1) == t by {
      assert Aligned(c, Encrypt, st, data).1 == w.1 + t;
    }
    forall i | 0 <= i < |p|
      ensures t[i] == c.mix(p[i], LastKey(c, st.reg, data), 8 * i)
    {
      PartialOutput(c, Encrypt, Begin(c, w.0), p, i);
    }
  }

  lemma TailAgreesExactly<R, W(!new), B(!new)>(c: Core<R, W, B>, reg: R, p: seq<B>, q: seq<B>)
    requires Lawful(c) && !c.foldsOutput && 0 < |p| == |q| < 4
    ensures Partial(c, Encrypt, Begin(c, reg), p).0.mbuf == Partial(c, Decrypt, Begin(c, reg), q).0.mbuf <==> p == q
  {
    TailFolds(c, Encrypt, reg, p);
    TailFolds(c, Decrypt, reg, q);
    if FoldBytes(c, c.zero, p, 0) == FoldBytes(c, c.zero, q, 0) {
      FoldBytesInjective(c, p, q);
    }
  }

  lemma TailFolds<R, W, B>(c: Core<R, W, B>, d: Direction, reg: R, p: seq<B>)
    requires |p| < 4 && !c.foldsOutput
    ensures Partial(c, d, Begin(c, reg), p).0.mbuf == FoldBytes(c, c.zero, p, 0)
  {
    PartialFolds(c, d, Begin(c, reg), p);
  }

  /** The same for a whole call, with the data it starts from in view. */
  lemma CallFromBoundary<R, W(!new), B(!new)>(c: Core<R, W, B>, st: State<R, W>, data: seq<B>)
    requires st.nbuf == 0 && Lawful(c) && !c.foldsOutput
    ensures
      var e := Call(c, Encrypt, st, data);
      var d := Call(c, Decrypt, st, e.1);
      d.1 == data && (Same(d.0, e.0) <==> KeepsLeftover(c, st.reg, data))
  {
    AlignedUndone(c, st, data);
    AlignedAgreesExactly(c, st, data);
    LeftoverSame(c, st, data);
  }

  /** The bytes after the last whole word. */
  function Leftover<B>(data: seq<B>): (r: seq<B>)
    ensures |r| == |data| % 4
  {
    data[|data| - |data| % 4..]
  }
}
