/** platform_shannon_t and its functions as they run, in place. */
module ShannonCipher {
  import opened WordStream
  import opened Shannon

  /** The shift loop of shannon_cycle and shannon_crcfunc. */
  method Shift<W>(a: array<W>, w: W)
    requires a.Length == 16
    modifies a
    ensures a[..] == Shifted(old(a[..]), w)
  {
    for i := 1 to 16
      invariant forall k | 0 <= k < i - 1 :: a[k] == old(a[k + 1])
      invariant forall k | i - 1 <= k < 16 :: a[k] == old(a[k])
    {
      a[i - 1] := a[i];
    }
    a[15] := w;
  }

  /** memcpy of sixteen words. */
  method Copy<W>(dest: array<W>, source: array<W>)
    requires dest.Length == source.Length
    modifies dest
    ensures dest[..] == old(source[..])
  {
    forall i | 0 <= i < dest.Length {
      dest[i] := source[i];
    }
  }

  // ---------- a buffer rewritten from left to right ----------

  /** `cur` is `before` with `done` written over it from position `from` on. */
  ghost predicate Spliced<B>(cur: seq<B>, before: seq<B>, from: nat, done: seq<B>) {
    from + |done| <= |before| && cur == before[..from] + done + before[from + |done|..]
  }

  lemma SplicedNone<B>(s: seq<B>, from: nat)
    requires from <= |s|
    ensures Spliced(s, s, from, [])
  {
  }

  /** What follows is still as it was. */
  lemma SplicedRest<B>(cur: seq<B>, before: seq<B>, from: nat, done: seq<B>, k: nat, n: nat)
    requires Spliced(cur, before, from, done) && from + |done| + k <= n <= |before|
    ensures
      var i := from + |done|;
      && |cur| == |before| && cur[i..i + k] == before[i..n][..k] && before[i..n][k..] == before[i + k..n]
  {
    var i := from + |done|;
    Behind(before[..from] + done, before[i..]);
    assert cur[i..i + k] == cur[i..][..k] == before[i..][..k] == before[i..n][..k];
  }

  lemma RestIsNext<B>(cur: seq<B>, before: seq<B>, from: nat, done: seq<B>, i: nat, n: nat)
    requires Spliced(cur, before, from, done) && from + |done| == i <= n <= |before|
    ensures |cur| == |before| && before[from..n][|done|..] == cur[i..n]
  {
    SplicedRest(cur, before, from, done, n - i, n);
    assert before[from..n][|done|..] == before[i..n] == before[i..n][..n - i];
  }

  lemma Behind<B>(a: seq<B>, b: seq<B>)
    ensures (a + b)[|a|..] == b
  {
  }

  lemma SplicedStep<B>(cur: seq<B>, before: seq<B>, from: nat, done: seq<B>, next: seq<B>, out: seq<B>)
    requires Spliced(cur, before, from, done) && from + |done| + |out| <= |before| && |cur| == |before|
    requires next == cur[..from + |done|] + out + cur[from + |done| + |out|..]
    ensures Spliced(next, before, from, done + out)
  {
    var i := from + |done|;
    assert cur[..i] == before[..from] + done;
    assert cur[i + |out|..] == before[i + |out|..];
  }

  lemma SplicedTwice<B>(cur: seq<B>, before: seq<B>, from: nat, done: seq<B>, next: seq<B>, more: seq<B>)
    requires Spliced(cur, before, from, done) && Spliced(next, cur, from + |done|, more)
    ensures Spliced(next, before, from, done + more)
  {
    SplicedStep(cur, before, from, done, next, more);
  }

  lemma SplicedWhole<B>(cur: seq<B>, before: seq<B>, done: seq<B>)
    requires Spliced(cur, before, 0, done)
    ensures cur[..|done|] == done && cur[|done|..] == before[|done|..]
  {
  }

  lemma TakeDrop<B>(before: seq<B>, cur: seq<B>, i: nat, n: nat)
    requires i <= n <= |before| == |cur| && cur[i..n] == before[i..n][..n - i]
    ensures cur[i..n] == before[..n][i..]
  {
    assert before[..n][i..] == before[i..n];
  }

  /** A call in two parts. */
  lemma BothParts<B>(before: seq<B>, cur: seq<B>, next: seq<B>, done: seq<B>, tail: seq<B>, n: nat)
    requires Spliced(cur, before, 0, done) && Spliced(next, cur, |done|, tail) && |done| + |tail| == n
    ensures n <= |before| == |next| && next[..n] == done + tail && next[n..] == before[n..]
  {
    SplicedTwice(cur, before, 0, done, next, tail);
    SplicedWhole(next, before, done + tail);
  }

  /** One byte of a partial word is done. */
  lemma ByteProgress<R, W, B>(c: Core<R, W, B>, d: Direction, st: State<R, W>, cur: seq<B>, before: seq<B>, from: nat, done: seq<B>,
                              n: nat, next: seq<B>, out: seq<B>)
    requires Bits(st.nbuf) && st.nbuf != 0 && Spliced(cur, before, from, done) && from + |done| < n <= |before| == |cur|
    requires out == [Mixed(c, st, cur[from + |done|])]
    requires next == cur[..from + |done|] + out + cur[from + |done| + 1..]
    ensures Spliced(next, before, from, done + out)
    ensures
      var i := from + |done|;
      Prefix(done + out, Partial(c, d, Fold(c, st, Folded(c, d, cur[i], out[0])), before[i + 1..n])) ==
      Prefix(done, Partial(c, d, st, before[i..n]))
  {
    var i := from + |done|;
    SplicedRest(cur, before, from, done, 1, n);
    assert cur[i] == cur[i..i + 1][0];
    PartialStep(c, d, st, done, before[i..n]);
    SplicedStep(cur, before, from, done, next, out);
  }

  /** Bytes `from` to `i` of `before` are done in `cur`; `words` whole words follow. */
  ghost predicate Ongoing<R, W, B>(c: Core<R, W, B>, d: Direction, reg: R, cur: seq<B>, before: seq<B>, from: nat, i: nat, n: nat,
                                   words: nat, done: seq<B>, whole: (R, seq<B>)) {
    && from <= i && i + 4 * words <= n < i + 4 * words + 4 && n <= |cur| == |before|
    && |done| == i - from && Spliced(cur, before, from, done)
    && whole == Prefix(done, Whole(c, d, reg, before[i..n]))
  }

  /** One whole word is done. */
  lemma WordProgress<R, W, B>(c: Core<R, W, B>, d: Direction, reg: R, cur: seq<B>, before: seq<B>, from: nat, i: nat, n: nat, words: nat,
                              done: seq<B>, next: seq<B>, out: seq<B>, reg': R, whole: (R, seq<B>))
    requires words > 0 && Ongoing(c, d, reg, cur, before, from, i, n, words, done, whole)
    requires |out| == 4 && WordStored(c, d, reg, cur, i, next, out, reg')
    ensures Ongoing(c, d, reg', next, before, from, i + 4, n, words - 1, done + out, whole)
  {
    SplicedRest(cur, before, from, done, 4, n);
    WholeStep(c, d, reg, done, before[i..n]);
    SplicedStep(cur, before, from, done, next, out);
  }

  /** What one turn of the word loop does to buffer and register. */
  ghost predicate WordStored<R, W, B>(c: Core<R, W, B>, d: Direction, reg: R, cur: seq<B>, i: nat, next: seq<B>, out: seq<B>, reg': R)
    requires i + 4 <= |cur|
  {
    var w := Pack(c, cur[i..i + 4]);
    out == Unpack(c, WordOut(c, reg, w)) && reg' == WordStep(c, d, reg, w) && next == cur[..i] + out + cur[i + 4..]
  }

  /** Whole words among `n` bytes: `n & ~3` bytes in all. */
  function WordsIn(n: nat): (words: nat)
    ensures 4 * words <= n < 4 * words + 4
  {
    n / 4
  }

  class Context<!W, !B> {
    const o: Ops<W, B>
    const R: array<W>
    const CRC: array<W>
    const initR: array<W>
    var konst: W
    var sbuf: W
    var mbuf: W
    var nbuf: nat

    ghost predicate Valid()
      reads this
    {
      && R.Length == CRC.Length == initR.Length == 16 && R != CRC && R != initR && CRC != initR
      && Bits(nbuf)
    }

    ghost function Reg(): Register<W>
      reads this, R, CRC, initR
      requires Valid()
    {
      Register(R[..], CRC[..], initR[..], konst, sbuf)
    }

    ghost function Abs(): State<Register<W>, W>
      reads this, R, CRC, initR
      requires Valid()
    {
      State(Reg(), mbuf, nbuf)
    }

    /** The caller's buffer is not part of the context. */
    ghost predicate Apart(buf: array<B>) {
      (buf as object) != (R as object) && (buf as object) != (CRC as object) && (buf as object) != (initR as object)
    }

    /** platform_shannon_new: calloc. */
    constructor (o: Ops<W, B>)
      ensures Valid() && fresh(R) && fresh(CRC) && fresh(initR) && this.o == o && nbuf == 0
    {
      this.o := o;
      R := new W[16](_ => o.zero);
      CRC := new W[16](_ => o.zero);
      initR := new W[16](_ => o.zero);
      konst, sbuf, mbuf, nbuf := o.zero, o.zero, o.zero, 0;
    }

    /** shannon_cycle. */
    method CycleOnce()
      requires Valid()
      modifies this`sbuf, R
      ensures Valid() && Reg() == Cycle(o, old(Reg()))
    {
      var t := o.xor(o.sbox1(o.xor(o.xor(R[12], R[13]), konst)), o.rotl1(R[0]));
      Shift(R, t);
      t := o.sbox2(o.xor(R[2], R[15]));
      R[0] := o.xor(R[0], t);
      sbuf := o.xor(o.xor(t, R[8]), R[12]);
    }

    /** shannon_macfunc, with shannon_crcfunc. */
    method MacOnce(i: W)
      requires Valid()
      modifies R, CRC
      ensures Valid() && Reg() == Mac(o, old(Reg()), i)
    {
      Shift(CRC, o.xor(o.xor(o.xor(CRC[0], CRC[2]), CRC[15]), i));
      R[KEYP] := o.xor(R[KEYP], i);
    }

    // ---------- keys and nonces ----------

    /** ADDKEY and shannon_cycle. */
    method AddAndCycle(k: W)
      requires Valid()
      modifies this`sbuf, R
      ensures Valid() && Reg() == AddCycle(o, old(Reg()), k)
    {
      if o.platform.Posix? {
        R[0] := o.xor(R[0], k);
        R[KEYP] := o.xor(R[KEYP], k);
        sbuf := k;
      } else {
        R[KEYP] := o.xor(R[KEYP], k);
      }
      assert R[..] == AddedR(o, old(R[..]), k);
      CycleOnce();
    }

    /** The word loop of shannon_load_key, the last word padded. */
    method LoadKeyWords(key: seq<B>)
      requires Valid()
      modifies this`sbuf, R
      ensures Valid() && Reg() == LoadWords(o, old(Reg()), key)
    {
      var i := 0;
      while i + 3 < |key|
        invariant Valid() && i <= |key| && CRC[..] == old(CRC[..]) && initR[..] == old(initR[..])
        invariant LoadWords(o, old(Reg()), key) == LoadWords(o, Reg(), key[i..])
      {
        var k := o.pack(key[i], key[i + 1], key[i + 2], key[i + 3]);
        assert KeyWord(o, key[i..][..4]) == k && key[i..][4..] == key[i + 4..];
        AddAndCycle(k);
        i := i + 4;
      }
      if i < |key| {
        var k := PaddedWord(key[i..]);
        AddAndCycle(k);
      }
    }

    /** Its last word: `xtra`, filled up with zeros. */
    method PaddedWord(rest: seq<B>) returns (w: W)
      requires |rest| < 4
      ensures w == KeyWord(o, rest)
    {
      var xtra := new B[4](_ => o.zeroByte);
      for j := 0 to |rest|
        invariant forall k | 0 <= k < 4 :: xtra[k] == if k < j then rest[k] else o.zeroByte
      {
        xtra[j] := rest[j];
      }
      w := o.pack(xtra[0], xtra[1], xtra[2], xtra[3]);
    }

    /** shannon_diffuse. */
    method Diffuse()
      requires Valid()
      modifies this`sbuf, R
      ensures Valid() && Reg() == Cycles(o, old(Reg()), 16)
    {
      for i := 0 to 16
        invariant Valid() && CRC[..] == old(CRC[..]) && initR[..] == old(initR[..])
        invariant Reg() == Cycles(o, old(Reg()), i)
      {
        CycleOnce();
      }
    }

    /** shannon_load_key. */
    method LoadKeyBytes(key: seq<B>)
      requires Valid()
      modifies this`sbuf, R, CRC
      ensures Valid() && Reg() == LoadKey(o, old(Reg()), key)
    {
      LoadKeyWords(key);
      AddAndCycle(o.number(|key|));
      Copy(CRC, R);
      Diffuse();
      XorCrc();
    }

    /** Its last loop: `R[i] ^= CRC[i]`. */
    method XorCrc()
      requires Valid()
      modifies R
      ensures R[..] == XorWords(o, old(R[..]), CRC[..])
    {
      ghost var r := R[..];
      for i := 0 to 16
        invariant forall k | 0 <= k < 16 :: R[k] == if k < i then o.xor(r[k], CRC[k]) else r[k]
      {
        R[i] := o.xor(R[i], CRC[i]);
      }
      assert forall k | 0 <= k < 16 :: At(o, CRC[..], k) == CRC[k];
    }

    /** shannon_init_state. */
    method InitState()
      requires Valid()
      modifies this`konst, R
      ensures Valid() && Reg() == old(Reg()).(R := InitR(o, 16), konst := o.initKonst)
    {
      R[0] := o.one;
      R[1] := o.one;
      assert R[..2] == InitR(o, 2);
      for i := 2 to 16
        invariant R[..i] == InitR(o, i) && CRC[..] == old(CRC[..]) && initR[..] == old(initR[..])
      {
        R[i] := o.add(R[i - 1], R[i - 2]);
        assert R[..i + 1] == R[..i] + [R[i]];
        assert R[i - 1] == R[..i][i - 1] && R[i - 2] == R[..i][i - 2];
      }
      assert R[..16] == R[..];
      konst := o.initKonst;
    }

    /** platform_shannon_key. */
    method SetKeyBytes(key: seq<B>)
      requires Valid()
      modifies this, R, CRC, initR
      ensures Valid() && Abs() == SetKey(o, old(Abs()), key)
    {
      InitState();
      LoadKeyBytes(key);
      konst := R[0];
      Copy(initR, R);
      nbuf := 0;
    }

    /** platform_shannon_nonce. */
    method SetNonceBytes(nonce: seq<B>)
      requires Valid()
      modifies this, R, CRC
      ensures Valid() && Abs() == SetNonce(o, old(Abs()), nonce)
    {
      Copy(R, initR);
      konst := o.initKonst;
      LoadKeyBytes(nonce);
      konst := R[0];
      nbuf := 0;
    }

    // ---------- encrypt and decrypt ----------

    /** One byte inside a partial word. */
    method PartialByte(d: Direction, buf: array<B>, i: nat) returns (ghost out: seq<B>)
      requires Valid() && Apart(buf) && nbuf != 0 && i < buf.Length
      modifies this`mbuf, this`nbuf, buf
      ensures Valid() && out == [Mixed(CoreOf(o), old(Abs()), old(buf[i]))]
      ensures buf[..] == old(buf[..])[..i] + out + old(buf[..])[i + 1..]
      ensures Abs() == Fold(CoreOf(o), old(Abs()), Folded(CoreOf(o), d, old(buf[i]), out[0]))
    {
      var b := o.mix(buf[i], sbuf, 32 - nbuf);
      mbuf := o.fold(mbuf, if o.platform.Esp32? && d.Decrypt? then b else buf[i], 32 - nbuf);
      buf[i] := b;
      nbuf := nbuf - 8;
      out := [b];
    }

    /** Bytes `from` to `i` are done; the rest of a partial word follows. */
    ghost predicate InPartial(d: Direction, buf: array<B>, from: nat, i: nat, n: nat, done: seq<B>, before: seq<B>,
                              whole: (State<Register<W>, W>, seq<B>))
      reads this, R, CRC, initR, buf
    {
      && Valid() && from <= i <= n <= buf.Length == |before| && |done| == i - from && Spliced(buf[..], before, from, done)
      && whole == Prefix(done, Partial(CoreOf(o), d, Abs(), before[i..n]))
    }

    /** The loop over a partial word, from `from` to the end of the word or of the data. */
    method PartialLoop(d: Direction, buf: array<B>, from: nat, n: nat) returns (i: nat, ghost done: seq<B>)
      requires Valid() && Apart(buf) && from <= n <= buf.Length
      modifies this`mbuf, this`nbuf, buf
      ensures Valid() && (Abs(), done) == Partial(CoreOf(o), d, old(Abs()), old(buf[..])[from..n])
      ensures i == from + |done| <= n && Spliced(buf[..], old(buf[..]), from, done)
    {
      ghost var before := buf[..];
      ghost var whole := Partial(CoreOf(o), d, Abs(), before[from..n]);
      i, done := from, [];
      BeginsPartial(d, buf, from, n);
      while nbuf != 0 && i < n
        invariant InPartial(d, buf, from, i, n, done, before, whole)
        decreases n - i
      {
        done := PartialTurn(d, buf, from, i, n, done, before, whole);
        i := i + 1;
      }
      EndsPartial(d, buf, from, i, n, done, before, whole);
    }

    lemma BeginsPartial(d: Direction, buf: array<B>, from: nat, n: nat)
      requires Valid() && from <= n <= buf.Length
      ensures InPartial(d, buf, from, from, n, [], buf[..], Partial(CoreOf(o), d, Abs(), buf[..][from..n]))
    {
      PrefixNone(Partial(CoreOf(o), d, Abs(), buf[..][from..n]));
      SplicedNone(buf[..], from);
    }

    lemma EndsPartial(d: Direction, buf: array<B>, from: nat, i: nat, n: nat, done: seq<B>, before: seq<B>,
                      whole: (State<Register<W>, W>, seq<B>))
      requires InPartial(d, buf, from, i, n, done, before, whole) && (nbuf == 0 || i == n)
      ensures whole == (Abs(), done)
    {
      assert done + [] == done;
    }

    /** Its body. */
    method PartialTurn(d: Direction, buf: array<B>, ghost from: nat, i: nat, ghost n: nat, ghost done: seq<B>, ghost before: seq<B>,
                       ghost whole: (State<Register<W>, W>, seq<B>)) returns (ghost done': seq<B>)
      requires Apart(buf) && i < n && InPartial(d, buf, from, i, n, done, before, whole) && nbuf != 0
      modifies this`mbuf, this`nbuf, buf
      ensures InPartial(d, buf, from, i + 1, n, done', before, whole)
    {
      ghost var cur, st := buf[..], Abs();
      ghost var out := PartialByte(d, buf, i);
      ByteProgress(CoreOf(o), d, st, cur, before, from, done, n, buf[..], out);
      done' := done + out;
    }

    /** One whole word. */
    method WordAt(d: Direction, buf: array<B>, i: nat) returns (ghost out: seq<B>)
      requires Valid() && Apart(buf) && i + 4 <= buf.Length
      modifies this`sbuf, R, CRC, buf
      ensures Valid() && |out| == 4 && WordStored(CoreOf(o), d, old(Reg()), old(buf[..]), i, buf[..], out, Reg())
    {
      CycleOnce();
      var w := o.pack(buf[i], buf[i + 1], buf[i + 2], buf[i + 3]);
      var t := o.xor(w, sbuf);
      MacOnce(if d.Encrypt? then w else t);
      StoreWord(buf, i, o.unpack(t));
      out := Unpack(CoreOf(o), t);
    }

    /** WORD2BYTE into the buffer. */
    method StoreWord(buf: array<B>, i: nat, b: (B, B, B, B))
      requires i + 4 <= buf.Length
      modifies buf
      ensures buf[..] == old(buf[..])[..i] + [b.0, b.1, b.2, b.3] + old(buf[..])[i + 4..]
    {
      buf[i + 3] := b.3;
      buf[i + 2] := b.2;
      buf[i + 1] := b.1;
      buf[i] := b.0;
    }

    /** Bytes `from` to `i` are done; `words` whole words follow. */
    ghost predicate InWhole(d: Direction, buf: array<B>, from: nat, i: nat, n: nat, words: nat, done: seq<B>, before: seq<B>,
                            whole: (Register<W>, seq<B>))
      reads this, R, CRC, initR, buf
    {
      Valid() && Ongoing(CoreOf(o), d, Reg(), buf[..], before, from, i, n, words, done, whole)
    }

    /** The loop over whole words, from `from` on. */
    method WordLoop(d: Direction, buf: array<B>, from: nat, n: nat) returns (i: nat, ghost done: seq<B>)
      requires Valid() && Apart(buf) && from <= n <= buf.Length
      modifies this`sbuf, R, CRC, buf
      ensures Valid() && (Reg(), done) == Whole(CoreOf(o), d, old(Reg()), old(buf[..])[from..n])
      ensures i == from + |done| <= n && Spliced(buf[..], old(buf[..]), from, done)
    {
      ghost var before := buf[..];
      ghost var whole := Whole(CoreOf(o), d, Reg(), before[from..n]);
      var words := WordsIn(n - from);
      i, done := from, [];
      BeginsWhole(d, buf, from, n);
      while words != 0
        invariant InWhole(d, buf, from, i, n, words, done, before, whole)
        decreases words
      {
        i, words, done := WordTurn(d, buf, from, i, n, words, done, before, whole);
      }
      EndsWhole(d, buf, from, i, n, done, before, whole);
    }

    lemma BeginsWhole(d: Direction, buf: array<B>, from: nat, n: nat)
      requires Valid() && from <= n <= buf.Length
      ensures InWhole(d, buf, from, from, n, WordsIn(n - from), [], buf[..], Whole(CoreOf(o), d, Reg(), buf[..][from..n]))
    {
      PrefixNone(Whole(CoreOf(o), d, Reg(), buf[..][from..n]));
      SplicedNone(buf[..], from);
    }

    lemma EndsWhole(d: Direction, buf: array<B>, from: nat, i: nat, n: nat, done: seq<B>, before: seq<B>, whole: (Register<W>, seq<B>))
      requires InWhole(d, buf, from, i, n, 0, done, before, whole)
      ensures whole == (Reg(), done) && i == from + |done| <= n && Spliced(buf[..], before, from, done)
    {
      WholeDone(CoreOf(o), d, Reg(), done, before[i..n]);
    }

    /** The body of the loop. */
    method WordTurn(d: Direction, buf: array<B>, ghost from: nat, i: nat, ghost n: nat, words: nat, ghost done: seq<B>,
                    ghost before: seq<B>, ghost whole: (Register<W>, seq<B>)) returns (i': nat, words': nat, ghost done': seq<B>)
      requires Apart(buf) && words > 0 && InWhole(d, buf, from, i, n, words, done, before, whole)
      modifies this`sbuf, R, CRC, buf
      ensures words' < words && InWhole(d, buf, from, i', n, words', done', before, whole)
    {
      ghost var cur, reg := buf[..], Reg();
      ghost var out := WordAt(d, buf, i);
      WordProgress(CoreOf(o), d, reg, cur, before, from, i, n, words, done, buf[..], out, Reg(), whole);
      i', words', done' := i + 4, words - 1, done + out;
    }

    /** The trailing bytes: a new word is begun. */
    method TailLoop(d: Direction, buf: array<B>, from: nat, n: nat) returns (i: nat, ghost done: seq<B>)
      requires Valid() && Apart(buf) && nbuf == 0 && from <= n <= buf.Length && n - from < 4
      modifies this`sbuf, this`mbuf, this`nbuf, R, buf
      ensures Valid() && (Abs(), done) == Tail(CoreOf(o), d, old(Abs()), old(buf[..])[from..n])
      ensures i == from + |done| == n && Spliced(buf[..], old(buf[..]), from, done)
    {
      i, done := from, [];
      SplicedNone(buf[..], from);
      if i < n {
        CycleOnce();
        mbuf := o.zero;
        nbuf := 32;
        i, done := PartialLoop(d, buf, from, n);
      }
    }

    /** Whole words and trailing bytes. */
    method AlignedLoops(d: Direction, buf: array<B>, from: nat, n: nat) returns (ghost done: seq<B>)
      requires Valid() && Apart(buf) && nbuf == 0 && from <= n <= buf.Length
      modifies this`sbuf, this`mbuf, this`nbuf, R, CRC, buf
      ensures Valid() && (Abs(), done) == Aligned(CoreOf(o), d, old(Abs()), old(buf[..])[from..n])
      ensures from + |done| == n && Spliced(buf[..], old(buf[..]), from, done)
    {
      ghost var before := buf[..];
      var i;
      ghost var words, cur;
      i, words := WordLoop(d, buf, from, n);
      cur := buf[..];
      RestIsNext(cur, before, from, words, i, n);
      ghost var tail;
      i, tail := TailLoop(d, buf, i, n);
      SplicedTwice(cur, before, from, words, buf[..], tail);
      done := words + tail;
    }

    /** The part of a call that completes a pending word, accumulated on POSIX. */
    method PendingLoop(d: Direction, buf: array<B>, n: nat) returns (i: nat, ghost done: seq<B>)
      requires Valid() && Apart(buf) && n <= buf.Length && nbuf != 0
      modifies this`mbuf, this`nbuf, R, CRC, buf
      ensures
        var h := Partial(CoreOf(o), d, old(Abs()), old(buf[..])[0..n]);
        Valid() && Abs() == Completed(CoreOf(o), h.0) && done == h.1
      ensures i == |done| <= n && Spliced(buf[..], old(buf[..]), 0, done)
    {
      i, done := PartialLoop(d, buf, 0, n);
      if nbuf == 0 && o.platform.Posix? {
        MacOnce(mbuf);
      }
    }

    /** platform_shannon_encrypt and platform_shannon_decrypt on the first `n` bytes of the
        buffer.  The state in which the call leaves the context and what it leaves in the
        buffer are those of Call. */
    method Crypt(d: Direction, buf: array<B>, n: nat)
      requires Valid() && Apart(buf) && Between(nbuf) && n <= buf.Length
      modifies this`sbuf, this`mbuf, this`nbuf, R, CRC, buf
      ensures Valid() && (Abs(), buf[..][..n]) == Call(CoreOf(o), d, old(Abs()), old(buf[..])[..n])
      ensures buf[..][n..] == old(buf[..])[n..]
    {
      ghost var before := buf[..];
      assert before[0..n] == before[..n];
      if nbuf == 0 {
        ghost var done := AlignedLoops(d, buf, 0, n);
        SplicedWhole(buf[..], before, done);
      } else {
        CryptPending(d, buf, n);
      }
    }

    /** Its case of a pending word. */
    method CryptPending(d: Direction, buf: array<B>, n: nat)
      requires Valid() && Apart(buf) && 0 < nbuf < 32 && n <= buf.Length
      modifies this`sbuf, this`mbuf, this`nbuf, R, CRC, buf
      ensures Valid() && (Abs(), buf[..][..n]) == Call(CoreOf(o), d, old(Abs()), old(buf[..])[..n])
      ensures buf[..][n..] == old(buf[..])[n..]
    {
      ghost var before := buf[..];
      assert before[0..n] == before[..n];
      var i;
      ghost var done, tail, cur;
      i, done := PendingLoop(d, buf, n);
      cur := buf[..];
      if nbuf != 0 {
        SplicedWhole(cur, before, done);
        return;
      }
      SplicedRest(cur, before, 0, done, n - i, n);
      TakeDrop(before, cur, i, n);
      tail := AlignedLoops(d, buf, i, n);
      BothParts(before, cur, buf[..], done, tail, n);
    }

    /** platform_shannon_finish. */
    method FinishMac() returns (mac: seq<B>)
      requires Valid()
      modifies this`konst, this`sbuf, this`nbuf, R, CRC
      ensures Valid() && (Abs(), mac) == Finish(o, old(Abs()))
    {
      if nbuf != 0 {
        MacOnce(mbuf);
      }
      if o.platform.Posix? {
        nbuf := 0;
        konst := o.initKonst;
        Stir();
        mac := Unpack(CoreOf(o), sbuf);
      } else {
        mac := FoldCrc();
      }
    }

    /** Its end on ESP32. */
    method FoldCrc() returns (mac: seq<B>)
      requires Valid()
      modifies this`sbuf, R
      ensures Valid() && Reg() == Cycle(o, old(Reg())) && mac == Unpack(CoreOf(o), CrcWord(o, CRC[..], o.initKonst))
    {
      CycleOnce();
      mac := Unpack(CoreOf(o), o.xor(o.xor(o.xor(CRC[0], CRC[2]), CRC[15]), o.initKonst));
    }

    /** Its loop over CRC on POSIX. */
    method Stir()
      requires Valid()
      modifies this`sbuf, R
      ensures Valid() && Reg() == StirAll(o, old(Reg()), 16)
    {
      ghost var g0 := Reg();
      for i := 0 to 16
        invariant Valid() && CRC[..] == g0.CRC && initR[..] == g0.initR
        invariant Reg() == StirAll(o, g0, i)
      {
        StirOnce(i);
      }
    }

    method StirOnce(i: nat)
      requires Valid() && i < 16
      modifies this`sbuf, R
      ensures Valid() && Reg() == Cycle(o, old(Reg()).(R := XorAt(o, old(Reg()).R, KEYP, At(o, old(Reg()).CRC, i))))
    {
      R[KEYP] := o.xor(R[KEYP], CRC[i]);
      assert R[..] == XorAt(o, old(R[..]), KEYP, At(o, CRC[..], i));
      CycleOnce();
    }
  }
}
