/** Known answers of the Shannon cipher on both platforms (platform_posix.c, platform_esp32.c): what the
    key 01 02 03 04 05 makes of five bytes, and their MAC.  The register is followed cycle by cycle. */
module KnownAnswers {
  import opened WordStream
  import opened Shannon
  import opened ShannonWords
  import opened ShannonLaws
  import opened KeyLoading

  const KEY: seq<Byte> := [1, 2, 3, 4, 5]
  const DATA: seq<Byte> := [10, 20, 30, 40, 50]

  // ---------- a cycle in shifts ----------

  function Turn(w: Word): Word { (w << 1) | (w >> 31) }
  function Turn5(w: Word): Word { (w << 5) | (w >> 27) }
  function Turn7(w: Word): Word { (w << 7) | (w >> 25) }
  function Turn19(w: Word): Word { (w << 19) | (w >> 13) }
  function Turn22(w: Word): Word { (w << 22) | (w >> 10) }

  function Five(w: Word, a: Word, b: Word, c: Word, d: Word): Word { w ^ a ^ b ^ c ^ d }
  function Either(w: Word, a: Word, b: Word): Word { w ^ (a | b) }

  lemma Rotations(w: Word)
    ensures Rotl(w, 1) == Turn(w) && Rotl(w, 5) == Turn5(w) && Rotl(w, 7) == Turn7(w)
    ensures Rotl(w, 19) == Turn19(w) && Rotl(w, 22) == Turn22(w)
  {
  }

  lemma FiveRotations(w: Word)
    ensures Sbox1(Posix, w) == Five(w, Rotl(w, 5), Rotl(w, 7), Rotl(w, 19), Rotl(w, 22))
  {
  }

  lemma EitherRotation(w: Word, c: nat, d: nat)
    requires 0 < c < 32 && 0 < d < 32
    ensures OrRotated(w, c, d) == Either(w, Rotl(w, c), Rotl(w, d))
  {
  }

  lemma PosixBox(w: Word, a: Word)
    requires a == Five(w, Turn5(w), Turn7(w), Turn19(w), Turn22(w))
    ensures Sbox1(Posix, w) == Sbox2(Posix, w) == a
  {
    Rotations(w);
    FiveRotations(w);
  }

  lemma Esp32Box1(w: Word, v: Word, a: Word)
    requires v == Either(w, Turn5(w), Turn7(w)) && a == Either(v, Turn19(v), Turn22(v))
    ensures Sbox1(Esp32, w) == a
  {
    Rotations(w);
    Rotations(v);
    EitherRotation(w, 5, 7);
    EitherRotation(v, 19, 22);
  }

  lemma Esp32Box2(w: Word, v: Word, a: Word)
    requires v == Either(w, Turn7(w), Turn22(w)) && a == Either(v, Turn5(v), Turn19(v))
    ensures Sbox2(Esp32, w) == a
  {
    Rotations(w);
    Rotations(v);
    EitherRotation(w, 7, 22);
    EitherRotation(v, 5, 19);
  }

  lemma Feeds(p: Platform, r: seq<Word>, konst: Word, u: Word, a: Word, last: Word)
    requires |r| == 16 && u == XorWord(XorWord(r[12], r[13]), konst) && a == Sbox1(p, u) && last == XorWord(a,
        Turn(r[0]))
    ensures Feedback(Words(p), r, konst) == r[1..] + [last]
  {
    Rotations(r[0]);
  }

  lemma Mixes(p: Platform, f: seq<Word>, x: Word)
    requires |f| == 16 && x == XorWord(f[2], f[15])
    ensures Mixing(Words(p), f) == Sbox2(p, x)
  {
  }

  /** The words that a cycle reads, and what it makes of them. */
  predicate Turns(r0: Word, r1: Word, r3: Word, r9: Word, r12: Word, r13: Word, konst: Word,
                  u: Word, a: Word, last: Word, x: Word, m: Word, first: Word, key: Word) {
    && u == XorWord(XorWord(r12, r13), konst) && last == XorWord(a, Turn(r0)) && x == XorWord(r3, last)
    && first == XorWord(r1, m) && key == XorWord(XorWord(m, r9), r13)
  }

  lemma Cycled(p: Platform, r: seq<Word>, konst: Word, u: Word, a: Word, last: Word, x: Word, m: Word, first: Word,
               key: Word)
    requires |r| == 16 && Turns(r[0], r[1], r[3], r[9], r[12], r[13], konst, u, a, last, x, m, first, key)
    requires a == Sbox1(p, u) && m == Sbox2(p, x)
    ensures NextR(Words(p), r, konst) == [first] + r[2..] + [last] && NextKey(Words(p), r, konst) == key
  {
    Feeds(p, r, konst, u, a, last);
    var f := r[1..] + [last];
    Mixes(p, f, x);
    MixedIn(r, f, first, last);
  }

  lemma MixedIn(r: seq<Word>, f: seq<Word>, first: Word, last: Word)
    requires |r| == 16 && f == r[1..] + [last]
    ensures |f| == 16 && f[0 := first] == [first] + r[2..] + [last]
    ensures f[0] == r[1] && f[2] == r[3] && f[8] == r[9] && f[12] == r[13] && f[15] == last
  {
  }

  lemma Sixteenth<W>(r0: W, r1: W, r2: W, r3: W, r4: W, r5: W, r6: W, r7: W,
               r8: W, r9: W, r10: W, r11: W, r12: W, r13: W, r14: W, r15: W, first: W, last: W)
    ensures [first] + [r0, r1, r2, r3, r4, r5, r6, r7, r8, r9, r10, r11, r12, r13, r14, r15][2..] + [last] ==
            [first, r2, r3, r4, r5, r6, r7, r8, r9, r10, r11, r12, r13, r14, r15, last]
  {
    var r := [r0, r1, r2, r3, r4, r5, r6, r7, r8, r9, r10, r11, r12, r13, r14, r15];
    assert r[2..] == [r2, r3, r4, r5, r6, r7, r8, r9, r10, r11, r12, r13, r14, r15];
  }

  lemma Replaced<W>(r0: W, r1: W, r2: W, r3: W, r4: W, r5: W, r6: W, r7: W,
               r8: W, r9: W, r10: W, r11: W, r12: W, r13: W, r14: W, r15: W, x: W)
    ensures [r0, r1, r2, r3, r4, r5, r6, r7, r8, r9, r10, r11, r12, r13, r14, r15][0 := x] ==
            [x, r1, r2, r3, r4, r5, r6, r7, r8, r9, r10, r11, r12, r13, r14, r15]
    ensures [r0, r1, r2, r3, r4, r5, r6, r7, r8, r9, r10, r11, r12, r13, r14, r15][13 := x] ==
            [r0, r1, r2, r3, r4, r5, r6, r7, r8, r9, r10, r11, r12, x, r14, r15]
  {
  }

  lemma PosixCycle(r0: Word, r1: Word, r2: Word, r3: Word, r4: Word, r5: Word, r6: Word, r7: Word,
               r8: Word, r9: Word, r10: Word, r11: Word, r12: Word, r13: Word, r14: Word, r15: Word,
               konst: Word, u: Word, a: Word, last: Word, x: Word, m: Word, first: Word, key: Word)
    requires Turns(r0, r1, r3, r9, r12, r13, konst, u, a, last, x, m, first, key)
    requires a == Five(u, Turn5(u), Turn7(u), Turn19(u), Turn22(u)) && m == Five(x, Turn5(x), Turn7(x), Turn19(x),
        Turn22(x))
    ensures
      var r := [r0, r1, r2, r3, r4, r5, r6, r7, r8, r9, r10, r11, r12, r13, r14, r15];
      && NextR(Words(Posix), r, konst) == [first, r2, r3, r4, r5, r6, r7, r8, r9, r10, r11, r12, r13, r14, r15, last]
      && NextKey(Words(Posix), r, konst) == key
  {
    PosixBox(u, a);
    PosixBox(x, m);
    Sixteenth(r0, r1, r2, r3, r4, r5, r6, r7, r8, r9, r10, r11, r12, r13, r14, r15, first, last);
    Cycled(Posix, [r0, r1, r2, r3, r4, r5, r6, r7, r8, r9, r10, r11, r12, r13, r14, r15], konst, u, a, last, x, m,
           first, key);
  }

  lemma Esp32Cycle(r0: Word, r1: Word, r2: Word, r3: Word, r4: Word, r5: Word, r6: Word, r7: Word,
               r8: Word, r9: Word, r10: Word, r11: Word, r12: Word, r13: Word, r14: Word, r15: Word,
               konst: Word, u: Word, v: Word, a: Word, last: Word, x: Word, y: Word, m: Word, first: Word, key: Word)
    requires Turns(r0, r1, r3, r9, r12, r13, konst, u, a, last, x, m, first, key)
    requires v == Either(u, Turn5(u), Turn7(u)) && a == Either(v, Turn19(v), Turn22(v))
    requires y == Either(x, Turn7(x), Turn22(x)) && m == Either(y, Turn5(y), Turn19(y))
    ensures
      var r := [r0, r1, r2, r3, r4, r5, r6, r7, r8, r9, r10, r11, r12, r13, r14, r15];
      && NextR(Words(Esp32), r, konst) == [first, r2, r3, r4, r5, r6, r7, r8, r9, r10, r11, r12, r13, r14, r15, last]
      && NextKey(Words(Esp32), r, konst) == key
  {
    Esp32Box1(u, v, a);
    Esp32Box2(x, y, m);
    Sixteenth(r0, r1, r2, r3, r4, r5, r6, r7, r8, r9, r10, r11, r12, r13, r14, r15, first, last);
    Cycled(Esp32, [r0, r1, r2, r3, r4, r5, r6, r7, r8, r9, r10, r11, r12, r13, r14, r15], konst, u, a, last, x, m,
           first, key);
  }

  lemma Accumulates(p: Platform, r0: Word, r1: Word, r2: Word, r3: Word, r4: Word, r5: Word, r6: Word, r7: Word,
               r8: Word, r9: Word, r10: Word, r11: Word, r12: Word, r13: Word, r14: Word, r15: Word, w: Word)
    ensures
      XorAt(Words(p), [r0, r1, r2, r3, r4, r5, r6, r7, r8, r9, r10, r11, r12, r13, r14, r15], KEYP, w) ==
      [r0, r1, r2, r3, r4, r5, r6, r7, r8, r9, r10, r11, r12, XorWord(r13, w), r14, r15]
  {
    Replaced(r0, r1, r2, r3, r4, r5, r6, r7, r8, r9, r10, r11, r12, r13, r14, r15, XorWord(r13, w));
  }

  lemma PosixAdds(r0: Word, r1: Word, r2: Word, r3: Word, r4: Word, r5: Word, r6: Word, r7: Word,
               r8: Word, r9: Word, r10: Word, r11: Word, r12: Word, r13: Word, r14: Word, r15: Word, w: Word)
    ensures
      AddedR(Words(Posix), [r0, r1, r2, r3, r4, r5, r6, r7, r8, r9, r10, r11, r12, r13, r14, r15], w) ==
      [XorWord(r0, w), r1, r2, r3, r4, r5, r6, r7, r8, r9, r10, r11, r12, XorWord(r13, w), r14, r15]
  {
    Replaced(r0, r1, r2, r3, r4, r5, r6, r7, r8, r9, r10, r11, r12, r13, r14, r15, XorWord(r0, w));
    Accumulates(Posix, XorWord(r0, w), r1, r2, r3, r4, r5, r6, r7, r8, r9, r10, r11, r12, r13, r14, r15, w);
  }

  lemma Esp32Adds(r0: Word, r1: Word, r2: Word, r3: Word, r4: Word, r5: Word, r6: Word, r7: Word,
               r8: Word, r9: Word, r10: Word, r11: Word, r12: Word, r13: Word, r14: Word, r15: Word, w: Word)
    ensures
      AddedR(Words(Esp32), [r0, r1, r2, r3, r4, r5, r6, r7, r8, r9, r10, r11, r12, r13, r14, r15], w) ==
      [r0, r1, r2, r3, r4, r5, r6, r7, r8, r9, r10, r11, r12, XorWord(r13, w), r14, r15]
  {
    Accumulates(Esp32, r0, r1, r2, r3, r4, r5, r6, r7, r8, r9, r10, r11, r12, r13, r14, r15, w);
  }

  // ---------- cycles in a row ----------

  lemma LoadedThree<R, W>(f: (R, W) -> R, r: R, a: W, b: W, c: W)
    ensures Loaded(f, r, [a, b, c]) == f(f(f(r, a), b), c)
  {
    LoadedMore(f, r, [], a);
    LoadedMore(f, r, [a], b);
    LoadedMore(f, r, [a, b], c);
    assert [] + [a] == [a] && [a] + [b] == [a, b] && [a, b] + [c] == [a, b, c];
  }

  function Four<W, B>(o: Ops<W, B>, r: seq<W>, konst: W): seq<W> {
    NextR(o, NextR(o, NextR(o, NextR(o, r, konst), konst), konst), konst)
  }

  lemma FourMore<W, B>(o: Ops<W, B>, r: seq<W>, konst: W, n: nat, a: seq<W>, b: seq<W>)
    requires CyclesR(o, r, konst, n) == a && Four(o, a, konst) == b
    ensures CyclesR(o, r, konst, n + 4) == b
  {
    assert CyclesR(o, r, konst, n + 1) == NextR(o, CyclesR(o, r, konst, n), konst);
    assert CyclesR(o, r, konst, n + 2) == NextR(o, CyclesR(o, r, konst, n + 1), konst);
    assert CyclesR(o, r, konst, n + 3) == NextR(o, CyclesR(o, r, konst, n + 2), konst);
  }

  lemma Sixteen<W, B>(o: Ops<W, B>, r: seq<W>, konst: W, a: seq<W>, b: seq<W>, c: seq<W>, d: seq<W>)
    requires a == Four(o, r, konst) && b == Four(o, a, konst) && c == Four(o, b, konst) && d == Four(o, c, konst)
    ensures CyclesR(o, r, konst, 16) == d
  {
    FourMore(o, r, konst, 0, r, a);
    FourMore(o, r, konst, 4, a, b);
    FourMore(o, r, konst, 8, b, c);
    FourMore(o, r, konst, 12, c, d);
  }

  /** A word of CRC is stirred in: the register, and the key. */
  function Stirring<W, B>(o: Ops<W, B>, konst: W): ((seq<W>, W), W) -> (seq<W>, W) {
    (s: (seq<W>, W), w: W) => (NextR(o, XorAt(o, s.0, KEYP, w), konst), NextKey(o, XorAt(o, s.0, KEYP, w), konst))
  }

  lemma {:induction false} StirsAll<W, B>(o: Ops<W, B>, g: Register<W>, n: nat)
    requires n <= |g.CRC|
    ensures
      var h := StirAll(o, g, n);
      (h.R, h.sbuf) == Loaded(Stirring(o, g.konst), (g.R, g.sbuf), g.CRC[..n]) && h.konst == g.konst
  {
    if n > 0 {
      StirsAll(o, g, n - 1);
      LoadedMore(Stirring(o, g.konst), (g.R, g.sbuf), g.CRC[..n - 1], g.CRC[n - 1]);
      TakeMore(g.CRC, n);
      StirsOne(o, g, n);
    }
  }

  lemma TakeMore<W>(s: seq<W>, n: nat)
    requires 0 < n <= |s|
    ensures s[..n] == s[..n - 1] + [s[n - 1]]
  {
  }

  lemma StirsOne<W, B>(o: Ops<W, B>, g: Register<W>, n: nat)
    requires 0 < n <= |g.CRC|
    ensures
      var h, k := StirAll(o, g, n - 1), StirAll(o, g, n);
      (k.R, k.sbuf) == Stirring(o, h.konst)((h.R, h.sbuf), g.CRC[n - 1]) && k.konst == h.konst
  {
  }

  lemma {:induction false} LoadedTwice<R, W>(f: (R, W) -> R, r: R, ws: seq<W>, vs: seq<W>)
    ensures Loaded(f, r, ws + vs) == Loaded(f, Loaded(f, r, ws), vs)
    decreases |ws|
  {
    if ws == [] {
      assert ws + vs == vs;
    } else {
      assert (ws + vs)[1..] == ws[1..] + vs;
      LoadedTwice(f, f(r, ws[0]), ws[1..], vs);
    }
  }

  lemma LoadedFour<R, W>(f: (R, W) -> R, r: R, a: W, b: W, c: W, d: W)
    ensures Loaded(f, r, [a, b, c, d]) == f(f(f(f(r, a), b), c), d)
  {
    LoadedThree(f, r, a, b, c);
    LoadedMore(f, r, [a, b, c], d);
    assert [a, b, c] + [d] == [a, b, c, d];
  }

  lemma LoadedSixteen<R, W>(f: (R, W) -> R, r: R, r0: W, r1: W, r2: W, r3: W, r4: W, r5: W, r6: W, r7: W,
               r8: W, r9: W, r10: W, r11: W, r12: W, r13: W, r14: W, r15: W, b: R, c: R, d: R, e: R)
    requires Loaded(f, r, [r0, r1, r2, r3]) == b && Loaded(f, b, [r4, r5, r6, r7]) == c
    requires Loaded(f, c, [r8, r9, r10, r11]) == d && Loaded(f, d, [r12, r13, r14, r15]) == e
    ensures Loaded(f, r, [r0, r1, r2, r3, r4, r5, r6, r7, r8, r9, r10, r11, r12, r13, r14, r15]) == e
  {
    LoadedTwice(f, r, [r0, r1, r2, r3], [r4, r5, r6, r7]);
    Eight(r0, r1, r2, r3, r4, r5, r6, r7);
    LoadedTwice(f, c, [r8, r9, r10, r11], [r12, r13, r14, r15]);
    Eight(r8, r9, r10, r11, r12, r13, r14, r15);
    LoadedTwice(f, r, [r0, r1, r2, r3, r4, r5, r6, r7], [r8, r9, r10, r11, r12, r13, r14, r15]);
    Joined(r0, r1, r2, r3, r4, r5, r6, r7, r8, r9, r10, r11, r12, r13, r14, r15);
  }

  /** One word of data and one byte. */
  lemma FiveOut<R, W, B>(c: Core<R, W, B>, st: State<R, W>, s: seq<B>, b: B)
    requires st.nbuf == 0 && |s| == 4
    ensures
      var g := c.cycle(st.reg);
      var h := c.cycle(c.mac(g, Pack(c, s)));
      Call(c, Encrypt, st, s + [b]) ==
        (State(h, c.fold(c.zero, b, 0), 24), Unpack(c, c.xor(Pack(c, s), c.key(g))) + [c.mix(b, c.key(h), 0)])
  {
    var g := c.cycle(st.reg);
    var k, out := c.mac(g, Pack(c, s)), Unpack(c, c.xor(Pack(c, s), c.key(g)));
    WholeOne(c, st.reg, s, b);
    assert (s + [b])[4..] == [b];
    TailOne(c, st.(reg := k), b);
  }

  lemma WholeOne<R, W, B>(c: Core<R, W, B>, reg: R, s: seq<B>, b: B)
    requires |s| == 4
    ensures
      var g := c.cycle(reg);
      Whole(c, Encrypt, reg, s + [b]) == (c.mac(g, Pack(c, s)), Unpack(c, c.xor(Pack(c, s), c.key(g))))
  {
    assert (s + [b])[..4] == s && (s + [b])[4..] == [b];
    var k, out := c.mac(c.cycle(reg), Pack(c, s)), Unpack(c, WordOut(c, reg, Pack(c, s)));
    assert Whole(c, Encrypt, k, [b]) == (k, []);
    assert out + [] == out;
  }

  lemma TailOne<R, W, B>(c: Core<R, W, B>, st: State<R, W>, b: B)
    requires st.nbuf == 0
    ensures
      var h := c.cycle(st.reg);
      Tail(c, Encrypt, st, [b]) == (State(h, c.fold(c.zero, b, 0), 24), [c.mix(b, c.key(h), 0)])
  {
    var begun := Begin(c, st.reg);
    var o, st' := Mixed(c, begun, b), Fold(c, begun, b);
    assert Partial(c, Encrypt, begun, [b]) == Prefix([o], Partial(c, Encrypt, st', [b][1..]));
    assert [b][1..] == [] && Partial(c, Encrypt, st', []) == (st', []);
    assert [o] + [] == [o];
  }

  /** The same, with the registers that are passed. */
  lemma Outputs(p: Platform, a: Cipher<Word>, h: Register<Word>, k: Register<Word>, x: Word, s: seq<Byte>, y: Byte)
    requires a.nbuf == 0 && h == Cycle(Words(p), a.reg) && k == Cycle(Words(p), Mac(Words(p), h, 0x281E140A))
    requires x == XorWord(0x281E140A, h.sbuf) && y == 50 ^ Low(k.sbuf)
    requires |s| == 4 && s[0] == Low(x) && s[1] == Low(x >> 8) && s[2] == Low(x >> 16) && s[3] == Low(x >> 24)
    ensures Call(CoreOf(Words(p)), Encrypt, a, DATA) == (State(k, 50, 24), s + [y])
  {
    DataIs(p);
    FiveOut(CoreOf(Words(p)), a, [10, 20, 30, 40], 50);
    BytesAre(p, x, s);
    BeginsWord(p, 50);
  }

  /** What the output of the five bytes, and the state, come to. */
  lemma OutputIs(p: Platform, a: Cipher<Word>, k0: Word, k1: Word, r: seq<Word>, crc: seq<Word>, x: Word,
                 s: seq<Byte>, y: Byte)
    requires
      var h := Cycle(Words(p), a.reg);
      var k := Cycle(Words(p), Mac(Words(p), h, 0x281E140A));
      a.nbuf == 0 && h.sbuf == k0 && k.sbuf == k1 && k.R == r
    requires Shifted(a.reg.CRC, CrcWord(Words(p), a.reg.CRC, 0x281E140A)) == crc
    requires x == XorWord(0x281E140A, k0) && y == 50 ^ Low(k1)
    requires |s| == 4 && s[0] == Low(x) && s[1] == Low(x >> 8) && s[2] == Low(x >> 16) && s[3] == Low(x >> 24)
    ensures
      var e := Call(CoreOf(Words(p)), Encrypt, a, DATA);
      e.1 == s + [y] && e.0.mbuf == 50 && e.0.nbuf == 24 && e.0.reg.R == r && e.0.reg.CRC == crc
  {
    var h := Cycle(Words(p), a.reg);
    Outputs(p, a, h, Cycle(Words(p), Mac(Words(p), h, 0x281E140A)), x, s, y);
  }

  lemma OutputFive(p: Platform, a: Cipher<Word>, k0: Word, k1: Word, r: seq<Word>, crc: seq<Word>,
                   x: Word, b0: Byte, b1: Byte, b2: Byte, b3: Byte, y: Byte)
    requires
      var h := Cycle(Words(p), a.reg);
      var k := Cycle(Words(p), Mac(Words(p), h, 0x281E140A));
      a.nbuf == 0 && h.sbuf == k0 && k.sbuf == k1 && k.R == r
    requires Shifted(a.reg.CRC, CrcWord(Words(p), a.reg.CRC, 0x281E140A)) == crc
    requires x == XorWord(0x281E140A, k0) && y == 50 ^ Low(k1)
    requires b0 == Low(x) && b1 == Low(x >> 8) && b2 == Low(x >> 16) && b3 == Low(x >> 24)
    ensures
      var e := Call(CoreOf(Words(p)), Encrypt, a, DATA);
      e.1 == [b0, b1, b2, b3, y] && e.0.mbuf == 50 && e.0.nbuf == 24 && e.0.reg.R == r && e.0.reg.CRC == crc
  {
    OutputIs(p, a, k0, k1, r, crc, x, [b0, b1, b2, b3], y);
    FiveBytesOf(b0, b1, b2, b3, y);
  }

  lemma FiveBytesOf<B>(b0: B, b1: B, b2: B, b3: B, y: B)
    ensures [b0, b1, b2, b3] + [y] == [b0, b1, b2, b3, y]
  {
  }

  lemma FinishKey<W, B>(o: Ops<W, B>, e: Cipher<W>, a: seq<W>, crc: seq<W>, s: (seq<W>, W))
    requires o.platform.Posix? && e.nbuf != 0 && XorAt(o, e.reg.R, KEYP, e.mbuf) == a && |crc| == 16
    requires Shifted(e.reg.CRC, CrcWord(o, e.reg.CRC, e.mbuf)) == crc
    requires Loaded(Stirring(o, o.initKonst), (a, e.reg.sbuf), crc) == s
    ensures Finish(o, e).1 == Unpack(CoreOf(o), s.1)
  {
    assert crc[..16] == crc;
    StirsAll(o, Mac(o, e.reg, e.mbuf).(konst := o.initKonst), 16);
  }

  lemma BeginsWord(p: Platform, b: Byte)
    ensures FoldByte(0, b, 0) == b as Word && forall w: Word :: MixByte(b, w, 0) == b ^ Low(w)
  {
  }

  lemma CrcShifts(p: Platform, r0: Word, r1: Word, r2: Word, r3: Word, r4: Word, r5: Word, r6: Word, r7: Word,
               r8: Word, r9: Word, r10: Word, r11: Word, r12: Word, r13: Word, r14: Word, r15: Word, w: Word)
    ensures
      Shifted([r0, r1, r2, r3, r4, r5, r6, r7, r8, r9, r10, r11, r12, r13, r14, r15], CrcWord(Words(p), [r0, r1, r2,
          r3, r4, r5, r6, r7, r8, r9, r10, r11, r12, r13, r14, r15], w)) ==
      [r1, r2, r3, r4, r5, r6, r7, r8, r9, r10, r11, r12, r13, r14, r15, CrcSum(r0, r2, r15, w)]
  {
    SumIs(p, r0, r1, r2, r3, r4, r5, r6, r7, r8, r9, r10, r11, r12, r13, r14, r15, w);
    ShiftsAll(r0, r1, r2, r3, r4, r5, r6, r7, r8, r9, r10, r11, r12, r13, r14, r15, CrcSum(r0, r2, r15, w));
  }

  lemma ShiftsAll<W>(r0: W, r1: W, r2: W, r3: W, r4: W, r5: W, r6: W, r7: W,
               r8: W, r9: W, r10: W, r11: W, r12: W, r13: W, r14: W, r15: W, x: W)
    ensures Shifted([r0, r1, r2, r3, r4, r5, r6, r7, r8, r9, r10, r11, r12, r13, r14, r15], x) == [r1, r2, r3, r4,
        r5, r6, r7, r8, r9, r10, r11, r12, r13, r14, r15, x]
  {
  }

  function CrcSum(r0: Word, r2: Word, r15: Word, w: Word): Word {
    XorWord(XorWord(XorWord(r0, r2), r15), w)
  }

  /** The bytes of a word. */
  lemma BytesAre(p: Platform, w: Word, s: seq<Byte>)
    requires |s| == 4 && s[0] == Low(w) && s[1] == Low(w >> 8) && s[2] == Low(w >> 16) && s[3] == Low(w >> 24)
    ensures Unpack(CoreOf(Words(p)), w) == s
  {
  }

  lemma DataIs(p: Platform)
    ensures DATA == [10, 20, 30, 40] + [50] && Pack(CoreOf(Words(p)), [10, 20, 30, 40]) == 0x281E140A
  {
  }

  lemma SumIs(p: Platform, r0: Word, r1: Word, r2: Word, r3: Word, r4: Word, r5: Word, r6: Word, r7: Word,
               r8: Word, r9: Word, r10: Word, r11: Word, r12: Word, r13: Word, r14: Word, r15: Word, w: Word)
    ensures CrcWord(Words(p), [r0, r1, r2, r3, r4, r5, r6, r7, r8, r9, r10, r11, r12, r13, r14, r15],
                    w) == CrcSum(r0, r2, r15, w)
  {
    SumOf(Words(p), r0, r1, r2, r3, r4, r5, r6, r7, r8, r9, r10, r11, r12, r13, r14, r15, w);
  }

  lemma SumOf<W, B>(o: Ops<W, B>, r0: W, r1: W, r2: W, r3: W, r4: W, r5: W, r6: W, r7: W,
               r8: W, r9: W, r10: W, r11: W, r12: W, r13: W, r14: W, r15: W, w: W)
    ensures CrcWord(o, [r0, r1, r2, r3, r4, r5, r6, r7, r8, r9, r10, r11, r12, r13, r14, r15],
                    w) == o.xor(o.xor(o.xor(r0, r2), r15), w)
  {
  }

  lemma PosixStir(r0: Word, r1: Word, r2: Word, r3: Word, r4: Word, r5: Word, r6: Word, r7: Word,
               r8: Word, r9: Word, r10: Word, r11: Word, r12: Word, r13: Word, r14: Word, r15: Word,
            before: Word, w: Word, u: Word, a: Word, last: Word, x: Word, m: Word, first: Word, key: Word)
    requires Turns(r0, r1, r3, r9, r12, XorWord(r13, w), 0x6996C75A, u, a, last, x, m, first, key)
    requires a == Five(u, Turn5(u), Turn7(u), Turn19(u), Turn22(u)) && m == Five(x, Turn5(x), Turn7(x), Turn19(x),
        Turn22(x))
    ensures
      Stirring(Words(Posix), 0x6996C75A)(([r0, r1, r2, r3, r4, r5, r6, r7, r8, r9, r10, r11, r12, r13, r14, r15],
                                          before), w) ==
      ([first, r2, r3, r4, r5, r6, r7, r8, r9, r10, r11, r12, XorWord(r13, w), r14, r15, last], key)
  {
    Accumulates(Posix, r0, r1, r2, r3, r4, r5, r6, r7, r8, r9, r10, r11, r12, r13, r14, r15, w);
    PosixCycle(r0, r1, r2, r3, r4, r5, r6, r7, r8, r9, r10, r11, r12, XorWord(r13, w), r14, r15, 0x6996C75A, u, a,
               last, x, m, first, key);
  }

  lemma FirstWords(p: Platform)
    ensures
      InitR(Words(p), 16) ==
      [0x00000001, 0x00000001, 0x00000002, 0x00000003, 0x00000005, 0x00000008, 0x0000000D, 0x00000015,
       0x00000022, 0x00000037, 0x00000059, 0x00000090, 0x000000E9, 0x00000179, 0x00000262, 0x000003DB]
  {
    var o := Words(p);
    FirstEight(p);
    assert InitR(o, 9) == [1, 1, 2, 3, 5, 8, 0xD, 0x15, 0x22];
    assert InitR(o, 10) == [1, 1, 2, 3, 5, 8, 0xD, 0x15, 0x22, 0x37];
    assert InitR(o, 11) == [1, 1, 2, 3, 5, 8, 0xD, 0x15, 0x22, 0x37, 0x59];
    assert InitR(o, 12) == [1, 1, 2, 3, 5, 8, 0xD, 0x15, 0x22, 0x37, 0x59, 0x90];
    assert InitR(o, 14) == [1, 1, 2, 3, 5, 8, 0xD, 0x15, 0x22, 0x37, 0x59, 0x90, 0xE9, 0x179];
  }

  lemma FirstEight(p: Platform)
    ensures InitR(Words(p), 8) == [1, 1, 2, 3, 5, 8, 0xD, 0x15]
  {
    var o := Words(p);
    assert InitR(o, 2) == [1, 1];
    assert InitR(o, 3) == [1, 1, 2];
    assert InitR(o, 4) == [1, 1, 2, 3];
    assert InitR(o, 6) == [1, 1, 2, 3, 5, 8];
  }

  lemma {:induction false} LoadKeeps<W, B>(o: Ops<W, B>, g: Register<W>, key: seq<B>)
    ensures LoadWords(o, g, key).konst == g.konst
    decreases |key|
  {
    if |key| >= 4 {
      LoadKeeps(o, AddCycle(o, g, KeyWord(o, key[..4])), key[4..]);
    }
  }

  /** The register is what sixteen cycles make of CRC, combined with CRC. */
  lemma KeyIs<W, B>(o: Ops<W, B>, st: Cipher<W>, key: seq<B>)
    ensures
      var g := SetKey(o, st, key).reg;
      g.R == XorWords(o, CyclesR(o, g.CRC, o.initKonst, 16), g.CRC) && g.konst == At(o, g.R, 0)
  {
    LoadKeeps(o, st.reg.(R := InitR(o, 16), konst := o.initKonst), key);
  }

  lemma Combines(p: Platform, r0: Word, r1: Word, r2: Word, r3: Word, r4: Word, r5: Word, r6: Word, r7: Word,
               r8: Word, r9: Word, r10: Word, r11: Word, r12: Word, r13: Word, r14: Word, r15: Word,
                 c0: Word, c1: Word, c2: Word, c3: Word, c4: Word, c5: Word, c6: Word, c7: Word,
                 c8: Word, c9: Word, c10: Word, c11: Word, c12: Word, c13: Word, c14: Word, c15: Word)
    ensures
      XorWords(Words(p), [r0, r1, r2, r3, r4, r5, r6, r7, r8, r9, r10, r11, r12, r13, r14, r15], [c0, c1, c2, c3, c4,
          c5, c6, c7, c8, c9, c10, c11, c12, c13, c14, c15]) ==
      [XorWord(r0, c0), XorWord(r1, c1), XorWord(r2, c2), XorWord(r3, c3), XorWord(r4, c4), XorWord(r5, c5),
       XorWord(r6, c6), XorWord(r7, c7), XorWord(r8, c8), XorWord(r9, c9), XorWord(r10, c10), XorWord(r11, c11),
       XorWord(r12, c12), XorWord(r13, c13), XorWord(r14, c14), XorWord(r15, c15)]
  {
    CombinesAll(Words(p), r0, r1, r2, r3, r4, r5, r6, r7, r8, r9, r10, r11, r12, r13, r14, r15, c0, c1, c2, c3, c4,
                c5, c6, c7, c8, c9, c10, c11, c12, c13, c14, c15);
  }

  lemma CombinesAll<W, B>(o: Ops<W, B>, r0: W, r1: W, r2: W, r3: W, r4: W, r5: W, r6: W, r7: W,
               r8: W, r9: W, r10: W, r11: W, r12: W, r13: W, r14: W, r15: W,
                 c0: W, c1: W, c2: W, c3: W, c4: W, c5: W, c6: W, c7: W,
                 c8: W, c9: W, c10: W, c11: W, c12: W, c13: W, c14: W, c15: W)
    ensures
      XorWords(o, [r0, r1, r2, r3, r4, r5, r6, r7, r8, r9, r10, r11, r12, r13, r14, r15], [c0, c1, c2, c3, c4, c5,
          c6, c7, c8, c9, c10, c11, c12, c13, c14, c15]) ==
      [o.xor(r0, c0), o.xor(r1, c1), o.xor(r2, c2), o.xor(r3, c3), o.xor(r4, c4), o.xor(r5, c5), o.xor(r6, c6),
       o.xor(r7, c7), o.xor(r8, c8), o.xor(r9, c9), o.xor(r10, c10), o.xor(r11, c11), o.xor(r12, c12), o.xor(r13,
           c13), o.xor(r14, c14), o.xor(r15, c15)]
  {
    CombinesFour(o, [r0, r1, r2, r3], [c0, c1, c2, c3]);
    CombinesFour(o, [r4, r5, r6, r7], [c4, c5, c6, c7]);
    CombinesFour(o, [r8, r9, r10, r11], [c8, c9, c10, c11]);
    CombinesFour(o, [r12, r13, r14, r15], [c12, c13, c14, c15]);
    CombinesMore(o, [r0, r1, r2, r3], [r4, r5, r6, r7], [c0, c1, c2, c3], [c4, c5, c6, c7]);
    Eight(r0, r1, r2, r3, r4, r5, r6, r7);
    Eight(c0, c1, c2, c3, c4, c5, c6, c7);
    Eight(o.xor(r0, c0), o.xor(r1, c1), o.xor(r2, c2), o.xor(r3, c3), o.xor(r4, c4), o.xor(r5, c5), o.xor(r6, c6),
          o.xor(r7, c7));
    CombinesMore(o, [r8, r9, r10, r11], [r12, r13, r14, r15], [c8, c9, c10, c11], [c12, c13, c14, c15]);
    Eight(r8, r9, r10, r11, r12, r13, r14, r15);
    Eight(c8, c9, c10, c11, c12, c13, c14, c15);
    Eight(o.xor(r8, c8), o.xor(r9, c9), o.xor(r10, c10), o.xor(r11, c11), o.xor(r12, c12), o.xor(r13, c13),
          o.xor(r14, c14), o.xor(r15, c15));
    CombinesMore(o, [r0, r1, r2, r3, r4, r5, r6, r7], [r8, r9, r10, r11, r12, r13, r14, r15],
                 [c0, c1, c2, c3, c4, c5, c6, c7], [c8, c9, c10, c11, c12, c13, c14, c15]);
    Joined(r0, r1, r2, r3, r4, r5, r6, r7, r8, r9, r10, r11, r12, r13, r14, r15);
    Joined(c0, c1, c2, c3, c4, c5, c6, c7, c8, c9, c10, c11, c12, c13, c14, c15);
    Joined(o.xor(r0, c0), o.xor(r1, c1), o.xor(r2, c2), o.xor(r3, c3), o.xor(r4, c4), o.xor(r5, c5), o.xor(r6, c6),
           o.xor(r7, c7),
           o.xor(r8, c8), o.xor(r9, c9), o.xor(r10, c10), o.xor(r11, c11), o.xor(r12, c12), o.xor(r13, c13),
           o.xor(r14, c14), o.xor(r15, c15));
  }

  lemma Eight<W>(a: W, b: W, c: W, d: W, e: W, f: W, g: W, h: W)
    ensures [a, b, c, d] + [e, f, g, h] == [a, b, c, d, e, f, g, h]
  {
  }

  lemma Joined<W>(r0: W, r1: W, r2: W, r3: W, r4: W, r5: W, r6: W, r7: W,
               r8: W, r9: W, r10: W, r11: W, r12: W, r13: W, r14: W, r15: W)
    ensures [r0, r1, r2, r3, r4, r5, r6, r7] + [r8, r9, r10, r11, r12, r13, r14, r15] == [r0, r1, r2, r3, r4, r5, r6,
        r7, r8, r9, r10, r11, r12, r13, r14, r15]
  {
  }

  lemma CombinesAt<W, B>(o: Ops<W, B>, r: seq<W>, c: seq<W>, i: nat)
    requires i < |r| == |c|
    ensures XorWords(o, r, c)[i] == o.xor(r[i], c[i])
  {
    assert At(o, c, i) == c[i];
  }

  lemma CombinesFour<W, B>(o: Ops<W, B>, r: seq<W>, c: seq<W>)
    requires |r| == |c| == 4
    ensures XorWords(o, r, c) == [o.xor(r[0], c[0]), o.xor(r[1], c[1]), o.xor(r[2], c[2]), o.xor(r[3], c[3])]
  {
    CombinesAt(o, r, c, 0);
    CombinesAt(o, r, c, 1);
    CombinesAt(o, r, c, 2);
    CombinesAt(o, r, c, 3);
    assert XorWords(o, r, c) == [o.xor(r[0], c[0]), o.xor(r[1], c[1]), o.xor(r[2], c[2]), o.xor(r[3], c[3])];
  }

  lemma CombinesMore<W, B>(o: Ops<W, B>, r: seq<W>, s: seq<W>, c: seq<W>, d: seq<W>)
    requires |r| == |c| && |s| == |d|
    ensures XorWords(o, r + s, c + d) == XorWords(o, r, c) + XorWords(o, s, d)
  {
    forall i | 0 <= i < |r| + |s|
      ensures XorWords(o, r + s, c + d)[i] == (XorWords(o, r, c) + XorWords(o, s, d))[i]
    {
      CombinesAt(o, r + s, c + d, i);
      if i < |r| {
        CombinesAt(o, r, c, i);
      } else {
        CombinesAt(o, s, d, i - |r|);
      }
    }
  }

  lemma KeyLeads(p: Platform, st: Cipher<Word>, first: seq<Word>, crc: seq<Word>, r: seq<Word>, a: seq<Word>)
    requires InitR(Words(p), 16) == first && Loaded(Adding(p, InitKonst(p)), first, [0x04030201, 0x00000005,
        0x00000005]) == crc
    requires CyclesR(Words(p), crc, InitKonst(p), 16) == r && XorWords(Words(p), r, crc) == a && a != []
    ensures var g := SetKey(Words(p), st, KEY).reg; g.R == a && g.CRC == crc && g.konst == a[0]
  {
    FiveBytes(p, st);
    KeyIs(Words(p), st, KEY);
  }

  // ---------- POSIX ----------

  lemma PosixLoads()
    ensures Loaded(Adding(Posix, 0x6996C75A), [0x00000001, 0x00000001, 0x00000002, 0x00000003, 0x00000005,
                                               0x00000008, 0x0000000D, 0x00000015,
         0x00000022, 0x00000037, 0x00000059, 0x00000090, 0x000000E9, 0x00000179, 0x00000262, 0x000003DB],
                   [0x04030201, 0x00000005, 0x00000005]) ==
      [0xB6BA67DE, 0x00000005, 0x00000008, 0x0000000D, 0x00000015, 0x00000022, 0x00000037, 0x00000059,
       0x00000090, 0x000000E9, 0x04030378, 0x00000267, 0x000003DE, 0x094935CF, 0x0590C113, 0x7A5E02F7]
  {
    PosixAdds(0x00000001, 0x00000001, 0x00000002, 0x00000003, 0x00000005, 0x00000008, 0x0000000D, 0x00000015,
              0x00000022, 0x00000037, 0x00000059, 0x00000090, 0x000000E9, 0x00000179, 0x00000262, 0x000003DB,
              0x04030201);
    PosixCycle(0x04030200, 0x00000001, 0x00000002, 0x00000003, 0x00000005, 0x00000008, 0x0000000D, 0x00000015,
               0x00000022, 0x00000037, 0x00000059, 0x00000090, 0x000000E9, 0x04030378, 0x00000262, 0x000003DB,
               0x6996C75A, 0x6D95C4CB, 0x014F31CF, 0x094935CF, 0x094935CC, 0x5997724D, 0x5997724C, 0x5D947102);
    PosixAdds(0x5997724C, 0x00000002, 0x00000003, 0x00000005, 0x00000008, 0x0000000D, 0x00000015, 0x00000022,
              0x00000037, 0x00000059, 0x00000090, 0x000000E9, 0x04030378, 0x00000262, 0x000003DB, 0x094935CF,
              0x00000005);
    PosixCycle(0x59977249, 0x00000002, 0x00000003, 0x00000005, 0x00000008, 0x0000000D, 0x00000015, 0x00000022,
               0x00000037, 0x00000059, 0x00000090, 0x000000E9, 0x04030378, 0x00000267, 0x000003DB, 0x094935CF,
               0x6996C75A, 0x6D95C645, 0xB6BE2581, 0x0590C113, 0x0590C116, 0x32D92062, 0x32D92060, 0x32D9225C);
    PosixAdds(0x32D92060, 0x00000003, 0x00000005, 0x00000008, 0x0000000D, 0x00000015, 0x00000022, 0x00000037,
              0x00000059, 0x00000090, 0x000000E9, 0x04030378, 0x00000267, 0x000003DB, 0x094935CF, 0x0590C113,
              0x00000005);
    PosixCycle(0x32D92065, 0x00000003, 0x00000005, 0x00000008, 0x0000000D, 0x00000015, 0x00000022, 0x00000037,
               0x00000059, 0x00000090, 0x000000E9, 0x04030378, 0x00000267, 0x000003DE, 0x094935CF, 0x0590C113,
               0x6996C75A, 0x6996C6E3, 0x1FEC423D, 0x7A5E02F7, 0x7A5E02FF, 0xB6BA67DD, 0xB6BA67DE, 0xB6BA6493);
    LoadedThree(Adding(Posix, 0x6996C75A), [0x00000001, 0x00000001, 0x00000002, 0x00000003, 0x00000005, 0x00000008,
                                            0x0000000D, 0x00000015,
                 0x00000022, 0x00000037, 0x00000059, 0x00000090, 0x000000E9, 0x00000179, 0x00000262, 0x000003DB],
                0x04030201, 0x00000005, 0x00000005);
  }

  lemma PosixDiffuses0()
    ensures Four(Words(Posix), [0xB6BA67DE, 0x00000005, 0x00000008, 0x0000000D, 0x00000015, 0x00000022, 0x00000037,
                                0x00000059,
     0x00000090, 0x000000E9, 0x04030378, 0x00000267, 0x000003DE, 0x094935CF, 0x0590C113, 0x7A5E02F7], 0x6996C75A) ==
      [0x46D0B01C, 0x00000022, 0x00000037, 0x00000059, 0x00000090, 0x000000E9, 0x04030378, 0x00000267,
       0x000003DE, 0x094935CF, 0x0590C113, 0x7A5E02F7, 0xA12E8329, 0x91FE97AE, 0xFF917206, 0xB23882D5]
  {
    PosixCycle(0xB6BA67DE, 0x00000005, 0x00000008, 0x0000000D, 0x00000015, 0x00000022, 0x00000037, 0x00000059,
               0x00000090, 0x000000E9, 0x04030378, 0x00000267, 0x000003DE, 0x094935CF, 0x0590C113, 0x7A5E02F7,
               0x6996C75A, 0x60DFF14B, 0xCC5A4C94, 0xA12E8329, 0xA12E8324, 0xC3B23734, 0xC3B23731, 0xCAFB0212);
    PosixCycle(0xC3B23731, 0x00000008, 0x0000000D, 0x00000015, 0x00000022, 0x00000037, 0x00000059, 0x00000090,
               0x000000E9, 0x04030378, 0x00000267, 0x000003DE, 0x094935CF, 0x0590C113, 0x7A5E02F7, 0xA12E8329,
               0x6996C75A, 0x654F3386, 0x169AF9CD, 0x91FE97AE, 0x91FE97BB, 0x025F4D50, 0x025F4D58, 0x03CC8F3B);
    PosixCycle(0x025F4D58, 0x0000000D, 0x00000015, 0x00000022, 0x00000037, 0x00000059, 0x00000090, 0x000000E9,
               0x04030378, 0x00000267, 0x000003DE, 0x094935CF, 0x0590C113, 0x7A5E02F7, 0xA12E8329, 0x91FE97AE,
               0x6996C75A, 0x165804BE, 0xFB2FE8B6, 0xFF917206, 0xFF917224, 0xDD1E3C13, 0xDD1E3C1E, 0xA7403C83);
    PosixCycle(0xDD1E3C1E, 0x00000015, 0x00000022, 0x00000037, 0x00000059, 0x00000090, 0x000000E9, 0x04030378,
               0x00000267, 0x000003DE, 0x094935CF, 0x0590C113, 0x7A5E02F7, 0xA12E8329, 0x91FE97AE, 0xFF917206,
               0x6996C75A, 0xB2E64684, 0x0804FAE8, 0xB23882D5, 0xB23882E2, 0x46D0B009, 0x46D0B01C, 0xE7FE30FE);
  }

  lemma PosixDiffuses1()
    ensures Four(Words(Posix), [0x46D0B01C, 0x00000022, 0x00000037, 0x00000059, 0x00000090, 0x000000E9, 0x04030378,
                                0x00000267,
     0x000003DE, 0x094935CF, 0x0590C113, 0x7A5E02F7, 0xA12E8329, 0x91FE97AE, 0xFF917206, 0xB23882D5], 0x6996C75A) ==
      [0x38B0FF39, 0x000000E9, 0x04030378, 0x00000267, 0x000003DE, 0x094935CF, 0x0590C113, 0x7A5E02F7,
       0xA12E8329, 0x91FE97AE, 0xFF917206, 0xB23882D5, 0x36E8BD60, 0xDF16D3A8, 0x20EA06F8, 0xE2B04B36]
  {
    PosixCycle(0x46D0B01C, 0x00000022, 0x00000037, 0x00000059, 0x00000090, 0x000000E9, 0x04030378, 0x00000267,
               0x000003DE, 0x094935CF, 0x0590C113, 0x7A5E02F7, 0xA12E8329, 0x91FE97AE, 0xFF917206, 0xB23882D5,
               0x6996C75A, 0x5946D3DD, 0xBB49DD58, 0x36E8BD60, 0x36E8BD39, 0x38258BEE, 0x38258BCC, 0xA092298F);
    PosixCycle(0x38258BCC, 0x00000037, 0x00000059, 0x00000090, 0x000000E9, 0x04030378, 0x00000267, 0x000003DE,
               0x094935CF, 0x0590C113, 0x7A5E02F7, 0xA12E8329, 0x91FE97AE, 0xFF917206, 0xB23882D5, 0x36E8BD60,
               0x6996C75A, 0x07F922F2, 0xAF5DC430, 0xDF16D3A8, 0xDF16D338, 0xE154154E, 0xE1541579, 0x1B55A65B);
    PosixCycle(0xE1541579, 0x00000059, 0x00000090, 0x000000E9, 0x04030378, 0x00000267, 0x000003DE, 0x094935CF,
               0x0590C113, 0x7A5E02F7, 0xA12E8329, 0x91FE97AE, 0xFF917206, 0xB23882D5, 0x36E8BD60, 0xDF16D3A8,
               0x6996C75A, 0x243F3789, 0xE2422C0B, 0x20EA06F8, 0x20EA0611, 0xFC68F174, 0xFC68F12D, 0x340E7156);
    PosixCycle(0xFC68F12D, 0x00000090, 0x000000E9, 0x04030378, 0x00000267, 0x000003DE, 0x094935CF, 0x0590C113,
               0x7A5E02F7, 0xA12E8329, 0x91FE97AE, 0xFF917206, 0xB23882D5, 0x36E8BD60, 0xDF16D3A8, 0x20EA06F8,
               0x6996C75A, 0xED46F8EF, 0x1A61A96D, 0xE2B04B36, 0xE6B3484E, 0x38B0FFA9, 0x38B0FF39, 0xAF76C1E0);
  }

  lemma PosixDiffuses2()
    ensures Four(Words(Posix), [0x38B0FF39, 0x000000E9, 0x04030378, 0x00000267, 0x000003DE, 0x094935CF, 0x0590C113,
                                0x7A5E02F7,
     0xA12E8329, 0x91FE97AE, 0xFF917206, 0xB23882D5, 0x36E8BD60, 0xDF16D3A8, 0x20EA06F8, 0xE2B04B36], 0x6996C75A) ==
      [0x13B87528, 0x094935CF, 0x0590C113, 0x7A5E02F7, 0xA12E8329, 0x91FE97AE, 0xFF917206, 0xB23882D5,
       0x36E8BD60, 0xDF16D3A8, 0x20EA06F8, 0xE2B04B36, 0xE07CB59F, 0x5C4D2EAC, 0x4566AF89, 0x252140DD]
  {
    PosixCycle(0x38B0FF39, 0x000000E9, 0x04030378, 0x00000267, 0x000003DE, 0x094935CF, 0x0590C113, 0x7A5E02F7,
               0xA12E8329, 0x91FE97AE, 0xFF917206, 0xB23882D5, 0x36E8BD60, 0xDF16D3A8, 0x20EA06F8, 0xE2B04B36,
               0x6996C75A, 0x8068A992, 0x911D4BED, 0xE07CB59F, 0xE07CB7F8, 0x904EA85C, 0x904EA8B5, 0xDEA6EC5A);
    PosixCycle(0x904EA8B5, 0x04030378, 0x00000267, 0x000003DE, 0x094935CF, 0x0590C113, 0x7A5E02F7, 0xA12E8329,
               0x91FE97AE, 0xFF917206, 0xB23882D5, 0x36E8BD60, 0xDF16D3A8, 0x20EA06F8, 0xE2B04B36, 0xE07CB59F,
               0x6996C75A, 0x966A120A, 0x7CD07FC7, 0x5C4D2EAC, 0x5C4D2D72, 0xC47BCB35, 0xC078C84D, 0x1B00BFCB);
    PosixCycle(0xC078C84D, 0x00000267, 0x000003DE, 0x094935CF, 0x0590C113, 0x7A5E02F7, 0xA12E8329, 0x91FE97AE,
               0xFF917206, 0xB23882D5, 0x36E8BD60, 0xDF16D3A8, 0x20EA06F8, 0xE2B04B36, 0xE07CB59F, 0x5C4D2EAC,
               0x6996C75A, 0xABCC8A94, 0xC5973F12, 0x4566AF89, 0x4C2F9A46, 0x9DB09B33, 0x9DB09954, 0xCD3852D0);
    PosixCycle(0x9DB09954, 0x000003DE, 0x094935CF, 0x0590C113, 0x7A5E02F7, 0xA12E8329, 0x91FE97AE, 0xFF917206,
               0xB23882D5, 0x36E8BD60, 0xDF16D3A8, 0x20EA06F8, 0xE2B04B36, 0xE07CB59F, 0x5C4D2EAC, 0x4566AF89,
               0x6996C75A, 0x6B5A39F3, 0x1E407274, 0x252140DD, 0x20B181CE, 0x13B876F6, 0x13B87528, 0xC52C7E09);
  }

  lemma PosixDiffuses3()
    ensures Four(Words(Posix), [0x13B87528, 0x094935CF, 0x0590C113, 0x7A5E02F7, 0xA12E8329, 0x91FE97AE, 0xFF917206,
                                0xB23882D5,
     0x36E8BD60, 0xDF16D3A8, 0x20EA06F8, 0xE2B04B36, 0xE07CB59F, 0x5C4D2EAC, 0x4566AF89, 0x252140DD], 0x6996C75A) ==
      [0xA89AFD34, 0x91FE97AE, 0xFF917206, 0xB23882D5, 0x36E8BD60, 0xDF16D3A8, 0x20EA06F8, 0xE2B04B36,
       0xE07CB59F, 0x5C4D2EAC, 0x4566AF89, 0x252140DD, 0x6CA9CB04, 0x866D7FA1, 0xC2A610D1, 0x7CD7A84A]
  {
    PosixCycle(0x13B87528, 0x094935CF, 0x0590C113, 0x7A5E02F7, 0xA12E8329, 0x91FE97AE, 0xFF917206, 0xB23882D5,
               0x36E8BD60, 0xDF16D3A8, 0x20EA06F8, 0xE2B04B36, 0xE07CB59F, 0x5C4D2EAC, 0x4566AF89, 0x252140DD,
               0x6996C75A, 0xD5A75C69, 0x4BD92154, 0x6CA9CB04, 0x16F7C9F3, 0x80B70456, 0x89FE3199, 0x03ECF952);
    PosixCycle(0x89FE3199, 0x0590C113, 0x7A5E02F7, 0xA12E8329, 0x91FE97AE, 0xFF917206, 0xB23882D5, 0x36E8BD60,
               0xDF16D3A8, 0x20EA06F8, 0xE2B04B36, 0xE07CB59F, 0x5C4D2EAC, 0x4566AF89, 0x252140DD, 0x6CA9CB04,
               0x6996C75A, 0x70BD467F, 0x95911C92, 0x866D7FA1, 0x2743FC88, 0xA88AC37F, 0xAD1A026C, 0xCD066A0E);
    PosixCycle(0xAD1A026C, 0x7A5E02F7, 0xA12E8329, 0x91FE97AE, 0xFF917206, 0xB23882D5, 0x36E8BD60, 0xDF16D3A8,
               0x20EA06F8, 0xE2B04B36, 0xE07CB59F, 0x5C4D2EAC, 0x4566AF89, 0x252140DD, 0x6CA9CB04, 0x866D7FA1,
               0x6996C75A, 0x09D1280E, 0x98921408, 0xC2A610D1, 0x5358877F, 0x70259BD9, 0x0A7B992E, 0xB7B49032);
    PosixCycle(0x0A7B992E, 0xA12E8329, 0x91FE97AE, 0xFF917206, 0xB23882D5, 0x36E8BD60, 0xDF16D3A8, 0x20EA06F8,
               0xE2B04B36, 0xE07CB59F, 0x5C4D2EAC, 0x4566AF89, 0x252140DD, 0x6CA9CB04, 0x866D7FA1, 0xC2A610D1,
               0x6996C75A, 0x201E4C83, 0x68209A16, 0x7CD7A84A, 0x8346DA4C, 0x09B47E1D, 0xA89AFD34, 0x85610086);
  }

  lemma PosixDiffused()
    ensures CyclesR(Words(Posix), [0xB6BA67DE, 0x00000005, 0x00000008, 0x0000000D, 0x00000015, 0x00000022,
                                   0x00000037, 0x00000059,
     0x00000090, 0x000000E9, 0x04030378, 0x00000267, 0x000003DE, 0x094935CF, 0x0590C113, 0x7A5E02F7], 0x6996C75A, 16) ==
      [0xA89AFD34, 0x91FE97AE, 0xFF917206, 0xB23882D5, 0x36E8BD60, 0xDF16D3A8, 0x20EA06F8, 0xE2B04B36,
       0xE07CB59F, 0x5C4D2EAC, 0x4566AF89, 0x252140DD, 0x6CA9CB04, 0x866D7FA1, 0xC2A610D1, 0x7CD7A84A]
  {
    PosixDiffuses0();
    PosixDiffuses1();
    PosixDiffuses2();
    PosixDiffuses3();
    Sixteen(Words(Posix), [0xB6BA67DE, 0x00000005, 0x00000008, 0x0000000D, 0x00000015, 0x00000022, 0x00000037,
                           0x00000059,
                  0x00000090, 0x000000E9, 0x04030378, 0x00000267, 0x000003DE, 0x094935CF, 0x0590C113, 0x7A5E02F7],
                  0x6996C75A,
            [0x46D0B01C, 0x00000022, 0x00000037, 0x00000059, 0x00000090, 0x000000E9, 0x04030378, 0x00000267,
             0x000003DE, 0x094935CF, 0x0590C113, 0x7A5E02F7, 0xA12E8329, 0x91FE97AE, 0xFF917206, 0xB23882D5],
            [0x38B0FF39, 0x000000E9, 0x04030378, 0x00000267, 0x000003DE, 0x094935CF, 0x0590C113, 0x7A5E02F7,
             0xA12E8329, 0x91FE97AE, 0xFF917206, 0xB23882D5, 0x36E8BD60, 0xDF16D3A8, 0x20EA06F8, 0xE2B04B36],
            [0x13B87528, 0x094935CF, 0x0590C113, 0x7A5E02F7, 0xA12E8329, 0x91FE97AE, 0xFF917206, 0xB23882D5,
             0x36E8BD60, 0xDF16D3A8, 0x20EA06F8, 0xE2B04B36, 0xE07CB59F, 0x5C4D2EAC, 0x4566AF89, 0x252140DD],
            [0xA89AFD34, 0x91FE97AE, 0xFF917206, 0xB23882D5, 0x36E8BD60, 0xDF16D3A8, 0x20EA06F8, 0xE2B04B36,
             0xE07CB59F, 0x5C4D2EAC, 0x4566AF89, 0x252140DD, 0x6CA9CB04, 0x866D7FA1, 0xC2A610D1, 0x7CD7A84A]);
  }

  /** The key 01 02 03 04 05. */
  lemma PosixKey(st: Cipher<Word>)
    ensures
      var g := SetKey(Words(Posix), st, KEY).reg;
      && g.R ==
        [0x1E209AEA, 0x91FE97AB, 0xFF91720E, 0xB23882D8, 0x36E8BD75, 0xDF16D38A, 0x20EA06CF, 0xE2B04B6F,
         0xE07CB50F, 0x5C4D2E45, 0x4165ACF1, 0x252142BA, 0x6CA9C8DA, 0x8F244A6E, 0xC736D1C2, 0x0689AABD]
      && g.CRC ==
        [0xB6BA67DE, 0x00000005, 0x00000008, 0x0000000D, 0x00000015, 0x00000022, 0x00000037, 0x00000059,
         0x00000090, 0x000000E9, 0x04030378, 0x00000267, 0x000003DE, 0x094935CF, 0x0590C113, 0x7A5E02F7]
      && g.konst == 0x1E209AEA
  {
    FirstWords(Posix);
    PosixLoads();
    PosixDiffused();
    Combines(Posix, 0xA89AFD34, 0x91FE97AE, 0xFF917206, 0xB23882D5, 0x36E8BD60, 0xDF16D3A8, 0x20EA06F8, 0xE2B04B36,
             0xE07CB59F, 0x5C4D2EAC, 0x4566AF89, 0x252140DD, 0x6CA9CB04, 0x866D7FA1, 0xC2A610D1, 0x7CD7A84A,
             0xB6BA67DE, 0x00000005, 0x00000008, 0x0000000D, 0x00000015, 0x00000022, 0x00000037, 0x00000059,
             0x00000090, 0x000000E9, 0x04030378, 0x00000267, 0x000003DE, 0x094935CF, 0x0590C113, 0x7A5E02F7);
    KeyLeads(Posix, st, [0x00000001, 0x00000001, 0x00000002, 0x00000003, 0x00000005, 0x00000008, 0x0000000D, 0x00000015,
              0x00000022, 0x00000037, 0x00000059, 0x00000090, 0x000000E9, 0x00000179, 0x00000262, 0x000003DB],
             [0xB6BA67DE, 0x00000005, 0x00000008, 0x0000000D, 0x00000015, 0x00000022, 0x00000037, 0x00000059,
              0x00000090, 0x000000E9, 0x04030378, 0x00000267, 0x000003DE, 0x094935CF, 0x0590C113, 0x7A5E02F7],
             [0xA89AFD34, 0x91FE97AE, 0xFF917206, 0xB23882D5, 0x36E8BD60, 0xDF16D3A8, 0x20EA06F8, 0xE2B04B36,
              0xE07CB59F, 0x5C4D2EAC, 0x4566AF89, 0x252140DD, 0x6CA9CB04, 0x866D7FA1, 0xC2A610D1, 0x7CD7A84A],
             [0x1E209AEA, 0x91FE97AB, 0xFF91720E, 0xB23882D8, 0x36E8BD75, 0xDF16D38A, 0x20EA06CF, 0xE2B04B6F,
              0xE07CB50F, 0x5C4D2E45, 0x4165ACF1, 0x252142BA, 0x6CA9C8DA, 0x8F244A6E, 0xC736D1C2, 0x0689AABD]);
  }

  lemma PosixCrypts(g: Register<Word>)
    requires g.R ==
        [0x1E209AEA, 0x91FE97AB, 0xFF91720E, 0xB23882D8, 0x36E8BD75, 0xDF16D38A, 0x20EA06CF, 0xE2B04B6F,
         0xE07CB50F, 0x5C4D2E45, 0x4165ACF1, 0x252142BA, 0x6CA9C8DA, 0x8F244A6E, 0xC736D1C2, 0x0689AABD]
    requires g.konst == 0x1E209AEA
    ensures
      var h := Cycle(Words(Posix), g);
      var k := Cycle(Words(Posix), Mac(Words(Posix), h, 0x281E140A));
      && h.sbuf == 0x60A27DF7 && k.sbuf == 0x2616AD42
      && k.R ==
        [0x77CAB675, 0xB23882D8, 0x36E8BD75, 0xDF16D38A, 0x20EA06CF, 0xE2B04B6F, 0xE07CB50F, 0x5C4D2E45,
         0x4165ACF1, 0x252142BA, 0x6CA9C8DA, 0x8F244A6E, 0xEF28C5C8, 0x0689AABD, 0x778B8F05, 0x10B37C77]
  {
    PosixCycle(0x1E209AEA, 0x91FE97AB, 0xFF91720E, 0xB23882D8, 0x36E8BD75, 0xDF16D38A, 0x20EA06CF, 0xE2B04B6F,
               0xE07CB50F, 0x5C4D2E45, 0x4165ACF1, 0x252142BA, 0x6CA9C8DA, 0x8F244A6E, 0xC736D1C2, 0x0689AABD,
               0x1E209AEA, 0xFDAD185E, 0x4BCABAD1, 0x778B8F05, 0xC5B30DDD, 0xB3CB19DC, 0x22358E77, 0x60A27DF7);
    Accumulates(Posix, 0x22358E77, 0xFF91720E, 0xB23882D8, 0x36E8BD75, 0xDF16D38A, 0x20EA06CF, 0xE2B04B6F, 0xE07CB50F,
                       0x5C4D2E45, 0x4165ACF1, 0x252142BA, 0x6CA9C8DA, 0x8F244A6E, 0xC736D1C2, 0x0689AABD,
                       0x778B8F05, 0x281E140A);
    PosixCycle(0x22358E77, 0xFF91720E, 0xB23882D8, 0x36E8BD75, 0xDF16D38A, 0x20EA06CF, 0xE2B04B6F, 0xE07CB50F,
               0x5C4D2E45, 0x4165ACF1, 0x252142BA, 0x6CA9C8DA, 0x8F244A6E, 0xEF28C5C8, 0x0689AABD, 0x778B8F05,
               0x1E209AEA, 0x7E2C154C, 0x54D86099, 0x10B37C77, 0x265BC102, 0x885BC47B, 0x77CAB675, 0x2616AD42);
  }

  lemma PosixStirs0(sbuf: Word)
    ensures
      Loaded(Stirring(Words(Posix), 0x6996C75A), ([0x77CAB675, 0xB23882D8, 0x36E8BD75, 0xDF16D38A, 0x20EA06CF,
                                                   0xE2B04B6F, 0xE07CB50F, 0x5C4D2E45,
                                                   0x4165ACF1, 0x252142BA, 0x6CA9C8DA, 0x8F244A6E, 0xEF28C5C8,
                                                   0x0689AA8F, 0x778B8F05, 0x10B37C77], sbuf),
             [0x00000008, 0x0000000D, 0x00000015, 0x00000022]) ==
      ([0x56F93DA8, 0xE2B04B6F, 0xE07CB50F, 0x5C4D2E45, 0x4165ACF1, 0x252142BA, 0x6CA9C8DA, 0x8F244A6E,
        0xEF28C5C8, 0x0689AA87, 0x778B8F08, 0x10B37C62, 0x374FC0FA, 0x84593F3B, 0xFFA9E6EB, 0x590E4F2A], 0xAE743E55)
  {
    PosixStir(0x77CAB675, 0xB23882D8, 0x36E8BD75, 0xDF16D38A, 0x20EA06CF, 0xE2B04B6F, 0xE07CB50F, 0x5C4D2E45,
              0x4165ACF1, 0x252142BA, 0x6CA9C8DA, 0x8F244A6E, 0xEF28C5C8, 0x0689AA8F, 0x778B8F05, 0x10B37C77,
              sbuf, 0x00000008, 0x8037A815, 0xD8DAAC32, 0x374FC0D8, 0xE8591352, 0x81DF84F7, 0x33E7062F, 0xA2776CCA);
    PosixStir(0x33E7062F, 0x36E8BD75, 0xDF16D38A, 0x20EA06CF, 0xE2B04B6F, 0xE07CB50F, 0x5C4D2E45, 0x4165ACF1,
              0x252142BA, 0x6CA9C8DA, 0x8F244A6E, 0xEF28C5C8, 0x0689AA87, 0x778B8F05, 0x10B37C77, 0x374FC0D8,
              0xA2776CCA, 0x0000000D, 0x1894E2D5, 0xE3973365, 0x84593F3B, 0xA4B339F4, 0xD9C4F465, 0xEF2C4910,
              0xC2E6B3B7);
    PosixStir(0xEF2C4910, 0xDF16D38A, 0x20EA06CF, 0xE2B04B6F, 0xE07CB50F, 0x5C4D2E45, 0x4165ACF1, 0x252142BA,
              0x6CA9C8DA, 0x8F244A6E, 0xEF28C5C8, 0x0689AA87, 0x778B8F08, 0x10B37C77, 0x374FC0D8, 0x84593F3B,
              0xC2E6B3B7, 0x00000015, 0x0EAE3430, 0x21F174CA, 0xFFA9E6EB, 0x1D19AD84, 0x3FDD71AF, 0xE0CBA225,
              0xA04A47A3);
    PosixStir(0xE0CBA225, 0x20EA06CF, 0xE2B04B6F, 0xE07CB50F, 0x5C4D2E45, 0x4165ACF1, 0x252142BA, 0x6CA9C8DA,
              0x8F244A6E, 0xEF28C5C8, 0x0689AA87, 0x778B8F08, 0x10B37C62, 0x374FC0D8, 0x84593F3B, 0xFFA9E6EB,
              0xA04A47A3, 0x00000022, 0x4E6A7BC2, 0x98990B61, 0x590E4F2A, 0xB972FA25, 0x76133B67, 0x56F93DA8,
              0xAE743E55);
    LoadedFour(Stirring(Words(Posix), 0x6996C75A), ([0x77CAB675, 0xB23882D8, 0x36E8BD75, 0xDF16D38A, 0x20EA06CF,
                                                     0xE2B04B6F, 0xE07CB50F, 0x5C4D2E45,
                                                     0x4165ACF1, 0x252142BA, 0x6CA9C8DA, 0x8F244A6E, 0xEF28C5C8,
                                                     0x0689AA8F, 0x778B8F05, 0x10B37C77], sbuf),
               0x00000008, 0x0000000D, 0x00000015, 0x00000022);
  }

  lemma PosixStirs1()
    ensures
      Loaded(Stirring(Words(Posix), 0x6996C75A), ([0x56F93DA8, 0xE2B04B6F, 0xE07CB50F, 0x5C4D2E45, 0x4165ACF1,
                                                   0x252142BA, 0x6CA9C8DA, 0x8F244A6E,
                                                   0xEF28C5C8, 0x0689AA87, 0x778B8F08, 0x10B37C62, 0x374FC0FA,
                                                   0x84593F3B, 0xFFA9E6EB, 0x590E4F2A], 0xAE743E55),
             [0x00000037, 0x00000059, 0x00000090, 0x000000E9]) ==
      ([0x7047A787, 0x252142BA, 0x6CA9C8DA, 0x8F244A6E, 0xEF28C5C8, 0x0689AA87, 0x778B8F08, 0x10B37C62,
        0x374FC0FA, 0x84593F0C, 0xFFA9E6B2, 0x590E4FBA, 0x893974EC, 0xE12DA50E, 0xEDC6E190, 0xEEFDD9B9], 0x8F54BF60)
  {
    PosixStir(0x56F93DA8, 0xE2B04B6F, 0xE07CB50F, 0x5C4D2E45, 0x4165ACF1, 0x252142BA, 0x6CA9C8DA, 0x8F244A6E,
              0xEF28C5C8, 0x0689AA87, 0x778B8F08, 0x10B37C62, 0x374FC0FA, 0x84593F3B, 0xFFA9E6EB, 0x590E4F2A,
              0xAE743E55, 0x00000037, 0xDA8038AC, 0x24CB0F55, 0x89397405, 0xD5745A40, 0x83E1C484, 0x61518FEB,
              0x0131510F);
    PosixStir(0x61518FEB, 0xE07CB50F, 0x5C4D2E45, 0x4165ACF1, 0x252142BA, 0x6CA9C8DA, 0x8F244A6E, 0xEF28C5C8,
              0x0689AA87, 0x778B8F08, 0x10B37C62, 0x374FC0FA, 0x84593F0C, 0xFFA9E6EB, 0x590E4F2A, 0x89397405,
              0x0131510F, 0x00000059, 0x12661EE4, 0x238EBAD8, 0xE12DA50E, 0xA04809FF, 0xBD58D999, 0x5D246C96,
              0x357AB023);
    PosixStir(0x5D246C96, 0x5C4D2E45, 0x4165ACF1, 0x252142BA, 0x6CA9C8DA, 0x8F244A6E, 0xEF28C5C8, 0x0689AA87,
              0x778B8F08, 0x10B37C62, 0x374FC0FA, 0x84593F0C, 0xFFA9E6B2, 0x590E4F2A, 0x89397405, 0xE12DA50E,
              0x357AB023, 0x00000090, 0xCF316E52, 0x578E38BC, 0xEDC6E190, 0xC8E7A32A, 0x74262DC2, 0x286B0387,
              0x3D9B1E1A);
    PosixStir(0x286B0387, 0x4165ACF1, 0x252142BA, 0x6CA9C8DA, 0x8F244A6E, 0xEF28C5C8, 0x0689AA87, 0x778B8F08,
              0x10B37C62, 0x374FC0FA, 0x84593F0C, 0xFFA9E6B2, 0x590E4FBA, 0x89397405, 0xE12DA50E, 0xEDC6E190,
              0x3D9B1E1A, 0x000000E9, 0xB9A1FC0C, 0xBE2BDEB7, 0xEEFDD9B9, 0x82541163, 0x31220B76, 0x7047A787,
              0x8F54BF60);
    LoadedFour(Stirring(Words(Posix), 0x6996C75A), ([0x56F93DA8, 0xE2B04B6F, 0xE07CB50F, 0x5C4D2E45, 0x4165ACF1,
                                                     0x252142BA, 0x6CA9C8DA, 0x8F244A6E,
                                                     0xEF28C5C8, 0x0689AA87, 0x778B8F08, 0x10B37C62, 0x374FC0FA,
                                                     0x84593F3B, 0xFFA9E6EB, 0x590E4F2A], 0xAE743E55),
               0x00000037, 0x00000059, 0x00000090, 0x000000E9);
  }

  lemma PosixStirs2()
    ensures
      Loaded(Stirring(Words(Posix), 0x6996C75A), ([0x7047A787, 0x252142BA, 0x6CA9C8DA, 0x8F244A6E, 0xEF28C5C8,
                                                   0x0689AA87, 0x778B8F08, 0x10B37C62,
                                                   0x374FC0FA, 0x84593F0C, 0xFFA9E6B2, 0x590E4FBA, 0x893974EC,
                                                   0xE12DA50E, 0xEDC6E190, 0xEEFDD9B9], 0x8F54BF60),
             [0x04030378, 0x00000267, 0x000003DE, 0x094935CF]) ==
      ([0xCC08AEEC, 0x0689AA87, 0x778B8F08, 0x10B37C62, 0x374FC0FA, 0x84593F0C, 0xFFA9E6B2, 0x590E4FBA,
        0x893974EC, 0xE52EA676, 0xEDC6E3F7, 0xEEFDDA67, 0x42EE7B4E, 0x0873B17F, 0xA7E5866A, 0xCB486780], 0xE8F76486)
  {
    PosixStir(0x7047A787, 0x252142BA, 0x6CA9C8DA, 0x8F244A6E, 0xEF28C5C8, 0x0689AA87, 0x778B8F08, 0x10B37C62,
              0x374FC0FA, 0x84593F0C, 0xFFA9E6B2, 0x590E4FBA, 0x893974EC, 0xE12DA50E, 0xEDC6E190, 0xEEFDD9B9,
              0x8F54BF60, 0x04030378, 0x058115C0, 0xAB28018F, 0x4BA74E81, 0xC48304EF, 0x09EEEA2C, 0x2CCFA896,
              0x68997356);
    PosixStir(0x2CCFA896, 0x6CA9C8DA, 0x8F244A6E, 0xEF28C5C8, 0x0689AA87, 0x778B8F08, 0x10B37C62, 0x374FC0FA,
              0x84593F0C, 0xFFA9E6B2, 0x590E4FBA, 0x893974EC, 0xE52EA676, 0xEDC6E190, 0xEEFDD9B9, 0x4BA74E81,
              0x68997356, 0x00000267, 0x617E82DB, 0x51ECE053, 0x0873B17F, 0xE75B74B7, 0x29C955BE, 0x45609D64,
              0x3BA650FB);
    PosixStir(0x45609D64, 0x8F244A6E, 0xEF28C5C8, 0x0689AA87, 0x778B8F08, 0x10B37C62, 0x374FC0FA, 0x84593F0C,
              0xFFA9E6B2, 0x590E4FBA, 0x893974EC, 0xE52EA676, 0xEDC6E3F7, 0xEEFDD9B9, 0x4BA74E81, 0x0873B17F,
              0x3BA650FB, 0x000003DE, 0x6AADFECA, 0x2D24BCA2, 0xA7E5866A, 0xA16C2CED, 0x66FA97E3, 0xE9DEDD8D,
              0xD109023E);
    PosixStir(0xE9DEDD8D, 0xEF28C5C8, 0x0689AA87, 0x778B8F08, 0x10B37C62, 0x374FC0FA, 0x84593F0C, 0xFFA9E6B2,
              0x590E4FBA, 0x893974EC, 0xE52EA676, 0xEDC6E3F7, 0xEEFDDA67, 0x4BA74E81, 0x0873B17F, 0xA7E5866A,
              0xD109023E, 0x094935CF, 0xC5856673, 0x18F5DC9B, 0xCB486780, 0xBCC3E888, 0x23206B24, 0xCC08AEEC,
              0xE8F76486);
    LoadedFour(Stirring(Words(Posix), 0x6996C75A), ([0x7047A787, 0x252142BA, 0x6CA9C8DA, 0x8F244A6E, 0xEF28C5C8,
                                                     0x0689AA87, 0x778B8F08, 0x10B37C62,
                                                     0x374FC0FA, 0x84593F0C, 0xFFA9E6B2, 0x590E4FBA, 0x893974EC,
                                                     0xE12DA50E, 0xEDC6E190, 0xEEFDD9B9], 0x8F54BF60),
               0x04030378, 0x00000267, 0x000003DE, 0x094935CF);
  }

  lemma PosixStirs3()
    ensures
      Loaded(Stirring(Words(Posix), 0x6996C75A), ([0xCC08AEEC, 0x0689AA87, 0x778B8F08, 0x10B37C62, 0x374FC0FA,
                                                   0x84593F0C, 0xFFA9E6B2, 0x590E4FBA,
                                                   0x893974EC, 0xE52EA676, 0xEDC6E3F7, 0xEEFDDA67, 0x42EE7B4E,
                                                   0x0873B17F, 0xA7E5866A, 0xCB486780], 0xE8F76486),
             [0x0590C113, 0x7A5E02F7, 0xE4FA712B, 0xE4FA7111]) ==
      ([0xBE2628F2, 0x84593F0C, 0xFFA9E6B2, 0x590E4FBA, 0x893974EC, 0xE52EA676, 0xEDC6E3F7, 0xEEFDDA67,
        0x42EE7B4E, 0x0DE3706C, 0xDDBB849D, 0x2FB216AB, 0xB927C18A, 0x01214495, 0xD01A4602, 0xCE4138B5], 0x72A052CC)
  {
    PosixStir(0xCC08AEEC, 0x0689AA87, 0x778B8F08, 0x10B37C62, 0x374FC0FA, 0x84593F0C, 0xFFA9E6B2, 0x590E4FBA,
              0x893974EC, 0xE52EA676, 0xEDC6E3F7, 0xEEFDDA67, 0x42EE7B4E, 0x0873B17F, 0xA7E5866A, 0xCB486780,
              0xE8F76486, 0x0590C113, 0x269BCC78, 0xC5CCED42, 0x5DDDB09B, 0x4D6ECCF9, 0x0E481FB3, 0x08C1B534,
              0xE685C9A9);
    PosixStir(0x08C1B534, 0x778B8F08, 0x10B37C62, 0x374FC0FA, 0x84593F0C, 0xFFA9E6B2, 0x590E4FBA, 0x893974EC,
              0xE52EA676, 0xEDC6E3F7, 0xEEFDDA67, 0x42EE7B4E, 0x0DE3706C, 0xA7E5866A, 0xCB486780, 0x5DDDB09B,
              0xE685C9A9, 0x7A5E02F7, 0xB9CE33AB, 0x10A22EFD, 0x01214495, 0x366E846F, 0xF44816C7, 0x83C399CF,
              0xC43571AD);
    PosixStir(0x83C399CF, 0x10B37C62, 0x374FC0FA, 0x84593F0C, 0xFFA9E6B2, 0x590E4FBA, 0x893974EC, 0xE52EA676,
              0xEDC6E3F7, 0xEEFDDA67, 0x42EE7B4E, 0x0DE3706C, 0xDDBB849D, 0xCB486780, 0x5DDDB09B, 0x01214495,
              0xC43571AD, 0xE4FA712B, 0x9B9F556C, 0xD79D759D, 0xD01A4602, 0x5443790E, 0x76776D2B, 0x66C41149,
              0xB738A1E7);
    PosixStir(0x66C41149, 0x374FC0FA, 0x84593F0C, 0xFFA9E6B2, 0x590E4FBA, 0x893974EC, 0xE52EA676, 0xEDC6E3F7,
              0xEEFDDA67, 0x42EE7B4E, 0x0DE3706C, 0xDDBB849D, 0x2FB216AB, 0x5DDDB09B, 0x01214495, 0xD01A4602,
              0xB738A1E7, 0xE4FA7111, 0xFF03107B, 0x03C91A27, 0xCE4138B5, 0x31E8DE07, 0x8969E808, 0xBE2628F2,
              0x72A052CC);
    LoadedFour(Stirring(Words(Posix), 0x6996C75A), ([0xCC08AEEC, 0x0689AA87, 0x778B8F08, 0x10B37C62, 0x374FC0FA,
                                                     0x84593F0C, 0xFFA9E6B2, 0x590E4FBA,
                                                     0x893974EC, 0xE52EA676, 0xEDC6E3F7, 0xEEFDDA67, 0x42EE7B4E,
                                                     0x0873B17F, 0xA7E5866A, 0xCB486780], 0xE8F76486),
               0x0590C113, 0x7A5E02F7, 0xE4FA712B, 0xE4FA7111);
  }

  /** Those five bytes, from there on. */
  lemma PosixOutput(a: Cipher<Word>)
    requires a.nbuf == 0 && a.reg.konst == 0x1E209AEA
    requires a.reg.R ==
        [0x1E209AEA, 0x91FE97AB, 0xFF91720E, 0xB23882D8, 0x36E8BD75, 0xDF16D38A, 0x20EA06CF, 0xE2B04B6F,
         0xE07CB50F, 0x5C4D2E45, 0x4165ACF1, 0x252142BA, 0x6CA9C8DA, 0x8F244A6E, 0xC736D1C2, 0x0689AABD]
    requires a.reg.CRC ==
        [0xB6BA67DE, 0x00000005, 0x00000008, 0x0000000D, 0x00000015, 0x00000022, 0x00000037, 0x00000059,
         0x00000090, 0x000000E9, 0x04030378, 0x00000267, 0x000003DE, 0x094935CF, 0x0590C113, 0x7A5E02F7]
    ensures
      var e := Call(CoreOf(Words(Posix)), Encrypt, a, DATA);
      && e.1 == [0xFD, 0x69, 0xBC, 0x48, 0x70] && e.0.mbuf == 50 && e.0.nbuf == 24
      && e.0.reg.R ==
        [0x77CAB675, 0xB23882D8, 0x36E8BD75, 0xDF16D38A, 0x20EA06CF, 0xE2B04B6F, 0xE07CB50F, 0x5C4D2E45,
         0x4165ACF1, 0x252142BA, 0x6CA9C8DA, 0x8F244A6E, 0xEF28C5C8, 0x0689AABD, 0x778B8F05, 0x10B37C77]
      && e.0.reg.CRC ==
        [0x00000005, 0x00000008, 0x0000000D, 0x00000015, 0x00000022, 0x00000037, 0x00000059, 0x00000090,
         0x000000E9, 0x04030378, 0x00000267, 0x000003DE, 0x094935CF, 0x0590C113, 0x7A5E02F7, 0xE4FA712B]
  {
    PosixCrypts(a.reg);
    CrcShifts(Posix, 0xB6BA67DE, 0x00000005, 0x00000008, 0x0000000D, 0x00000015, 0x00000022, 0x00000037, 0x00000059,
                    0x00000090, 0x000000E9, 0x04030378, 0x00000267, 0x000003DE, 0x094935CF, 0x0590C113, 0x7A5E02F7,
                    0x281E140A);
    OutputFive(Posix, a, 0x60A27DF7, 0x2616AD42,
             [0x77CAB675, 0xB23882D8, 0x36E8BD75, 0xDF16D38A, 0x20EA06CF, 0xE2B04B6F, 0xE07CB50F, 0x5C4D2E45,
              0x4165ACF1, 0x252142BA, 0x6CA9C8DA, 0x8F244A6E, 0xEF28C5C8, 0x0689AABD, 0x778B8F05, 0x10B37C77],
             [0x00000005, 0x00000008, 0x0000000D, 0x00000015, 0x00000022, 0x00000037, 0x00000059, 0x00000090,
              0x000000E9, 0x04030378, 0x00000267, 0x000003DE, 0x094935CF, 0x0590C113, 0x7A5E02F7, 0xE4FA712B],
             0x48BC69FD, 0xFD, 0x69, 0xBC, 0x48, 0x70);
  }

  lemma PosixStirred(sbuf: Word)
    ensures
      Loaded(Stirring(Words(Posix), 0x6996C75A), ([0x77CAB675, 0xB23882D8, 0x36E8BD75, 0xDF16D38A, 0x20EA06CF,
                                                   0xE2B04B6F, 0xE07CB50F, 0x5C4D2E45,
                                                   0x4165ACF1, 0x252142BA, 0x6CA9C8DA, 0x8F244A6E, 0xEF28C5C8,
                                                   0x0689AA8F, 0x778B8F05, 0x10B37C77], sbuf),
             [0x00000008, 0x0000000D, 0x00000015, 0x00000022, 0x00000037, 0x00000059, 0x00000090, 0x000000E9,
              0x04030378, 0x00000267, 0x000003DE, 0x094935CF, 0x0590C113, 0x7A5E02F7, 0xE4FA712B, 0xE4FA7111]) ==
      ([0xBE2628F2, 0x84593F0C, 0xFFA9E6B2, 0x590E4FBA, 0x893974EC, 0xE52EA676, 0xEDC6E3F7, 0xEEFDDA67,
        0x42EE7B4E, 0x0DE3706C, 0xDDBB849D, 0x2FB216AB, 0xB927C18A, 0x01214495, 0xD01A4602, 0xCE4138B5], 0x72A052CC)
  {
    PosixStirs0(sbuf);
    PosixStirs1();
    PosixStirs2();
    PosixStirs3();
    LoadedSixteen(Stirring(Words(Posix), 0x6996C75A), ([0x77CAB675, 0xB23882D8, 0x36E8BD75, 0xDF16D38A, 0x20EA06CF,
                                                        0xE2B04B6F, 0xE07CB50F, 0x5C4D2E45,
                                                        0x4165ACF1, 0x252142BA, 0x6CA9C8DA, 0x8F244A6E, 0xEF28C5C8,
                                                        0x0689AA8F, 0x778B8F05, 0x10B37C77], sbuf),
                  0x00000008, 0x0000000D, 0x00000015, 0x00000022, 0x00000037, 0x00000059, 0x00000090, 0x000000E9,
                  0x04030378, 0x00000267, 0x000003DE, 0x094935CF, 0x0590C113, 0x7A5E02F7, 0xE4FA712B, 0xE4FA7111,
                  ([0x56F93DA8, 0xE2B04B6F, 0xE07CB50F, 0x5C4D2E45, 0x4165ACF1, 0x252142BA, 0x6CA9C8DA, 0x8F244A6E,
                    0xEF28C5C8, 0x0689AA87, 0x778B8F08, 0x10B37C62, 0x374FC0FA, 0x84593F3B, 0xFFA9E6EB, 0x590E4F2A],
                    0xAE743E55),
                  ([0x7047A787, 0x252142BA, 0x6CA9C8DA, 0x8F244A6E, 0xEF28C5C8, 0x0689AA87, 0x778B8F08, 0x10B37C62,
                    0x374FC0FA, 0x84593F0C, 0xFFA9E6B2, 0x590E4FBA, 0x893974EC, 0xE12DA50E, 0xEDC6E190, 0xEEFDD9B9],
                    0x8F54BF60),
                  ([0xCC08AEEC, 0x0689AA87, 0x778B8F08, 0x10B37C62, 0x374FC0FA, 0x84593F0C, 0xFFA9E6B2, 0x590E4FBA,
                    0x893974EC, 0xE52EA676, 0xEDC6E3F7, 0xEEFDDA67, 0x42EE7B4E, 0x0873B17F, 0xA7E5866A, 0xCB486780],
                    0xE8F76486),
                  ([0xBE2628F2, 0x84593F0C, 0xFFA9E6B2, 0x590E4FBA, 0x893974EC, 0xE52EA676, 0xEDC6E3F7, 0xEEFDDA67,
                    0x42EE7B4E, 0x0DE3706C, 0xDDBB849D, 0x2FB216AB, 0xB927C18A, 0x01214495, 0xD01A4602, 0xCE4138B5],
                    0x72A052CC));
  }

  lemma PosixMac(e: Cipher<Word>)
    requires e.mbuf == 50 && e.nbuf == 24
    requires e.reg.R ==
        [0x77CAB675, 0xB23882D8, 0x36E8BD75, 0xDF16D38A, 0x20EA06CF, 0xE2B04B6F, 0xE07CB50F, 0x5C4D2E45,
         0x4165ACF1, 0x252142BA, 0x6CA9C8DA, 0x8F244A6E, 0xEF28C5C8, 0x0689AABD, 0x778B8F05, 0x10B37C77]
    requires e.reg.CRC ==
        [0x00000005, 0x00000008, 0x0000000D, 0x00000015, 0x00000022, 0x00000037, 0x00000059, 0x00000090,
         0x000000E9, 0x04030378, 0x00000267, 0x000003DE, 0x094935CF, 0x0590C113, 0x7A5E02F7, 0xE4FA712B]
    ensures
      XorAt(Words(Posix), e.reg.R, KEYP, e.mbuf) ==
      [0x77CAB675, 0xB23882D8, 0x36E8BD75, 0xDF16D38A, 0x20EA06CF, 0xE2B04B6F, 0xE07CB50F, 0x5C4D2E45,
       0x4165ACF1, 0x252142BA, 0x6CA9C8DA, 0x8F244A6E, 0xEF28C5C8, 0x0689AA8F, 0x778B8F05, 0x10B37C77]
    ensures
      Shifted(e.reg.CRC, CrcWord(Words(Posix), e.reg.CRC, e.mbuf)) ==
      [0x00000008, 0x0000000D, 0x00000015, 0x00000022, 0x00000037, 0x00000059, 0x00000090, 0x000000E9,
       0x04030378, 0x00000267, 0x000003DE, 0x094935CF, 0x0590C113, 0x7A5E02F7, 0xE4FA712B, 0xE4FA7111]
  {
    Accumulates(Posix, 0x77CAB675, 0xB23882D8, 0x36E8BD75, 0xDF16D38A, 0x20EA06CF, 0xE2B04B6F, 0xE07CB50F, 0x5C4D2E45,
                       0x4165ACF1, 0x252142BA, 0x6CA9C8DA, 0x8F244A6E, 0xEF28C5C8, 0x0689AABD, 0x778B8F05,
                       0x10B37C77, 50);
    CrcShifts(Posix, 0x00000005, 0x00000008, 0x0000000D, 0x00000015, 0x00000022, 0x00000037, 0x00000059, 0x00000090,
                     0x000000E9, 0x04030378, 0x00000267, 0x000003DE, 0x094935CF, 0x0590C113, 0x7A5E02F7, 0xE4FA712B,
                     50);
  }

  lemma PosixFinishes(e: Cipher<Word>)
    requires e.mbuf == 50 && e.nbuf == 24
    requires e.reg.R ==
        [0x77CAB675, 0xB23882D8, 0x36E8BD75, 0xDF16D38A, 0x20EA06CF, 0xE2B04B6F, 0xE07CB50F, 0x5C4D2E45,
         0x4165ACF1, 0x252142BA, 0x6CA9C8DA, 0x8F244A6E, 0xEF28C5C8, 0x0689AABD, 0x778B8F05, 0x10B37C77]
    requires e.reg.CRC ==
        [0x00000005, 0x00000008, 0x0000000D, 0x00000015, 0x00000022, 0x00000037, 0x00000059, 0x00000090,
         0x000000E9, 0x04030378, 0x00000267, 0x000003DE, 0x094935CF, 0x0590C113, 0x7A5E02F7, 0xE4FA712B]
    ensures Finish(Words(Posix), e).1 == Unpack(CoreOf(Words(Posix)), 0x72A052CC)
  {
    PosixMac(e);
    PosixStirred(e.reg.sbuf);
    FinishKey(Words(Posix), e, [0x77CAB675, 0xB23882D8, 0x36E8BD75, 0xDF16D38A, 0x20EA06CF, 0xE2B04B6F, 0xE07CB50F,
                                0x5C4D2E45,
               0x4165ACF1, 0x252142BA, 0x6CA9C8DA, 0x8F244A6E, 0xEF28C5C8, 0x0689AA8F, 0x778B8F05, 0x10B37C77],
              [0x00000008, 0x0000000D, 0x00000015, 0x00000022, 0x00000037, 0x00000059, 0x00000090, 0x000000E9,
               0x04030378, 0x00000267, 0x000003DE, 0x094935CF, 0x0590C113, 0x7A5E02F7, 0xE4FA712B, 0xE4FA7111],
              ([0xBE2628F2, 0x84593F0C, 0xFFA9E6B2, 0x590E4FBA, 0x893974EC, 0xE52EA676, 0xEDC6E3F7, 0xEEFDDA67,
                0x42EE7B4E, 0x0DE3706C, 0xDDBB849D, 0x2FB216AB, 0xB927C18A, 0x01214495, 0xD01A4602, 0xCE4138B5],
                0x72A052CC));
  }

  lemma PosixBytes()
    ensures Unpack(CoreOf(Words(Posix)), 0x72A052CC) == [0xCC, 0x52, 0xA0, 0x72]
  {
    BytesAre(Posix, 0x72A052CC, [0xCC, 0x52, 0xA0, 0x72]);
  }

  /** The key 01 02 03 04 05, the data 0A 14 1E 28 32: output and MAC. */
  lemma PosixAnswer(st: Cipher<Word>)
    ensures
      var o := Words(Posix);
      var e := Call(CoreOf(o), Encrypt, SetKey(o, st, KEY), DATA);
      e.1 == [0xFD, 0x69, 0xBC, 0x48, 0x70] && Finish(o, e.0).1 == [0xCC, 0x52, 0xA0, 0x72]
  {
    var o := Words(Posix);
    var a := SetKey(o, st, KEY);
    PosixKey(st);
    PosixOutput(a);
    PosixFinishes(Call(CoreOf(o), Encrypt, a, DATA).0);
    PosixBytes();
  }

  // ---------- ESP32 ----------

  lemma Esp32Loads()
    ensures Loaded(Adding(Esp32, 0x6996C53A), [0x00000001, 0x00000001, 0x00000002, 0x00000003, 0x00000005,
                                               0x00000008, 0x0000000D, 0x00000015,
         0x00000022, 0x00000037, 0x00000059, 0x00000090, 0x000000E9, 0x00000179, 0x00000262, 0x000003DB],
                   [0x04030201, 0x00000005, 0x00000005]) ==
      [0x37E4DA01, 0x00000005, 0x00000008, 0x0000000D, 0x00000015, 0x00000022, 0x00000037, 0x00000059,
       0x00000090, 0x000000E9, 0x04030378, 0x00000267, 0x000003DE, 0x48CBE8A2, 0x84174A01, 0x8F0FEA14]
  {
    Esp32Adds(0x00000001, 0x00000001, 0x00000002, 0x00000003, 0x00000005, 0x00000008, 0x0000000D, 0x00000015,
              0x00000022, 0x00000037, 0x00000059, 0x00000090, 0x000000E9, 0x00000179, 0x00000262, 0x000003DB,
              0x04030201);
    Esp32Cycle(0x00000001, 0x00000001, 0x00000002, 0x00000003, 0x00000005, 0x00000008, 0x0000000D, 0x00000015,
               0x00000022, 0x00000037, 0x00000059, 0x00000090, 0x000000E9, 0x04030378, 0x00000262, 0x000003DB,
               0x6996C53A, 0x6D95C6AB, 0x976E1354, 0x48CBE8A0, 0x48CBE8A2, 0x48CBE8A1, 0x253D9A5F, 0xD2C6F1B3,
               0xD2C6F1B2, 0xD6C5F2FC);
    Esp32Adds(0xD2C6F1B2, 0x00000002, 0x00000003, 0x00000005, 0x00000008, 0x0000000D, 0x00000015, 0x00000022,
              0x00000037, 0x00000059, 0x00000090, 0x000000E9, 0x04030378, 0x00000262, 0x000003DB, 0x48CBE8A2,
              0x00000005);
    Esp32Cycle(0xD2C6F1B2, 0x00000002, 0x00000003, 0x00000005, 0x00000008, 0x0000000D, 0x00000015, 0x00000022,
               0x00000037, 0x00000059, 0x00000090, 0x000000E9, 0x04030378, 0x00000267, 0x000003DB, 0x48CBE8A2,
               0x6996C53A, 0x6D95C425, 0x976F529A, 0x219AA964, 0x84174A01, 0x84174A04, 0x0FB24DD6, 0xF14BB205,
               0xF14BB207, 0xF14BB03B);
    Esp32Adds(0xF14BB207, 0x00000003, 0x00000005, 0x00000008, 0x0000000D, 0x00000015, 0x00000022, 0x00000037,
              0x00000059, 0x00000090, 0x000000E9, 0x04030378, 0x00000267, 0x000003DB, 0x48CBE8A2, 0x84174A01,
              0x00000005);
    Esp32Cycle(0xF14BB207, 0x00000003, 0x00000005, 0x00000008, 0x0000000D, 0x00000015, 0x00000022, 0x00000037,
               0x00000059, 0x00000090, 0x000000E9, 0x04030378, 0x00000267, 0x000003DE, 0x48CBE8A2, 0x84174A01,
               0x6996C53A, 0x6996C483, 0x926C157E, 0x6D988E1B, 0x8F0FEA14, 0x8F0FEA1C, 0x08F825E3, 0x37E4DA02,
               0x37E4DA01, 0x37E4D94C);
    LoadedThree(Adding(Esp32, 0x6996C53A), [0x00000001, 0x00000001, 0x00000002, 0x00000003, 0x00000005, 0x00000008,
                                            0x0000000D, 0x00000015,
                 0x00000022, 0x00000037, 0x00000059, 0x00000090, 0x000000E9, 0x00000179, 0x00000262, 0x000003DB],
                0x04030201, 0x00000005, 0x00000005);
  }

  lemma Esp32Diffuses0()
    ensures Four(Words(Esp32), [0x37E4DA01, 0x00000005, 0x00000008, 0x0000000D, 0x00000015, 0x00000022, 0x00000037,
                                0x00000059,
     0x00000090, 0x000000E9, 0x04030378, 0x00000267, 0x000003DE, 0x48CBE8A2, 0x84174A01, 0x8F0FEA14], 0x6996C53A) ==
      [0x464C5FDC, 0x00000022, 0x00000037, 0x00000059, 0x00000090, 0x000000E9, 0x04030378, 0x00000267,
       0x000003DE, 0x48CBE8A2, 0x84174A01, 0x8F0FEA14, 0x8D948E67, 0x81D7D4EE, 0xE0799CB7, 0x2FAC2F1F]
  {
    Esp32Cycle(0x37E4DA01, 0x00000005, 0x00000008, 0x0000000D, 0x00000015, 0x00000022, 0x00000037, 0x00000059,
               0x00000090, 0x000000E9, 0x04030378, 0x00000267, 0x000003DE, 0x48CBE8A2, 0x84174A01, 0x8F0FEA14,
               0x6996C53A, 0x215D2E46, 0x8EEAC592, 0xE25D3A65, 0x8D948E67, 0x8D948E6A, 0x5773FB0D, 0xA90C00B2,
               0xA90C00B7, 0xE1C7E8F9);
    Esp32Cycle(0xA90C00B7, 0x00000008, 0x0000000D, 0x00000015, 0x00000022, 0x00000037, 0x00000059, 0x00000090,
               0x000000E9, 0x04030378, 0x00000267, 0x000003DE, 0x48CBE8A2, 0x84174A01, 0x8F0FEA14, 0x8D948E67,
               0x6996C53A, 0xA54A6799, 0x0835986F, 0xD3CFD581, 0x81D7D4EE, 0x81D7D4FB, 0x7E3DA90E, 0xB1CA58E1,
               0xB1CA58E9, 0x31DE1198);
    Esp32Cycle(0xB1CA58E9, 0x0000000D, 0x00000015, 0x00000022, 0x00000037, 0x00000059, 0x00000090, 0x000000E9,
               0x04030378, 0x00000267, 0x000003DE, 0x48CBE8A2, 0x84174A01, 0x8F0FEA14, 0x8D948E67, 0x81D7D4EE,
               0x6996C53A, 0x628E652F, 0x3570D2D2, 0x83ED2D64, 0xE0799CB7, 0xE0799C95, 0xDD87C262, 0x6E792E1D,
               0x6E792E10, 0xE176C66E);
    Esp32Cycle(0x6E792E10, 0x00000015, 0x00000022, 0x00000037, 0x00000059, 0x00000090, 0x000000E9, 0x04030378,
               0x00000267, 0x000003DE, 0x48CBE8A2, 0x84174A01, 0x8F0FEA14, 0x8D948E67, 0x81D7D4EE, 0xE0799CB7,
               0x6996C53A, 0x6B0DA149, 0x8CF90CF4, 0xF35E733F, 0x2FAC2F1F, 0x2FAC2F28, 0xF1B3D037, 0x464C5FC9,
               0x464C5FDC, 0xCBD8D270);
  }

  lemma Esp32Diffuses1()
    ensures Four(Words(Esp32), [0x464C5FDC, 0x00000022, 0x00000037, 0x00000059, 0x00000090, 0x000000E9, 0x04030378,
                                0x00000267,
     0x000003DE, 0x48CBE8A2, 0x84174A01, 0x8F0FEA14, 0x8D948E67, 0x81D7D4EE, 0xE0799CB7, 0x2FAC2F1F], 0x6996C53A) ==
      [0xE8C7A46D, 0x000000E9, 0x04030378, 0x00000267, 0x000003DE, 0x48CBE8A2, 0x84174A01, 0x8F0FEA14,
       0x8D948E67, 0x81D7D4EE, 0xE0799CB7, 0x2FAC2F1F, 0x00DD242E, 0xB72303BC, 0x162D1455, 0xEAC0AC98]
  {
    Esp32Cycle(0x464C5FDC, 0x00000022, 0x00000037, 0x00000059, 0x00000090, 0x000000E9, 0x04030378, 0x00000267,
               0x000003DE, 0x48CBE8A2, 0x84174A01, 0x8F0FEA14, 0x8D948E67, 0x81D7D4EE, 0xE0799CB7, 0x2FAC2F1F,
               0x6996C53A, 0x65D59FB3, 0x9F2A604D, 0x8C459B96, 0x00DD242E, 0x00DD2477, 0x7F0F1BBE, 0x82FCE441,
               0x82FCE463, 0x4BE0D80D);
    Esp32Cycle(0x82FCE463, 0x00000037, 0x00000059, 0x00000090, 0x000000E9, 0x04030378, 0x00000267, 0x000003DE,
               0x48CBE8A2, 0x84174A01, 0x8F0FEA14, 0x8D948E67, 0x81D7D4EE, 0xE0799CB7, 0x2FAC2F1F, 0x00DD242E,
               0x6996C53A, 0x08388D63, 0x176F3086, 0xB2DACB7B, 0xB72303BC, 0xB723032C, 0x6C8EDDF7, 0x93752308,
               0x9375233F, 0xF71BF5BE);
    Esp32Cycle(0x9375233F, 0x00000059, 0x00000090, 0x000000E9, 0x04030378, 0x00000267, 0x000003DE, 0x48CBE8A2,
               0x84174A01, 0x8F0FEA14, 0x8D948E67, 0x81D7D4EE, 0xE0799CB7, 0x2FAC2F1F, 0x00DD242E, 0xB72303BC,
               0x6996C53A, 0xA6437692, 0x4FBCADC5, 0x30C7522A, 0x162D1455, 0x162D14BC, 0x29A2CBF3, 0x567BB484,
               0x567BB4DD, 0xF6D8718F);
    Esp32Cycle(0x567BB4DD, 0x00000090, 0x000000E9, 0x04030378, 0x00000267, 0x000003DE, 0x48CBE8A2, 0x84174A01,
               0x8F0FEA14, 0x8D948E67, 0x81D7D4EE, 0xE0799CB7, 0x2FAC2F1F, 0x00DD242E, 0xB72303BC, 0x162D1455,
               0x6996C53A, 0x46E7CE0B, 0xB9180BE0, 0x4637C522, 0xEAC0AC98, 0xEEC3AFE0, 0x173C5F1F, 0xE8C7A4FD,
               0xE8C7A46D, 0x658E0EB4);
  }

  lemma Esp32Diffuses2()
    ensures Four(Words(Esp32), [0xE8C7A46D, 0x000000E9, 0x04030378, 0x00000267, 0x000003DE, 0x48CBE8A2, 0x84174A01,
                                0x8F0FEA14,
     0x8D948E67, 0x81D7D4EE, 0xE0799CB7, 0x2FAC2F1F, 0x00DD242E, 0xB72303BC, 0x162D1455, 0xEAC0AC98], 0x6996C53A) ==
      [0x85491070, 0x48CBE8A2, 0x84174A01, 0x8F0FEA14, 0x8D948E67, 0x81D7D4EE, 0xE0799CB7, 0x2FAC2F1F,
       0x00DD242E, 0xB72303BC, 0x162D1455, 0xEAC0AC98, 0x0D6322E1, 0x19697EBD, 0x152983D9, 0x447A9C65]
  {
    Esp32Cycle(0xE8C7A46D, 0x000000E9, 0x04030378, 0x00000267, 0x000003DE, 0x48CBE8A2, 0x84174A01, 0x8F0FEA14,
               0x8D948E67, 0x81D7D4EE, 0xE0799CB7, 0x2FAC2F1F, 0x00DD242E, 0xB72303BC, 0x162D1455, 0xEAC0AC98,
               0x6996C53A, 0xDE68E2A8, 0x2315B7D7, 0xDCEC6A3A, 0x0D6322E1, 0x0D632086, 0xBCF07B48, 0x62BF94DF,
               0x62BF9436, 0x544B438D);
    Esp32Cycle(0x62BF9436, 0x04030378, 0x00000267, 0x000003DE, 0x48CBE8A2, 0x84174A01, 0x8F0FEA14, 0x8D948E67,
               0x81D7D4EE, 0xE0799CB7, 0x2FAC2F1F, 0x00DD242E, 0xB72303BC, 0x162D1455, 0xEAC0AC98, 0x0D6322E1,
               0x6996C53A, 0xC898D2D3, 0x97E3A92E, 0xDC1656D1, 0x19697EBD, 0x19697D63, 0xE59786BC, 0x52607900,
               0x56637A78, 0xA434F1E2);
    Esp32Cycle(0x56637A78, 0x00000267, 0x000003DE, 0x48CBE8A2, 0x84174A01, 0x8F0FEA14, 0x8D948E67, 0x81D7D4EE,
               0xE0799CB7, 0x2FAC2F1F, 0x00DD242E, 0xB72303BC, 0x162D1455, 0xEAC0AC98, 0x0D6322E1, 0x19697EBD,
               0x6996C53A, 0x957B7DF7, 0x2A84820D, 0xB9EF7729, 0x152983D9, 0x5DE26B7B, 0xA21596C5, 0x54AA4E79,
               0x54AA4C1E, 0x91C6CDFE);
    Esp32Cycle(0x54AA4C1E, 0x000003DE, 0x48CBE8A2, 0x84174A01, 0x8F0FEA14, 0x8D948E67, 0x81D7D4EE, 0xE0799CB7,
               0x2FAC2F1F, 0x00DD242E, 0xB72303BC, 0x162D1455, 0xEAC0AC98, 0x0D6322E1, 0x19697EBD, 0x152983D9,
               0x6996C53A, 0x8E354B43, 0x5098A2B4, 0xED2E0459, 0x447A9C65, 0xC06DD664, 0x7F96ED11, 0x854913AE,
               0x85491070, 0x88F71561);
  }

  lemma Esp32Diffuses3()
    ensures Four(Words(Esp32), [0x85491070, 0x48CBE8A2, 0x84174A01, 0x8F0FEA14, 0x8D948E67, 0x81D7D4EE, 0xE0799CB7,
                                0x2FAC2F1F,
     0x00DD242E, 0xB72303BC, 0x162D1455, 0xEAC0AC98, 0x0D6322E1, 0x19697EBD, 0x152983D9, 0x447A9C65], 0x6996C53A) ==
      [0x7C93F738, 0x81D7D4EE, 0xE0799CB7, 0x2FAC2F1F, 0x00DD242E, 0xB72303BC, 0x162D1455, 0xEAC0AC98,
       0x0D6322E1, 0x19697EBD, 0x152983D9, 0x447A9C65, 0x3E3D94A1, 0xFDCBAAAE, 0x7898D8DB, 0x3B59F9E0]
  {
    Esp32Cycle(0x85491070, 0x48CBE8A2, 0x84174A01, 0x8F0FEA14, 0x8D948E67, 0x81D7D4EE, 0xE0799CB7, 0x2FAC2F1F,
               0x00DD242E, 0xB72303BC, 0x162D1455, 0xEAC0AC98, 0x0D6322E1, 0x19697EBD, 0x152983D9, 0x447A9C65,
               0x6996C53A, 0x7D9C9966, 0x82432699, 0x34AFB440, 0x3E3D94A1, 0xB1327EB5, 0x0C4D206A, 0x87B94F03,
               0xCF72A7A1, 0x29F33202);
    Esp32Cycle(0xCF72A7A1, 0x84174A01, 0x8F0FEA14, 0x8D948E67, 0x81D7D4EE, 0xE0799CB7, 0x2FAC2F1F, 0x00DD242E,
               0xB72303BC, 0x162D1455, 0xEAC0AC98, 0x0D6322E1, 0x19697EBD, 0x152983D9, 0x447A9C65, 0x3E3D94A1,
               0x6996C53A, 0x65D6385E, 0x9E0917A0, 0x632EE5ED, 0xFDCBAAAE, 0x705F24C9, 0x4F815330, 0xB62B2D3B,
               0x323C673A, 0xB52FBAB7);
    Esp32Cycle(0x323C673A, 0x8F0FEA14, 0x8D948E67, 0x81D7D4EE, 0xE0799CB7, 0x2FAC2F1F, 0x00DD242E, 0xB72303BC,
               0x162D1455, 0xEAC0AC98, 0x0D6322E1, 0x19697EBD, 0x152983D9, 0x447A9C65, 0x3E3D94A1, 0xFDCBAAAE,
               0x6996C53A, 0x38C5DA86, 0x423A8959, 0x1CE016AF, 0x7898D8DB, 0xF94F0C35, 0x56B157CA, 0xA8CBAA00,
               0x27C44014, 0x06719AFD);
    Esp32Cycle(0x27C44014, 0x8D948E67, 0x81D7D4EE, 0xE0799CB7, 0x2FAC2F1F, 0x00DD242E, 0xB72303BC, 0x162D1455,
               0xEAC0AC98, 0x0D6322E1, 0x19697EBD, 0x152983D9, 0x447A9C65, 0x3E3D94A1, 0xFDCBAAAE, 0x7898D8DB,
               0x6996C53A, 0x13D1CDFE, 0xE92E3235, 0x74D179C8, 0x3B59F9E0, 0xDB206557, 0x0ED68EAA, 0xF107795F,
               0x7C93F738, 0xC259CF1F);
  }

  lemma Esp32Diffused()
    ensures CyclesR(Words(Esp32), [0x37E4DA01, 0x00000005, 0x00000008, 0x0000000D, 0x00000015, 0x00000022,
                                   0x00000037, 0x00000059,
     0x00000090, 0x000000E9, 0x04030378, 0x00000267, 0x000003DE, 0x48CBE8A2, 0x84174A01, 0x8F0FEA14], 0x6996C53A, 16) ==
      [0x7C93F738, 0x81D7D4EE, 0xE0799CB7, 0x2FAC2F1F, 0x00DD242E, 0xB72303BC, 0x162D1455, 0xEAC0AC98,
       0x0D6322E1, 0x19697EBD, 0x152983D9, 0x447A9C65, 0x3E3D94A1, 0xFDCBAAAE, 0x7898D8DB, 0x3B59F9E0]
  {
    Esp32Diffuses0();
    Esp32Diffuses1();
    Esp32Diffuses2();
    Esp32Diffuses3();
    Sixteen(Words(Esp32), [0x37E4DA01, 0x00000005, 0x00000008, 0x0000000D, 0x00000015, 0x00000022, 0x00000037,
                           0x00000059,
                  0x00000090, 0x000000E9, 0x04030378, 0x00000267, 0x000003DE, 0x48CBE8A2, 0x84174A01, 0x8F0FEA14],
                  0x6996C53A,
            [0x464C5FDC, 0x00000022, 0x00000037, 0x00000059, 0x00000090, 0x000000E9, 0x04030378, 0x00000267,
             0x000003DE, 0x48CBE8A2, 0x84174A01, 0x8F0FEA14, 0x8D948E67, 0x81D7D4EE, 0xE0799CB7, 0x2FAC2F1F],
            [0xE8C7A46D, 0x000000E9, 0x04030378, 0x00000267, 0x000003DE, 0x48CBE8A2, 0x84174A01, 0x8F0FEA14,
             0x8D948E67, 0x81D7D4EE, 0xE0799CB7, 0x2FAC2F1F, 0x00DD242E, 0xB72303BC, 0x162D1455, 0xEAC0AC98],
            [0x85491070, 0x48CBE8A2, 0x84174A01, 0x8F0FEA14, 0x8D948E67, 0x81D7D4EE, 0xE0799CB7, 0x2FAC2F1F,
             0x00DD242E, 0xB72303BC, 0x162D1455, 0xEAC0AC98, 0x0D6322E1, 0x19697EBD, 0x152983D9, 0x447A9C65],
            [0x7C93F738, 0x81D7D4EE, 0xE0799CB7, 0x2FAC2F1F, 0x00DD242E, 0xB72303BC, 0x162D1455, 0xEAC0AC98,
             0x0D6322E1, 0x19697EBD, 0x152983D9, 0x447A9C65, 0x3E3D94A1, 0xFDCBAAAE, 0x7898D8DB, 0x3B59F9E0]);
  }

  /** The key 01 02 03 04 05. */
  lemma Esp32Key(st: Cipher<Word>)
    ensures
      var g := SetKey(Words(Esp32), st, KEY).reg;
      && g.R ==
        [0x4B772D39, 0x81D7D4EB, 0xE0799CBF, 0x2FAC2F12, 0x00DD243B, 0xB723039E, 0x162D1462, 0xEAC0ACC1,
         0x0D632271, 0x19697E54, 0x112A80A1, 0x447A9E02, 0x3E3D977F, 0xB500420C, 0xFC8F92DA, 0xB45613F4]
      && g.CRC ==
        [0x37E4DA01, 0x00000005, 0x00000008, 0x0000000D, 0x00000015, 0x00000022, 0x00000037, 0x00000059,
         0x00000090, 0x000000E9, 0x04030378, 0x00000267, 0x000003DE, 0x48CBE8A2, 0x84174A01, 0x8F0FEA14]
      && g.konst == 0x4B772D39
  {
    FirstWords(Esp32);
    Esp32Loads();
    Esp32Diffused();
    Combines(Esp32, 0x7C93F738, 0x81D7D4EE, 0xE0799CB7, 0x2FAC2F1F, 0x00DD242E, 0xB72303BC, 0x162D1455, 0xEAC0AC98,
             0x0D6322E1, 0x19697EBD, 0x152983D9, 0x447A9C65, 0x3E3D94A1, 0xFDCBAAAE, 0x7898D8DB, 0x3B59F9E0,
             0x37E4DA01, 0x00000005, 0x00000008, 0x0000000D, 0x00000015, 0x00000022, 0x00000037, 0x00000059,
             0x00000090, 0x000000E9, 0x04030378, 0x00000267, 0x000003DE, 0x48CBE8A2, 0x84174A01, 0x8F0FEA14);
    KeyLeads(Esp32, st, [0x00000001, 0x00000001, 0x00000002, 0x00000003, 0x00000005, 0x00000008, 0x0000000D, 0x00000015,
              0x00000022, 0x00000037, 0x00000059, 0x00000090, 0x000000E9, 0x00000179, 0x00000262, 0x000003DB],
             [0x37E4DA01, 0x00000005, 0x00000008, 0x0000000D, 0x00000015, 0x00000022, 0x00000037, 0x00000059,
              0x00000090, 0x000000E9, 0x04030378, 0x00000267, 0x000003DE, 0x48CBE8A2, 0x84174A01, 0x8F0FEA14],
             [0x7C93F738, 0x81D7D4EE, 0xE0799CB7, 0x2FAC2F1F, 0x00DD242E, 0xB72303BC, 0x162D1455, 0xEAC0AC98,
              0x0D6322E1, 0x19697EBD, 0x152983D9, 0x447A9C65, 0x3E3D94A1, 0xFDCBAAAE, 0x7898D8DB, 0x3B59F9E0],
             [0x4B772D39, 0x81D7D4EB, 0xE0799CBF, 0x2FAC2F12, 0x00DD243B, 0xB723039E, 0x162D1462, 0xEAC0ACC1,
              0x0D632271, 0x19697E54, 0x112A80A1, 0x447A9E02, 0x3E3D977F, 0xB500420C, 0xFC8F92DA, 0xB45613F4]);
  }

  lemma Esp32Crypts(g: Register<Word>)
    requires g.R ==
        [0x4B772D39, 0x81D7D4EB, 0xE0799CBF, 0x2FAC2F12, 0x00DD243B, 0xB723039E, 0x162D1462, 0xEAC0ACC1,
         0x0D632271, 0x19697E54, 0x112A80A1, 0x447A9E02, 0x3E3D977F, 0xB500420C, 0xFC8F92DA, 0xB45613F4]
    requires g.konst == 0x4B772D39
    ensures
      var h := Cycle(Words(Esp32), g);
      var k := Cycle(Words(Esp32), Mac(Words(Esp32), h, 0x281E140A));
      && h.sbuf == 0x2418F871 && k.sbuf == 0xAD251A83
      && k.R ==
        [0x88E7804D, 0x2FAC2F12, 0x00DD243B, 0xB723039E, 0x162D1462, 0xEAC0ACC1, 0x0D632271, 0x19697E54,
         0x112A80A1, 0x447A9E02, 0x3E3D977F, 0xB500420C, 0xD49186D0, 0xB45613F4, 0x9664E2BF, 0xB8C0D809]
  {
    Esp32Cycle(0x4B772D39, 0x81D7D4EB, 0xE0799CBF, 0x2FAC2F12, 0x00DD243B, 0xB723039E, 0x162D1462, 0xEAC0ACC1,
               0x0D632271, 0x19697E54, 0x112A80A1, 0x447A9E02, 0x3E3D977F, 0xB500420C, 0xFC8F92DA, 0xB45613F4,
               0x4B772D39, 0xC04AF84A, 0xED35D532, 0x008AB8CD, 0x9664E2BF, 0xB9C8CDAD, 0x56A63B52, 0x8871C429,
               0x09A610C2, 0x2418F871);
    Accumulates(Esp32, 0x09A610C2, 0xE0799CBF, 0x2FAC2F12, 0x00DD243B, 0xB723039E, 0x162D1462, 0xEAC0ACC1, 0x0D632271,
                       0x19697E54, 0x112A80A1, 0x447A9E02, 0x3E3D977F, 0xB500420C, 0xFC8F92DA, 0xB45613F4,
                       0x9664E2BF, 0x281E140A);
    Esp32Cycle(0x09A610C2, 0xE0799CBF, 0x2FAC2F12, 0x00DD243B, 0xB723039E, 0x162D1462, 0xEAC0ACC1, 0x0D632271,
               0x19697E54, 0x112A80A1, 0x447A9E02, 0x3E3D977F, 0xB500420C, 0xD49186D0, 0xB45613F4, 0x9664E2BF,
               0x4B772D39, 0x2AE6E9E5, 0x551B1750, 0xAB8CF98D, 0xB8C0D809, 0xB81DFC32, 0xB6E3E34D, 0x689E1CF2,
               0x88E7804D, 0xAD251A83);
  }

  /** Those five bytes, from there on. */
  lemma Esp32Output(a: Cipher<Word>)
    requires a.nbuf == 0 && a.reg.konst == 0x4B772D39
    requires a.reg.R ==
        [0x4B772D39, 0x81D7D4EB, 0xE0799CBF, 0x2FAC2F12, 0x00DD243B, 0xB723039E, 0x162D1462, 0xEAC0ACC1,
         0x0D632271, 0x19697E54, 0x112A80A1, 0x447A9E02, 0x3E3D977F, 0xB500420C, 0xFC8F92DA, 0xB45613F4]
    requires a.reg.CRC ==
        [0x37E4DA01, 0x00000005, 0x00000008, 0x0000000D, 0x00000015, 0x00000022, 0x00000037, 0x00000059,
         0x00000090, 0x000000E9, 0x04030378, 0x00000267, 0x000003DE, 0x48CBE8A2, 0x84174A01, 0x8F0FEA14]
    ensures
      var e := Call(CoreOf(Words(Esp32)), Encrypt, a, DATA);
      && e.1 == [0x7B, 0xEC, 0x06, 0x0C, 0xB1] && e.0.mbuf == 50 && e.0.nbuf == 24
      && e.0.reg.R ==
        [0x88E7804D, 0x2FAC2F12, 0x00DD243B, 0xB723039E, 0x162D1462, 0xEAC0ACC1, 0x0D632271, 0x19697E54,
         0x112A80A1, 0x447A9E02, 0x3E3D977F, 0xB500420C, 0xD49186D0, 0xB45613F4, 0x9664E2BF, 0xB8C0D809]
      && e.0.reg.CRC ==
        [0x00000005, 0x00000008, 0x0000000D, 0x00000015, 0x00000022, 0x00000037, 0x00000059, 0x00000090,
         0x000000E9, 0x04030378, 0x00000267, 0x000003DE, 0x48CBE8A2, 0x84174A01, 0x8F0FEA14, 0x90F52417]
  {
    Esp32Crypts(a.reg);
    CrcShifts(Esp32, 0x37E4DA01, 0x00000005, 0x00000008, 0x0000000D, 0x00000015, 0x00000022, 0x00000037, 0x00000059,
                    0x00000090, 0x000000E9, 0x04030378, 0x00000267, 0x000003DE, 0x48CBE8A2, 0x84174A01, 0x8F0FEA14,
                    0x281E140A);
    OutputFive(Esp32, a, 0x2418F871, 0xAD251A83,
             [0x88E7804D, 0x2FAC2F12, 0x00DD243B, 0xB723039E, 0x162D1462, 0xEAC0ACC1, 0x0D632271, 0x19697E54,
              0x112A80A1, 0x447A9E02, 0x3E3D977F, 0xB500420C, 0xD49186D0, 0xB45613F4, 0x9664E2BF, 0xB8C0D809],
             [0x00000005, 0x00000008, 0x0000000D, 0x00000015, 0x00000022, 0x00000037, 0x00000059, 0x00000090,
              0x000000E9, 0x04030378, 0x00000267, 0x000003DE, 0x48CBE8A2, 0x84174A01, 0x8F0FEA14, 0x90F52417],
             0x0C06EC7B, 0x7B, 0xEC, 0x06, 0x0C, 0xB1);
  }

  lemma Esp32Finishes(e: Cipher<Word>)
    requires e.mbuf == 50 && e.nbuf == 24
    requires e.reg.CRC ==
        [0x00000005, 0x00000008, 0x0000000D, 0x00000015, 0x00000022, 0x00000037, 0x00000059, 0x00000090,
         0x000000E9, 0x04030378, 0x00000267, 0x000003DE, 0x48CBE8A2, 0x84174A01, 0x8F0FEA14, 0x90F52417]
    ensures Finish(Words(Esp32), e).1 == Unpack(CoreOf(Words(Esp32)), 0xF963E10A)
  {
    CrcShifts(Esp32, 0x00000005, 0x00000008, 0x0000000D, 0x00000015, 0x00000022, 0x00000037, 0x00000059, 0x00000090,
                     0x000000E9, 0x04030378, 0x00000267, 0x000003DE, 0x48CBE8A2, 0x84174A01, 0x8F0FEA14, 0x90F52417,
                     50);
    SumIs(Esp32, 0x00000008, 0x0000000D, 0x00000015, 0x00000022, 0x00000037, 0x00000059, 0x00000090, 0x000000E9,
                 0x04030378, 0x00000267, 0x000003DE, 0x48CBE8A2, 0x84174A01, 0x8F0FEA14, 0x90F52417, 0x90F5242D,
                 InitKonst(Esp32));
  }

  lemma Esp32Bytes()
    ensures Unpack(CoreOf(Words(Esp32)), 0xF963E10A) == [0x0A, 0xE1, 0x63, 0xF9]
  {
    BytesAre(Esp32, 0xF963E10A, [0x0A, 0xE1, 0x63, 0xF9]);
  }

  /** The key 01 02 03 04 05, the data 0A 14 1E 28 32: output and MAC. */
  lemma Esp32Answer(st: Cipher<Word>)
    ensures
      var o := Words(Esp32);
      var e := Call(CoreOf(o), Encrypt, SetKey(o, st, KEY), DATA);
      e.1 == [0x7B, 0xEC, 0x06, 0x0C, 0xB1] && Finish(o, e.0).1 == [0x0A, 0xE1, 0x63, 0xF9]
  {
    var o := Words(Esp32);
    var a := SetKey(o, st, KEY);
    Esp32Key(st);
    Esp32Output(a);
    Esp32Finishes(Call(CoreOf(o), Encrypt, a, DATA).0);
    Esp32Bytes();
  }
}
