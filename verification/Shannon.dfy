/** The Shannon stream cipher of platform_posix.c and platform_esp32.c as functions of its
    state, for any word arithmetic; ShannonWords.dfy supplies 32-bit words.

    The two files hold two versions of one text; `Platform` says which, and is consulted exactly
    where they differ: key addition, what decryption folds into a partial word, whether a
    completed partial word is accumulated, and the MAC.  S-boxes and constants are part of the
    word arithmetic. */
module Shannon {
  import opened WordStream

  datatype Platform = Posix | Esp32

  /** The word arithmetic: exclusive-or, addition, the S-boxes, rotation by one bit, constants,
      and the coding of words as bytes. */
  datatype Ops<!W, !B> = Ops(
    platform: Platform, zero: W, one: W, initKonst: W, zeroByte: B,
    xor: (W, W) -> W, add: (W, W) -> W, sbox1: W -> W, sbox2: W -> W, rotl1: W -> W, number: nat -> W,
    mix: (B, W, int) -> B, fold: (W, B, int) -> W, pack: (B, B, B, B) -> W, unpack: W -> (B, B, B, B))

  /** struct platform_shannon_t without the partial word: sixteen words each. */
  datatype Register<W> = Register(R: seq<W>, CRC: seq<W>, initR: seq<W>, konst: W, sbuf: W)

  const KEYP: nat := 13

  // ---------- sixteen words ----------

  function At<W, B>(o: Ops<W, B>, s: seq<W>, i: nat): W {
    if i < |s| then s[i] else o.zero
  }

  function Shifted<W>(s: seq<W>, w: W): (r: seq<W>)
    ensures |s| > 0 ==> |r| == |s|
  {
    if s == [] then [] else s[1..] + [w]
  }

  /** `s[i] ^= w`. */
  function XorAt<W, B>(o: Ops<W, B>, s: seq<W>, i: nat, w: W): (r: seq<W>)
    ensures |r| == |s|
  {
    if i < |s| then s[i := o.xor(s[i], w)] else s
  }

  // ---------- the register ----------

  /** shannon_cycle: the register is shifted with feedback, R[0] mixed, and sbuf taken. */
  function Feedback<W, B>(o: Ops<W, B>, r: seq<W>, konst: W): seq<W> {
    Shifted(r, o.xor(o.sbox1(o.xor(o.xor(At(o, r, 12), At(o, r, 13)), konst)), o.rotl1(At(o, r, 0))))
  }

  function Mixing<W, B>(o: Ops<W, B>, s: seq<W>): W { o.sbox2(o.xor(At(o, s, 2), At(o, s, 15))) }

  function NextR<W, B>(o: Ops<W, B>, r: seq<W>, konst: W): seq<W> {
    var s := Feedback(o, r, konst);
    XorAt(o, s, 0, Mixing(o, s))
  }

  function NextKey<W, B>(o: Ops<W, B>, r: seq<W>, konst: W): W {
    var s := Feedback(o, r, konst);
    o.xor(o.xor(Mixing(o, s), At(o, s, 8)), At(o, s, 12))
  }

  function Cycle<W, B>(o: Ops<W, B>, g: Register<W>): Register<W> {
    g.(R := NextR(o, g.R, g.konst), sbuf := NextKey(o, g.R, g.konst))
  }

  /** shannon_crcfunc and shannon_macfunc. */
  function CrcWord<W, B>(o: Ops<W, B>, crc: seq<W>, i: W): W {
    o.xor(o.xor(o.xor(At(o, crc, 0), At(o, crc, 2)), At(o, crc, 15)), i)
  }

  function Mac<W, B>(o: Ops<W, B>, g: Register<W>, i: W): Register<W> {
    g.(CRC := Shifted(g.CRC, CrcWord(o, g.CRC, i)), R := XorAt(o, g.R, KEYP, i))
  }

  /** What the word stream needs to know about Shannon. */
  function CoreOf<W, B>(o: Ops<W, B>): Core<Register<W>, W, B> {
    Core((g: Register<W>) => Cycle(o, g), (g: Register<W>) => g.sbuf, (g: Register<W>, w: W) => Mac(o, g, w),
         o.zero, o.xor, o.mix, o.fold, o.pack, o.unpack, o.platform.Esp32?, o.platform.Posix?)
  }

  // ---------- keys and nonces ----------

  /** ADDKEY and a cycle. */
  function AddedR<W, B>(o: Ops<W, B>, r: seq<W>, k: W): seq<W> {
    if o.platform.Posix? then XorAt(o, XorAt(o, r, 0, k), KEYP, k) else XorAt(o, r, KEYP, k)
  }

  function AddCycle<W, B>(o: Ops<W, B>, g: Register<W>, k: W): Register<W> {
    Cycle(o, g.(R := AddedR(o, g.R, k), sbuf := if o.platform.Posix? then k else g.sbuf))
  }

  /** `n` cycles: the register, and all of the state. */
  function CyclesR<W, B>(o: Ops<W, B>, r: seq<W>, konst: W, n: nat): seq<W> {
    if n == 0 then r else NextR(o, CyclesR(o, r, konst, n - 1), konst)
  }

  function Cycles<W, B>(o: Ops<W, B>, g: Register<W>, n: nat): Register<W> {
    g.(R := CyclesR(o, g.R, g.konst, n),
       sbuf := if n == 0 then g.sbuf else NextKey(o, CyclesR(o, g.R, g.konst, n - 1), g.konst))
  }

  function XorWords<W, B>(o: Ops<W, B>, a: seq<W>, b: seq<W>): seq<W> {
    seq(|a|, i requires 0 <= i < |a| => o.xor(a[i], At(o, b, i)))
  }

  /** A key word; the last one is padded with zeros. */
  function KeyByte<W, B>(o: Ops<W, B>, s: seq<B>, i: nat): B { if i < |s| then s[i] else o.zeroByte }

  function KeyWord<W, B>(o: Ops<W, B>, s: seq<B>): W {
    o.pack(KeyByte(o, s, 0), KeyByte(o, s, 1), KeyByte(o, s, 2), KeyByte(o, s, 3))
  }

  /** The word loop of shannon_load_key. */
  function LoadWords<W, B>(o: Ops<W, B>, g: Register<W>, key: seq<B>): Register<W>
    decreases |key|
  {
    if key == [] then g
    else if |key| < 4 then AddCycle(o, g, KeyWord(o, key))
    else LoadWords(o, AddCycle(o, g, KeyWord(o, key[..4])), key[4..])
  }

  /** shannon_load_key. */
  function LoadKey<W, B>(o: Ops<W, B>, g: Register<W>, key: seq<B>): Register<W> {
    var a := AddCycle(o, LoadWords(o, g, key), o.number(|key|));
    var b := Cycles(o, a.(CRC := a.R), 16);
    b.(R := XorWords(o, b.R, b.CRC))
  }

  /** shannon_init_state: the first `n` Fibonacci numbers. */
  function InitR<W, B>(o: Ops<W, B>, n: nat): (s: seq<W>)
    ensures |s| == n
  {
    if n == 0 then []
    else
      var s := InitR(o, n - 1);
      s + [if n <= 2 then o.one else o.add(s[n - 2], s[n - 3])]
  }

  /** platform_shannon_key and platform_shannon_nonce. */
  function SetKey<W, B>(o: Ops<W, B>, st: State<Register<W>, W>, key: seq<B>): State<Register<W>, W> {
    var a := LoadKey(o, st.reg.(R := InitR(o, 16), konst := o.initKonst), key);
    State(a.(konst := At(o, a.R, 0), initR := a.R), st.mbuf, 0)
  }

  function SetNonce<W, B>(o: Ops<W, B>, st: State<Register<W>, W>, nonce: seq<B>): State<Register<W>, W> {
    var a := LoadKey(o, st.reg.(R := st.reg.initR, konst := o.initKonst), nonce);
    State(a.(konst := At(o, a.R, 0)), st.mbuf, 0)
  }

  // ---------- the MAC ----------

  /** platform_shannon_finish: POSIX stirs all of CRC through the register, one word per
      cycle. */
  function StirAll<W, B>(o: Ops<W, B>, g: Register<W>, n: nat): (h: Register<W>)
    ensures h.CRC == g.CRC && h.initR == g.initR
  {
    if n == 0 then g
    else
      var h := StirAll(o, g, n - 1);
      Cycle(o, h.(R := XorAt(o, h.R, KEYP, At(o, h.CRC, n - 1))))
  }

  function Finish<W, B>(o: Ops<W, B>, st: State<Register<W>, W>): (State<Register<W>, W>, seq<B>) {
    var a := if st.nbuf != 0 then Mac(o, st.reg, st.mbuf) else st.reg;
    if o.platform.Posix? then
      var b := StirAll(o, a.(konst := o.initKonst), 16);
      (State(b, st.mbuf, 0), Unpack(CoreOf(o), b.sbuf))
    else
      var b := Cycle(o, a);
      (State(b, st.mbuf, st.nbuf), Unpack(CoreOf(o), CrcWord(o, b.CRC, o.initKonst)))
  }
}
