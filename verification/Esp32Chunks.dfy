/** Two encrypt calls on ESP32 and one (platform_esp32.c): a word that is split between the calls is
    encrypted but not accumulated. */
module Esp32Chunks {
  import opened WordStream
  import opened Shannon
  import opened ShannonWords
  import opened ShannonLaws
  import opened ShannonSteps

  // ---------- calls in a row, for any cipher ----------

  /** Inside the pending word. */
  lemma {:induction false} PartialAppend<R, W, B>(c: Core<R, W, B>, d: Direction, st: State<R, W>, a: seq<B>, b: seq<B>)
    requires Bits(st.nbuf) && 8 * |a| <= st.nbuf
    ensures |Partial(c, d, st, a).1| == |a|
    ensures Partial(c, d, st, a + b) == Prefix(Partial(c, d, st, a).1, Partial(c, d, Partial(c, d, st, a).0, b))
    decreases |a|
  {
    if a == [] {
      assert a + b == b;
      PrefixNone(Partial(c, d, st, b));
    } else {
      var o := Mixed(c, st, a[0]);
      var st' := Fold(c, st, Folded(c, d, a[0], o));
      var r := Partial(c, d, st', a[1..]);
      PartialFirst(c, d, st, a, o, st');
      PartialAppend(c, d, st', a[1..], b);
      FirstOf(a, b);
      PartialFirst(c, d, st, a + b, o, st');
      PrefixTwice([o], r.1, Partial(c, d, r.0, b));
    }
  }

  lemma FirstOf<B>(a: seq<B>, b: seq<B>)
    requires a != []
    ensures (a + b)[0] == a[0] && (a + b)[1..] == a[1..] + b
  {
  }

  lemma PartialFirst<R, W, B>(c: Core<R, W, B>, d: Direction, st: State<R, W>, data: seq<B>, o: B, st': State<R, W>)
    requires Bits(st.nbuf) && st.nbuf != 0 && data != []
    requires o == Mixed(c, st, data[0]) && st' == Fold(c, st, Folded(c, d, data[0], o))
    ensures Partial(c, d, st, data) == Prefix([o], Partial(c, d, st', data[1..]))
  {
  }

  /** A first call that ends inside the word it began in. */
  lemma CallPending<R, W, B>(c: Core<R, W, B>, d: Direction, st: State<R, W>, a: seq<B>, b: seq<B>)
    requires Between(st.nbuf) && 8 * |a| < st.nbuf
    ensures Call(c, d, st, a) == Partial(c, d, st, a)
    ensures Call(c, d, st, a + b) == Prefix(Call(c, d, st, a).1, Call(c, d, Call(c, d, st, a).0, b))
  {
    PartialAppend(c, d, st, a, b);
    CallInside(c, d, st, a);
    CallsPending(c, d, st, a, b, a + b, Partial(c, d, st, a));
  }

  lemma CallInside<R, W, B>(c: Core<R, W, B>, d: Direction, st: State<R, W>, a: seq<B>)
    requires Between(st.nbuf) && 8 * |a| < st.nbuf
    ensures Call(c, d, st, a) == Partial(c, d, st, a) && Partial(c, d, st, a).0.nbuf != 0
  {
  }

  lemma CallsPending<R, W, B>(c: Core<R, W, B>, d: Direction, st: State<R, W>, a: seq<B>, b: seq<B>, ab: seq<B>, h: (State<R, W>, seq<B>))
    requires Between(st.nbuf) && st.nbuf != 0 && ab == a + b && Between(h.0.nbuf) && h.0.nbuf != 0 && |h.1| == |a|
    requires Partial(c, d, st, ab) == Prefix(h.1, Partial(c, d, h.0, b))
    ensures Call(c, d, st, ab) == Prefix(h.1, Call(c, d, h.0, b))
  {
    var k := Partial(c, d, h.0, b);
    if k.0.nbuf == 0 {
      Behind(a, b, |k.1|);
      PrefixTwice(h.1, k.1, Aligned(c, d, Completed(c, k.0), b[|k.1|..]));
    }
  }

  lemma Behind<B>(a: seq<B>, b: seq<B>, n: nat)
    requires n <= |b|
    ensures (a + b)[|a| + n..] == b[n..]
  {
  }

  /** How far the last word has been begun. */
  lemma AlignedLeft<R, W, B>(c: Core<R, W, B>, d: Direction, st: State<R, W>, a: seq<B>)
    requires st.nbuf == 0
    ensures Aligned(c, d, st, a).0.nbuf == (if |a| % 4 == 0 then 0 else 32 - 8 * (|a| % 4))
  {
    var w := Whole(c, d, st.reg, a);
    WholeLength(c, d, st.reg, a);
    var rest := a[|w.1|..];
    if rest != [] {
      PartialOutput(c, d, Begin(c, w.0), rest, 0);
    }
  }

  /** A first call that ends on a word boundary makes no difference. */
  lemma CallAppend<R, W, B>(c: Core<R, W, B>, d: Direction, st: State<R, W>, a: seq<B>, b: seq<B>)
    requires Between(st.nbuf) && Call(c, d, st, a).0.nbuf == 0
    ensures Call(c, d, st, a + b) == Prefix(Call(c, d, st, a).1, Call(c, d, Call(c, d, st, a).0, b))
  {
    if st.nbuf == 0 {
      AlignedLeft(c, d, st, a);
      AlignedAppend(c, d, st, a, b);
    } else {
      var n := Pending(c, d, st, a);
      assert a[..n] + a[n..] == a;
      CallAppendPending(c, d, st, a[..n], a[n..], b);
    }
  }

  /** The bytes that complete the pending word. */
  lemma Pending<R, W, B>(c: Core<R, W, B>, d: Direction, st: State<R, W>, a: seq<B>) returns (n: nat)
    requires Between(st.nbuf) && st.nbuf != 0 && (Call(c, d, st, a).0.nbuf == 0 || 8 * |a| > st.nbuf)
    ensures 8 * n == st.nbuf && n <= |a|
  {
    n := st.nbuf / 8;
  }

  lemma CallAppendPending<R, W, B>(c: Core<R, W, B>, d: Direction, st: State<R, W>, head: seq<B>, rest: seq<B>, b: seq<B>)
    requires Between(st.nbuf) && 0 < st.nbuf == 8 * |head| && Call(c, d, st, head + rest).0.nbuf == 0
    ensures
      var h := Call(c, d, st, head + rest);
      Call(c, d, st, head + rest + b) == Prefix(h.1, Call(c, d, h.0, b))
  {
    CallSplit(c, d, st, head, rest);
    CallSplit(c, d, st, head, rest + b);
    Regroup(head, rest, b);
    var p := Partial(c, d, st, head);
    var st' := Completed(c, p.0);
    AlignedLeft(c, d, st', rest);
    AlignedAppend(c, d, st', rest, b);
    var r := Aligned(c, d, st', rest);
    PrefixTwice(p.1, r.1, Aligned(c, d, r.0, b));
  }

  /** Where the word that a call has begun and not completed starts. */
  function Begun<R, W, B>(h: State<R, W>, a: seq<B>): int {
    |a| - (32 - h.nbuf) / 8
  }

  /** A call that begins a word and does not complete it, seen as two calls. */
  lemma WordBegun<R, W, B>(c: Core<R, W, B>, d: Direction, st: State<R, W>, a: seq<B>)
    requires Between(st.nbuf) && Call(c, d, st, a).0.nbuf != 0 && 8 * |a| > st.nbuf
    ensures
      var m := Begun(Call(c, d, st, a).0, a);
      0 <= m < |a| < m + 4 && Call(c, d, st, a[..m]).0.nbuf == 0
  {
    if st.nbuf == 0 {
      AlignedBegun(c, d, st, a);
    } else {
      var n := Pending(c, d, st, a);
      assert a[..n] + a[n..] == a;
      PendingBegun(c, d, st, a[..n], a[n..], a);
    }
  }

  lemma AlignedBegun<R, W, B>(c: Core<R, W, B>, d: Direction, st: State<R, W>, a: seq<B>)
    requires st.nbuf == 0 && Aligned(c, d, st, a).0.nbuf != 0
    ensures
      var m := Begun(Aligned(c, d, st, a).0, a);
      0 <= m < |a| < m + 4 && Aligned(c, d, st, a[..m]).0.nbuf == 0
  {
    AlignedLeft(c, d, st, a);
    AlignedLeft(c, d, st, a[..|a| - |a| % 4]);
  }

  lemma PendingBegun<R, W, B>(c: Core<R, W, B>, d: Direction, st: State<R, W>, head: seq<B>, rest: seq<B>, a: seq<B>)
    requires Between(st.nbuf) && 0 < st.nbuf == 8 * |head| && a == head + rest && Call(c, d, st, a).0.nbuf != 0
    ensures
      var m := Begun(Call(c, d, st, a).0, a);
      0 <= m < |a| < m + 4 && Call(c, d, st, a[..m]).0.nbuf == 0
  {
    var st' := Completed(c, Partial(c, d, st, head).0);
    SplitState(c, d, st, head, rest, a, st');
    AlignedBegun(c, d, st', rest);
    var h := Call(c, d, st, a).0;
    var k := Begun(h, rest);
    TakeBehind(head, rest, k);
    BegunBehind(h, head, rest, a);
    SplitState(c, d, st, head, rest[..k], a[..|head| + k], st');
  }

  lemma BegunBehind<R, W, B>(h: State<R, W>, head: seq<B>, rest: seq<B>, a: seq<B>)
    requires a == head + rest
    ensures Begun(h, a) == |head| + Begun(h, rest) && |a| == |head| + |rest|
  {
  }

  lemma SplitState<R, W, B>(c: Core<R, W, B>, d: Direction, st: State<R, W>, head: seq<B>, rest: seq<B>, a: seq<B>, st': State<R, W>)
    requires Between(st.nbuf) && 0 < st.nbuf == 8 * |head| && a == head + rest && st' == Completed(c, Partial(c, d, st, head).0)
    ensures st'.nbuf == 0 && Call(c, d, st, a).0 == Aligned(c, d, st', rest).0
  {
    CallSplit(c, d, st, head, rest);
  }

  lemma TakeBehind<B>(a: seq<B>, b: seq<B>, k: nat)
    requires k <= |b|
    ensures (a + b)[..|a| + k] == a + b[..k]
  {
  }

  /** The three bytes at most that begin a word. */
  lemma OpensWord<R, W, B>(c: Core<R, W, B>, st: State<R, W>, a: seq<B>)
    requires st.nbuf == 0 && 0 < |a| < 4
    ensures Call(c, Encrypt, st, a) == Partial(c, Encrypt, Begin(c, st.reg), a)
  {
    var w := Whole(c, Encrypt, st.reg, a);
    assert a[|w.1|..] == a && st.(reg := w.0) == st;
    PrefixNone(Tail(c, Encrypt, st, a));
  }

  /** Those that complete it: without accumulation, nothing else happens. */
  lemma ClosesWord<R, W, B>(c: Core<R, W, B>, st: State<R, W>, b: seq<B>)
    requires !c.flushes && Between(st.nbuf) && st.nbuf == 8 * |b| > 0
    ensures Call(c, Encrypt, st, b) == Partial(c, Encrypt, st, b) && |Partial(c, Encrypt, st, b).1| == |b|
  {
    PartialOutput(c, Encrypt, st, b, 0);
    var h := Partial(c, Encrypt, st, b);
    assert b[|h.1|..] == [];
    assert Aligned(c, Encrypt, h.0, []) == (h.0, []);
    assert h.1 + [] == h.1;
  }

  /** A word that is split between two calls of a cipher which does not accumulate it: the output
      is that of one call, and all that is missing in the register is that word. */
  lemma SplitWord<R, W(!new), B(!new)>(c: Core<R, W, B>, st: State<R, W>, a: seq<B>, b: seq<B>)
    requires Lawful(c) && !c.flushes && st.nbuf == 0 && 0 < |a| < 4 && |a| + |b| == 4
    ensures
      var h, one := Call(c, Encrypt, st, a), Call(c, Encrypt, st, a + b);
      var k := Call(c, Encrypt, h.0, b);
      h.1 + k.1 == one.1 && k.0.nbuf == one.0.nbuf == 0 && one.0.reg == c.mac(k.0.reg, Pack(c, a + b))
  {
    OpensWord(c, st, a);
    var begun := Begin(c, st.reg);
    var h := Partial(c, Encrypt, begun, a);
    PartialOutput(c, Encrypt, begun, a, 0);
    ClosesWord(c, h.0, b);
    OneWord(c, st, a + b);
    forall i | 0 <= i < 4
      ensures (h.1 + Partial(c, Encrypt, h.0, b).1)[i] == c.mix((a + b)[i], c.key(begun.reg), 8 * i)
    {
      if i < |a| {
        PartialOutput(c, Encrypt, begun, a, i);
      } else {
        PartialOutput(c, Encrypt, h.0, b, i - |a|);
      }
    }
  }

  lemma OneWord<R, W(!new), B(!new)>(c: Core<R, W, B>, st: State<R, W>, s: seq<B>)
    requires Lawful(c) && st.nbuf == 0 && |s| == 4
    ensures
      var one := Call(c, Encrypt, st, s);
      && one.0.nbuf == 0 && one.0.reg == c.mac(c.cycle(st.reg), Pack(c, s))
      && |one.1| == 4 && forall i | 0 <= i < 4 :: one.1[i] == c.mix(s[i], c.key(c.cycle(st.reg)), 8 * i)
  {
    assert s[..4] == s && s[4..] == [];
    var o := Unpack(c, WordOut(c, st.reg, Pack(c, s)));
    assert o + [] == o;
    assert Whole(c, Encrypt, WordStep(c, Encrypt, st.reg, Pack(c, s)), []).1 == [];
  }

  /** The two calls, and what they come to behind the split word `a1 + b1`. */
  lemma SplitCalls<R, W(!new), B(!new)>(c: Core<R, W, B>, st: State<R, W>, a0: seq<B>, a1: seq<B>, b1: seq<B>, b2: seq<B>)
    returns (pre: seq<B>, u: State<R, W>, v: State<R, W>)
    requires Lawful(c) && !c.flushes && Between(st.nbuf) && Call(c, Encrypt, st, a0).0.nbuf == 0
    requires 0 < |a1| < 4 && |a1| + |b1| == 4
    ensures
      var h, one := Call(c, Encrypt, st, a0 + a1), Call(c, Encrypt, st, a0 + a1 + (b1 + b2));
      var k := Call(c, Encrypt, h.0, b1 + b2);
      && u.nbuf == v.nbuf == 0 && u.reg == h.0.reg && v.reg == c.mac(u.reg, Pack(c, a1 + b1))
      && (k.0, h.1 + k.1) == Prefix(pre, Call(c, Encrypt, u, b2))
      && one == Prefix(pre, Call(c, Encrypt, v, b2)) && |pre| == |a0| + 4
  {
    var z := Call(c, Encrypt, st, a0);
    var h1 := Call(c, Encrypt, z.0, a1);
    OpensWord(c, z.0, a1);
    PartialOutput(c, Encrypt, Begin(c, z.0.reg), a1, 0);
    CallAppend(c, Encrypt, st, a0, a1);
    ClosesWord(c, h1.0, b1);
    var k1 := Call(c, Encrypt, h1.0, b1);
    CallAppend(c, Encrypt, h1.0, b1, b2);
    SplitWord(c, z.0, a1, b1);
    var o1 := Call(c, Encrypt, z.0, a1 + b1);
    Rejoin(a0, a1, b1, b2);
    CallAppend(c, Encrypt, st, a0, a1 + b1 + b2);
    CallAppend(c, Encrypt, z.0, a1 + b1, b2);
    u, v, pre := k1.0, o1.0, z.1 + o1.1;
    PrefixTwice(z.1, o1.1, Call(c, Encrypt, v, b2));
    Rejoin(z.1, h1.1, k1.1, Call(c, Encrypt, u, b2).1);
  }

  lemma Rejoin<B>(a: seq<B>, b: seq<B>, c: seq<B>, d: seq<B>)
    ensures a + b + (c + d) == a + (b + c + d) && a + b + (c + d) == a + (b + c) + d
  {
  }

  // ---------- Shannon: the end of a call determines its beginning ----------

  lemma {:induction false} WholeBack(g: Register<Word>, h: Register<Word>, data: seq<Byte>)
    requires Kin(g, h)
    ensures
      var c := CoreOf(Words(Esp32));
      var a, b := Whole(c, Encrypt, g, data).0, Whole(c, Encrypt, h, data).0;
      Kin(a, b) && (SameWords(a, b) ==> SameWords(g, h))
    decreases |data|
  {
    if |data| >= 4 {
      var c := CoreOf(Words(Esp32));
      var w := Pack(c, data[..4]);
      var g', h' := WordStep(c, Encrypt, g, w), WordStep(c, Encrypt, h, w);
      StepKin(g, h, w);
      WholeBack(g', h', data[4..]);
      if SameWords(g', h') {
        MacBack(Esp32, Cycle(Words(Esp32), g), Cycle(Words(Esp32), h), w);
        CycleBack(Esp32, g, h);
      }
    }
  }

  lemma StepKin(g: Register<Word>, h: Register<Word>, w: Word)
    requires Kin(g, h)
    ensures Kin(Cycle(Words(Esp32), g), Cycle(Words(Esp32), h))
    ensures Kin(Mac(Words(Esp32), Cycle(Words(Esp32), g), w), Mac(Words(Esp32), Cycle(Words(Esp32), h), w))
  {
  }

  /** Equal registers at the end of the same data were equal at its beginning. */
  lemma CallBack(u: Cipher<Word>, v: Cipher<Word>, data: seq<Byte>)
    requires u.nbuf == v.nbuf == 0 && Kin(u.reg, v.reg)
    requires
      var c := CoreOf(Words(Esp32));
      SameWords(Call(c, Encrypt, u, data).0.reg, Call(c, Encrypt, v, data).0.reg)
    ensures SameWords(u.reg, v.reg)
  {
    var c := CoreOf(Words(Esp32));
    WholeBack(u.reg, v.reg, data);
    var a, b := Whole(c, Encrypt, u.reg, data), Whole(c, Encrypt, v.reg, data);
    CallReg(c, u, data);
    CallReg(c, v, data);
    if |data| % 4 != 0 {
      CycleBack(Esp32, a.0, b.0);
    }
  }

  lemma CallReg<R, W, B>(c: Core<R, W, B>, st: State<R, W>, data: seq<B>)
    requires st.nbuf == 0
    ensures
      var w := Whole(c, Encrypt, st.reg, data);
      Call(c, Encrypt, st, data).0.reg == if |data| % 4 == 0 then w.0 else c.cycle(w.0)
  {
    WholeLength(c, Encrypt, st.reg, data);
    var w := Whole(c, Encrypt, st.reg, data);
    var rest := data[|w.1|..];
    Leftovers(|data|, |w.1|);
    TailReg(c, st.(reg := w.0), rest);
    assert Aligned(c, Encrypt, st, data) == Prefix(w.1, Tail(c, Encrypt, st.(reg := w.0), rest));
  }

  lemma Leftovers(n: nat, m: nat)
    requires m % 4 == 0 && m <= n < m + 4
    ensures n - m == n % 4
  {
  }

  lemma TailReg<R, W, B>(c: Core<R, W, B>, st: State<R, W>, rest: seq<B>)
    requires st.nbuf == 0 && |rest| < 4
    ensures Tail(c, Encrypt, st, rest).0.reg == if rest == [] then st.reg else c.cycle(st.reg)
  {
  }

  predicate AllEqual(s: seq<Word>) {
    forall i | 0 <= i < |s| - 1 :: s[i + 1] == s[i]
  }

  /** When accumulating a word leaves the register as it is. */
  lemma MacFixed(g: Register<Word>, w: Word)
    requires |g.R| == |g.CRC| == 16
    ensures Mac(Words(Esp32), g, w) == g <==> w == 0 && AllEqual(g.CRC)
  {
    var o, m := Words(Esp32), Mac(Words(Esp32), g, w);
    XorSame(g.R[KEYP], w);
    assert m.R == g.R <==> w == 0 by {
      assert m.R == g.R[KEYP := XorWord(g.R[KEYP], w)];
    }
    if w == 0 {
      CrcFixed(g.CRC);
    }
  }

  lemma CrcFixed(crc: seq<Word>)
    requires |crc| == 16
    ensures Shifted(crc, CrcWord(Words(Esp32), crc, 0)) == crc <==> AllEqual(crc)
  {
    var x := CrcWord(Words(Esp32), crc, 0);
    ShiftFixed(crc, x);
    if AllEqual(crc) {
      FirstEverywhere(crc, 2);
      FirstEverywhere(crc, 15);
      XorThrice(crc[0]);
    }
  }

  lemma ShiftFixed(s: seq<Word>, x: Word)
    requires s != []
    ensures Shifted(s, x) == s <==> AllEqual(s) && s[|s| - 1] == x
  {
    var t := Shifted(s, x);
    assert forall i | 0 <= i < |s| - 1 :: t[i] == s[i + 1];
    assert t[|s| - 1] == x;
  }

  lemma {:induction false} FirstEverywhere(s: seq<Word>, i: nat)
    requires AllEqual(s) && i < |s|
    ensures s[i] == s[0]
  {
    if i > 0 {
      FirstEverywhere(s, i - 1);
      var j := i - 1;
      assert s[j + 1] == s[j];
    }
  }

  lemma XorSame(v: Word, w: Word)
    ensures XorWord(v, w) == v <==> w == 0
  {
  }

  lemma XorThrice(v: Word)
    ensures XorWord(XorWord(XorWord(v, v), v), 0) == v
  {
  }

  // ---------- two calls and one ----------

  /** The second call completes a word that the first one has begun. */
  predicate Splits(st: Cipher<Word>, h: Cipher<Word>, a: seq<Byte>, b: seq<Byte>) {
    h.nbuf != 0 && 8 * |a| > st.nbuf && 8 * |b| >= h.nbuf
  }

  /** That word: the bytes that the first call has left open, and those that complete them. */
  function TheWord(h: Cipher<Word>, a: seq<Byte>, b: seq<Byte>): Word {
    var m, n := Begun(h, a), h.nbuf / 8;
    if 0 <= m < |a| && n <= |b| && |a| - m + n == 4 then Pack(CoreOf(Words(Esp32)), a[m..] + b[..n]) else 0
  }

  /** The first `n` bytes of an output. */
  function UpTo(s: seq<Byte>, n: nat): seq<Byte> {
    if n <= |s| then s[..n] else s
  }

  /** Without such a word the two calls are one. */
  lemma NoSplit(st: Cipher<Word>, a: seq<Byte>, b: seq<Byte>)
    requires Between(st.nbuf) && !Splits(st, Call(CoreOf(Words(Esp32)), Encrypt, st, a).0, a, b)
    ensures
      var c := CoreOf(Words(Esp32));
      var h := Call(c, Encrypt, st, a);
      Call(c, Encrypt, st, a + b) == Prefix(h.1, Call(c, Encrypt, h.0, b))
  {
    var c := CoreOf(Words(Esp32));
    var h := Call(c, Encrypt, st, a);
    if h.0.nbuf == 0 {
      CallAppend(c, Encrypt, st, a, b);
    } else if 8 * |a| < st.nbuf {
      CallPending(c, Encrypt, st, a, b);
    } else if 8 * |a| == st.nbuf {
      EndsAtBoundary(c, st, a);
    } else {
      WordBegun(c, Encrypt, st, a);
      OpenFrom(c, st, a, b, Begun(h.0, a));
    }
  }

  lemma OpenFrom<R, W, B>(c: Core<R, W, B>, st: State<R, W>, a: seq<B>, b: seq<B>, m: nat)
    requires Between(st.nbuf) && m < |a| && Call(c, Encrypt, st, a[..m]).0.nbuf == 0 && |a| - m + |b| < 4
    ensures
      var h := Call(c, Encrypt, st, a);
      Call(c, Encrypt, st, a + b) == Prefix(h.1, Call(c, Encrypt, h.0, b))
  {
    Cut(a, m);
    StillOpen(c, st, a[..m], a[m..], b, a);
  }

  lemma EndsAtBoundary<R, W, B>(c: Core<R, W, B>, st: State<R, W>, a: seq<B>)
    requires Between(st.nbuf) && 8 * |a| == st.nbuf
    ensures Call(c, Encrypt, st, a).0.nbuf == 0
  {
    if st.nbuf == 0 {
      AlignedLeft(c, Encrypt, st, a);
    } else {
      CallSplit(c, Encrypt, st, a, []);
      assert a + [] == a;
      AlignedLeft(c, Encrypt, Completed(c, Partial(c, Encrypt, st, a).0), []);
    }
  }

  /** A word that stays open. */
  lemma StillOpen<R, W, B>(c: Core<R, W, B>, st: State<R, W>, a0: seq<B>, a1: seq<B>, b: seq<B>, a: seq<B>)
    requires Between(st.nbuf) && Call(c, Encrypt, st, a0).0.nbuf == 0 && 0 < |a1| && |a1| + |b| < 4 && a == a0 + a1
    ensures
      var h := Call(c, Encrypt, st, a);
      Call(c, Encrypt, st, a + b) == Prefix(h.1, Call(c, Encrypt, h.0, b))
  {
    var z := Call(c, Encrypt, st, a0);
    Regroup(a0, a1, b);
    CallAppend(c, Encrypt, st, a0, a1);
    CallAppend(c, Encrypt, st, a0, a1 + b);
    OpenTwice(c, z.0, a1, b);
    var h, k := Call(c, Encrypt, z.0, a1), Call(c, Encrypt, Call(c, Encrypt, z.0, a1).0, b);
    ChainValues(Call(c, Encrypt, st, a), Call(c, Encrypt, st, a + b), z.1, h, k);
  }

  lemma Regroup<B>(a: seq<B>, b: seq<B>, c: seq<B>)
    ensures a + b + c == a + (b + c)
  {
  }

  lemma ChainValues<S, B>(a: (S, seq<B>), ab: (S, seq<B>), z: seq<B>, h: (S, seq<B>), k: (S, seq<B>))
    requires a == Prefix(z, h) && ab == Prefix(z, Prefix(h.1, k))
    ensures ab == Prefix(a.1, k) && a.0 == h.0
  {
    PrefixTwice(z, h.1, k);
  }

  lemma OpenTwice<R, W, B>(c: Core<R, W, B>, st: State<R, W>, a: seq<B>, b: seq<B>)
    requires st.nbuf == 0 && 0 < |a| && |a| + |b| < 4
    ensures
      var h := Call(c, Encrypt, st, a);
      Call(c, Encrypt, st, a + b) == Prefix(h.1, Call(c, Encrypt, h.0, b))
  {
    OpensWord(c, st, a);
    OpensWord(c, st, a + b);
    var begun := Begin(c, st.reg);
    PartialAppend(c, Encrypt, begun, a, b);
    var h := Partial(c, Encrypt, begun, a);
    PartialAppend(c, Encrypt, h.0, b, []);
  }

  /** ESP32, two encrypt calls of any lengths: they leave the state of one call if and only if the
      second does not complete a word that the first has begun, or accumulating that word would
      change nothing: it is zero and the words of CRC are all the same.  Then the output is that of
      one call, too; and in any case it is up to the end of that word. */
  lemma Esp32TwoCalls(st: Cipher<Word>, a: seq<Byte>, b: seq<Byte>)
    requires Between(st.nbuf) && |st.reg.R| == |st.reg.CRC| == 16
    ensures
      var c := CoreOf(Words(Esp32));
      var h := Call(c, Encrypt, st, a);
      var k, one := Call(c, Encrypt, h.0, b), Call(c, Encrypt, st, a + b);
      && (Same(k.0, one.0) <==> (Splits(st, h.0, a, b) ==> TheWord(h.0, a, b) == 0 && AllEqual(h.0.reg.CRC)))
      && (Same(k.0, one.0) ==> h.1 + k.1 == one.1)
      && UpTo(h.1 + k.1, |a| + h.0.nbuf / 8) == UpTo(one.1, |a| + h.0.nbuf / 8)
  {
    var c := CoreOf(Words(Esp32));
    var h := Call(c, Encrypt, st, a);
    if Splits(st, h.0, a, b) {
      WordBegun(c, Encrypt, st, a);
      SplitExact(st, a, b, Begun(h.0, a), h.0.nbuf / 8);
    } else {
      NoSplit(st, a, b);
    }
  }

  lemma SplitExact(st: Cipher<Word>, a: seq<Byte>, b: seq<Byte>, m: nat, n: nat)
    requires Between(st.nbuf) && |st.reg.R| == |st.reg.CRC| == 16 && m < |a| && n <= |b| && 0 < n < 4 && |a| - m + n == 4
    requires Call(CoreOf(Words(Esp32)), Encrypt, st, a[..m]).0.nbuf == 0
    ensures
      var c := CoreOf(Words(Esp32));
      var h, one := Call(c, Encrypt, st, a), Call(c, Encrypt, st, a + b);
      var k := Call(c, Encrypt, h.0, b);
      && (Same(k.0, one.0) <==> Pack(c, a[m..] + b[..n]) == 0 && AllEqual(h.0.reg.CRC))
      && (Same(k.0, one.0) ==> h.1 + k.1 == one.1)
      && UpTo(h.1 + k.1, |a| + n) == UpTo(one.1, |a| + n)
  {
    Cut(a, m);
    Cut(b, n);
    SplitParts(st, a[..m], a[m..], b[..n], b[n..], a, b);
  }

  lemma Cut<B>(s: seq<B>, n: nat)
    requires n <= |s|
    ensures s[..n] + s[n..] == s
  {
  }

  lemma SplitParts(st: Cipher<Word>, a0: seq<Byte>, a1: seq<Byte>, b1: seq<Byte>, b2: seq<Byte>, a: seq<Byte>, b: seq<Byte>)
    requires Between(st.nbuf) && |st.reg.R| == |st.reg.CRC| == 16 && 0 < |a1| < 4 && |a1| + |b1| == 4
    requires Call(CoreOf(Words(Esp32)), Encrypt, st, a0).0.nbuf == 0 && a == a0 + a1 && b == b1 + b2
    ensures
      var c := CoreOf(Words(Esp32));
      var h, one := Call(c, Encrypt, st, a), Call(c, Encrypt, st, a + b);
      var k := Call(c, Encrypt, h.0, b);
      && (Same(k.0, one.0) <==> Pack(c, a1 + b1) == 0 && AllEqual(h.0.reg.CRC))
      && (Same(k.0, one.0) ==> h.1 + k.1 == one.1)
      && UpTo(h.1 + k.1, |a0| + 4) == UpTo(one.1, |a0| + 4)
  {
    CodingIsLawful(Esp32);
    var c := CoreOf(Words(Esp32));
    var pre, u, v := SplitCalls(c, st, a0, a1, b1, b2);
    CallSizes(st, a);
    FromThere(u, v, Pack(c, a1 + b1), b2);
    UpToCommon(pre, Call(c, Encrypt, u, b2).1);
    UpToCommon(pre, Call(c, Encrypt, v, b2).1);
  }

  lemma UpToCommon(pre: seq<Byte>, s: seq<Byte>)
    ensures UpTo(pre + s, |pre|) == pre
  {
  }

  /** Behind the split word. */
  lemma FromThere(u: Cipher<Word>, v: Cipher<Word>, w: Word, data: seq<Byte>)
    requires u.nbuf == v.nbuf == 0 && |u.reg.R| == |u.reg.CRC| == 16 && v.reg == Mac(Words(Esp32), u.reg, w)
    ensures
      var c := CoreOf(Words(Esp32));
      var k, one := Call(c, Encrypt, u, data), Call(c, Encrypt, v, data);
      (Same(k.0, one.0) <==> w == 0 && AllEqual(u.reg.CRC)) && (Same(k.0, one.0) ==> k.1 == one.1)
  {
    var c := CoreOf(Words(Esp32));
    var k, one := Call(c, Encrypt, u, data), Call(c, Encrypt, v, data);
    MacFixed(u.reg, w);
    if SameWords(k.0.reg, one.0.reg) {
      CallBack(u, v, data);
      assert v.reg == u.reg;
    }
    if v.reg == u.reg {
      CallSame(c, Encrypt, u, v, data);
    }
  }

  /** The register keeps its size. */
  lemma {:induction false} WholeSizes(g: Register<Word>, data: seq<Byte>)
    requires |g.R| == |g.CRC| == 16
    ensures var h := Whole(CoreOf(Words(Esp32)), Encrypt, g, data).0; |h.R| == |h.CRC| == 16
    decreases |data|
  {
    WholeBack(g, g, data);
  }

  lemma CallSizes(st: Cipher<Word>, data: seq<Byte>)
    requires Between(st.nbuf) && |st.reg.R| == |st.reg.CRC| == 16
    ensures var g := Call(CoreOf(Words(Esp32)), Encrypt, st, data).0.reg; |g.R| == |g.CRC| == 16
  {
    var c := CoreOf(Words(Esp32));
    var h := Partial(c, Encrypt, st, data);
    if st.nbuf == 0 {
      WholeSizes(st.reg, data);
    } else if h.0.nbuf == 0 {
      WholeSizes(h.0.reg, data[|h.1|..]);
    }
  }
}
