/** What a key or nonce does to the register (platform_posix.c, platform_esp32.c: shannon_load_key): it
    is loaded as little-endian words, the last one padded, and its length behind them.  CRC is the copy
    taken then, before diffusion. */
module KeyLoading {
  import opened WordStream
  import opened Shannon
  import opened ShannonWords
  import opened ShannonLaws
  import opened ShannonSteps

  // ---------- words in a row ----------

  /** The register behind the words `ws`, for any step that takes one word. */
  function Loaded<R, W>(f: (R, W) -> R, r: R, ws: seq<W>): R
    decreases |ws|
  {
    if ws == [] then r else Loaded(f, f(r, ws[0]), ws[1..])
  }

  /** The step leaves a different register for a different register, or a different word; it stores
      what it makes of the word at 12, and moves what was below 13 down by one. */
  ghost predicate Tells<W(!new)>(f: (seq<W>, W) -> seq<W>) {
    && (forall r: seq<W>, k: W | |r| == 16 :: |f(r, k)| == 16)
    && (forall r: seq<W>, s: seq<W>, k: W | |r| == |s| == 16 && f(r, k) == f(s, k) :: r == s)
    && (forall r: seq<W>, k: W, m: W | |r| == 16 && f(r, k)[12] == f(r, m)[12] :: k == m)
    && (forall r: seq<W>, k: W, i: int | |r| == 16 && 1 <= i < 12 :: f(r, k)[i] == r[i + 1])
  }

  lemma {:induction false} LoadedMore<R, W>(f: (R, W) -> R, r: R, ws: seq<W>, w: W)
    ensures Loaded(f, r, ws + [w]) == f(Loaded(f, r, ws), w)
    decreases |ws|
  {
    if ws == [] {
      assert ws + [w] == [w];
    } else {
      assert (ws + [w])[1..] == ws[1..] + [w];
      LoadedMore(f, f(r, ws[0]), ws[1..], w);
    }
  }

  lemma {:induction false} LoadedBack<W(!new)>(f: (seq<W>, W) -> seq<W>, r: seq<W>, s: seq<W>, ws: seq<W>)
    requires Tells(f) && |r| == |s| == 16 && Loaded(f, r, ws) == Loaded(f, s, ws)
    ensures r == s
    decreases |ws|
  {
    if ws != [] {
      LoadedBack(f, f(r, ws[0]), f(s, ws[0]), ws[1..]);
    }
  }

  /** Words that differ in one place leave different registers. */
  lemma {:induction false} OneWordTells<W(!new)>(f: (seq<W>, W) -> seq<W>, r: seq<W>, ws: seq<W>, vs: seq<W>, j: nat)
    requires Tells(f) && |r| == 16 && j < |ws| == |vs| && ws[j] != vs[j]
    requires forall i | 0 <= i < |ws| && i != j :: ws[i] == vs[i]
    ensures Loaded(f, r, ws) != Loaded(f, r, vs)
    decreases j
  {
    if j > 0 {
      OneWordTells(f, f(r, ws[0]), ws[1..], vs[1..], j - 1);
    } else {
      assert ws[1..] == vs[1..];
      if Loaded(f, r, ws) == Loaded(f, r, vs) {
        LoadedBack(f, f(r, ws[0]), f(r, vs[0]), ws[1..]);
      }
    }
  }

  /** Words that are loaded only move the rest of the register. */
  lemma {:induction false} LoadedMoves<W(!new)>(f: (seq<W>, W) -> seq<W>, r: seq<W>, ws: seq<W>, i: nat)
    requires Tells(f) && |r| == 16 && 1 <= i && i + |ws| <= 12
    ensures |Loaded(f, r, ws)| == 16 && Loaded(f, r, ws)[i] == r[i + |ws|]
    decreases |ws|
  {
    if ws != [] {
      LoadedMoves(f, f(r, ws[0]), ws[1..], i);
    }
  }

  /** The word before at most eleven others can be read off the register. */
  lemma FirstTells<W(!new)>(f: (seq<W>, W) -> seq<W>, r: seq<W>, w: W, ws: seq<W>, v: W, vs: seq<W>)
    requires Tells(f) && |r| == 16 && |ws| == |vs| <= 11 && Loaded(f, f(r, w), ws) == Loaded(f, f(r, v), vs)
    ensures w == v
  {
    LoadedMoves(f, f(r, w), ws, 12 - |ws|);
    LoadedMoves(f, f(r, v), vs, 12 - |ws|);
    WordTold(f, r, w, v);
  }

  lemma WordTold<W(!new)>(f: (seq<W>, W) -> seq<W>, r: seq<W>, k: W, m: W)
    requires Tells(f) && |r| == |f(r, k)| == |f(r, m)| == 16 && f(r, k)[12] == f(r, m)[12]
    ensures k == m
  {
  }

  /** At most twelve words can be read off the register. */
  lemma {:induction false} WordsTell<W(!new)>(f: (seq<W>, W) -> seq<W>, r: seq<W>, ws: seq<W>, vs: seq<W>)
    requires Tells(f) && |r| == 16 && |ws| == |vs| <= 12 && Loaded(f, r, ws) == Loaded(f, r, vs)
    ensures ws == vs
    decreases |ws|
  {
    if ws != [] {
      FirstTells(f, r, ws[0], ws[1..], vs[0], vs[1..]);
      WordsTell(f, f(r, ws[0]), ws[1..], vs[1..]);
      FirstAndRest(ws, vs);
    }
  }

  lemma FirstAndRest<W>(ws: seq<W>, vs: seq<W>)
    requires ws != [] && vs != [] && ws[0] == vs[0] && ws[1..] == vs[1..]
    ensures ws == vs
  {
    assert ws == [ws[0]] + ws[1..] && vs == [vs[0]] + vs[1..];
  }

  // ---------- the words of a key ----------

  function ByteOr0(key: seq<Byte>, i: nat): (w: Word)
    ensures w < 256
  {
    if i < |key| then key[i] as Word else 0
  }

  function LittleEndian(a: Word, b: Word, c: Word, d: Word): Word {
    a | (b << 8) | (c << 16) | (d << 24)
  }

  function WordOf(key: seq<Byte>, j: nat): Word {
    LittleEndian(ByteOr0(key, 4 * j), ByteOr0(key, 4 * j + 1), ByteOr0(key, 4 * j + 2), ByteOr0(key, 4 * j + 3))
  }

  function KeyWords(key: seq<Byte>): (ws: seq<Word>)
    ensures |ws| == (|key| + 3) / 4 && forall j | 0 <= j < |ws| :: ws[j] == WordOf(key, j)
  {
    seq((|key| + 3) / 4, j requires 0 <= j => WordOf(key, j))
  }

  /** A word is added, and a cycle follows. */
  function Adding(p: Platform, konst: Word): (seq<Word>, Word) -> seq<Word> {
    (r: seq<Word>, k: Word) => NextR(Words(p), AddedR(Words(p), r, k), konst)
  }

  lemma WordsBehind(key: seq<Byte>)
    requires |key| >= 4
    ensures KeyWords(key) == [WordOf(key, 0)] + KeyWords(key[4..])
  {
    var ws, vs := KeyWords(key), KeyWords(key[4..]);
    forall j | 0 <= j < |vs|
      ensures ws[j + 1] == vs[j]
    {
      SameWord(key, j + 1, key[4..], j);
    }
  }

  lemma SameWord(a: seq<Byte>, i: nat, b: seq<Byte>, j: nat)
    requires ByteOr0(a, 4 * i) == ByteOr0(b, 4 * j) && ByteOr0(a, 4 * i + 1) == ByteOr0(b, 4 * j + 1)
    requires ByteOr0(a, 4 * i + 2) == ByteOr0(b, 4 * j + 2) && ByteOr0(a, 4 * i + 3) == ByteOr0(b, 4 * j + 3)
    ensures WordOf(a, i) == WordOf(b, j)
  {
  }

  lemma FirstWord(p: Platform, key: seq<Byte>)
    requires key != []
    ensures WordOf(key, 0) == KeyWord(Words(p), if |key| < 4 then key else key[..4])
  {
    var o, s := Words(p), if |key| < 4 then key else key[..4];
    Assembled(KeyByte(o, s, 0), KeyByte(o, s, 1), KeyByte(o, s, 2), KeyByte(o, s, 3));
    ByteIs(p, key, s, 0);
    ByteIs(p, key, s, 1);
    ByteIs(p, key, s, 2);
    ByteIs(p, key, s, 3);
  }

  lemma ByteIs(p: Platform, key: seq<Byte>, s: seq<Byte>, i: nat)
    requires i < 4 && s == if |key| < 4 then key else key[..4]
    ensures ByteOr0(key, i) == KeyByte(Words(p), s, i) as Word
  {
  }

  lemma Assembled(a: Byte, b: Byte, c: Byte, d: Byte)
    ensures Byte2Word(a, b, c, d) == LittleEndian(a as Word, b as Word, c as Word, d as Word)
  {
  }

  lemma LoadedFirst<R, W>(f: (R, W) -> R, r: R, w: W, ws: seq<W>, all: seq<W>)
    requires all == [w] + ws
    ensures Loaded(f, r, all) == Loaded(f, f(r, w), ws)
  {
    assert all[1..] == ws;
  }

  lemma AddCycleIs(p: Platform, g: Register<Word>, k: Word)
    ensures var h := AddCycle(Words(p), g, k); h.R == Adding(p, g.konst)(g.R, k) && h.konst == g.konst
  {
  }

  lemma LoadTurn<W, B>(o: Ops<W, B>, g: Register<W>, key: seq<B>)
    requires key != []
    ensures
      LoadWords(o, g, key) ==
      if |key| < 4 then AddCycle(o, g, KeyWord(o, key)) else LoadWords(o, AddCycle(o, g, KeyWord(o, key[..4])), key[4..])
  {
  }

  lemma {:induction false} LoadsWords(p: Platform, g: Register<Word>, key: seq<Byte>)
    ensures
      var h := LoadWords(Words(p), g, key);
      h.R == Loaded(Adding(p, g.konst), g.R, KeyWords(key)) && h.konst == g.konst
    decreases |key|
  {
    var o := Words(p);
    if key != [] {
      FirstWord(p, key);
      LoadTurn(o, g, key);
      var w := WordOf(key, 0);
      var h := AddCycle(o, g, w);
      AddCycleIs(p, g, w);
      if |key| < 4 {
        LoadedFirst(Adding(p, g.konst), g.R, w, [], KeyWords(key));
      } else {
        WordsBehind(key);
        LoadsWords(p, h, key[4..]);
        LoadedFirst(Adding(p, g.konst), g.R, w, KeyWords(key[4..]), KeyWords(key));
      }
    }
  }

  /** All that is loaded: the words, and the length. */
  function AllWords(key: seq<Byte>): seq<Word> {
    KeyWords(key) + [(|key| % 0x1_0000_0000) as Word]
  }

  lemma CrcIsLoaded(p: Platform, g: Register<Word>, key: seq<Byte>)
    ensures LoadKey(Words(p), g, key).CRC == Loaded(Adding(p, g.konst), g.R, AllWords(key))
  {
    LoadsWords(p, g, key);
    LoadedMore(Adding(p, g.konst), g.R, KeyWords(key), (|key| % 0x1_0000_0000) as Word);
    CrcCopied(Words(p), g, key);
  }

  lemma CrcCopied<W, B>(o: Ops<W, B>, g: Register<W>, key: seq<B>)
    ensures var h := LoadWords(o, g, key); LoadKey(o, g, key).CRC == NextR(o, AddedR(o, h.R, o.number(|key|)), h.konst)
  {
  }

  // ---------- padding ----------

  function Padded(key: seq<Byte>): seq<Byte> {
    key + seq(if |key| % 4 == 0 then 0 else 4 - |key| % 4, _ => 0)
  }

  /** A key and its zero-padded form load the same words. */
  lemma {:induction false} PaddingLoads(p: Platform, g: Register<Word>, key: seq<Byte>)
    ensures |Padded(key)| % 4 == 0 && KeyWords(Padded(key)) == KeyWords(key)
    ensures LoadWords(Words(p), g, Padded(key)) == LoadWords(Words(p), g, key)
    decreases |key|
  {
    SameKeyWords(key);
    if key == [] {
      assert Padded(key) == [];
    } else {
      FirstWord(p, key);
      FirstWord(p, Padded(key));
      assert KeyWords(Padded(key))[0] == KeyWords(key)[0];
      if |key| < 4 {
        assert Padded(key)[..4] == Padded(key) && Padded(key)[4..] == [];
      } else {
        assert Padded(key)[..4] == key[..4] && Padded(key)[4..] == Padded(key[4..]);
        PaddingLoads(p, AddCycle(Words(p), g, WordOf(key, 0)), key[4..]);
      }
    }
  }

  lemma SameKeyWords(key: seq<Byte>)
    ensures |Padded(key)| % 4 == 0 && KeyWords(Padded(key)) == KeyWords(key)
  {
    var q := Padded(key);
    forall j | 0 <= j < |KeyWords(key)|
      ensures WordOf(q, j) == WordOf(key, j)
    {
      SameWord(q, j, key, j);
    }
  }

  // ---------- what the register tells about the words ----------

  lemma AddedBack(p: Platform, r: seq<Word>, s: seq<Word>, k: Word)
    requires |r| == |s| == 16 && AddedR(Words(p), r, k) == AddedR(Words(p), s, k)
    ensures r == s
  {
    var o := Words(p);
    if p.Posix? {
      RBack(p, XorAt(o, r, 0, k), XorAt(o, s, 0, k), k);
      UpdatedBack(r, s, 0, XorWord(r[0], k), XorWord(s[0], k));
      XorCancels(r[0], s[0], k);
    } else {
      RBack(p, r, s, k);
    }
  }

  lemma NextMoves(p: Platform, r: seq<Word>, konst: Word, i: nat)
    requires |r| == 16 && 1 <= i < 15
    ensures |NextR(Words(p), r, konst)| == 16 && NextR(Words(p), r, konst)[i] == r[i + 1]
  {
  }

  lemma AddedAt(p: Platform, r: seq<Word>, k: Word, i: nat)
    requires |r| == 16 && 1 <= i < 14
    ensures |AddedR(Words(p), r, k)| == 16 && AddedR(Words(p), r, k)[i] == if i == 13 then XorWord(r[13], k) else r[i]
  {
  }

  /** The register of a key is told by the words, and tells them. */
  lemma AddingTells(p: Platform, konst: Word)
    ensures Tells(Adding(p, konst))
  {
    var f, o := Adding(p, konst), Words(p);
    forall r: seq<Word>, s: seq<Word>, k: Word | |r| == |s| == 16 && f(r, k) == f(s, k)
      ensures r == s
    {
      NextRBack(p, AddedR(o, r, k), AddedR(o, s, k), konst);
      AddedBack(p, r, s, k);
    }
    forall r: seq<Word>, k: Word, i: int | |r| == 16 && 1 <= i < 13
      ensures |f(r, k)| == 16 && f(r, k)[i] == if i == 12 then XorWord(r[13], k) else r[i + 1]
    {
      AddedAt(p, r, k, i + 1);
      NextMoves(p, AddedR(o, r, k), konst, i);
    }
    forall r: seq<Word>, k: Word, m: Word | |r| == 16 && f(r, k)[12] == f(r, m)[12]
      ensures k == m
    {
      XorCancels(k, m, r[13]);
    }
  }

  // ---------- keys and nonces ----------

  /** Bytes of equal length that differ, all within the four-byte word `j`. */
  ghost predicate DifferInWord(a: seq<Byte>, b: seq<Byte>, j: nat) {
    |a| == |b| && a != b && forall i | 0 <= i < |a| && i / 4 != j :: a[i] == b[i]
  }

  /** The bytes of a word can be read off it. */
  lemma WordTells(a: seq<Byte>, b: seq<Byte>, i: nat)
    requires i < |a| == |b| && WordOf(a, i / 4) == WordOf(b, i / 4)
    ensures a[i] == b[i]
  {
    var j := i / 4;
    BytesTell(ByteOr0(a, 4 * j), ByteOr0(a, 4 * j + 1), ByteOr0(a, 4 * j + 2), ByteOr0(a, 4 * j + 3),
              ByteOr0(b, 4 * j), ByteOr0(b, 4 * j + 1), ByteOr0(b, 4 * j + 2), ByteOr0(b, 4 * j + 3));
    FourCases(i);
    SameByte(a, b, i);
  }

  lemma FourCases(i: nat)
    ensures var j := i / 4; i == 4 * j || i == 4 * j + 1 || i == 4 * j + 2 || i == 4 * j + 3
  {
  }

  lemma SameByte(a: seq<Byte>, b: seq<Byte>, i: nat)
    requires i < |a| == |b| && ByteOr0(a, i) == ByteOr0(b, i)
    ensures a[i] == b[i]
  {
    Widened(a[i], b[i]);
  }

  lemma Widened(a: Byte, b: Byte)
    requires a as Word == b as Word
    ensures a == b
  {
  }

  lemma BytesTell(a: Word, b: Word, c: Word, d: Word, s: Word, t: Word, u: Word, v: Word)
    requires a < 256 && b < 256 && c < 256 && d < 256 && s < 256 && t < 256 && u < 256 && v < 256
    requires LittleEndian(a, b, c, d) == LittleEndian(s, t, u, v)
    ensures a == s && b == t && c == u && d == v
  {
  }

  lemma SameBytes(a: seq<Byte>, b: seq<Byte>)
    requires |a| == |b| && AllWords(a) == AllWords(b)
    ensures a == b
  {
    assert KeyWords(a) == AllWords(a)[..|AllWords(a)| - 1] && KeyWords(b) == AllWords(b)[..|AllWords(b)| - 1];
    forall i | 0 <= i < |a|
      ensures a[i] == b[i]
    {
      assert KeyWords(a)[i / 4] == KeyWords(b)[i / 4];
      WordTells(a, b, i);
    }
  }

  lemma OneWordDiffers(a: seq<Byte>, b: seq<Byte>, j: nat)
    requires DifferInWord(a, b, j)
    ensures
      var ws, vs := AllWords(a), AllWords(b);
      j < |ws| == |vs| && ws[j] != vs[j] && forall i | 0 <= i < |ws| && i != j :: ws[i] == vs[i]
  {
    var k :| 0 <= k < |a| && a[k] != b[k];
    assert k / 4 == j;
    if WordOf(a, j) == WordOf(b, j) {
      WordTells(a, b, k);
    }
    forall i | 0 <= i < |KeyWords(a)| && i != j
      ensures WordOf(a, i) == WordOf(b, i)
    {
      OtherWord(a, b, j, i);
    }
  }

  lemma OtherWord(a: seq<Byte>, b: seq<Byte>, j: nat, i: nat)
    requires DifferInWord(a, b, j) && i != j
    ensures WordOf(a, i) == WordOf(b, i)
  {
    OtherByte(a, b, j, 4 * i);
    OtherByte(a, b, j, 4 * i + 1);
    OtherByte(a, b, j, 4 * i + 2);
    OtherByte(a, b, j, 4 * i + 3);
    SameWord(a, i, b, i);
  }

  lemma OtherByte(a: seq<Byte>, b: seq<Byte>, j: nat, i: nat)
    requires DifferInWord(a, b, j) && i / 4 != j
    ensures ByteOr0(a, i) == ByteOr0(b, i)
  {
  }

  /** What SetKey and SetNonce leave in CRC. */
  lemma KeyCrc(p: Platform, st: Cipher<Word>, key: seq<Byte>)
    ensures SetKey(Words(p), st, key).reg.CRC == Loaded(Adding(p, InitKonst(p)), InitR(Words(p), 16), AllWords(key))
  {
    var o := Words(p);
    CrcIsLoaded(p, st.reg.(R := InitR(o, 16), konst := o.initKonst), key);
  }

  lemma NonceCrc(p: Platform, st: Cipher<Word>, nonce: seq<Byte>)
    ensures SetNonce(Words(p), st, nonce).reg.CRC == Loaded(Adding(p, InitKonst(p)), st.reg.initR, AllWords(nonce))
  {
    var o := Words(p);
    CrcIsLoaded(p, st.reg.(R := st.reg.initR, konst := o.initKonst), nonce);
  }

  lemma OneWordLeaves(p: Platform, konst: Word, r: seq<Word>, a: seq<Byte>, b: seq<Byte>, j: nat)
    requires DifferInWord(a, b, j) && |r| == 16
    ensures Loaded(Adding(p, konst), r, AllWords(a)) != Loaded(Adding(p, konst), r, AllWords(b))
  {
    AddingTells(p, konst);
    OneWordDiffers(a, b, j);
    OneWordTells(Adding(p, konst), r, AllWords(a), AllWords(b), j);
  }

  lemma AllWordsLeave(p: Platform, konst: Word, r: seq<Word>, a: seq<Byte>, b: seq<Byte>)
    requires |a| == |b| <= 44 && |r| == 16
    ensures Loaded(Adding(p, konst), r, AllWords(a)) == Loaded(Adding(p, konst), r, AllWords(b)) <==> a == b
  {
    if Loaded(Adding(p, konst), r, AllWords(a)) == Loaded(Adding(p, konst), r, AllWords(b)) {
      AddingTells(p, konst);
      WordsTell(Adding(p, konst), r, AllWords(a), AllWords(b));
      SameBytes(a, b);
    }
  }

  /** Two keys of any equal length that differ in one word leave different CRC words, whatever the
      two ciphers did before. */
  lemma KeysTell(p: Platform, st: Cipher<Word>, st': Cipher<Word>, a: seq<Byte>, b: seq<Byte>, j: nat)
    requires DifferInWord(a, b, j)
    ensures SetKey(Words(p), st, a).reg.CRC != SetKey(Words(p), st', b).reg.CRC
  {
    KeyCrc(p, st, a);
    KeyCrc(p, st', b);
    OneWordLeaves(p, InitKonst(p), InitR(Words(p), 16), a, b, j);
  }

  /** Two nonces after the same key. */
  lemma NoncesTell(p: Platform, st: Cipher<Word>, st': Cipher<Word>, a: seq<Byte>, b: seq<Byte>, j: nat)
    requires DifferInWord(a, b, j) && |st.reg.initR| == 16 && st.reg.initR == st'.reg.initR
    ensures SetNonce(Words(p), st, a).reg.CRC != SetNonce(Words(p), st', b).reg.CRC
  {
    NonceCrc(p, st, a);
    NonceCrc(p, st', b);
    OneWordLeaves(p, InitKonst(p), st.reg.initR, a, b, j);
  }

  /** Up to 44 bytes, a key is determined by CRC and its length; the session keys have 32. */
  lemma ShortKeysTell(p: Platform, st: Cipher<Word>, st': Cipher<Word>, a: seq<Byte>, b: seq<Byte>)
    requires |a| == |b| <= 44
    ensures SetKey(Words(p), st, a).reg.CRC == SetKey(Words(p), st', b).reg.CRC <==> a == b
  {
    KeyCrc(p, st, a);
    KeyCrc(p, st', b);
    AllWordsLeave(p, InitKonst(p), InitR(Words(p), 16), a, b);
  }

  lemma ShortNoncesTell(p: Platform, st: Cipher<Word>, st': Cipher<Word>, a: seq<Byte>, b: seq<Byte>)
    requires |a| == |b| <= 44 && |st.reg.initR| == 16 && st.reg.initR == st'.reg.initR
    ensures SetNonce(Words(p), st, a).reg.CRC == SetNonce(Words(p), st', b).reg.CRC <==> a == b
  {
    NonceCrc(p, st, a);
    NonceCrc(p, st', b);
    AllWordsLeave(p, InitKonst(p), st.reg.initR, a, b);
  }

  /** Five bytes are two words, and the length is the third; the padded key has another length, and
      leaves another CRC (PaddedDiffers). */
  lemma FiveBytes(p: Platform, st: Cipher<Word>)
    ensures AllWords([1, 2, 3, 4, 5]) == [0x04030201, 0x00000005, 5]
    ensures
      SetKey(Words(p), st, [1, 2, 3, 4, 5]).reg.CRC ==
      Loaded(Adding(p, InitKonst(p)), InitR(Words(p), 16), [0x04030201, 0x00000005, 5])
  {
    FiveWords([1, 2, 3, 4, 5]);
    KeyCrc(p, st, [1, 2, 3, 4, 5]);
  }

  lemma PaddedDiffers(p: Platform, st: Cipher<Word>)
    ensures SetKey(Words(p), st, [1, 2, 3, 4, 5]).reg.CRC != SetKey(Words(p), st, [1, 2, 3, 4, 5, 0, 0, 0]).reg.CRC
  {
    FiveWords([1, 2, 3, 4, 5]);
    EightWords([1, 2, 3, 4, 5, 0, 0, 0]);
    KeyCrc(p, st, [1, 2, 3, 4, 5]);
    KeyCrc(p, st, [1, 2, 3, 4, 5, 0, 0, 0]);
    LastWordTells(p, InitKonst(p), InitR(Words(p), 16), 0x04030201, 5, 5, 8);
  }

  lemma LastWordTells(p: Platform, konst: Word, r: seq<Word>, a: Word, b: Word, c: Word, d: Word)
    requires |r| == 16 && c != d
    ensures Loaded(Adding(p, konst), r, [a, b, c]) != Loaded(Adding(p, konst), r, [a, b, d])
  {
    AddingTells(p, konst);
    OneWordTells(Adding(p, konst), r, [a, b, c], [a, b, d], 2);
  }

  lemma FiveWords(key: seq<Byte>)
    requires key == [1, 2, 3, 4, 5]
    ensures AllWords(key) == [0x04030201, 0x00000005, 5]
  {
    TwoWords(key);
    assert |key| % 0x1_0000_0000 == 5;
    assert AllWords(key) == KeyWords(key) + [5];
  }

  lemma EightWords(key: seq<Byte>)
    requires key == [1, 2, 3, 4, 5, 0, 0, 0]
    ensures AllWords(key) == [0x04030201, 0x00000005, 8]
  {
    TwoWords(key);
    assert |key| % 0x1_0000_0000 == 8;
    assert AllWords(key) == KeyWords(key) + [8];
  }

  lemma TwoWords(key: seq<Byte>)
    requires key == [1, 2, 3, 4, 5] || key == [1, 2, 3, 4, 5, 0, 0, 0]
    ensures KeyWords(key) == [0x04030201, 0x00000005]
  {
    assert LittleEndian(1, 2, 3, 4) == 0x04030201 && LittleEndian(5, 0, 0, 0) == 5;
    assert ByteOr0(key, 0) == 1 && ByteOr0(key, 1) == 2 && ByteOr0(key, 2) == 3 && ByteOr0(key, 3) == 4;
    assert ByteOr0(key, 4) == 5 && ByteOr0(key, 5) == ByteOr0(key, 6) == ByteOr0(key, 7) == 0;
    assert WordOf(key, 0) == 0x04030201 && WordOf(key, 1) == 5;
  }
}
