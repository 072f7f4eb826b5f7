/** The steps of the Shannon register lose nothing: what a cycle or the accumulation of a word leaves
    determines what it started from. */
module ShannonSteps {
  import opened Shannon
  import opened ShannonWords

  /** Registers of the right size with the same konst. */
  ghost predicate Kin(g: Register<Word>, h: Register<Word>) {
    |g.R| == |h.R| == |g.CRC| == |h.CRC| == 16 && g.konst == h.konst
  }

  ghost predicate SameWords(g: Register<Word>, h: Register<Word>) {
    g.R == h.R && g.CRC == h.CRC
  }

  lemma XorCancels(v: Word, w: Word, m: Word)
    requires XorWord(v, m) == XorWord(w, m) || XorWord(m, v) == XorWord(m, w)
    ensures v == w
  {
    assert (v ^ m) ^ m == v && (w ^ m) ^ m == w && m ^ v == v ^ m && m ^ w == w ^ m;
  }

  lemma RotlCancels(v: Word, w: Word)
    requires Rotl(v, 1) == Rotl(w, 1)
    ensures v == w
  {
    RotlBack(v);
    RotlBack(w);
  }

  lemma RotlBack(v: Word)
    ensures (Rotl(v, 1) >> 1) | (Rotl(v, 1) << 31) == v
  {
    assert Rotl(v, 1) == (v << 1) | (v >> 31);
    ShiftsBack(v);
  }

  lemma ShiftsBack(v: Word)
    ensures (((v << 1) | (v >> 31)) >> 1) | (((v << 1) | (v >> 31)) << 31) == v
  {
  }

  lemma ShiftedBack(r: seq<Word>, s: seq<Word>, x: Word, y: Word)
    requires |r| == |s| == 16 && Shifted(r, x) == Shifted(s, y)
    ensures x == y && forall i | 1 <= i < 16 :: r[i] == s[i]
  {
    var a, b := Shifted(r, x), Shifted(s, y);
    assert a[15] == x && b[15] == y;
    forall i | 1 <= i < 16
      ensures r[i] == s[i]
    {
      assert a[i - 1] == r[i] && b[i - 1] == s[i];
    }
  }

  lemma FeedbackBack(p: Platform, r: seq<Word>, s: seq<Word>, konst: Word)
    requires |r| == |s| == 16 && Feedback(Words(p), r, konst) == Feedback(Words(p), s, konst)
    ensures r == s
  {
    var o := Words(p);
    var x := o.sbox1(o.xor(o.xor(r[12], r[13]), konst));
    var y := o.sbox1(o.xor(o.xor(s[12], s[13]), konst));
    ShiftedBack(r, s, XorWord(x, Rotl(r[0], 1)), XorWord(y, Rotl(s[0], 1)));
    assert x == y;
    XorCancels(Rotl(r[0], 1), Rotl(s[0], 1), x);
    RotlCancels(r[0], s[0]);
  }

  lemma UpdatedBack(s: seq<Word>, t: seq<Word>, i: nat, x: Word, y: Word)
    requires i < |s| == |t| && s[i := x] == t[i := y]
    ensures x == y && forall j | 0 <= j < |s| && j != i :: s[j] == t[j]
  {
    var a, b := s[i := x], t[i := y];
    assert x == a[i] && y == b[i];
    assert forall j | 0 <= j < |s| && j != i :: s[j] == a[j] && t[j] == b[j];
  }

  lemma MixingBack(p: Platform, s: seq<Word>, t: seq<Word>)
    requires |s| == |t| == 16 && XorAt(Words(p), s, 0, Mixing(Words(p), s)) == XorAt(Words(p), t, 0, Mixing(Words(p), t))
    ensures s == t
  {
    var m, n := Mixing(Words(p), s), Mixing(Words(p), t);
    UpdatedBack(s, t, 0, XorWord(s[0], m), XorWord(t[0], n));
    SameMixing(p, s, t);
    XorCancels(s[0], t[0], m);
  }

  lemma SameMixing(p: Platform, s: seq<Word>, t: seq<Word>)
    requires |s| == |t| == 16 && s[2] == t[2] && s[15] == t[15]
    ensures Mixing(Words(p), s) == Mixing(Words(p), t)
  {
  }

  lemma NextRBack(p: Platform, r: seq<Word>, s: seq<Word>, konst: Word)
    requires |r| == |s| == 16 && NextR(Words(p), r, konst) == NextR(Words(p), s, konst)
    ensures r == s
  {
    MixingBack(p, Feedback(Words(p), r, konst), Feedback(Words(p), s, konst));
    FeedbackBack(p, r, s, konst);
  }

  lemma CycleBack(p: Platform, g: Register<Word>, h: Register<Word>)
    requires Kin(g, h) && SameWords(Cycle(Words(p), g), Cycle(Words(p), h))
    ensures SameWords(g, h)
  {
    NextRBack(p, g.R, h.R, g.konst);
  }

  lemma MacBack(p: Platform, g: Register<Word>, h: Register<Word>, w: Word)
    requires Kin(g, h) && SameWords(Mac(Words(p), g, w), Mac(Words(p), h, w))
    ensures SameWords(g, h)
  {
    RBack(p, g.R, h.R, w);
    CrcBack(p, g.CRC, h.CRC, w);
  }

  lemma RBack(p: Platform, r: seq<Word>, s: seq<Word>, w: Word)
    requires |r| == |s| == 16 && XorAt(Words(p), r, KEYP, w) == XorAt(Words(p), s, KEYP, w)
    ensures r == s
  {
    UpdatedBack(r, s, KEYP, XorWord(r[KEYP], w), XorWord(s[KEYP], w));
    XorCancels(r[KEYP], s[KEYP], w);
  }

  lemma CrcBack(p: Platform, r: seq<Word>, s: seq<Word>, w: Word)
    requires |r| == |s| == 16
    requires Shifted(r, CrcWord(Words(p), r, w)) == Shifted(s, CrcWord(Words(p), s, w))
    ensures r == s
  {
    ShiftedBack(r, s, CrcWord(Words(p), r, w), CrcWord(Words(p), s, w));
    XorCancels(XorWord(XorWord(r[0], r[2]), r[15]), XorWord(XorWord(s[0], s[2]), s[15]), w);
    XorCancels(XorWord(r[0], r[2]), XorWord(s[0], s[2]), r[15]);
    XorCancels(r[0], s[0], r[2]);
  }
}
