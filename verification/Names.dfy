/** Compressed domain names in a packet (section 4.1.4 of RFC 1035): what the readers of mdns.h
    compute, and what it takes for them to see a given list of labels. */
module Names {
  import opened Wire
  import opened Wrappers

  const MAX_SUBSTRINGS: nat := 64
  const MAX_HOPS: nat := 16

  // ---------- mdns_get_next_substring ----------

  /** mdns_string_pair_t; Invalid stands for MDNS_INVALID_POS. */
  datatype Pair = Invalid | Sub(offset: nat, length: nat, ref: bool)

  /** `(val & 0xC0) == 0xC0`. */
  predicate IsRef(b: byte) { b >= 0xC0 }

  /** The target of a pointer: its low fourteen bits. */
  function Pointer(s: Bytes, o: nat): (t: nat)
    requires o + 1 < |s| && IsRef(s[o])
    ensures t < 0x4000
  {
    var high: nat, low: nat := s[o], s[o + 1];
    (high - 0xC0) * 0x100 + low
  }

  /** `mdns_ntohs(...) & 0x3fff`. */
  lemma PointerMask(s: Bytes, o: nat)
    requires o + 1 < |s| && IsRef(s[o])
    ensures
      var high: nat, low: nat := s[o], s[o + 1];
      (high * 0x100 + low) % 0x4000 == Pointer(s, o)
  {
    var high: nat, low: nat := s[o], s[o + 1];
    assert high * 0x100 + low == 3 * 0x4000 + Pointer(s, o);
  }

  /** The loop over pointers, after `hops` of them. */
  function Follow(s: Bytes, offset: nat, hops: nat): (r: Pair)
    requires offset < |s| && hops <= MAX_HOPS
    ensures r.Sub? ==> r.offset + r.length <= |s|
    decreases MAX_HOPS - hops
  {
    if IsRef(s[offset]) then
      if |s| < offset + 2 || Pointer(s, offset) >= |s| || hops == MAX_HOPS then Invalid
      else Follow(s, Pointer(s, offset), hops + 1)
    else if |s| < offset + 1 + s[offset] then Invalid
    else Sub(offset + 1, s[offset], hops > 0)
  }

  /** mdns_get_next_substring on the first |s| bytes of a buffer. */
  function NextSub(s: Bytes, offset: nat): (r: Pair)
    ensures r.Sub? ==> r.offset + r.length <= |s|
  {
    if offset >= |s| then Invalid
    else if s[offset] == 0 then Sub(offset, 0, false)
    else Follow(s, offset, 0)
  }

  // ---------- mdns_string_extract and mdns_string_skip ----------

  /** The reader of a packet, as a function of the position. */
  function Reader(s: Bytes): nat -> Pair {
    (o: nat) => NextSub(s, o)
  }

  /** `length` bytes at `offset`. */
  function Text(s: Bytes, offset: nat, length: nat): Bytes {
    if offset + length <= |s| then s[offset..offset + length] else []
  }

  /** The labels from `cur` on and the position behind the name, after `n` labels; a pointer
      ends the stored part. */
  function Walk(next: nat -> Pair, s: Bytes, cur: nat, n: nat): Option<(seq<Bytes>, nat)>
    decreases MAX_SUBSTRINGS + 1 - n
  {
    match next(cur)
    case Invalid => None
    case Sub(offset, length, ref) =>
      if n > MAX_SUBSTRINGS then None
      else if length == 0 then Some(([], if ref then cur + 2 else offset + 1))
      else Prepended(Walk(next, s, offset + length, n + 1), Text(s, offset, length), if ref then Some(cur + 2) else None)
  }

  /** A label in front, and where the name ends if that was behind a pointer. */
  function Prepended(r: Option<(seq<Bytes>, nat)>, text: Bytes, end: Option<nat>): Option<(seq<Bytes>, nat)> {
    match r
    case None => None
    case Some((labels, e)) => Some(([text] + labels, if end.Some? then end.value else e))
  }

  /** mdns_string_skip stops at the first pointer. */
  function SkipName(next: nat -> Pair, cur: nat, n: nat): Option<nat>
    decreases MAX_SUBSTRINGS + 1 - n
  {
    match next(cur)
    case Invalid => None
    case Sub(offset, length, ref) =>
      if n > MAX_SUBSTRINGS then None
      else if ref then Some(cur + 2)
      else if length == 0 then Some(offset + 1)
      else SkipName(next, offset + length, n + 1)
  }

  /** What extraction and skipping make of the first |s| bytes of a buffer. */
  function Extracted(s: Bytes, offset: nat): Option<(seq<Bytes>, nat)> { Walk(Reader(s), s, offset, 0) }
  function Skipped(s: Bytes, offset: nat): Option<nat> { SkipName(Reader(s), offset, 0) }

  lemma {:induction false} SkipAgrees(next: nat -> Pair, s: Bytes, cur: nat, n: nat)
    requires Walk(next, s, cur, n).Some?
    ensures SkipName(next, cur, n) == Some(Walk(next, s, cur, n).value.1)
    decreases MAX_SUBSTRINGS + 1 - n
  {
    var p := next(cur);
    if p.length > 0 {
      SkipAgrees(next, s, p.offset + p.length, n + 1);
    }
  }

  /** Whatever mdns_string_extract can read, mdns_string_skip passes over in the same way. */
  lemma SkipAgreesWithExtract(s: Bytes, offset: nat)
    requires Extracted(s, offset).Some?
    ensures Skipped(s, offset) == Some(Extracted(s, offset).value.1)
  {
    SkipAgrees(Reader(s), s, offset, 0);
  }

  const DOT: byte := 46

  /** The text form: every label followed by a dot. */
  function Dotted(labels: seq<Bytes>): Bytes {
    if labels == [] then [] else labels[0] + [DOT] + Dotted(labels[1..])
  }

  // ---------- names in memory ----------

  /** A label stored at `at`; `owned` are the bytes that belong to names. */
  predicate Direct(s: Bytes, owned: set<nat>, at: nat, text: Bytes) {
    && 1 <= |text| <= 63
    && at + 1 + |text| <= |s|
    && s[at] == |text|
    && s[at + 1..at + 1 + |text|] == text
    && forall i | at <= i < at + 1 + |text| :: i in owned
  }

  predicate AtRef(s: Bytes, off: nat) { off + 1 < |s| && IsRef(s[off]) }

  function Hop(s: Bytes, off: nat): nat {
    if AtRef(s, off) then Pointer(s, off) else off
  }

  /** A name of these labels can be read at `off`: labels in a row, one pointer to a stored
      label at most at a time, and a zero byte. */
  predicate Reads(s: Bytes, owned: set<nat>, off: nat, labels: seq<Bytes>)
    decreases |labels|
  {
    if labels == [] then
      off < |s| && s[off] == 0 && off in owned
    else
      && (AtRef(s, off) ==> off in owned && off + 1 in owned)
      && Direct(s, owned, Hop(s, off), labels[0])
      && Reads(s, owned, Hop(s, off) + 1 + |labels[0]|, labels[1..])
  }

  /** The position behind the name as stored: pointers end it. */
  function EndOf(s: Bytes, off: nat, labels: seq<Bytes>): nat
    decreases |labels|
  {
    if labels == [] then off + 1
    else if AtRef(s, off) then off + 2
    else EndOf(s, off + 1 + |labels[0]|, labels[1..])
  }

  lemma NextOfLabel(s: Bytes, owned: set<nat>, off: nat, text: Bytes)
    requires Direct(s, owned, Hop(s, off), text)
    ensures NextSub(s, off) == Sub(Hop(s, off) + 1, |text|, AtRef(s, off))
  {
    var at := Hop(s, off);
    assert Follow(s, at, 0) == Sub(at + 1, |text|, false) && Follow(s, at, 1) == Sub(at + 1, |text|, true);
  }

  /** Up to the limit of 64 labels, and not beyond. */
  lemma {:induction false} ReadsIsWalk(next: nat -> Pair, s: Bytes, owned: set<nat>, off: nat, labels: seq<Bytes>, n: nat)
    requires Reads(s, owned, off, labels) && n <= MAX_SUBSTRINGS + 1 && next == Reader(s)
    ensures Walk(next, s, off, n) == if n + |labels| <= MAX_SUBSTRINGS then Some((labels, EndOf(s, off, labels))) else None
    decreases |labels|
  {
    if labels != [] {
      var rest := labels[1..];
      var at := ReadsHead(next, s, owned, off, labels, rest);
      if n <= MAX_SUBSTRINGS {
        ReadsIsWalk(next, s, owned, at + 1 + |labels[0]|, rest, n + 1);
        WalkStep(next, s, off, labels, n, at, rest);
      }
    } else {
      assert next(off) == Sub(off, 0, false);
    }
  }

  /** The first label of a name, as the reader sees it. */
  lemma ReadsHead(next: nat -> Pair, s: Bytes, owned: set<nat>, off: nat, labels: seq<Bytes>, rest: seq<Bytes>) returns (at: nat)
    requires Reads(s, owned, off, labels) && labels != [] && rest == labels[1..] && next == Reader(s)
    ensures at == Hop(s, off) && |labels[0]| > 0 && Text(s, at + 1, |labels[0]|) == labels[0]
    ensures next(off) == Sub(at + 1, |labels[0]|, AtRef(s, off)) && Reads(s, owned, at + 1 + |labels[0]|, rest)
  {
    at := Hop(s, off);
    NextOfLabel(s, owned, off, labels[0]);
  }

  lemma WalkStep(next: nat -> Pair, s: Bytes, off: nat, labels: seq<Bytes>, n: nat, at: nat, rest: seq<Bytes>)
    requires labels != [] && |labels[0]| > 0 && rest == labels[1..] && at == Hop(s, off) && n <= MAX_SUBSTRINGS
    requires next(off) == Sub(at + 1, |labels[0]|, AtRef(s, off)) && Text(s, at + 1, |labels[0]|) == labels[0]
    requires Walk(next, s, at + 1 + |labels[0]|, n + 1) ==
             if n + |labels| <= MAX_SUBSTRINGS then Some((rest, EndOf(s, at + 1 + |labels[0]|, rest))) else None
    ensures Walk(next, s, off, n) == if n + |labels| <= MAX_SUBSTRINGS then Some((labels, EndOf(s, off, labels))) else None
  {
    if n + |labels| <= MAX_SUBSTRINGS {
      WalkPrepend(next, s, off, n, at, labels, EndOf(s, at + 1 + |labels[0]|, rest), AtRef(s, off));
      EndOfStep(s, off, labels);
    }
  }

  lemma WalkPrepend(next: nat -> Pair, s: Bytes, off: nat, n: nat, at: nat, labels: seq<Bytes>, end: nat, ref: bool)
    requires n <= MAX_SUBSTRINGS && labels != [] && |labels[0]| > 0
    requires next(off) == Sub(at + 1, |labels[0]|, ref) && Text(s, at + 1, |labels[0]|) == labels[0]
    requires Walk(next, s, at + 1 + |labels[0]|, n + 1) == Some((labels[1..], end))
    ensures Walk(next, s, off, n) == Some((labels, if ref then off + 2 else end))
  {
    assert [labels[0]] + labels[1..] == labels;
  }

  lemma EndOfStep(s: Bytes, off: nat, labels: seq<Bytes>)
    requires labels != []
    ensures EndOf(s, off, labels) == if AtRef(s, off) then off + 2 else EndOf(s, Hop(s, off) + 1 + |labels[0]|, labels[1..])
  {
  }

  /** The readers see exactly those labels; a name of more than 64 cannot be extracted. */
  lemma ReadsIsExtracted(s: Bytes, owned: set<nat>, off: nat, labels: seq<Bytes>)
    requires Reads(s, owned, off, labels)
    ensures Extracted(s, off) == if |labels| <= MAX_SUBSTRINGS then Some((labels, EndOf(s, off, labels))) else None
    ensures |labels| <= MAX_SUBSTRINGS ==> Skipped(s, off) == Some(EndOf(s, off, labels))
  {
    ReadsIsWalk(Reader(s), s, owned, off, labels, 0);
    if |labels| <= MAX_SUBSTRINGS {
      SkipAgreesWithExtract(s, off);
    }
  }

  /** `t` keeps the bytes of `s` that belong to names. */
  predicate Keeps(s: Bytes, t: Bytes, owned: set<nat>) {
    forall i | i in owned :: i < |s| && i < |t| && s[i] == t[i]
  }

  lemma DirectStays(s: Bytes, t: Bytes, owned: set<nat>, owned': set<nat>, at: nat, text: Bytes)
    requires Direct(s, owned, at, text) && Keeps(s, t, owned) && owned <= owned'
    ensures Direct(t, owned', at, text)
  {
    assert at + |text| in owned && at in owned;
    forall i | 0 <= i < |text|
      ensures t[at + 1 + i] == text[i]
    {
      assert at + 1 + i in owned && text[i] == s[at + 1..at + 1 + |text|][i];
    }
  }

  /** A name stays readable as long as its bytes stay. */
  lemma {:induction false} ReadsStays(s: Bytes, t: Bytes, owned: set<nat>, owned': set<nat>, off: nat, labels: seq<Bytes>)
    requires Reads(s, owned, off, labels) && Keeps(s, t, owned) && owned <= owned'
    ensures Reads(t, owned', off, labels) && EndOf(t, off, labels) == EndOf(s, off, labels)
    decreases |labels|
  {
    if labels != [] {
      var at := Hop(s, off);
      HopStays(s, t, owned, off, labels[0], at);
      DirectStays(s, t, owned, owned', at, labels[0]);
      ReadsStays(s, t, owned, owned', at + 1 + |labels[0]|, labels[1..]);
    }
  }

  lemma HopStays(s: Bytes, t: Bytes, owned: set<nat>, off: nat, text: Bytes, at: nat)
    requires at == Hop(s, off) && Direct(s, owned, at, text) && (AtRef(s, off) ==> off in owned && off + 1 in owned) && Keeps(s, t, owned)
    ensures (AtRef(s, off) <==> AtRef(t, off)) && Hop(t, off) == at
  {
    assert at in owned;
  }

  // ---------- text ----------

  /** The first dot, or the end. */
  function Dot(s: Bytes): (d: nat)
    ensures d <= |s| && (d < |s| ==> s[d] == DOT)
  {
    if s == [] || s[0] == DOT then 0 else 1 + Dot(s[1..])
  }

  function Split(s: Bytes): (r: seq<Bytes>)
    ensures r != []
    decreases |s|
  {
    if Dot(s) == |s| then [s] else [s[..Dot(s)]] + Split(s[Dot(s) + 1..])
  }

  /** A name without its final dot, and its labels. */
  function Stem(name: Bytes): Bytes {
    if name != [] && name[|name| - 1] == DOT then name[..|name| - 1] else name
  }

  function LabelsOf(name: Bytes): seq<Bytes> {
    if Stem(name) == [] then [] else Split(Stem(name))
  }

  /** Reading the labels of a name back as text gives the name with a final dot. */
  lemma {:induction false} SplitJoins(s: Bytes)
    ensures Dotted(Split(s)) == s + [DOT]
    decreases |s|
  {
    var d := Dot(s);
    if d < |s| {
      var rest := s[d + 1..];
      SplitJoins(rest);
      DottedCons(s[..d], Split(rest));
      AroundDot(s, d);
    } else {
      DottedCons(s, []);
      assert s[..d] == s && [s] + [] == [s];
    }
  }

  lemma DottedCons(text: Bytes, labels: seq<Bytes>)
    ensures Dotted([text] + labels) == text + [DOT] + Dotted(labels)
  {
    assert ([text] + labels)[1..] == labels;
  }

  lemma AroundDot(s: Bytes, d: nat)
    requires d < |s| && s[d] == DOT
    ensures s[..d] + [DOT] + (s[d + 1..] + [DOT]) == s + [DOT]
  {
    assert s == s[..d] + [s[d]] + s[d + 1..];
  }

  /** A name that is not the root, as text. */
  lemma NameText(name: Bytes)
    requires Stem(name) != []
    ensures Dotted(LabelsOf(name)) == Stem(name) + [DOT]
  {
    SplitJoins(Stem(name));
  }

  // ---------- names the writer handles ----------

  /** Labels of 1 to 63 bytes, of which no run is repeated right behind itself or at the end. */
  predicate Proper(labels: seq<Bytes>) {
    && (forall i | 0 <= i < |labels| :: 1 <= |labels[i]| <= 63)
    && (forall m, k | 0 <= m < k < |labels| :: Apart(labels, m, k))
  }

  /** The labels from `m` to `k` and those from `k` on differ somewhere. */
  predicate Apart(labels: seq<Bytes>, m: nat, k: nat)
    requires m < k < |labels|
  {
    !(labels[m..k] <= labels[k..]) && !(labels[k..] <= labels[m..k])
  }

  /** So no end of the name is found again further in front. */
  lemma ApartDiffer(labels: seq<Bytes>, m: nat, k: nat)
    requires m < k < |labels| && labels[k..] <= labels[m..]
    ensures !Apart(labels, m, k)
  {
    if |labels| - k <= k - m {
      assert labels[k..] == labels[m..k][..|labels| - k];
    } else {
      assert labels[m..k] == labels[m..][..|labels| - k][..k - m] == labels[k..][..k - m];
    }
  }

  /** Names without a repeated label are such names. */
  lemma DistinctIsProper(labels: seq<Bytes>)
    requires forall i | 0 <= i < |labels| :: 1 <= |labels[i]| <= 63
    requires forall i, j | 0 <= i < j < |labels| :: labels[i] != labels[j]
    ensures Proper(labels)
  {
    forall m, k | 0 <= m < k < |labels|
      ensures Apart(labels, m, k)
    {
      assert labels[m..k][0] == labels[m] && labels[k..][0] == labels[k];
    }
  }

  // A name whose pointer leads back into it.

  /** Labels stored in a row, and behind them a pointer to the `m`-th. */
  ghost predicate PointsBack(s: Bytes, owned: set<nat>, start: nat, labels: seq<Bytes>, k: nat, m: nat) {
    && m < k <= |labels| && Stored(s, owned, start, labels, k)
    && AtRef(s, LabelStart(start, labels, k)) && Pointer(s, LabelStart(start, labels, k)) == LabelStart(start, labels, m)
  }

  lemma {:induction false} WalkInCircles(next: nat -> Pair, s: Bytes, owned: set<nat>, start: nat, labels: seq<Bytes>, k: nat, m: nat,
                                         x: nat, n: nat)
    requires PointsBack(s, owned, start, labels, k, m) && x <= k && n <= MAX_SUBSTRINGS + 1 && next == Reader(s)
    ensures Walk(next, s, LabelStart(start, labels, x), n) == None
    decreases MAX_SUBSTRINGS + 1 - n
  {
    var z := CircleStep(s, owned, start, labels, k, m, x);
    if n <= MAX_SUBSTRINGS {
      WalkInCircles(next, s, owned, start, labels, k, m, z, n + 1);
    }
  }

  /** From every position in it the reader gets to another one. */
  lemma CircleStep(s: Bytes, owned: set<nat>, start: nat, labels: seq<Bytes>, k: nat, m: nat, x: nat) returns (z: nat)
    requires PointsBack(s, owned, start, labels, k, m) && x <= k
    ensures z <= k
    ensures
      var p := NextSub(s, LabelStart(start, labels, x));
      p.Sub? && p.length > 0 && p.offset + p.length == LabelStart(start, labels, z)
  {
    var y := if x == k then m else x;
    z := y + 1;
    assert Direct(s, owned, LabelStart(start, labels, y), labels[y]);
    NextOfLabel(s, owned, LabelStart(start, labels, x), labels[y]);
  }

  /** Such a name cannot be extracted. */
  lemma PointsBackUnreadable(s: Bytes, owned: set<nat>, start: nat, labels: seq<Bytes>, k: nat, m: nat)
    requires PointsBack(s, owned, start, labels, k, m)
    ensures Extracted(s, start) == None
  {
    WalkInCircles(Reader(s), s, owned, start, labels, k, m, 0, 0);
  }

  /** `last` is the last label, and occurs nowhere else. */
  predicate EndsIn(labels: seq<Bytes>, last: Bytes) {
    && labels != [] && labels[|labels| - 1] == last
    && forall i | 0 <= i < |labels| - 1 :: labels[i] != last
  }

  lemma EndsInSuffix(labels: seq<Bytes>, last: Bytes, k: nat)
    requires EndsIn(labels, last) && k < |labels|
    ensures EndsIn(labels[k..], last)
  {
  }

  /** A name that begins like `rest` is `rest`: the shared label occurs only last. */
  lemma PrefixIsAll(tail: seq<Bytes>, rest: seq<Bytes>, last: Bytes)
    requires EndsIn(tail, last) && EndsIn(rest, last) && rest <= tail
    ensures tail == rest
  {
    assert tail[|rest| - 1] == last;
  }

  /** Where label `m` of a name starting at `start` goes. */
  function LabelStart(start: nat, labels: seq<Bytes>, m: nat): nat
    requires m <= |labels|
  {
    if m == 0 then start else LabelStart(start, labels, m - 1) + 1 + |labels[m - 1]|
  }

  /** Labels further on start further on. */
  lemma {:induction false} LabelStartGrows(start: nat, labels: seq<Bytes>, k: nat, m: nat)
    requires k <= m <= |labels|
    ensures LabelStart(start, labels, k) + (if k < m then 1 + |labels[k]| else 0) <= LabelStart(start, labels, m)
    decreases m
  {
    if k < m {
      LabelStartGrows(start, labels, k, m - 1);
    }
  }

  /** The first `k` labels are stored in a row from `start` on. */
  predicate Stored(s: Bytes, owned: set<nat>, start: nat, labels: seq<Bytes>, k: nat)
    requires k <= |labels|
  {
    forall m {:trigger Direct(s, owned, LabelStart(start, labels, m), labels[m])} | 0 <= m < k ::
      Direct(s, owned, LabelStart(start, labels, m), labels[m])
  }

  /** Labels that agree up to the `k`-th go to the same places. */
  lemma {:induction false} LabelStartAgrees(start: nat, a: seq<Bytes>, b: seq<Bytes>, k: nat, m: nat)
    requires m <= k <= |a| && k <= |b| && a[..k] == b[..k]
    ensures LabelStart(start, a, m) == LabelStart(start, b, m)
    decreases m
  {
    if m > 0 {
      LabelStartAgrees(start, a, b, k, m - 1);
      assert a[m - 1] == a[..k][m - 1] == b[..k][m - 1];
    }
  }

  lemma StoredAgrees(s: Bytes, owned: set<nat>, start: nat, a: seq<Bytes>, b: seq<Bytes>, k: nat)
    requires k <= |a| && k <= |b| && a[..k] == b[..k] && Stored(s, owned, start, a, k)
    ensures Stored(s, owned, start, b, k) && LabelStart(start, b, k) == LabelStart(start, a, k)
  {
    LabelStartAgrees(start, a, b, k, k);
    forall m | 0 <= m < k
      ensures Direct(s, owned, LabelStart(start, b, m), b[m])
    {
      LabelStartAgrees(start, a, b, k, m);
      assert a[m] == a[..k][m] == b[..k][m];
    }
  }

  lemma StoredAt(s: Bytes, owned: set<nat>, start: nat, labels: seq<Bytes>, k: nat, m: nat)
    requires m < k <= |labels| && Stored(s, owned, start, labels, k)
    ensures Direct(s, owned, LabelStart(start, labels, m), labels[m])
    ensures LabelStart(start, labels, m + 1) == LabelStart(start, labels, m) + 1 + |labels[m]|
  {
  }

  lemma OneMore(s: Bytes, owned: set<nat>, at: nat, labels: seq<Bytes>, next: nat, rest: seq<Bytes>)
    requires labels != [] && Direct(s, owned, at, labels[0]) && next == at + 1 + |labels[0]| && rest == labels[1..]
    requires Reads(s, owned, next, rest)
    ensures Reads(s, owned, at, labels) && EndOf(s, at, labels) == EndOf(s, next, rest)
  {
  }

  lemma ThroughPointer(t: Bytes, owned: set<nat>, at: nat, ref: nat, labels: seq<Bytes>)
    requires labels != [] && AtRef(t, at) && Pointer(t, at) == ref && !AtRef(t, ref)
    requires Reads(t, owned, ref, labels) && at in owned && at + 1 in owned
    ensures Reads(t, owned, at, labels) && EndOf(t, at, labels) == at + 2
  {
  }

  /** Once the rest can be read behind them, every suffix can be read at its label, and the name
      ends where the rest does. */
  lemma Completes(s: Bytes, owned: set<nat>, start: nat, labels: seq<Bytes>, k: nat, m: nat)
    requires m <= k <= |labels| && Stored(s, owned, start, labels, k)
    requires Reads(s, owned, LabelStart(start, labels, k), labels[k..])
    ensures Reads(s, owned, LabelStart(start, labels, m), labels[m..])
    ensures EndOf(s, LabelStart(start, labels, m), labels[m..]) == EndOf(s, LabelStart(start, labels, k), labels[k..])
  {
    CompletesFrom(s, owned, start, labels, k, m, labels[m..], EndOf(s, LabelStart(start, labels, k), labels[k..]));
  }

  /** The same, with `a` for the suffix. */
  lemma {:induction false} CompletesFrom(s: Bytes, owned: set<nat>, start: nat, labels: seq<Bytes>, k: nat, m: nat, a: seq<Bytes>, end: nat)
    requires m <= k <= |labels| && Stored(s, owned, start, labels, k) && a == labels[m..]
    requires Reads(s, owned, LabelStart(start, labels, k), labels[k..])
    requires end == EndOf(s, LabelStart(start, labels, k), labels[k..])
    ensures Reads(s, owned, LabelStart(start, labels, m), a) && EndOf(s, LabelStart(start, labels, m), a) == end
    decreases k - m
  {
    if m < k {
      var b := labels[m + 1..];
      CompletesFrom(s, owned, start, labels, k, m + 1, b, end);
      CompletesStep(s, owned, start, labels, k, m, a, b);
    }
  }

  lemma CompletesStep(s: Bytes, owned: set<nat>, start: nat, labels: seq<Bytes>, k: nat, m: nat, a: seq<Bytes>, b: seq<Bytes>)
    requires m < k <= |labels| && Stored(s, owned, start, labels, k) && a == labels[m..] && b == labels[m + 1..]
    requires Reads(s, owned, LabelStart(start, labels, m + 1), b)
    ensures Reads(s, owned, LabelStart(start, labels, m), a)
    ensures EndOf(s, LabelStart(start, labels, m), a) == EndOf(s, LabelStart(start, labels, m + 1), b)
  {
    StoredAt(s, owned, start, labels, k, m);
    assert a[0] == labels[m] && a[1..] == b;
    OneMore(s, owned, LabelStart(start, labels, m), a, LabelStart(start, labels, m + 1), b);
  }
}
