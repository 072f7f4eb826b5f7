/** The limits of the name readers in numbers (mdns.h: MDNS_MAX_SUBSTRINGS, and the pointer loop of
    mdns_get_next_substring): 64 labels to a name, 16 pointers in a row. */
module Limits {
  import opened Wire
  import opened Wrappers
  import opened Names
  import opened Mdns
  import opened Compression
  import opened Packet

  // ---------- labels ----------

  /** A stored name of up to 64 labels extracts to them, and skipping ends where extracting does; one of
      65 or more cannot be extracted. */
  lemma SixtyFourLabels(s: Bytes, owned: set<nat>, off: nat, labels: seq<Bytes>)
    requires Reads(s, owned, off, labels)
    ensures |labels| <= 64 ==> Extracted(s, off) == Some((labels, EndOf(s, off, labels))) && Skipped(s, off) == Some(EndOf(s, off, labels))
    ensures |labels| >= 65 ==> Extracted(s, off) == None
  {
    ReadsIsExtracted(s, owned, off, labels);
  }

  /** `n` different labels of one byte. */
  function Letters(n: nat): (labels: seq<Bytes>)
    requires n <= 190
    ensures |labels| == n && forall k | 0 <= k < n :: labels[k] == [64 + k]
  {
    seq(n, k requires 0 <= k < n => [64 + k])
  }

  /** Their text, from label `k` on. */
  function LettersText(n: nat, k: nat): (s: Bytes)
    requires k < n <= 190
    ensures |s| == 2 * (n - k) - 1 && s[|s| - 1] == 64 + n - 1
    decreases n - k
  {
    if k + 1 == n then [64 + k] else [64 + k] + [DOT] + LettersText(n, k + 1)
  }

  lemma {:induction false} LettersSplit(n: nat, k: nat)
    requires k < n <= 190
    ensures Split(LettersText(n, k)) == Letters(n)[k..]
    decreases n - k
  {
    LettersFrom(n, k);
    if k + 1 == n {
      SplitLast([64 + k]);
    } else {
      LettersSplit(n, k + 1);
      SplitOne([64 + k] + [DOT] + LettersText(n, k + 1), [64 + k], LettersText(n, k + 1));
    }
  }

  lemma LettersFrom(n: nat, k: nat)
    requires k < n <= 190
    ensures Letters(n)[k..] == [[64 + k]] + (if k + 1 == n then [] else Letters(n)[k + 1..])
  {
    assert Letters(n)[k] == [64 + k];
  }

  lemma LettersLabels(n: nat)
    requires 0 < n <= 190
    ensures LabelsOf(LettersText(n, 0)) == Letters(n) && Proper(Letters(n))
  {
    LettersSplit(n, 0);
    assert Stem(LettersText(n, 0)) == LettersText(n, 0);
    DistinctIsProper(Letters(n));
  }

  /** Entries of the name being written only. */
  ghost predicate OwnEntries(r: Ring, labels: seq<Bytes>, k: nat)
    requires k <= |labels|
  {
    forall j | 0 <= j < |r.tails| :: OwnEntry(labels, k, r.tails[j])
  }

  ghost predicate OwnEntry(labels: seq<Bytes>, k: nat, tail: seq<Bytes>)
    requires k <= |labels|
  {
    exists m :: 0 <= m < k && tail == labels[m..]
  }

  predicate Different(labels: seq<Bytes>) {
    forall i, j | 0 <= i < j < |labels| :: labels[i] != labels[j]
  }

  lemma NoOwnHit(r: Ring, labels: seq<Bytes>, k: nat)
    requires k < |labels| && OwnEntries(r, labels, k) && Different(labels)
    ensures FirstHit(r.tails, labels[k..], 0) == None
  {
    forall j | 0 <= j < |r.tails|
      ensures r.tails[j] != [] && r.tails[j][0] != labels[k..][0]
    {
      assert OwnEntry(labels, k, r.tails[j]);
      var m :| 0 <= m < k && r.tails[j] == labels[m..];
      assert r.tails[j][0] == labels[m];
    }
    NoHit(r.tails, labels[k..]);
  }

  lemma OwnPushed(r: Ring, labels: seq<Bytes>, k: nat)
    requires RingOk(r) && k < |labels| && OwnEntries(r, labels, k)
    ensures OwnEntries(Pushed(r, labels[k..], k), labels, k + 1)
  {
    var r' := Pushed(r, labels[k..], k);
    forall j | 0 <= j < |r'.tails|
      ensures OwnEntry(labels, k + 1, r'.tails[j])
    {
      if j != r.next {
        assert OwnEntry(labels, k, r.tails[j]);
      }
    }
  }

  /** Different labels are all written. */
  lemma {:induction false} AllWritten(r: Ring, labels: seq<Bytes>, k: nat)
    requires RingOk(r) && k <= |labels| && OwnEntries(r, labels, k) && Different(labels)
    ensures Write(r, labels, k).k == |labels|
    decreases |labels| - k
  {
    if k < |labels| {
      NoOwnHit(r, labels, k);
      OwnPushed(r, labels, k);
      AllWritten(Pushed(r, labels[k..], k), labels, k + 1);
    }
  }

  lemma {:induction false} LettersStart(n: nat, k: nat)
    requires k <= n <= 190
    ensures LabelStart(0, Letters(n), k) == 2 * k
    decreases k
  {
    if k > 0 {
      LettersStart(n, k - 1);
    }
  }

  lemma LettersWritten(n: nat)
    requires 0 < n <= 190
    ensures Add(EMPTY_RING, Letters(n)).1 == Letters(n) && EndPos(Write(EMPTY_RING, Letters(n), 0), 0, Letters(n)) == 2 * n + 1
  {
    AllWritten(EMPTY_RING, Letters(n), 0);
    LettersStart(n, n);
    assert Letters(n)[..n] + [] == Letters(n);
  }

  /** A name of `n` different labels, written into an empty packet: it is read back if and only if they
      are at most 64. */
  method WriteLetters(buf: array<byte>, n: nat) returns (end: Option<nat>)
    requires 0 < n <= 190 && buf.Length >= 2 * n + 1
    modifies buf
    ensures end == Some(2 * n + 1)
    ensures Extracted(buf[..2 * n + 1], 0) == if n <= 64 then Some((Letters(n), 2 * n + 1)) else None
    ensures n <= 64 ==> Skipped(buf[..2 * n + 1], 0) == Some(2 * n + 1)
  {
    var p := new Packet(buf, 2 * n + 1);
    end := WriteOne(p, LettersText(n, 0), n);
    LettersRead(p, n);
  }

  lemma LettersRead(p: Packet, n: nat)
    requires 0 < n <= 190 && p.capacity == 2 * n + 1
    requires p.Valid() && p.names == [(0, Letters(n))] && forall i | i in p.owned :: i < 2 * n + 1
    requires EndOf(p.buf[..2 * n + 1], 0, Letters(n)) == 2 * n + 1
    ensures Extracted(p.buf[..2 * n + 1], 0) == if n <= 64 then Some((Letters(n), 2 * n + 1)) else None
    ensures n <= 64 ==> Skipped(p.buf[..2 * n + 1], 0) == Some(2 * n + 1)
  {
    p.Readable(2 * n + 1, 0);
  }

  method WriteOne(p: Packet, name: Bytes, ghost n: nat) returns (end: Option<nat>)
    requires p.Valid() && p.ring == EMPTY_RING && p.names == [] && p.owned == {}
    requires 0 < n <= 190 && p.capacity == 2 * n + 1 && name == LettersText(n, 0)
    modifies p`owned, p`ring, p`names, p.buf, p.table, p.table.offset
    ensures end == Some(2 * n + 1) && p.Valid() && p.names == [(0, Letters(n))] && forall i | i in p.owned :: i < 2 * n + 1
    ensures EndOf(p.buf[..2 * n + 1], 0, Letters(n)) == 2 * n + 1
  {
    LettersLabels(n);
    LettersWritten(n);
    end := p.MakeName(0, name);
  }

  // ---------- the table ----------

  /** The label that entry number `i` was made for, when the same name of `n` labels is written twice. */
  function LabelOf(n: nat, i: nat): nat { if i < n then i else i - n }

  /** The latest of `g` entries that went to place `p`. */
  function LatestAt(g: nat, p: nat): (i: nat)
    requires p < 16 && p < g
    ensures i < g <= i + 16 && i % 16 == p
  {
    assert (16 * (g / 16) + p) % 16 == p && (16 * (g / 16 - 1) + p) % 16 == p;
    if p < g % 16 then 16 * (g / 16) + p else 16 * (g / 16 - 1) + p
  }

  /** The table after `g` entries: the last sixteen, each in its place. */
  function LastSixteen(labels: seq<Bytes>, g: nat): (tails: seq<seq<Bytes>>)
    requires g <= 2 * |labels|
    ensures |tails| == if g < 16 then g else 16
  {
    seq(if g < 16 then g else 16, p requires 0 <= p < 16 && p < g => labels[LabelOf(|labels|, LatestAt(g, p))..])
  }

  predicate Holds(r: Ring, labels: seq<Bytes>, g: nat)
    requires g <= 2 * |labels|
  {
    RingOk(r) && r.next == g % 16 && r.tails == LastSixteen(labels, g)
  }

  lemma LatestNext(g: nat, p: nat)
    requires p < 16 && p < g + 1
    ensures LatestAt(g + 1, p) == if p == g % 16 then g else LatestAt(g, p)
  {
  }

  lemma OneMoreEntry(r: Ring, labels: seq<Bytes>, g: nat, k: nat)
    requires g < 2 * |labels| && Holds(r, labels, g) && k == LabelOf(|labels|, g)
    ensures Holds(Pushed(r, labels[k..], k), labels, g + 1)
  {
    var r' := Pushed(r, labels[k..], k);
    var after := LastSixteen(labels, g + 1);
    forall p | 0 <= p < |after|
      ensures p < |r'.tails| && r'.tails[p] == after[p]
    {
      LatestNext(g, p);
    }
    assert r'.tails == after;
  }

  lemma NotThere(r: Ring, labels: seq<Bytes>, g: nat, k: nat)
    requires Different(labels) && k < |labels| && (g == k || (g == |labels| + k && |labels| > 16)) && Holds(r, labels, g)
    ensures FirstHit(r.tails, labels[k..], 0) == None
  {
    forall j | 0 <= j < |r.tails|
      ensures r.tails[j] != [] && r.tails[j][0] != labels[k..][0]
    {
      var m := LabelOf(|labels|, LatestAt(g, j));
      assert r.tails[j] == labels[m..] && labels[m..][0] == labels[m];
    }
    NoHit(r.tails, labels[k..]);
  }

  /** The ring with an entry for every label from `k` on. */
  function Entries(r: Ring, labels: seq<Bytes>, k: nat): (r': Ring)
    requires RingOk(r) && k <= |labels|
    ensures RingOk(r')
    decreases |labels| - k
  {
    if k == |labels| then r else Entries(Pushed(r, labels[k..], k), labels, k + 1)
  }

  lemma {:induction false} EntriesFill(r: Ring, labels: seq<Bytes>, g: nat, k: nat, end: nat)
    requires k <= |labels| && (g == k || g == |labels| + k) && Holds(r, labels, g) && end == g + |labels| - k
    ensures Holds(Entries(r, labels, k), labels, end)
    decreases |labels| - k
  {
    if k < |labels| {
      OneMoreEntry(r, labels, g, k);
      EntriesFill(Pushed(r, labels[k..], k), labels, g + 1, k + 1, end);
    }
  }

  /** Written a first time, and, if there are more than sixteen labels, also a second time: no label is
      found in the table, the entry for it having been overwritten just before. */
  lemma {:induction false} NoneFound(r: Ring, labels: seq<Bytes>, g: nat, k: nat, w: Written, all: Ring)
    requires Different(labels) && k <= |labels| && (g == k || (g == |labels| + k && |labels| > 16)) && Holds(r, labels, g)
    requires w == Write(r, labels, k) && all == Entries(r, labels, k)
    ensures w == Written(|labels|, [], all)
    decreases |labels| - k
  {
    if k < |labels| {
      var next := Missed(r, labels, g, k, w, all);
      NoneFound(next, labels, g + 1, k + 1, w, all);
    }
  }

  lemma Missed(r: Ring, labels: seq<Bytes>, g: nat, k: nat, w: Written, all: Ring) returns (next: Ring)
    requires Different(labels) && k < |labels| && (g == k || (g == |labels| + k && |labels| > 16)) && Holds(r, labels, g)
    requires w == Write(r, labels, k) && all == Entries(r, labels, k)
    ensures Holds(next, labels, g + 1) && w == Write(next, labels, k + 1) && all == Entries(next, labels, k + 1)
  {
    NotThere(r, labels, g, k);
    OneMoreEntry(r, labels, g, k);
    next := Pushed(r, labels[k..], k);
  }

  /** Entries of the name being written are ends of it. */
  predicate OwnEnds(r: Ring, labels: seq<Bytes>) {
    |r.own| == |r.tails| && forall j | 0 <= j < |r.tails| && 0 <= r.own[j] <= |labels| :: r.tails[j] == labels[r.own[j]..]
  }

  lemma {:induction false} EntriesOwn(r: Ring, labels: seq<Bytes>, k: nat)
    requires RingOk(r) && k <= |labels| && OwnEnds(r, labels)
    ensures OwnEnds(Entries(r, labels, k), labels)
    decreases |labels| - k
  {
    if k < |labels| {
      EntriesOwn(Pushed(r, labels[k..], k), labels, k + 1);
    }
  }

  /** So nothing changes when it is complete. */
  lemma SettledSame(r: Ring, labels: seq<Bytes>)
    requires RingOk(r) && OwnEnds(r, labels)
    ensures Settle(r, labels).tails == r.tails && Settle(r, labels).next == r.next
  {
  }

  lemma FirstTime(labels: seq<Bytes>)
    requires Different(labels)
    ensures Holds(Add(EMPTY_RING, labels).0, labels, |labels|)
  {
    assert LastSixteen(labels, 0) == [];
    NoneFound(EMPTY_RING, labels, 0, 0, Write(EMPTY_RING, labels, 0), Entries(EMPTY_RING, labels, 0));
    EntriesFill(EMPTY_RING, labels, 0, 0, |labels|);
    EntriesOwn(EMPTY_RING, labels, 0);
    assert labels[..|labels|] + [] == labels;
    SettledSame(Entries(EMPTY_RING, labels, 0), labels);
  }

  lemma FirstIsFound(r: Ring, labels: seq<Bytes>)
    requires 0 < |labels| <= 16 && Holds(r, labels, |labels|)
    ensures Write(r, labels, 0).k == 0
  {
    assert LatestAt(|labels|, 0) == 0;
    assert r.tails[0] == labels[0..] == labels;
    assert FirstHit(r.tails, labels[0..], 0).Some?;
  }

  /** The table remembers sixteen labels: a name of different labels, written again after itself, comes to
      nothing but a pointer if and only if there are at most sixteen; otherwise all of it is written. */
  lemma WrittenTwice(labels: seq<Bytes>)
    requires labels != [] && Different(labels)
    ensures Write(Add(EMPTY_RING, labels).0, labels, 0).k == if |labels| <= 16 then 0 else |labels|
  {
    var r := Add(EMPTY_RING, labels).0;
    FirstTime(labels);
    if |labels| <= 16 {
      FirstIsFound(r, labels);
    } else {
      NoneFound(r, labels, |labels|, 0, Write(r, labels, 0), Entries(r, labels, 0));
    }
  }

  // ---------- pointers ----------

  /** From `off`, `n` pointers in a row lead to `at`: two bytes each, of which the upper two bits are set
      and the others are the position. */
  predicate Hops(s: Bytes, off: nat, n: nat, at: nat)
    decreases n
  {
    if n == 0 then off == at
    else
      && off + 1 < |s| && s[off] >= 0xC0
      && (var target := (s[off] as nat - 0xC0) * 0x100 + s[off + 1] as nat; target < |s| && Hops(s, target, n - 1, at))
  }

  lemma {:induction false} FollowHops(s: Bytes, off: nat, n: nat, at: nat, hops: nat)
    requires Hops(s, off, n, at) && off < |s| && at < |s| && s[at] < 0xC0 && at + 1 + s[at] <= |s| && hops <= 16
    ensures Follow(s, off, hops) == if hops + n <= 16 then Sub(at + 1, s[at], hops + n > 0) else Invalid
    decreases n
  {
    if n > 0 && hops < 16 {
      FollowHops(s, Pointer(s, off), n - 1, at, hops + 1);
    }
  }

  /** On any bytes: a label behind up to 16 pointers is found, behind 17 or more it is not. */
  lemma SixteenHops(s: Bytes, off: nat, n: nat, at: nat)
    requires Hops(s, off, n, at) && off < |s| && at < |s| && s[at] < 0xC0 && at + 1 + s[at] <= |s|
    ensures n <= 16 && (n > 0 || s[at] > 0) ==> NextSub(s, off) == Sub(at + 1, s[at], n > 0)
    ensures n >= 17 ==> NextSub(s, off) == Invalid
  {
    FollowHops(s, off, n, at, 0);
  }

  lemma {:induction false} FollowFinds(s: Bytes, off: nat, hops: nat) returns (n: nat, at: nat)
    requires off < |s| && hops <= 16 && Follow(s, off, hops).Sub?
    ensures hops + n <= 16 && Hops(s, off, n, at) && at < |s| && s[at] < 0xC0
    ensures Follow(s, off, hops) == Sub(at + 1, s[at], hops + n > 0)
    decreases 16 - hops
  {
    if IsRef(s[off]) {
      n, at := FollowFinds(s, Pointer(s, off), hops + 1);
      n := n + 1;
    } else {
      n, at := 0, off;
    }
  }

  /** And nothing else is found: an empty label, or one behind at most 16 pointers, all of it in the packet. */
  lemma NothingElse(s: Bytes, off: nat) returns (n: nat, at: nat)
    requires NextSub(s, off).Sub? && s[off] != 0
    ensures n <= 16 && Hops(s, off, n, at) && at < |s| && s[at] < 0xC0 && at + 1 + s[at] <= |s|
    ensures NextSub(s, off) == Sub(at + 1, s[at], n > 0)
  {
    n, at := FollowFinds(s, off, 0);
  }

  /** The name "a" and `n` pointers, each to the one before. */
  function Chain(n: nat): (s: Bytes)
    requires n <= 100
    ensures |s| == 3 + 2 * n && s[0] == 1
  {
    if n == 0 then [1, 97, 0] else Chain(n - 1) + [0xC0, ChainAt(n - 1)]
  }

  /** Where the `n`-th pointer is, or the name itself. */
  function ChainAt(n: nat): nat {
    if n == 0 then 0 else 1 + 2 * n
  }

  lemma {:induction false} ChainHops(n: nat, k: nat)
    requires k <= n <= 100
    ensures Hops(Chain(n), ChainAt(k), k, 0)
    decreases k
  {
    if k > 0 {
      ChainHops(n, k - 1);
      ChainPointer(n, k);
    }
  }

  lemma {:induction false} ChainPointer(n: nat, k: nat)
    requires 0 < k <= n <= 100
    ensures Chain(n)[ChainAt(k)] == 0xC0 && Chain(n)[ChainAt(k) + 1] == ChainAt(k - 1)
    decreases n
  {
    if k < n {
      ChainPointer(n - 1, k);
    }
  }

  lemma {:induction false} ChainFront(n: nat)
    requires n <= 100
    ensures Chain(n)[..3] == [1, 97, 0]
  {
    if n > 0 {
      ChainFront(n - 1);
      assert Chain(n)[..3] == Chain(n - 1)[..3];
    }
  }

  lemma ChainReads(n: nat, s: Bytes)
    requires 0 < n <= 100 && s == Chain(n)
    ensures NextSub(s, 1 + 2 * n) == (if n <= 16 then Sub(1, 1, true) else Invalid)
    ensures s[1] == 97 && NextSub(s, 2) == Sub(2, 0, false)
  {
    ChainHops(n, n);
    ChainFront(n);
    assert s[1] == s[..3][1] && s[2] == s[..3][2];
    SixteenHops(s, 1 + 2 * n, n, 0);
  }

  /** The name extracted through the last of them. */
  lemma ChainExtracts(n: nat, s: Bytes)
    requires 0 < n <= 100 && s == Chain(n)
    ensures Extracted(s, 1 + 2 * n) == if n <= 16 then Some(([[97]], 3 + 2 * n)) else None
  {
    ChainReads(n, s);
    ChainWalk(Reader(s), s, 1 + 2 * n);
  }

  lemma ChainWalk(next: nat -> Pair, s: Bytes, off: nat)
    requires |s| >= 3 && s[1] == 97 && next(2) == Sub(2, 0, false)
    ensures next(off) == Sub(1, 1, true) ==> Walk(next, s, off, 0) == Some(([[97]], off + 2))
    ensures next(off) == Invalid ==> Walk(next, s, off, 0) == None
  {
    assert Walk(next, s, 2, 1) == Some(([], 3));
    assert Text(s, 1, 1) == [97];
    assert [[97]] + [] == [[97]];
  }

  // ---------- names in any bytes ----------

  /** Labels, each found where the one before ends, directly or over pointers, and behind them an empty one;
      `next` finds a label. */
  predicate Spelled(next: nat -> Pair, s: Bytes, off: nat, labels: seq<Bytes>)
    decreases |labels|
  {
    match next(off)
    case Invalid => false
    case Sub(at, length, _) =>
      if labels == [] then length == 0
      else length > 0 && Text(s, at, length) == labels[0] && Spelled(next, s, at + length, labels[1..])
  }

  /** Two bytes behind the first pointer, or one behind the empty label. */
  function EndOfAny(next: nat -> Pair, off: nat, n: nat): nat
    decreases n
  {
    match next(off)
    case Invalid => off
    case Sub(at, length, ref) => if ref then off + 2 else if n == 0 then at + 1 else EndOfAny(next, at + length, n - 1)
  }

  lemma {:induction false} WalkIsSpelled(next: nat -> Pair, s: Bytes, cur: nat, n: nat)
    requires Walk(next, s, cur, n).Some?
    ensures
      var (labels, end) := Walk(next, s, cur, n).value;
      n + |labels| <= 64 && Spelled(next, s, cur, labels) && end == EndOfAny(next, cur, |labels|)
    decreases 65 - n
  {
    var p := next(cur);
    if p.length > 0 {
      WalkIsSpelled(next, s, p.offset + p.length, n + 1);
      var rest, text := Walk(next, s, p.offset + p.length, n + 1).value.0, Text(s, p.offset, p.length);
      assert ([text] + rest)[1..] == rest;
    }
  }

  lemma {:induction false} SpelledIsWalked(next: nat -> Pair, s: Bytes, cur: nat, n: nat, labels: seq<Bytes>)
    requires Spelled(next, s, cur, labels) && n + |labels| <= 64
    ensures Walk(next, s, cur, n).Some? && Walk(next, s, cur, n).value.0 == labels
    decreases |labels|
  {
    if labels != [] {
      var rest, p := labels[1..], next(cur);
      SpelledIsWalked(next, s, p.offset + p.length, n + 1, rest);
      assert [labels[0]] + rest == labels;
    }
  }

  /** What can be extracted from a packet is exactly what is spelled there, up to 64 labels of any length. */
  lemma ExtractedExact(s: Bytes, off: nat, labels: seq<Bytes>)
    ensures
      Extracted(s, off).Some? && Extracted(s, off).value.0 == labels <==>
      |labels| <= 64 && Spelled(Reader(s), s, off, labels)
    ensures Extracted(s, off).Some? ==> Extracted(s, off).value.1 == EndOfAny(Reader(s), off, |Extracted(s, off).value.0|)
  {
    if Extracted(s, off).Some? {
      WalkIsSpelled(Reader(s), s, off, 0);
    }
    if |labels| <= 64 && Spelled(Reader(s), s, off, labels) {
      SpelledIsWalked(Reader(s), s, off, 0, labels);
    }
  }

  /** `n` labels in a row, and behind them a pointer that leads somewhere, or an empty label, ending at `end`. */
  predicate Passes(next: nat -> Pair, off: nat, n: nat, end: nat)
    decreases n
  {
    match next(off)
    case Invalid => false
    case Sub(at, length, ref) =>
      if n == 0 then (ref || length == 0) && end == if ref then off + 2 else at + 1
      else !ref && length > 0 && Passes(next, at + length, n - 1, end)
  }

  lemma {:induction false} SkipIsPassed(next: nat -> Pair, cur: nat, n: nat) returns (m: nat)
    requires SkipName(next, cur, n).Some?
    ensures n + m <= 64 && Passes(next, cur, m, SkipName(next, cur, n).value)
    decreases 65 - n
  {
    var p := next(cur);
    if p.ref || p.length == 0 {
      m := 0;
    } else {
      m := SkipIsPassed(next, p.offset + p.length, n + 1);
      m := m + 1;
    }
  }

  lemma {:induction false} PassedIsSkipped(next: nat -> Pair, cur: nat, n: nat, m: nat, end: nat)
    requires Passes(next, cur, m, end) && n + m <= 64
    ensures SkipName(next, cur, n) == Some(end)
    decreases m
  {
    var p := next(cur);
    if m > 0 {
      PassedIsSkipped(next, p.offset + p.length, n + 1, m - 1, end);
    }
  }

  ghost predicate CanPass(next: nat -> Pair, off: nat, end: nat) {
    exists n: nat :: n <= 64 && Passes(next, off, n, end)
  }

  /** What can be skipped has up to 64 labels before its first pointer, whatever is spelled behind that. */
  lemma SkippedExact(s: Bytes, off: nat, end: nat)
    ensures Skipped(s, off) == Some(end) <==> CanPass(Reader(s), off, end)
  {
    if Skipped(s, off) == Some(end) {
      var n := SkipIsPassed(Reader(s), off, 0);
      assert Passes(Reader(s), off, n, end);
    } else if CanPass(Reader(s), off, end) {
      var n: nat :| n <= 64 && Passes(Reader(s), off, n, end);
      PassedIsSkipped(Reader(s), off, 0, n, end);
    }
  }
}
