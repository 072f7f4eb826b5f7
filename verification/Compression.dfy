/** Writing compressed names into a packet (mdns_string_make of mdns.h): what a written name reads
    as, and that every name written so far stays readable, whatever the ring of offsets evicts. */
module Compression {
  import opened Wire
  import opened Wrappers
  import opened Names
  import opened Mdns

  // ---------- the writer, on labels ----------

  /** What the table stands for: the labels that can be read at its entries, for an entry of the
      name being written the index of its label (otherwise -1), and where the next entry goes. */
  datatype Ring = Ring(tails: seq<seq<Bytes>>, own: seq<int>, next: nat)

  predicate RingOk(r: Ring) {
    |r.tails| == |r.own| <= TABLE_SIZE && r.next < TABLE_SIZE && (|r.tails| < TABLE_SIZE ==> r.next == |r.tails|)
  }

  const EMPTY_RING: Ring := Ring([], [], 0)

  /** An entry for label `m` of the name being written. */
  function Pushed(r: Ring, tail: seq<Bytes>, m: nat): (r': Ring)
    requires RingOk(r)
    ensures RingOk(r') && r.next < |r'.tails| && r'.tails[r.next] == tail && r'.own[r.next] == m
    ensures forall j | 0 <= j < |r'.tails| && j != r.next :: j < |r.tails| && r'.tails[j] == r.tails[j] && r'.own[j] == r.own[j]
  {
    Ring(Entered(r.tails, r.next, tail), Entered(r.own, r.next, m), if r.next + 1 < TABLE_SIZE then r.next + 1 else 0)
  }

  /** A name as written: its first `k` labels, and then what a pointer leads to; or all of them
      and a zero byte, when `tail` is empty. */
  datatype Written = Written(k: nat, tail: seq<Bytes>, ring: Ring)

  /** mdns_string_make from label `k` on: the first entry that begins with the remaining labels
      ends the name; otherwise one more label is written and entered. */
  function Write(r: Ring, labels: seq<Bytes>, k: nat): (w: Written)
    requires RingOk(r) && k <= |labels|
    ensures RingOk(w.ring) && k <= w.k <= |labels| && labels[w.k..] <= w.tail && (w.tail == [] <==> w.k == |labels|)
    decreases |labels| - k
  {
    if k == |labels| then Written(k, [], r)
    else
      match FirstHit(r.tails, labels[k..], 0)
      case Some(j) => Written(k, r.tails[j], r)
      case None => Write(Pushed(r, labels[k..], k), labels, k + 1)
  }

  /** One turn of it. */
  lemma WriteTurn(r: Ring, labels: seq<Bytes>, k: nat, w: Written)
    requires RingOk(r) && k < |labels| && w == Write(r, labels, k)
    ensures FirstHit(r.tails, labels[k..], 0).Some? ==> w == Written(k, r.tails[FirstHit(r.tails, labels[k..], 0).value], r)
    ensures FirstHit(r.tails, labels[k..], 0).None? ==> w == Write(Pushed(r, labels[k..], k), labels, k + 1) && k + 1 <= w.k
  {
  }

  /** What the written name reads as. */
  function ReadsAs(w: Written, labels: seq<Bytes>): (got: seq<Bytes>)
    requires w.k <= |labels|
    ensures |got| == w.k + |w.tail|
  {
    labels[..w.k] + w.tail
  }

  /** Where it ends. */
  function EndPos(w: Written, start: nat, labels: seq<Bytes>): nat
    requires w.k <= |labels|
  {
    LabelStart(start, labels, w.k) + (if w.tail == [] then 1 else 2)
  }

  /** The ring once a name is complete that reads as `got`. */
  function Settle(r: Ring, got: seq<Bytes>): (r': Ring)
    requires RingOk(r)
    ensures RingOk(r') && |r'.tails| == |r.tails|
  {
    Ring(seq(|r.tails|, j requires 0 <= j < |r.tails| => if 0 <= r.own[j] < |got| then got[r.own[j]..] else r.tails[j]),
         seq(|r.tails|, _ => -1), r.next)
  }

  /** One name: the ring after it, and what it reads as. */
  function Add(r: Ring, labels: seq<Bytes>): (a: (Ring, seq<Bytes>))
    requires RingOk(r)
    ensures RingOk(a.0)
  {
    var w := Write(r, labels, 0);
    (Settle(w.ring, ReadsAs(w, labels)), ReadsAs(w, labels))
  }

  /** A whole packet: the names written into it one after the other, as they read. */
  function AddAll(r: Ring, names: seq<seq<Bytes>>): seq<seq<Bytes>>
    requires RingOk(r)
    decreases |names|
  {
    if names == [] then [] else var a := Add(r, names[0]); [a.1] + AddAll(a.0, names[1..])
  }

  // ---------- which names come back ----------

  /** The search for the rest of the name stops at an entry that goes on. */
  predicate Diverted(r: Ring, labels: seq<Bytes>)
    requires RingOk(r)
  {
    var w := Write(r, labels, 0);
    w.k < |labels| && labels[w.k..] < w.tail
  }

  /** A written name begins with the labels it was given, and reads as them exactly when no
      entry that properly extends the remaining labels has been hit. */
  lemma ReadsAsExact(r: Ring, labels: seq<Bytes>)
    requires RingOk(r)
    ensures labels <= Add(r, labels).1
    ensures Add(r, labels).1 == labels <==> !Diverted(r, labels)
  {
    var w := Write(r, labels, 0);
    assert labels == labels[..w.k] + labels[w.k..];
    assert ReadsAs(w, labels)[w.k..] == w.tail;
    assert labels[..w.k] + w.tail[..|labels| - w.k] == labels;
    if ReadsAs(w, labels) == labels {
      assert w.tail == labels[w.k..];
    }
  }

  /** All entries end in the same label, which occurs only there. */
  predicate AllEndIn(r: Ring, last: Bytes) {
    forall j | 0 <= j < |r.tails| :: EndsIn(r.tails[j], last)
  }

  /** Then so does whatever is found, and it is the rest of the name. */
  lemma {:induction false} SharedWrite(r: Ring, labels: seq<Bytes>, k: nat, last: Bytes)
    requires RingOk(r) && k <= |labels| && AllEndIn(r, last) && (labels != [] ==> EndsIn(labels, last))
    ensures var w := Write(r, labels, k); AllEndIn(w.ring, last) && w.tail == labels[w.k..]
    decreases |labels| - k
  {
    if k < |labels| {
      EndsInSuffix(labels, last, k);
      match FirstHit(r.tails, labels[k..], 0)
      case Some(j) => PrefixIsAll(r.tails[j], labels[k..], last);
      case None => SharedWrite(Pushed(r, labels[k..], k), labels, k + 1, last);
    }
  }

  /** Names with a shared last label come back, and keep the ring as it was. */
  lemma SharedAdd(r: Ring, labels: seq<Bytes>, last: Bytes)
    requires RingOk(r) && AllEndIn(r, last) && (labels != [] ==> EndsIn(labels, last))
    ensures AllEndIn(Add(r, labels).0, last) && Add(r, labels).1 == labels
  {
    SharedWrite(r, labels, 0, last);
    var w := Write(r, labels, 0);
    assert labels[..w.k] + labels[w.k..] == labels;
    var r' := Settle(w.ring, labels);
    forall j | 0 <= j < |r'.tails|
      ensures EndsIn(r'.tails[j], last)
    {
      if 0 <= w.ring.own[j] < |labels| {
        EndsInSuffix(labels, last, w.ring.own[j]);
      }
    }
  }

  /** For every sequence of names. */
  lemma {:induction false} SharedRun(r: Ring, names: seq<seq<Bytes>>, last: Bytes)
    requires AllProper(names) && RingOk(r) && AllEndIn(r, last) && forall i | 0 <= i < |names| :: names[i] != [] ==> EndsIn(names[i], last)
    ensures AddAll(r, names) == names
    decreases |names|
  {
    if names != [] {
      SharedAdd(r, names[0], last);
      SharedRun(Add(r, names[0]).0, names[1..], last);
      assert [names[0]] + names[1..] == names;
    }
  }

  /** The names the writer on labels speaks of. */
  predicate AllProper(names: seq<seq<Bytes>>) {
    forall i | 0 <= i < |names| :: Proper(names[i])
  }

  /** Some name of a packet is diverted. */
  predicate SomeDiverted(r: Ring, names: seq<seq<Bytes>>)
    requires RingOk(r)
    decreases |names|
  {
    names != [] && (Diverted(r, names[0]) || SomeDiverted(Add(r, names[0]).0, names[1..]))
  }

  /** A packet reads as what was written into it exactly when no name is diverted. */
  lemma {:induction false} RunExact(r: Ring, names: seq<seq<Bytes>>)
    requires AllProper(names) && RingOk(r)
    ensures AddAll(r, names) == names <==> !SomeDiverted(r, names)
    decreases |names|
  {
    if names != [] {
      var a := Add(r, names[0]);
      ReadsAsExact(r, names[0]);
      RunExact(a.0, names[1..]);
      var all := [a.1] + AddAll(a.0, names[1..]);
      assert all[0] == a.1 && all[1..] == AddAll(a.0, names[1..]) && names == [names[0]] + names[1..];
    }
  }

  // ---------- names that need not be looked up in the table ----------

  /** No end of a name is a proper prefix of an end of an earlier one. */
  predicate PrefixFree(names: seq<seq<Bytes>>) {
    forall i, j | 0 <= i < j < |names| :: NoneExtends(names[i], names[j])
  }

  predicate NoneExtends(earlier: seq<Bytes>, labels: seq<Bytes>) {
    forall a, b | 0 <= a <= |earlier| && 0 <= b < |labels| :: !(labels[b..] < earlier[a..])
  }

  /** `tail` is an end of one of the first `n` names. */
  predicate EndOfSome(names: seq<seq<Bytes>>, n: nat, tail: seq<Bytes>)
    requires n <= |names|
  {
    exists i :: 0 <= i < n && |tail| <= |names[i]| && tail == names[i][|names[i]| - |tail|..]
  }

  predicate AllEnds(names: seq<seq<Bytes>>, n: nat, r: Ring)
    requires n <= |names|
  {
    forall j | 0 <= j < |r.tails| :: EndOfSome(names, n, r.tails[j])
  }

  lemma EndIsOfSome(names: seq<seq<Bytes>>, n: nat, k: nat)
    requires n < |names| && k <= |names[n]|
    ensures EndOfSome(names, n + 1, names[n][k..])
  {
    assert names[n][|names[n]| - |names[n][k..]|..] == names[n][k..];
  }

  /** What is found then is the rest of the name. */
  lemma HitIsRest(names: seq<seq<Bytes>>, n: nat, k: nat, tail: seq<Bytes>)
    requires PrefixFree(names) && n < |names| && k < |names[n]| && Proper(names[n])
    requires names[n][k..] <= tail && (EndOfSome(names, n, tail) || exists m :: 0 <= m < k && tail == names[n][m..])
    ensures tail == names[n][k..]
  {
    var labels := names[n];
    if EndOfSome(names, n, tail) {
      var i :| 0 <= i < n && |tail| <= |names[i]| && tail == names[i][|names[i]| - |tail|..];
      assert NoneExtends(names[i], labels);
    } else {
      var m :| 0 <= m < k && tail == labels[m..];
      ApartDiffer(labels, m, k);
      assert false;
    }
  }

  /** Entries of earlier names and of the one being written. */
  predicate OwnOrEarlier(names: seq<seq<Bytes>>, n: nat, k: nat, tail: seq<Bytes>)
    requires n < |names| && k <= |names[n]|
  {
    EndOfSome(names, n, tail) || exists m :: 0 <= m < k && tail == names[n][m..]
  }

  lemma {:induction false} FreeWrite(names: seq<seq<Bytes>>, n: nat, k: nat, r: Ring)
    requires PrefixFree(names) && n < |names| && k <= |names[n]| && Proper(names[n]) && RingOk(r)
    requires forall j | 0 <= j < |r.tails| :: OwnOrEarlier(names, n, k, r.tails[j])
    ensures var w := Write(r, names[n], k); w.tail == names[n][w.k..] && AllEnds(names, n + 1, w.ring)
    decreases |names[n]| - k
  {
    var labels := names[n];
    if k == |labels| || FirstHit(r.tails, labels[k..], 0).Some? {
      OwnAreEnds(names, n, k, r);
      if k < |labels| {
        HitIsRest(names, n, k, r.tails[FirstHit(r.tails, labels[k..], 0).value]);
      }
    } else {
      var r', next := Pushed(r, labels[k..], k), k + 1;
      forall j | 0 <= j < |r'.tails|
        ensures OwnOrEarlier(names, n, next, r'.tails[j])
      {
        if j != r.next {
          assert OwnOrEarlier(names, n, k, r.tails[j]);
        }
      }
      FreeWrite(names, n, next, r');
    }
  }

  lemma OwnAreEnds(names: seq<seq<Bytes>>, n: nat, k: nat, r: Ring)
    requires n < |names| && k <= |names[n]|
    requires forall j | 0 <= j < |r.tails| :: OwnOrEarlier(names, n, k, r.tails[j])
    ensures AllEnds(names, n + 1, r)
  {
    forall j | 0 <= j < |r.tails|
      ensures EndOfSome(names, n + 1, r.tails[j])
    {
      assert OwnOrEarlier(names, n, k, r.tails[j]);
      if !EndOfSome(names, n, r.tails[j]) {
        var m :| 0 <= m < k && r.tails[j] == names[n][m..];
        EndIsOfSome(names, n, m);
      }
    }
  }

  lemma FreeAdd(names: seq<seq<Bytes>>, n: nat, r: Ring)
    requires PrefixFree(names) && n < |names| && Proper(names[n]) && RingOk(r) && AllEnds(names, n, r)
    ensures Add(r, names[n]).1 == names[n] && AllEnds(names, n + 1, Add(r, names[n]).0)
  {
    var labels := names[n];
    assert forall j | 0 <= j < |r.tails| :: OwnOrEarlier(names, n, 0, r.tails[j]);
    FreeWrite(names, n, 0, r);
    var w := Write(r, labels, 0);
    assert labels[..w.k] + labels[w.k..] == labels;
    var r' := Settle(w.ring, labels);
    forall j | 0 <= j < |r'.tails|
      ensures EndOfSome(names, n + 1, r'.tails[j])
    {
      if 0 <= w.ring.own[j] < |labels| {
        EndIsOfSome(names, n, w.ring.own[j]);
      } else {
        assert EndOfSome(names, n + 1, w.ring.tails[j]);
      }
    }
  }

  lemma {:induction false} FreeFrom(names: seq<seq<Bytes>>, n: nat, r: Ring)
    requires PrefixFree(names) && AllProper(names) && n <= |names| && RingOk(r) && AllEnds(names, n, r)
    ensures AddAll(r, names[n..]) == names[n..]
    decreases |names| - n
  {
    if n < |names| {
      FreeAdd(names, n, r);
      var next := n + 1;
      FreeFrom(names, next, Add(r, names[n]).0);
      OneAdded(names, n, next, r, Add(r, names[n]).0);
    }
  }

  lemma OneAdded(names: seq<seq<Bytes>>, n: nat, next: nat, r: Ring, r': Ring)
    requires next == n + 1 <= |names| && RingOk(r) && RingOk(r') && Add(r, names[n]) == (r', names[n])
    requires AddAll(r', names[next..]) == names[next..]
    ensures AddAll(r, names[n..]) == names[n..]
  {
    assert names[n..] == [names[n]] + names[next..] && names[n..][1..] == names[next..];
  }

  /** A condition on the names alone: if no end of a name is a proper prefix of an end of an
      earlier one, a packet reads as what was written into it. */
  lemma PrefixFreeRun(names: seq<seq<Bytes>>)
    requires AllProper(names) && PrefixFree(names)
    ensures AddAll(EMPTY_RING, names) == names && !SomeDiverted(EMPTY_RING, names)
  {
    FreeFrom(names, 0, EMPTY_RING);
    assert names[0..] == names;
    RunExact(EMPTY_RING, names);
  }

  /** Names with a shared last label meet it. */
  lemma SharedIsPrefixFree(names: seq<seq<Bytes>>, last: Bytes)
    requires forall i | 0 <= i < |names| :: names[i] != [] ==> EndsIn(names[i], last)
    ensures PrefixFree(names)
  {
    forall i, j | 0 <= i < j < |names|
      ensures NoneExtends(names[i], names[j])
    {
      SharedNoneExtends(names[i], names[j], last);
    }
  }

  lemma SharedNoneExtends(earlier: seq<Bytes>, labels: seq<Bytes>, last: Bytes)
    requires (earlier != [] ==> EndsIn(earlier, last)) && (labels != [] ==> EndsIn(labels, last))
    ensures NoneExtends(earlier, labels)
  {
    forall a, b | 0 <= a <= |earlier| && 0 <= b < |labels|
      ensures !(labels[b..] < earlier[a..])
    {
      if a < |earlier| && labels[b..] <= earlier[a..] {
        EndsInSuffix(earlier, last, a);
        EndsInSuffix(labels, last, b);
        PrefixIsAll(earlier[a..], labels[b..], last);
      }
    }
  }

  // ---------- a packet in memory ----------

  /** The bytes of the packet, the bytes that belong to names, the offsets of the table, and what
      they stand for. */
  datatype View = View(s: Bytes, owned: set<nat>, offs: seq<nat>, ring: Ring)

  predicate ViewOk(v: View) {
    RingOk(v.ring) && |v.offs| == |v.ring.tails|
  }

  /** A complete entry. */
  ghost predicate EntryReads(s: Bytes, owned: set<nat>, at: nat, tail: seq<Bytes>) {
    tail != [] && Direct(s, owned, at, tail[0]) && Reads(s, owned, at, tail)
  }

  ghost predicate EntryOk(v: View, start: nat, labels: seq<Bytes>, k: nat, j: nat)
    requires ViewOk(v) && j < |v.offs| && k <= |labels|
  {
    if v.ring.own[j] < 0 then EntryReads(v.s, v.owned, v.offs[j], v.ring.tails[j])
    else
      && v.ring.own[j] < k && v.offs[j] == LabelStart(start, labels, v.ring.own[j])
      && v.ring.tails[j] == labels[v.ring.own[j]..]
  }

  /** A name is being written at `start`, and its first `k` labels are there. */
  ghost predicate Writing(v: View, start: nat, labels: seq<Bytes>, k: nat) {
    && k <= |labels| && Proper(labels) && ViewOk(v)
    && (forall i | i in v.owned :: i < LabelStart(start, labels, k) && i < |v.s|)
    && Stored(v.s, v.owned, start, labels, k)
    && forall j | 0 <= j < |v.offs| :: EntryOk(v, start, labels, k, j)
  }

  /** An entry of the name being written, of which `k` labels are there: they decide a comparison
      unless all of them agree and the labels sought go on. */
  lemma {:induction false} OwnDecides(s: Bytes, owned: set<nat>, start: nat, labels: seq<Bytes>, k: nat, m: nat, rest: seq<Bytes>)
    requires m <= k <= |labels| && Stored(s, owned, start, labels, k)
    requires !(labels[m..k] <= rest) || rest <= labels[m..k]
    ensures Decides(s, owned, LabelStart(start, labels, m), labels[m..], rest)
    decreases k - m
  {
    if m < k && rest != [] && labels[m] == rest[0] {
      var next := m + 1;
      HeadAgrees(labels, m, next, k, rest);
      assert Direct(s, owned, LabelStart(start, labels, m), labels[m]);
      OwnDecides(s, owned, start, labels, k, next, rest[1..]);
    } else if m < k && rest != [] {
      assert Direct(s, owned, LabelStart(start, labels, m), labels[m]);
    }
  }

  lemma HeadAgrees(labels: seq<Bytes>, m: nat, next: nat, k: nat, rest: seq<Bytes>)
    requires next == m + 1 <= k <= |labels| && rest != [] && labels[m] == rest[0]
    ensures labels[m..][1..] == labels[next..]
    ensures labels[m..k] == [labels[m]] + labels[next..k] && rest == [rest[0]] + rest[1..]
  {
  }

  /** What the comparison with an entry relies on: it is a stored label, and what can be read from
      there on decides it. */
  lemma EntryComparable(v: View, start: nat, labels: seq<Bytes>, k: nat, j: nat)
    requires Writing(v, start, labels, k) && k < |labels| && j < |v.offs|
    ensures Comparable(v.s, v.owned, v.offs[j], v.ring.tails[j], labels[k..])
  {
    assert EntryOk(v, start, labels, k, j);
    var m := v.ring.own[j];
    if m >= 0 {
      assert Apart(labels, m, k);
      OwnDecides(v.s, v.owned, start, labels, k, m, labels[k..]);
      assert Direct(v.s, v.owned, LabelStart(start, labels, m), labels[m]);
    }
  }

  /** So an entry that begins with the remaining labels can be read to its end. */
  lemma HitReads(v: View, start: nat, labels: seq<Bytes>, k: nat, j: nat)
    requires Writing(v, start, labels, k) && k < |labels| && j < |v.offs| && labels[k..] <= v.ring.tails[j]
    ensures Reads(v.s, v.owned, v.offs[j], v.ring.tails[j]) && !AtRef(v.s, v.offs[j])
  {
    assert EntryOk(v, start, labels, k, j);
    if v.ring.own[j] >= 0 {
      ApartDiffer(labels, v.ring.own[j], k);
    }
  }

  /** Complete entries stay complete as long as the bytes of names stay. */
  lemma EntryStays(s: Bytes, t: Bytes, owned: set<nat>, owned': set<nat>, at: nat, tail: seq<Bytes>)
    requires EntryReads(s, owned, at, tail) && Keeps(s, t, owned) && owned <= owned'
    ensures EntryReads(t, owned', at, tail)
  {
    ReadsStays(s, t, owned, owned', at, tail);
    DirectStays(s, t, owned, owned', at, tail[0]);
  }

  /** The positions from `at` to `at + n`. */
  function Span(at: nat, n: nat): (r: set<nat>)
    ensures forall i :: i in r <==> at <= i < at + n
  {
    if n == 0 then {} else Span(at, n - 1) + {at + n - 1}
  }

  /** The bytes of a stored label. */
  function LabelBytes(text: Bytes): Bytes
    requires |text| <= 63
  {
    [|text|] + text
  }

  /** `t` is `s` with `data` written at `at`. */
  ghost predicate Patched(s: Bytes, t: Bytes, at: nat, data: Bytes) {
    at + |data| <= |s| && t == s[..at] + data + s[at + |data|..]
  }

  lemma PatchKeeps(s: Bytes, t: Bytes, owned: set<nat>, at: nat, data: Bytes)
    requires Patched(s, t, at, data) && forall i | i in owned :: i < |s| && !(at <= i < at + |data|)
    ensures Keeps(s, t, owned) && |t| == |s|
  {
  }

  lemma LabelStored(s: Bytes, t: Bytes, owned: set<nat>, at: nat, text: Bytes)
    requires 1 <= |text| <= 63 && Patched(s, t, at, LabelBytes(text)) && Span(at, 1 + |text|) <= owned
    ensures Direct(t, owned, at, text)
  {
    assert t[at..at + 1 + |text|] == LabelBytes(text);
    assert t[at + 1..at + 1 + |text|] == text;
  }

  /** The view after label `k` has been written and entered into the table. */
  ghost predicate Advanced(v: View, w: View, start: nat, labels: seq<Bytes>, k: nat)
    requires k < |labels| && |labels[k]| <= 63 && ViewOk(v)
  {
    && Patched(v.s, w.s, LabelStart(start, labels, k), LabelBytes(labels[k]))
    && w.owned == v.owned + Span(LabelStart(start, labels, k), 1 + |labels[k]|)
    && w.offs == Entered(v.offs, v.ring.next, LabelStart(start, labels, k)) && w.ring == Pushed(v.ring, labels[k..], k)
  }

  lemma StoredStays(s: Bytes, t: Bytes, owned: set<nat>, owned': set<nat>, start: nat, labels: seq<Bytes>, k: nat)
    requires k <= |labels| && Stored(s, owned, start, labels, k) && owned <= owned' && Keeps(s, t, owned)
    ensures Stored(t, owned', start, labels, k)
  {
    forall m | 0 <= m < k
      ensures Direct(t, owned', LabelStart(start, labels, m), labels[m])
    {
      DirectStays(s, t, owned, owned', LabelStart(start, labels, m), labels[m]);
    }
  }

  /** An entry other than the new one. */
  lemma EntryOkStays(v: View, w: View, start: nat, labels: seq<Bytes>, k: nat, j: nat)
    requires ViewOk(v) && k < |labels| && |labels[k]| <= 63 && Advanced(v, w, start, labels, k)
    requires j < |w.offs| && j != v.ring.next && EntryOk(v, start, labels, k, j) && Keeps(v.s, w.s, v.owned)
    ensures EntryOk(w, start, labels, k + 1, j)
  {
    if v.ring.own[j] < 0 {
      EntryStays(v.s, w.s, v.owned, w.owned, v.offs[j], v.ring.tails[j]);
    }
  }

  lemma EntriesStep(v: View, w: View, start: nat, labels: seq<Bytes>, k: nat, next: nat)
    requires Writing(v, start, labels, k) && k < |labels| && |labels[k]| <= 63 && Advanced(v, w, start, labels, k)
    requires Keeps(v.s, w.s, v.owned) && next == k + 1
    ensures forall j | 0 <= j < |w.offs| :: EntryOk(w, start, labels, next, j)
  {
    forall j | 0 <= j < |w.offs|
      ensures EntryOk(w, start, labels, next, j)
    {
      if j != v.ring.next {
        assert EntryOk(v, start, labels, k, j);
        EntryOkStays(v, w, start, labels, k, j);
      }
    }
  }

  lemma StoredStep(s: Bytes, t: Bytes, owned: set<nat>, owned': set<nat>, start: nat, labels: seq<Bytes>, k: nat)
    requires k < |labels| && Stored(s, owned, start, labels, k) && Keeps(s, t, owned) && owned <= owned'
    requires Direct(t, owned', LabelStart(start, labels, k), labels[k])
    ensures Stored(t, owned', start, labels, k + 1)
  {
    StoredStays(s, t, owned, owned', start, labels, k);
  }

  lemma OwnedStep(s: Bytes, t: Bytes, owned: set<nat>, owned': set<nat>, at: nat, text: Bytes)
    requires |text| <= 63 && Patched(s, t, at, LabelBytes(text)) && forall i | i in owned :: i < at && i < |s|
    requires owned' == owned + Span(at, 1 + |text|)
    ensures |t| == |s| && forall i | i in owned' :: i < at + 1 + |text| && i < |t|
  {
  }

  lemma BytesStep(s: Bytes, t: Bytes, owned: set<nat>, owned': set<nat>, start: nat, labels: seq<Bytes>, k: nat)
    requires k < |labels| && Stored(s, owned, start, labels, k) && 1 <= |labels[k]| <= 63
    requires forall i | i in owned :: i < LabelStart(start, labels, k) && i < |s|
    requires Patched(s, t, LabelStart(start, labels, k), LabelBytes(labels[k]))
    requires owned' == owned + Span(LabelStart(start, labels, k), 1 + |labels[k]|)
    ensures Keeps(s, t, owned) && Stored(t, owned', start, labels, k + 1)
    ensures forall i | i in owned' :: i < LabelStart(start, labels, k + 1) && i < |t|
  {
    var at := LabelStart(start, labels, k);
    PatchKeeps(s, t, owned, at, LabelBytes(labels[k]));
    LabelStored(s, t, owned', at, labels[k]);
    StoredStep(s, t, owned, owned', start, labels, k);
    OwnedStep(s, t, owned, owned', at, labels[k]);
  }

  /** Writing one more label. */
  lemma WritingStep(v: View, w: View, start: nat, labels: seq<Bytes>, k: nat, next: nat)
    requires Writing(v, start, labels, k) && k < |labels| && |labels[k]| <= 63 && Advanced(v, w, start, labels, k) && next == k + 1
    ensures Writing(w, start, labels, next)
  {
    BytesStep(v.s, w.s, v.owned, w.owned, start, labels, k);
    EntriesStep(v, w, start, labels, k, next);
  }

  /** The view after one more label, put together; the names that are complete stay so. */
  lemma LabelEntered(v: View, t: Bytes, start: nat, labels: seq<Bytes>, k: nat, next: nat,
                     names: seq<(nat, seq<Bytes>)>) returns (w: View)
    requires Writing(v, start, labels, k) && k < |labels| && next == k + 1 && |labels[k]| <= 63
    requires Patched(v.s, t, LabelStart(start, labels, k), LabelBytes(labels[k])) && NamesRead(v.s, v.owned, names)
    ensures w == View(t, v.owned + Span(LabelStart(start, labels, k), 1 + |labels[k]|),
                      Entered(v.offs, v.ring.next, LabelStart(start, labels, k)), Pushed(v.ring, labels[k..], k))
    ensures Writing(w, start, labels, next) && NamesRead(t, w.owned, names)
  {
    w := View(t, v.owned + Span(LabelStart(start, labels, k), 1 + |labels[k]|),
              Entered(v.offs, v.ring.next, LabelStart(start, labels, k)), Pushed(v.ring, labels[k..], k));
    WritingStep(v, w, start, labels, k, next);
    PatchKeeps(v.s, t, v.owned, LabelStart(start, labels, k), LabelBytes(labels[k]));
    NamesStay(v.s, t, v.owned, w.owned, names);
  }

  // ---------- finishing a name ----------

  /** A stretch of stored labels and what can be read behind it: `got` is read from each of them
      on. */
  ghost predicate Joined(v: View, t: Bytes, owned: set<nat>, start: nat, labels: seq<Bytes>, k: nat, got: seq<Bytes>) {
    && k <= |labels| && k <= |got| && got[..k] == labels[..k] && owned >= v.owned && Keeps(v.s, t, v.owned)
    && Stored(t, owned, start, got, k) && Reads(t, owned, LabelStart(start, got, k), got[k..])
  }

  lemma JoinedBy(v: View, t: Bytes, owned: set<nat>, start: nat, labels: seq<Bytes>, k: nat, data: Bytes, tail: seq<Bytes>)
    requires Writing(v, start, labels, k)
    requires Patched(v.s, t, LabelStart(start, labels, k), data) && owned == v.owned + Span(LabelStart(start, labels, k), |data|)
    requires Reads(t, owned, LabelStart(start, labels, k), tail)
    ensures Joined(v, t, owned, start, labels, k, labels[..k] + tail)
    ensures LabelStart(start, labels[..k] + tail, k) == LabelStart(start, labels, k) && (labels[..k] + tail)[k..] == tail
  {
    var got := labels[..k] + tail;
    PatchKeeps(v.s, t, v.owned, LabelStart(start, labels, k), data);
    StoredStays(v.s, t, v.owned, owned, start, labels, k);
    assert got[..k] == labels[..k] && got[k..] == tail;
    StoredAgrees(t, owned, start, labels, got, k);
  }

  /** An entry of the table. */
  lemma Finished(v: View, t: Bytes, owned: set<nat>, start: nat, labels: seq<Bytes>, k: nat, got: seq<Bytes>, j: nat)
    requires ViewOk(v) && j < |v.offs| && k <= |labels| && EntryOk(v, start, labels, k, j)
    requires Joined(v, t, owned, start, labels, k, got)
    ensures EntryReads(t, owned, v.offs[j], Settle(v.ring, got).tails[j])
  {
    if v.ring.own[j] < 0 {
      EntryStays(v.s, t, v.owned, owned, v.offs[j], v.ring.tails[j]);
    } else {
      var m := v.ring.own[j];
      LabelStartAgrees(start, labels, got, k, m);
      OwnEntryReads(t, owned, start, got, k, m, got[m..]);
    }
  }

  lemma OwnEntryReads(t: Bytes, owned: set<nat>, start: nat, got: seq<Bytes>, k: nat, m: nat, tail: seq<Bytes>)
    requires m < k <= |got| && Stored(t, owned, start, got, k) && Reads(t, owned, LabelStart(start, got, k), got[k..])
    requires tail == got[m..]
    ensures EntryReads(t, owned, LabelStart(start, got, m), tail)
  {
    Completes(t, owned, start, got, k, m);
    StoredAt(t, owned, start, got, k, m);
    assert tail[0] == got[m];
  }

  // ---------- the packet ----------

  /** Every entry of the table and every name written so far can be read. */
  ghost predicate Intact(v: View, names: seq<(nat, seq<Bytes>)>) {
    && ViewOk(v)
    && (forall i | i in v.owned :: i < |v.s|)
    && (forall j | 0 <= j < |v.offs| :: v.ring.own[j] < 0 && EntryReads(v.s, v.owned, v.offs[j], v.ring.tails[j]))
    && NamesRead(v.s, v.owned, names)
  }

  ghost predicate NamesRead(s: Bytes, owned: set<nat>, names: seq<(nat, seq<Bytes>)>) {
    forall x | 0 <= x < |names| :: Reads(s, owned, names[x].0, names[x].1)
  }

  lemma NamesStay(s: Bytes, t: Bytes, owned: set<nat>, owned': set<nat>, names: seq<(nat, seq<Bytes>)>)
    requires NamesRead(s, owned, names) && Keeps(s, t, owned) && owned <= owned'
    ensures NamesRead(t, owned', names)
  {
    forall x | 0 <= x < |names|
      ensures Reads(t, owned', names[x].0, names[x].1)
    {
      ReadsStays(s, t, owned, owned', names[x].0, names[x].1);
    }
  }

  /** Bytes outside of names may change at any time. */
  lemma IntactStays(v: View, t: Bytes, names: seq<(nat, seq<Bytes>)>)
    requires Intact(v, names) && |t| == |v.s| && Keeps(v.s, t, v.owned)
    ensures Intact(v.(s := t), names)
  {
    NamesStay(v.s, t, v.owned, v.owned, names);
    forall j | 0 <= j < |v.offs|
      ensures EntryReads(t, v.owned, v.offs[j], v.ring.tails[j])
    {
      EntryStays(v.s, t, v.owned, v.owned, v.offs[j], v.ring.tails[j]);
    }
  }

  /** A packet in which every name is complete is ready for the next one. */
  lemma IntactIsReady(v: View, names: seq<(nat, seq<Bytes>)>, start: nat, labels: seq<Bytes>)
    requires Intact(v, names) && Proper(labels) && forall i | i in v.owned :: i < start
    ensures Writing(v, start, labels, 0)
  {
  }

  lemma EntriesDone(v: View, t: Bytes, owned: set<nat>, start: nat, labels: seq<Bytes>, k: nat, got: seq<Bytes>)
    requires Writing(v, start, labels, k) && Joined(v, t, owned, start, labels, k, got)
    ensures forall j | 0 <= j < |v.offs| :: EntryReads(t, owned, v.offs[j], Settle(v.ring, got).tails[j])
  {
    forall j | 0 <= j < |v.offs|
      ensures EntryReads(t, owned, v.offs[j], Settle(v.ring, got).tails[j])
    {
      assert EntryOk(v, start, labels, k, j);
      Finished(v, t, owned, start, labels, k, got, j);
    }
  }

  /** The finished name itself. */
  lemma NameDone(v: View, t: Bytes, owned: set<nat>, start: nat, labels: seq<Bytes>, k: nat, got: seq<Bytes>)
    requires Joined(v, t, owned, start, labels, k, got)
    ensures Reads(t, owned, start, got) && EndOf(t, start, got) == EndOf(t, LabelStart(start, got, k), got[k..])
  {
    Completes(t, owned, start, got, k, 0);
    assert got[0..] == got;
  }

  /** Finishing a name, by a pointer or a zero byte behind its stored labels. */
  lemma IntactAgain(v: View, t: Bytes, owned: set<nat>, start: nat, labels: seq<Bytes>, k: nat, data: Bytes, tail: seq<Bytes>,
                    names: seq<(nat, seq<Bytes>)>)
    requires Writing(v, start, labels, k) && NamesRead(v.s, v.owned, names)
    requires Patched(v.s, t, LabelStart(start, labels, k), data) && owned == v.owned + Span(LabelStart(start, labels, k), |data|)
    requires Reads(t, owned, LabelStart(start, labels, k), tail)
    ensures
      var got := labels[..k] + tail;
      && Intact(View(t, owned, v.offs, Settle(v.ring, got)), names + [(start, got)])
      && EndOf(t, start, got) == EndOf(t, LabelStart(start, labels, k), tail)
  {
    var got := labels[..k] + tail;
    JoinedBy(v, t, owned, start, labels, k, data, tail);
    NameDone(v, t, owned, start, labels, k, got);
    EntriesDone(v, t, owned, start, labels, k, got);
    NamesAppend(v.s, t, v.owned, owned, names, start, got);
  }

  lemma NamesAppend(s: Bytes, t: Bytes, owned: set<nat>, owned': set<nat>, names: seq<(nat, seq<Bytes>)>, start: nat, labels: seq<Bytes>)
    requires NamesRead(s, owned, names) && Keeps(s, t, owned) && owned <= owned'
    requires Reads(t, owned', start, labels)
    ensures NamesRead(t, owned', names + [(start, labels)])
  {
    NamesStay(s, t, owned, owned', names);
  }

  // ---------- a name that does not come back ----------

  predicate ThreeLabels(abc: seq<Bytes>) {
    |abc| == 3 && abc[0] != abc[1] && abc[0] != abc[2] && abc[1] != abc[2]
  }

  /** A first name of three different labels: all are written, and entered. */
  lemma FirstName(abc: seq<Bytes>)
    requires ThreeLabels(abc)
    ensures Write(EMPTY_RING, abc, 0) == Written(3, [], Ring([abc[0..], abc[1..], abc[2..]], [0, 1, 2], 3))
  {
    var r1, r2 := Ring([abc[0..]], [0], 1), Ring([abc[0..], abc[1..]], [0, 1], 2);
    var r3 := Ring([abc[0..], abc[1..], abc[2..]], [0, 1, 2], 3);
    MissTurn(EMPTY_RING, abc, 0, r1);
    NoHit(r1.tails, abc[1..]);
    MissTurn(r1, abc, 1, r2);
    LastMiss(abc, r2, r3);
  }

  lemma LastMiss(abc: seq<Bytes>, r2: Ring, r3: Ring)
    requires ThreeLabels(abc) && r2 == Ring([abc[0..], abc[1..]], [0, 1], 2) && r3 == Ring([abc[0..], abc[1..], abc[2..]], [0, 1, 2], 3)
    ensures Write(r2, abc, 2) == Written(3, [], r3)
  {
    NoHit(r2.tails, abc[2..]);
    MissTurn(r2, abc, 2, r3);
    assert Write(r3, abc, 3) == Written(3, [], r3);
  }

  lemma MissTurn(r: Ring, labels: seq<Bytes>, k: nat, r': Ring)
    requires RingOk(r) && k < |labels| && FirstHit(r.tails, labels[k..], 0).None?
    requires |r.tails| < TABLE_SIZE - 1 && r' == Ring(r.tails + [labels[k..]], r.own + [k], r.next + 1)
    ensures Write(r, labels, k) == Write(r', labels, k + 1)
  {
    assert Pushed(r, labels[k..], k) == r';
  }

  lemma NoHit(tails: seq<seq<Bytes>>, rest: seq<Bytes>)
    requires rest != [] && forall j | 0 <= j < |tails| :: tails[j] == [] || tails[j][0] != rest[0]
    ensures FirstHit(tails, rest, 0) == None
  {
  }

  /** A second name that is a proper prefix of the first: the first is found, and it is read. */
  lemma PrefixDiverted(abc: seq<Bytes>, r: Ring)
    requires ThreeLabels(abc) && r == Add(EMPTY_RING, abc).0
    ensures Add(EMPTY_RING, abc).1 == abc
    ensures Write(r, abc[..2], 0) == Written(0, abc, r) && Add(r, abc[..2]).1 == abc && Diverted(r, abc[..2])
  {
    FirstName(abc);
    assert abc[..3] + [] == abc == abc[0..];
    assert r.tails[0] == abc;
    PrefixHit(r, abc, abc[..2]);
    assert abc[..2][..0] + abc == abc;
  }

  lemma PrefixHit(r: Ring, tail: seq<Bytes>, labels: seq<Bytes>)
    requires RingOk(r) && r.tails != [] && r.tails[0] == tail && labels != [] && labels <= tail
    ensures Write(r, labels, 0) == Written(0, tail, r)
  {
    assert labels[0..] == labels;
  }

  lemma RunHead(r: Ring, names: seq<seq<Bytes>>, after: Ring, got: seq<Bytes>)
    requires RingOk(r) && names != [] && Add(r, names[0]) == (after, got)
    ensures AddAll(r, names) == [got] + AddAll(after, names[1..])
    ensures SomeDiverted(r, names) <==> Diverted(r, names[0]) || SomeDiverted(after, names[1..])
  {
  }

  /** The two names in one packet. */
  lemma PrefixRun(abc: seq<Bytes>, names: seq<seq<Bytes>>)
    requires ThreeLabels(abc) && names == [abc, abc[..2]]
    ensures AddAll(EMPTY_RING, names) == [abc, abc] && SomeDiverted(EMPTY_RING, names)
  {
    var r := Add(EMPTY_RING, abc).0;
    PrefixDiverted(abc, r);
    RunHead(EMPTY_RING, names, r, abc);
    SecondRun(r, abc[..2], abc, names[1..]);
  }

  lemma SecondRun(r: Ring, labels: seq<Bytes>, got: seq<Bytes>, names: seq<seq<Bytes>>)
    requires RingOk(r) && names == [labels] && Add(r, labels).1 == got && Diverted(r, labels)
    ensures AddAll(r, names) == [got] && SomeDiverted(r, names)
  {
    var none: seq<seq<Bytes>> := [];
    assert names[1..] == none;
    RunHead(r, names, Add(r, labels).0, got);
  }

  /** "a.b" written after "a.b.c" is found in it, and reads as "a.b.c". */
  lemma PrefixCounterexample()
    ensures
      var abc: seq<Bytes>, ab: seq<Bytes> := [[97], [98], [99]], [[97], [98]];
      AddAll(EMPTY_RING, [abc, ab]) == [abc, abc] && SomeDiverted(EMPTY_RING, [abc, ab])
  {
    var a: Bytes, b: Bytes, c: Bytes := [97], [98], [99];
    assert a[0] == 97 && b[0] == 98 && c[0] == 99;
    assert [a, b, c][..2] == [a, b];
    PrefixRun([a, b, c], [[a, b, c], [a, b]]);
  }
}
