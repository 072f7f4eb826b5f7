/** Which messages are accepted: the required-field check, and what arrays accept. */
module Presence {
  import opened Wire
  import opened Message
  import opened Encoding
  import opened Wrappers
  import opened Decoding
  import opened Locality
  import opened RoundTrip

  // ---------- required fields ----------

  /** The tags that occur in a sequence of records. */
  function Tags(s: Bytes): set<nat>
    decreases |s|
  {
    if s == [] then {}
    else match Record(s) case Bad => {} case Got((tag, _), n) => {tag} + Tags(s[n..])
  }

  /** Required fields the decoder keeps track of: the first PB_MAX_REQUIRED_FIELDS. */
  predicate Tracked(desc: Desc, i: nat) {
    i < |desc.fields| && desc.fields[i].rule.Required? && RequiredBefore(desc, i) < MAX_REQUIRED
  }

  lemma {:induction false} RequiredOrder(desc: Desc, i: nat, j: nat)
    requires i < j <= |desc.fields|
    ensures RequiredBefore(desc, i) + (if desc.fields[i].rule.Required? then 1 else 0) <= RequiredBefore(desc, j)
  {
    if j > i + 1 {
      RequiredOrder(desc, i, j - 1);
    }
  }

  /** The field with a given required_field_index. */
  lemma {:induction false} RequiredAt(desc: Desc, r: nat, n: nat) returns (i: nat)
    requires n <= |desc.fields| && r < RequiredBefore(desc, n)
    ensures i < n && desc.fields[i].rule.Required? && RequiredBefore(desc, i) == r
  {
    if desc.fields[n - 1].rule.Required? && RequiredBefore(desc, n - 1) == r {
      i := n - 1;
    } else {
      i := RequiredAt(desc, r, n - 1);
    }
  }

  lemma MarkOnlyOwn(desc: Desc, i: nat, j: nat, seen: set<nat>)
    requires Tracked(desc, i) && j < |desc.fields|
    ensures RequiredBefore(desc, i) in Mark(desc, j, seen) <==> i == j || RequiredBefore(desc, i) in seen
  {
    if i < j {
      RequiredOrder(desc, i, j);
    } else if j < i {
      RequiredOrder(desc, j, i);
    }
  }

  /** A tracked field is marked exactly when its tag occurs. */
  lemma {:induction false} SeenExact(desc: Desc, st: State, s: Bytes, i: nat)
    requires DescOk(desc) && Tracked(desc, i) && DecLoop(desc, st, s).Some?
    ensures RequiredBefore(desc, i) in DecLoop(desc, st, s).value.seen <==>
            RequiredBefore(desc, i) in st.seen || desc.fields[i].tag in Tags(s)
    decreases |s|
  {
    if s != [] {
      var Got(st', n) := DecStep(desc, st, s);
      StepExtent(desc, st, s);
      var Got(t, k) := Varint32(s);
      var j := Lookup(desc, t / 8);
      LookupOwnTag(desc, i);
      if j < |desc.fields| {
        MarkOnlyOwn(desc, i, j, st.seen);
      }
      SeenExact(desc, st', s[n..], i);
    }
  }

  lemma AllSeenMeans(desc: Desc, seen: set<nat>)
    ensures AllSeen(desc, seen) <==> forall i | 0 <= i < |desc.fields| && Tracked(desc, i) :: RequiredBefore(desc, i) in seen
  {
    if AllSeen(desc, seen) {
      forall i | 0 <= i < |desc.fields| && Tracked(desc, i)
        ensures RequiredBefore(desc, i) in seen
      {
        RequiredOrder(desc, i, |desc.fields|);
      }
    }
    if forall i | 0 <= i < |desc.fields| && Tracked(desc, i) :: RequiredBefore(desc, i) in seen {
      forall r | 0 <= r < RequiredCount(desc) && r < MAX_REQUIRED
        ensures r in seen
      {
        var i := RequiredAt(desc, r, |desc.fields|);
        assert Tracked(desc, i);
      }
    }
  }

  /** Given that every record decodes and no fixed-count array is left incomplete, a message
      is accepted if and only if each tracked required field occurs, in whatever order and
      however often. */
  lemma RequiredCheckExact(desc: Desc, dest: Cells, s: Bytes)
    requires DescOk(desc) && DecLoop(desc, Start(SetDefaults(desc, dest)), s).Some?
    requires Complete(DecLoop(desc, Start(SetDefaults(desc, dest)), s).value.fixing)
    ensures Decode(desc, dest, s).Some? <==>
            forall i | 0 <= i < |desc.fields| && Tracked(desc, i) :: desc.fields[i].tag in Tags(s)
  {
    var st0 := Start(SetDefaults(desc, dest));
    AllSeenMeans(desc, DecLoop(desc, st0, s).value.seen);
    forall i | 0 <= i < |desc.fields| && Tracked(desc, i)
      ensures RequiredBefore(desc, i) in DecLoop(desc, st0, s).value.seen <==> desc.fields[i].tag in Tags(s)
    {
      SeenExact(desc, st0, s, i);
    }
  }

  /** The first 64 required fields are checked, and no other. */
  lemma SixtyFourRequired(desc: Desc, i: nat)
    requires i < |desc.fields| && desc.fields[i].rule.Required?
    ensures Tracked(desc, i) <==> |set j | 0 <= j < i && desc.fields[j].rule.Required?| < 64
  {
    CountRequired(desc, i);
  }

  lemma {:induction false} CountRequired(desc: Desc, n: nat)
    requires n <= |desc.fields|
    ensures |set j | 0 <= j < n && desc.fields[j].rule.Required?| == RequiredBefore(desc, n)
  {
    if n > 0 {
      CountRequired(desc, n - 1);
      var a, b := set j | 0 <= j < n - 1 && desc.fields[j].rule.Required?, set j | 0 <= j < n && desc.fields[j].rule.Required?;
      assert b == if desc.fields[n - 1].rule.Required? then a + {n - 1} else a;
    }
  }

  // ---------- packed and unpacked arrays ----------

  /** One record of a repeated field: a single element or a packed block. */
  datatype Chunk = One(v: Value) | Block(vs: seq<Value>)

  function ChunkItems(ch: Chunk): seq<Value> {
    match ch case One(v) => [v] case Block(vs) => vs
  }

  function AllItems(chunks: seq<Chunk>): seq<Value> {
    if chunks == [] then [] else ChunkItems(chunks[0]) + AllItems(chunks[1..])
  }

  function ChunkBytes(f: Field, ch: Chunk): Option<Bytes> {
    match ch
    case One(v) => EncBasic(f, v)
    case Block(vs) =>
      match EncItems(f, vs, false)
      case None => None
      case Some(bs) => Some(TagBytes(WT_STRING, f.tag) + Delimited(bs))
  }

  function AllBytes(f: Field, chunks: seq<Chunk>): Option<Bytes> {
    if chunks == [] then Some([])
    else
      match ChunkBytes(f, chunks[0])
      case None => None
      case Some(a) => match AllBytes(f, chunks[1..]) case None => None case Some(b) => Some(a + b)
  }

  predicate ScalarArray(desc: Desc, i: nat) {
    i < |desc.fields| && desc.fields[i].rule.Repeated? && Packable(desc.fields[i].ty)
  }

  /** The wire type of a chunk, and its bytes without the tag. */
  function ChunkType(f: Field, ch: Chunk): nat {
    if ch.One? then WireType(f.ty) else WT_STRING
  }

  function ChunkPayload(f: Field, ch: Chunk): Bytes
    requires ChunkBytes(f, ch).Some?
  {
    match ch case One(v) => EncValue(f.ty, v).value case Block(vs) => Delimited(EncItems(f, vs, false).value)
  }

  /** What decoding a chunk makes of an array: appended, or refused when it does not fit. */
  function Appended(max: nat, items: seq<Value>, more: seq<Value>, fx: Fixing, n: nat): Parsed<(Cell, Fixing)> {
    if |items| + |more| <= max then Got((Arr(items + more), fx), n) else Bad
  }

  /** A single element. */
  lemma OneDecodes(f: Field, i: nat, v: Value, items: seq<Value>, fx: Fixing, a: Bytes)
    requires f.rule.Repeated? && Packable(f.ty) && TyOk(f.ty) && ValueOk(f.ty, v) && CleanValue(f.ty, v) && |items| <= f.rule.max
    requires EncValue(f.ty, v) == Some(a) && |a| < TWO32
    ensures Skip(WireType(f.ty), a) == Got((), |a|)
    ensures DecField(f, i, WireType(f.ty), Arr(items), fx, a) == Appended(f.rule.max, items, [v], fx, |a|)
  {
    BasicRoundTrip(f.ty, v, Zero(f.ty), true);
    BasicExtent(f.ty, WireType(f.ty), Zero(f.ty), true, a);
  }

  /** A packed block. */
  lemma BlockDecodes(f: Field, i: nat, vs: seq<Value>, items: seq<Value>, fx: Fixing, bs: Bytes)
    requires f.rule.Repeated? && Packable(f.ty) && TyOk(f.ty) && ItemsOk(f.ty, vs) && |items| <= f.rule.max
    requires EncItems(f, vs, false) == Some(bs) && |bs| < TWO32
    ensures Skip(WT_STRING, Delimited(bs)) == Got((), |Delimited(bs)|)
    ensures DecField(f, i, WT_STRING, Arr(items), fx, Delimited(bs)) == Appended(f.rule.max, items, vs, fx, |Delimited(bs)|)
  {
    var d := Delimited(bs);
    assert Prefixed(d) == Got(bs, |d|) by {
      PrefixedRoundTrip(bs, []);
      assert d + [] == d;
    }
    PackedRoundTrip(f, vs, f.rule.max - |items|);
    BlockIsAppended(f, i, vs, items, fx, d);
  }

  lemma BlockIsAppended(f: Field, i: nat, vs: seq<Value>, items: seq<Value>, fx: Fixing, d: Bytes)
    requires f.rule.Repeated? && Packable(f.ty) && |items| <= f.rule.max && Prefixed(d).Got? && Prefixed(d).size == |d|
    requires PackedItems(f.ty, f.rule.max - |items|, Prefixed(d).value) ==
             if vs == [] || |vs| <= f.rule.max - |items| then Some(vs) else None
    ensures DecField(f, i, WT_STRING, Arr(items), fx, d) == Appended(f.rule.max, items, vs, fx, |d|)
  {
  }

  /** One chunk on its own. */
  lemma ChunkDecodes(desc: Desc, i: nat, ch: Chunk, items: seq<Value>, fx: Fixing)
    requires DescOk(desc) && ScalarArray(desc, i)
    requires ItemsOk(desc.fields[i].ty, ChunkItems(ch)) && |items| <= desc.fields[i].rule.max
    requires ChunkBytes(desc.fields[i], ch).Some? && |ChunkBytes(desc.fields[i], ch).value| < TWO32
    ensures
      var f := desc.fields[i];
      var payload := ChunkPayload(f, ch);
      && ChunkBytes(f, ch).value == TagBytes(ChunkType(f, ch), f.tag) + payload
      && Skip(ChunkType(f, ch), payload) == Got((), |payload|)
      && DecField(f, i, ChunkType(f, ch), Arr(items), fx, payload) == Appended(f.rule.max, items, ChunkItems(ch), fx, |payload|)
  {
    var f := desc.fields[i];
    assert TyOk(f.ty);
    if ch.One? {
      assert ChunkItems(ch)[0] == ch.v;
      OneDecodes(f, i, ch.v, items, fx, EncValue(f.ty, ch.v).value);
    } else {
      BlockDecodes(f, i, ch.vs, items, fx, EncItems(f, ch.vs, false).value);
    }
  }

  /** The state with these elements in the array. */
  function Holding(st: State, i: nat, items: seq<Value>): State
    requires i < |st.cells|
  {
    st.(cells := st.cells[i := Arr(items)])
  }

  lemma ChunkStep(desc: Desc, i: nat, ch: Chunk, st: State, rest: Bytes)
    requires DescOk(desc) && ScalarArray(desc, i) && i < |st.cells| && st.cells[i].Arr?
    requires ItemsOk(desc.fields[i].ty, ChunkItems(ch)) && |st.cells[i].items| <= desc.fields[i].rule.max
    requires ChunkBytes(desc.fields[i], ch).Some? && |ChunkBytes(desc.fields[i], ch).value| < TWO32
    ensures
      var items := st.cells[i].items + ChunkItems(ch);
      DecLoop(desc, st, ChunkBytes(desc.fields[i], ch).value + rest) ==
      if |items| <= desc.fields[i].rule.max then DecLoop(desc, Holding(st, i, items), rest) else None
  {
    var f := desc.fields[i];
    assert SlotOk(desc.fields, i);
    var items := st.cells[i].items;
    ChunkDecodes(desc, i, ch, items, st.fixing);
    var wt, a, payload := ChunkType(f, ch), ChunkBytes(f, ch).value, ChunkPayload(f, ch);
    if |items| + |ChunkItems(ch)| <= f.rule.max {
      OneRecord(desc, i, st, wt, payload, Arr(items + ChunkItems(ch)), st.fixing);
      LoopThen(desc, st, a, Holding(st, i, items + ChunkItems(ch)), rest);
    } else {
      RefusedRecord(desc, i, st, wt, payload, rest);
    }
  }

  /** A record whose field cannot be decoded stops the loop, whatever follows. */
  lemma RefusedRecord(desc: Desc, i: nat, st: State, wt: nat, payload: Bytes, rest: Bytes)
    requires DescOk(desc) && i < |desc.fields| && wt < 8 && Skip(wt, payload) == Got((), |payload|)
    requires DecField(desc.fields[i], i, wt, At(st.cells, desc.fields[i].slot), st.fixing, payload).Bad?
    ensures DecLoop(desc, st, TagBytes(wt, desc.fields[i].tag) + payload + rest).None?
  {
    var a := TagBytes(wt, desc.fields[i].tag) + payload;
    TagRoundTrip(wt, desc.fields[i].tag, payload);
    LookupOwnTag(desc, i);
    assert Record(a) == Got((desc.fields[i].tag, wt), |a|);
    assert a + [] == a;
    assert DecStep(desc, st, a).Bad?;
    StepOnRecord(desc, st, a, [], rest);
  }

  /** Any interleaving of packed blocks and single elements decodes to the concatenation of
      the elements, or is refused, exactly when they do not all fit into the array. */
  lemma {:induction false} PackedAndUnpackedAgree(desc: Desc, i: nat, chunks: seq<Chunk>, st: State)
    requires DescOk(desc) && ScalarArray(desc, i) && i < |st.cells| && st.cells[i].Arr?
    requires |st.cells[i].items| <= desc.fields[i].rule.max
    requires forall k | 0 <= k < |chunks| :: ItemsOk(desc.fields[i].ty, ChunkItems(chunks[k]))
    requires AllBytes(desc.fields[i], chunks).Some? && |AllBytes(desc.fields[i], chunks).value| < TWO32
    ensures
      var items := st.cells[i].items + AllItems(chunks);
      DecLoop(desc, st, AllBytes(desc.fields[i], chunks).value) ==
      if |items| <= desc.fields[i].rule.max then Some(Holding(st, i, items)) else None
    decreases |chunks|
  {
    var f := desc.fields[i];
    var items := st.cells[i].items;
    if chunks == [] {
      HoldingSame(st, i, items);
    } else {
      var ch, rest := chunks[0], chunks[1..];
      var more, all := ChunkItems(ch), AllItems(rest);
      ChunkStep(desc, i, ch, st, AllBytes(f, rest).value);
      Regroup(items, more, all);
      if |items + more| <= f.rule.max {
        PackedAndUnpackedAgree(desc, i, rest, Holding(st, i, items + more));
        HoldingTwice(st, i, items + more, items + more + all);
      }
    }
  }

  lemma Regroup<T>(a: seq<T>, b: seq<T>, c: seq<T>)
    ensures a + (b + c) == a + b + c
  {
  }

  lemma HoldingSame(st: State, i: nat, items: seq<Value>)
    requires i < |st.cells| && st.cells[i] == Arr(items)
    ensures Holding(st, i, items + []) == st
  {
    assert items + [] == items;
    assert st.cells[i := Arr(items)] == st.cells;
  }

  lemma HoldingTwice(st: State, i: nat, a: seq<Value>, b: seq<Value>)
    requires i < |st.cells|
    ensures Holding(Holding(st, i, a), i, b) == Holding(st, i, b)
  {
    assert st.cells[i := Arr(a)][i := Arr(b)] == st.cells[i := Arr(b)];
  }
}
