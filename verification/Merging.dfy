/** What concatenating messages means: unknown records do not matter, and decoding two
    messages one after the other into a struct is decoding their concatenation. */
module Merging {
  import opened Wire
  import opened Message
  import opened Encoding
  import opened Wrappers
  import opened Decoding
  import opened Locality

  // ---------- unknown fields are transparent ----------

  predicate Unknown(desc: Desc, tag: nat) {
    tag != 0 && Lookup(desc, tag) == |desc.fields|
  }

  /** `s` without its records of unknown tag, up to the first malformed record. */
  function Strip(desc: Desc, s: Bytes): (r: Bytes)
    ensures |r| <= |s|
    decreases |s|
  {
    if s == [] then []
    else
      match Record(s)
      case Bad => s
      case Got((tag, wt), n) => (if Unknown(desc, tag) then [] else s[..n]) + Strip(desc, s[n..])
  }

  /** A record in front of two inputs that decode alike. */
  lemma LoopOnRecord(desc: Desc, st: State, r: Bytes, x: Bytes, y: Bytes)
    requires r != [] && Record(r).Got? && Record(r).size == |r|
    requires DecStep(desc, st, r + x).Got? ==>
               DecLoop(desc, DecStep(desc, st, r + x).value, x) == DecLoop(desc, DecStep(desc, st, r + x).value, y)
    ensures DecLoop(desc, st, r + x) == DecLoop(desc, st, r + y)
  {
    StepOnRecord(desc, st, r, x, y);
    assert (r + x)[|r|..] == x && (r + y)[|r|..] == y;
  }

  lemma UnknownStep(desc: Desc, st: State, s: Bytes)
    requires Record(s).Got? && Unknown(desc, Record(s).value.0)
    ensures DecLoop(desc, st, s) == DecLoop(desc, st, s[Record(s).size..])
  {
    assert DecStep(desc, st, s) == Got(st, Record(s).size);
  }

  lemma {:induction false} StripLoop(desc: Desc, st: State, s: Bytes)
    ensures DecLoop(desc, st, Strip(desc, s)) == DecLoop(desc, st, s)
    decreases |s|
  {
    if s != [] && Record(s).Got? {
      var Got((tag, wt), n) := Record(s);
      var r, rest := s[..n], s[n..];
      if Unknown(desc, tag) {
        UnknownStep(desc, st, s);
        StripLoop(desc, st, rest);
        assert Strip(desc, s) == Strip(desc, rest);
      } else {
        assert s == r + rest && r[..n] == r;
        RecordLocal(s, r);
        if DecStep(desc, st, s).Got? {
          StripLoop(desc, DecStep(desc, st, s).value, rest);
        }
        LoopOnRecord(desc, st, r, rest, Strip(desc, rest));
      }
    }
  }

  /** For every input and destination, valid or not, removing the unknown records changes
      neither whether pb_decode succeeds nor the struct it builds. */
  lemma UnknownFieldsTransparent(desc: Desc, dest: Cells, s: Bytes)
    ensures Decode(desc, dest, Strip(desc, s)) == Decode(desc, dest, s)
  {
    StripLoop(desc, Start(SetDefaults(desc, dest)), s);
  }

  /** A sequence of whole records. */
  predicate Whole(s: Bytes)
    decreases |s|
  {
    s == [] || (Record(s).Got? && Whole(s[Record(s).size..]))
  }

  lemma {:induction false} StripAppend(desc: Desc, a: Bytes, b: Bytes)
    requires Whole(a)
    ensures Strip(desc, a + b) == Strip(desc, a) + Strip(desc, b)
    decreases |a|
  {
    if a == [] {
      assert a + b == b;
    } else {
      var n := Record(a).size;
      HeadOfJoin(a, b, n);
      StripAppend(desc, a[n..], b);
      Regroup(if Unknown(desc, Record(a).value.0) then [] else a[..n], Strip(desc, a[n..]), Strip(desc, b));
    }
  }

  lemma HeadOfJoin(a: Bytes, b: Bytes, n: nat)
    requires Record(a).Got? && n == Record(a).size
    ensures Record(a + b) == Record(a) && (a + b)[n..] == a[n..] + b && (a + b)[..n] == a[..n]
  {
    assert (a + b)[..n] == a[..n];
    assert a[..n] <= a + b;
    RecordLocal(a, a + b);
  }

  lemma Regroup(x: Bytes, y: Bytes, z: Bytes)
    ensures x + (y + z) == x + y + z
  {
  }

  /** Unknown records `u` may be inserted at any record boundary. */
  lemma UnknownInserted(desc: Desc, dest: Cells, a: Bytes, u: Bytes, b: Bytes)
    requires Whole(a) && Whole(u) && Strip(desc, u) == []
    ensures Decode(desc, dest, a + u + b) == Decode(desc, dest, a + b)
  {
    StripVanishes(desc, u, b);
    StripAppend(desc, a, b);
    Regroup(a, u, b);
    StripAppend(desc, a, u + b);
    UnknownFieldsTransparent(desc, dest, a + u + b);
    UnknownFieldsTransparent(desc, dest, a + b);
  }

  lemma StripVanishes(desc: Desc, u: Bytes, b: Bytes)
    requires Whole(u) && Strip(desc, u) == []
    ensures Strip(desc, u + b) == Strip(desc, b)
  {
    StripAppend(desc, u, b);
  }

  /** An accepted message is a sequence of whole records with non-zero tags. */
  lemma {:induction false} AcceptedIsWhole(desc: Desc, st: State, s: Bytes)
    requires DecLoop(desc, st, s).Some?
    ensures Whole(s)
    decreases |s|
  {
    if s != [] {
      var Got(st', n) := DecStep(desc, st, s);
      StepExtent(desc, st, s);
      AcceptedIsWhole(desc, st', s[n..]);
    }
  }

  // ---------- concatenation is merge ----------

  /** Index of the first fixed-count field that occurs in `s`, or |fields|. */
  function FirstFixed(desc: Desc, s: Bytes): (i: nat)
    ensures i <= |desc.fields|
    ensures i < |desc.fields| ==> desc.fields[i].rule.FixArray?
    decreases |s|
  {
    if s == [] then |desc.fields|
    else
      match Record(s)
      case Bad => |desc.fields|
      case Got((tag, _), n) =>
        var i := Lookup(desc, tag);
        if i < |desc.fields| && desc.fields[i].rule.FixArray? then i else FirstFixed(desc, s[n..])
  }

  /** Index of the last fixed-count field that occurs in `s`, or |fields|. */
  function LastFixed(desc: Desc, s: Bytes): (i: nat)
    ensures i <= |desc.fields|
    ensures i < |desc.fields| ==> desc.fields[i].rule.FixArray?
    decreases |s|
  {
    if s == [] then |desc.fields|
    else
      match Record(s)
      case Bad => |desc.fields|
      case Got((tag, _), n) =>
        var i, last := Lookup(desc, tag), LastFixed(desc, s[n..]);
        if last < |desc.fields| then last
        else if i < |desc.fields| && desc.fields[i].rule.FixArray? then i else |desc.fields|
  }

  /** The decoder remembers the fixed-count field met last. */
  lemma {:induction false} LastFixedIsRemembered(desc: Desc, st: State, s: Bytes)
    requires DecLoop(desc, st, s).Some?
    ensures
      var fx := DecLoop(desc, st, s).value.fixing;
      if LastFixed(desc, s) < |desc.fields| then fx.active && fx.index == LastFixed(desc, s) else fx == st.fixing
    decreases |s|
  {
    if s != [] {
      StepExtent(desc, st, s);
      var Got(st', n) := DecStep(desc, st, s);
      LastFixedIsRemembered(desc, st', s[n..]);
      StepRemembers(desc, st, s);
    }
  }

  lemma StepRemembers(desc: Desc, st: State, s: Bytes)
    requires s != [] && DecStep(desc, st, s).Got? && Record(s).Got?
    ensures
      var fx, i := DecStep(desc, st, s).value.fixing, Lookup(desc, Record(s).value.0);
      if i < |desc.fields| && desc.fields[i].rule.FixArray? then fx.active && fx.index == i else fx == st.fixing
  {
    var Got(t, k) := Varint32(s);
    var i := Lookup(desc, t / 8);
    if i < |desc.fields| && !desc.fields[i].rule.FixArray? {
      FieldIgnoresFixing(desc.fields[i], i, t % 8, At(st.cells, desc.fields[i].slot), st.fixing, st.fixing, s[k..]);
    }
  }

  /** `x` is a state like `y` reached earlier: the same struct, the required fields in
      `more` not yet counted, and fixed-count progress that makes no difference to what
      follows because `y` has just completed an array that `s` does not reopen. */
  predicate Behind(desc: Desc, x: State, y: State, more: set<nat>, s: Bytes) {
    && x.cells == y.cells
    && y.seen == x.seen + more
    && (x.fixing == y.fixing ||
        (x.fixing == NoFixing && y.fixing.active && Complete(y.fixing) && FirstFixed(desc, s) != y.fixing.index))
  }

  lemma StepBehind(desc: Desc, x: State, y: State, more: set<nat>, s: Bytes)
    requires s != [] && Behind(desc, x, y, more, s) && DecStep(desc, x, s).Got?
    ensures DecStep(desc, y, s).Got? && DecStep(desc, y, s).size == DecStep(desc, x, s).size
    ensures Behind(desc, DecStep(desc, x, s).value, DecStep(desc, y, s).value, more, s[DecStep(desc, x, s).size..])
  {
    StepExtent(desc, x, s);
    var Got(t, k) := Varint32(s);
    var i := Lookup(desc, t / 8);
    if i < |desc.fields| && !desc.fields[i].rule.FixArray? {
      FieldIgnoresFixing(desc.fields[i], i, t % 8, At(x.cells, desc.fields[i].slot), x.fixing, y.fixing, s[k..]);
    }
  }

  lemma FieldIgnoresFixing(f: Field, i: nat, wt: nat, c: Cell, fx: Fixing, fy: Fixing, s: Bytes)
    requires !f.rule.FixArray?
    ensures DecField(f, i, wt, c, fx, s).Got? == DecField(f, i, wt, c, fy, s).Got?
    ensures DecField(f, i, wt, c, fx, s).Got? ==>
              && DecField(f, i, wt, c, fx, s).value.1 == fx
              && DecField(f, i, wt, c, fy, s) ==
                 Got((DecField(f, i, wt, c, fx, s).value.0, fy), DecField(f, i, wt, c, fx, s).size)
  {
  }

  lemma {:induction false} LoopBehind(desc: Desc, x: State, y: State, more: set<nat>, s: Bytes)
    requires Behind(desc, x, y, more, s) && DecLoop(desc, x, s).Some?
    ensures DecLoop(desc, y, s).Some?
    ensures Behind(desc, DecLoop(desc, x, s).value, DecLoop(desc, y, s).value, more, [])
    decreases |s|
  {
    if s != [] {
      StepBehind(desc, x, y, more, s);
      var Got(x', n) := DecStep(desc, x, s);
      LoopBehind(desc, x', DecStep(desc, y, s).value, more, s[n..]);
    }
  }

  /** `x` is still filling the array that `y` has already filled. */
  predicate Filling(desc: Desc, x: State, y: State) {
    && x.cells == y.cells && x.fixing.active && x.fixing.size < x.fixing.total
    && y.fixing == x.fixing.(size := x.fixing.total)
    && x.fixing.index < |desc.fields| && desc.fields[x.fixing.index].rule == FixArray(x.fixing.total)
  }

  lemma StepStuck(desc: Desc, x: State, y: State, s: Bytes)
    requires Filling(desc, x, y) && DecStep(desc, x, s).Got? && DecStep(desc, y, s).Got?
    ensures DecStep(desc, y, s).size == DecStep(desc, x, s).size
    ensures Filling(desc, DecStep(desc, x, s).value, DecStep(desc, y, s).value)
  {
    var Got(t, k) := Varint32(s);
    var i := Lookup(desc, t / 8);
    if i < |desc.fields| {
      var f := desc.fields[i];
      if f.rule.FixArray? {
        StuckField(f, i, t % 8, At(x.cells, f.slot), x.fixing, y.fixing, s[k..]);
      } else {
        FieldIgnoresFixing(f, i, t % 8, At(x.cells, f.slot), x.fixing, y.fixing, s[k..]);
      }
    }
  }

  /** An array that is already full rejects the elements the other run still has to store. */
  lemma {:induction false} LoopStuck(desc: Desc, x: State, y: State, s: Bytes)
    requires Filling(desc, x, y)
    requires DecLoop(desc, x, s).Some? && Complete(DecLoop(desc, x, s).value.fixing)
    ensures DecLoop(desc, y, s).None?
    decreases |s|
  {
    if DecStep(desc, y, s).Got? {
      StepStuck(desc, x, y, s);
      LoopStuck(desc, DecStep(desc, x, s).value, DecStep(desc, y, s).value, s[DecStep(desc, x, s).size..]);
    }
  }

  lemma StuckField(f: Field, i: nat, wt: nat, c: Cell, fx: Fixing, fy: Fixing, s: Bytes)
    requires f.rule.FixArray? && fx.active && fy.active
    requires fx.index == fy.index && fx.total == fy.total && fx.size < fx.total && fy.size == fy.total
    requires fx.index == i ==> f.rule == FixArray(fx.total)
    requires DecField(f, i, wt, c, fx, s).Got?
    ensures DecField(f, i, wt, c, fy, s).Got? ==>
              && DecField(f, i, wt, c, fx, s).value == (DecField(f, i, wt, c, fy, s).value.0, fx)
              && DecField(f, i, wt, c, fy, s).value.1 == fy
              && DecField(f, i, wt, c, fx, s).size == DecField(f, i, wt, c, fy, s).size
  {
    if TakesBlock(f, wt) && DecField(f, i, wt, c, fy, s).Got? {
      var bs := Prefixed(s).value;
      assert bs == [];
      assert Overlay(Items(c), fx.size, []) == Overlay(Items(c), fy.size, []);
    }
  }

  /** The state in which `a` leaves the decoder. */
  function After(desc: Desc, cells: Cells, a: Bytes): State
    requires DecLoop(desc, Start(cells), a).Some?
  {
    DecLoop(desc, Start(cells), a).value
  }

  /** The second message begins its fixed-count arrays with the one that the first message
      ended with, and that has elements. */
  predicate Reopens(desc: Desc, a: Bytes, b: Bytes) {
    var i := LastFixed(desc, a);
    i < |desc.fields| && FirstFixed(desc, b) == i && desc.fields[i].rule.max > 0
  }

  /** That is the array the decoder would go on filling. */
  lemma ReopensMeans(desc: Desc, cells: Cells, a: Bytes, b: Bytes)
    requires DecLoop(desc, Start(cells), a).Some?
    ensures
      var fx := After(desc, cells, a).fixing;
      FixingOk(desc, fx) && (Reopens(desc, a, b) <==> fx.active && fx.total > 0 && FirstFixed(desc, b) == fx.index)
  {
    FixingShape(desc, Start(cells), a);
    LastFixedIsRemembered(desc, Start(cells), a);
  }

  /** Concatenation is merge: `a` and then `b` decoded into the same struct without
      initialising it in between amount to `a + b` decoded at once, except that
      a fixed-count array that ends `a` and is opened again by `b` overflows. */
  lemma ConcatenationIsMerge(desc: Desc, cells: Cells, a: Bytes, b: Bytes)
    requires DecInner(desc, cells, a).Some?
    requires DecInner(desc, DecInner(desc, cells, a).value, b).Some?
    ensures DecInner(desc, cells, a + b) ==
            if Reopens(desc, a, b) then None else DecInner(desc, DecInner(desc, cells, a).value, b)
  {
    var y := After(desc, cells, a);
    var x := Start(y.cells);
    LoopAppend(desc, Start(cells), a, b);
    ReopensMeans(desc, cells, a, b);
    if Reopens(desc, a, b) {
      ReopenedOverflows(desc, x, y, b);
    } else {
      MergeStates(desc, x, y, b);
    }
  }

  /** Fixed-count progress always describes a fixed-count field of the message. */
  predicate FixingOk(desc: Desc, fx: Fixing) {
    if fx.active then
      fx.index < |desc.fields| && desc.fields[fx.index].rule == FixArray(fx.total) && fx.size <= fx.total
    else fx == NoFixing
  }

  lemma {:induction false} FixingShape(desc: Desc, st: State, s: Bytes)
    requires FixingOk(desc, st.fixing) && DecLoop(desc, st, s).Some?
    ensures FixingOk(desc, DecLoop(desc, st, s).value.fixing)
    decreases |s|
  {
    if s != [] {
      var Got(st', n) := DecStep(desc, st, s);
      var Got(t, k) := Varint32(s);
      var i := Lookup(desc, t / 8);
      if i < |desc.fields| {
        FieldFixing(desc, i, t % 8, At(st.cells, desc.fields[i].slot), st.fixing, s[k..]);
      }
      FixingShape(desc, st', s[n..]);
    }
  }

  lemma FieldFixing(desc: Desc, i: nat, wt: nat, c: Cell, fx: Fixing, s: Bytes)
    requires i < |desc.fields| && FixingOk(desc, fx) && DecField(desc.fields[i], i, wt, c, fx, s).Got?
    ensures FixingOk(desc, DecField(desc.fields[i], i, wt, c, fx, s).value.1)
  {
  }

  lemma MergeStates(desc: Desc, x: State, y: State, b: Bytes)
    requires x == Start(y.cells) && FixingOk(desc, y.fixing) && Accepted(desc, y)
    requires y.fixing.active && y.fixing.total > 0 ==> FirstFixed(desc, b) != y.fixing.index
    requires DecLoop(desc, x, b).Some? && Accepted(desc, DecLoop(desc, x, b).value)
    ensures DecLoop(desc, y, b).Some? && Accepted(desc, DecLoop(desc, y, b).value)
    ensures DecLoop(desc, y, b).value.cells == DecLoop(desc, x, b).value.cells
  {
    if y.fixing.active && FirstFixed(desc, b) == y.fixing.index {
      // an empty array: completed again as soon as it is opened
      LoopEmpty(desc, x, y, y.seen, b);
    } else {
      assert Behind(desc, x, y, y.seen, b);
      LoopBehind(desc, x, y, y.seen, b);
    }
  }

  /** For an array of no elements, having met it or not makes no difference at all. */
  predicate EmptyBehind(x: State, y: State, more: set<nat>) {
    && x.cells == y.cells
    && y.seen == x.seen + more
    && (x.fixing == y.fixing || (x.fixing == NoFixing && y.fixing.active && y.fixing.total == 0 && y.fixing.size == 0))
  }

  lemma {:induction false} LoopEmpty(desc: Desc, x: State, y: State, more: set<nat>, s: Bytes)
    requires EmptyBehind(x, y, more) && FixingOk(desc, y.fixing) && DecLoop(desc, x, s).Some?
    ensures DecLoop(desc, y, s).Some?
    ensures EmptyBehind(DecLoop(desc, x, s).value, DecLoop(desc, y, s).value, more)
    decreases |s|
  {
    if s != [] {
      var Got(x', n) := DecStep(desc, x, s);
      StepEmpty(desc, x, y, more, s);
      LoopEmpty(desc, x', DecStep(desc, y, s).value, more, s[n..]);
    }
  }

  lemma StepEmpty(desc: Desc, x: State, y: State, more: set<nat>, s: Bytes)
    requires EmptyBehind(x, y, more) && FixingOk(desc, y.fixing) && DecStep(desc, x, s).Got?
    ensures DecStep(desc, y, s).Got? && DecStep(desc, y, s).size == DecStep(desc, x, s).size
    ensures EmptyBehind(DecStep(desc, x, s).value, DecStep(desc, y, s).value, more)
    ensures FixingOk(desc, DecStep(desc, y, s).value.fixing)
  {
    var Got(t, k) := Varint32(s);
    var i := Lookup(desc, t / 8);
    if i < |desc.fields| {
      FieldEmpty(desc, x, y, i, t % 8, s[k..]);
    }
  }

  lemma FieldEmpty(desc: Desc, x: State, y: State, i: nat, wt: nat, s: Bytes)
    requires i < |desc.fields| && x.cells == y.cells && FixingOk(desc, y.fixing)
    requires x.fixing == y.fixing || (x.fixing == NoFixing && y.fixing.active && y.fixing.total == 0 && y.fixing.size == 0)
    requires DecField(desc.fields[i], i, wt, At(x.cells, desc.fields[i].slot), x.fixing, s).Got?
    ensures
      var f := desc.fields[i];
      var p, q := DecField(f, i, wt, At(x.cells, f.slot), x.fixing, s), DecField(f, i, wt, At(y.cells, f.slot), y.fixing, s);
      && q.Got? && q.size == p.size && q.value.0 == p.value.0 && FixingOk(desc, q.value.1)
      && (p.value.1 == q.value.1 || (p.value.1 == NoFixing && q.value.1.active && q.value.1.total == 0 && q.value.1.size == 0))
  {
    var f := desc.fields[i];
    if !f.rule.FixArray? {
      FieldIgnoresFixing(f, i, wt, At(x.cells, f.slot), x.fixing, y.fixing, s);
    } else {
      FieldFixing(desc, i, wt, At(y.cells, f.slot), y.fixing, s);
    }
  }

  lemma {:induction false} ReopenedOverflows(desc: Desc, x: State, y: State, s: Bytes)
    requires x.cells == y.cells && x.fixing == NoFixing && FixingOk(desc, y.fixing)
    requires y.fixing.active && y.fixing.size == y.fixing.total > 0 && FirstFixed(desc, s) == y.fixing.index
    requires DecLoop(desc, x, s).Some? && Complete(DecLoop(desc, x, s).value.fixing)
    ensures DecLoop(desc, y, s).None?
    decreases |s|
  {
    StepExtent(desc, x, s);
    var Got(x', n) := DecStep(desc, x, s);
    var Got(t, k) := Varint32(s);
    var i := Lookup(desc, t / 8);
    if DecStep(desc, y, s).Got? {
      var y' := DecStep(desc, y, s).value;
      StepExtent(desc, y, s);
      if i < |desc.fields| && desc.fields[i].rule.FixArray? {
        ReopeningField(desc, i, t % 8, At(x.cells, desc.fields[i].slot), y.fixing, s[k..]);
        LoopStuck(desc, x', y', s[n..]);
      } else {
        if i < |desc.fields| {
          FieldIgnoresFixing(desc.fields[i], i, t % 8, At(x.cells, desc.fields[i].slot), x.fixing, y.fixing, s[k..]);
        }
        ReopenedOverflows(desc, x', y', s[n..]);
      }
    }
  }

  lemma ReopeningField(desc: Desc, i: nat, wt: nat, c: Cell, fy: Fixing, s: Bytes)
    requires i < |desc.fields| && desc.fields[i].rule == FixArray(fy.total)
    requires fy.active && fy.index == i && fy.size == fy.total > 0
    requires DecField(desc.fields[i], i, wt, c, NoFixing, s).Got? && DecField(desc.fields[i], i, wt, c, fy, s).Got?
    ensures DecField(desc.fields[i], i, wt, c, NoFixing, s).value.0 == DecField(desc.fields[i], i, wt, c, fy, s).value.0
    ensures DecField(desc.fields[i], i, wt, c, NoFixing, s).value.1 == Fixing(true, i, 0, fy.total)
    ensures DecField(desc.fields[i], i, wt, c, fy, s).value.1 == fy
  {
    var bs := Prefixed(s).value;
    assert bs == [];
    assert Overlay(Items(c), 0, []) == Overlay(Items(c), fy.size, []);
  }

  /** The same for pb_decode: with the first message decoded into initialised memory. */
  lemma DecodeConcatenation(desc: Desc, dest: Cells, a: Bytes, b: Bytes)
    requires Decode(desc, dest, a).Some? && DecInner(desc, Decode(desc, dest, a).value, b).Some?
    ensures Decode(desc, dest, a + b) == if Reopens(desc, a, b) then None else DecInner(desc, Decode(desc, dest, a).value, b)
  {
    ConcatenationIsMerge(desc, SetDefaults(desc, dest), a, b);
  }

  /** Submessages are merged: two occurrences of a submessage field act as one whose payload
      is the concatenation of theirs, except when that overflows a fixed-count array. */
  lemma SubmessagesMerge(f: Field, i: nat, c: Cell, fx: Fixing, a: Bytes, b: Bytes)
    requires f.ty.Sub? && (f.rule.Required? || f.rule.Singular? || f.rule.Optional? || f.rule.Oneof?)
    requires |a| + |b| < TWO32
    requires DecField(f, i, WT_STRING, c, fx, Delimited(a)).Got?
    requires DecField(f, i, WT_STRING, DecField(f, i, WT_STRING, c, fx, Delimited(a)).value.0, fx, Delimited(b)).Got?
    ensures
      var first := DecField(f, i, WT_STRING, c, fx, Delimited(a)).value.0;
      DecField(f, i, WT_STRING, c, fx, Delimited(a + b)) ==
      if Reopens(f.ty.desc, a, b) then Bad
      else Got(DecField(f, i, WT_STRING, first, fx, Delimited(b)).value, |Delimited(a + b)|)
  {
    var desc, prev := f.ty.desc, Target(f, c, fx).0;
    var cells := Cast(desc, prev);
    SubPayload(f.ty, prev, a);
    SubPayload(f.ty, Struct(DecInner(desc, cells, a).value), b);
    SubPayload(f.ty, prev, a + b);
    ConcatenationIsMerge(desc, cells, a, b);
  }

  lemma SubPayload(ty: Ty, prev: Value, a: Bytes)
    requires ty.Sub? && |a| < TWO32
    ensures DecBasic(ty, WT_STRING, prev, false, Delimited(a)) ==
            match DecInner(ty.desc, Cast(ty.desc, prev), a)
            case None => Bad
            case Some(r) => Got(Struct(r), |Delimited(a)|)
  {
    assert Delimited(a) + [] == Delimited(a);
    SubmessagePayload(ty, prev, false, a, []);
  }

  /** A fixed-count array does not survive concatenation: two valid messages whose
      concatenation is rejected. */
  lemma FixedArrayConcatenationFails()
    ensures var desc := Desc([Field(1, FixArray(1), Bool, 0)], []);
            var a := [8, 1];
            && Decode(desc, ZeroCells(desc), a) == Some([Arr([Num(1)])])
            && DecInner(desc, [Arr([Num(1)])], a) == Some([Arr([Num(1)])])
            && Decode(desc, ZeroCells(desc), a + a) == None
  {
    var f := Field(1, FixArray(1), Bool, 0);
    var desc := Desc([f], []);
    var a: Bytes := [8, 1];
    forall c: Cell | c.Arr? && |c.items| == 1
      ensures DecInner(desc, [c], a) == Some([Arr([Num(1)])])
      ensures DecLoop(desc, Start([c]), a) == Some(State([Arr([Num(1)])], {}, Fixing(true, 0, 1, 1)))
    {
      assert DecScalar(Bool, 0, [1]) == Got(Num(1), 1) by { assert Varint32([1]) == Got(1, 1); }
      assert a[1..] == [1];
      assert Varint32(a) == Got(8, 1);
      assert Lookup(desc, 1) == 0;
      assert Overlay(c.items, 0, [Num(1)]) == [Num(1)];
      assert DecField(f, 0, 0, c, NoFixing, a[1..]) == Got((Arr([Num(1)]), Fixing(true, 0, 1, 1)), 1);
      assert At([c], 0) == c;
      assert [c][0 := Arr([Num(1)])] == [Arr([Num(1)])];
      assert DecStep(desc, Start([c]), a) == Got(State([Arr([Num(1)])], {}, Fixing(true, 0, 1, 1)), 2);
    }
    assert SetDefaults(desc, ZeroCells(desc)) == ZeroCells(desc) by { DefaultsOfZero(desc); }
    var z := ZeroCell(f);
    assert ZeroCells(desc) == [z];
    assert FirstFixed(desc, a) == 0 by {
      assert Varint32(a) == Got(8, 1);
      assert a[1..] == [1];
      assert SkipVarint([1]) == Got((), 1);
      assert Lookup(desc, 1) == 0;
    }
    ConcatenationIsMerge(desc, [z], a, a);
  }
}
