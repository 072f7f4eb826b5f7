/** The decoder reads a message record by record: a field decode consumes exactly the bytes
    that a reader knowing no descriptor would skip, and depends on no others. */
module Locality {
  import opened Wire
  import opened Message
  import opened Encoding
  import opened Wrappers
  import opened Decoding

  /** A scalar occupies exactly what pb_skip_field skips for its wire type. */
  lemma ScalarExtent(ty: Ty, wt: nat, s: Bytes)
    requires wt != WT_PACKED && DecScalar(ty, wt, s).Got?
    ensures Skip(wt, s) == Got((), DecScalar(ty, wt, s).size)
  {
    if ty.Bool? {
      Varint32Refines(s);
      VarintExtent(s, 0);
    } else if ty.VarInt? || ty.UVarInt? || ty.SVarInt? {
      VarintExtent(s, 0);
    }
  }

  lemma ScalarLocal(ty: Ty, wt: nat, s: Bytes, t: Bytes)
    requires DecScalar(ty, wt, s).Got? && s[..DecScalar(ty, wt, s).size] <= t
    ensures DecScalar(ty, wt, t) == DecScalar(ty, wt, s)
  {
    match ty
    case Bool => Varint32Local(s, t, 0, 0);
    case Fixed32 => FixedLocal(s, t, 4);
    case Fixed64 => FixedLocal(s, t, 8);
    case Blob(_) => PrefixedLocal(s, t);
    case Str(_) => PrefixedLocal(s, t);
    case FixedBlob(_) => PrefixedLocal(s, t);
    case Sub(_) =>
    case _ => VarintLocal(s, t, 0);
  }

  lemma BasicExtent(ty: Ty, wt: nat, prev: Value, init: bool, s: Bytes)
    requires wt != WT_PACKED && DecBasic(ty, wt, prev, init, s).Got?
    ensures Skip(wt, s) == Got((), DecBasic(ty, wt, prev, init, s).size)
  {
    if !ty.Sub? {
      ScalarExtent(ty, wt, s);
    }
  }

  lemma BasicLocal(ty: Ty, wt: nat, prev: Value, init: bool, s: Bytes, t: Bytes)
    requires DecBasic(ty, wt, prev, init, s).Got? && s[..DecBasic(ty, wt, prev, init, s).size] <= t
    ensures DecBasic(ty, wt, prev, init, t) == DecBasic(ty, wt, prev, init, s)
  {
    if ty.Sub? {
      PrefixedLocal(s, t);
    } else {
      ScalarLocal(ty, wt, s, t);
    }
  }

  /** The submessage or element a field decode hands to DecBasic. */
  function Target(f: Field, c: Cell, fx: Fixing): (Value, bool) {
    match f.rule
    case Repeated(_) => (Zero(f.ty), true)
    case FixArray(_) => (ItemAt(Items(c), fx.size), true)
    case Oneof => (if f.ty.Sub? && Which(c) != f.tag then DefaultValue(f.ty, Zero(f.ty)) else Val(c), false)
    case _ => (Val(c), false)
  }

  predicate TakesBlock(f: Field, wt: nat) {
    (f.rule.Repeated? || f.rule.FixArray?) && wt == WT_STRING && Packable(f.ty)
  }

  lemma FieldExtent(f: Field, i: nat, wt: nat, c: Cell, fx: Fixing, s: Bytes)
    requires wt != WT_PACKED && DecField(f, i, wt, c, fx, s).Got?
    ensures Skip(wt, s) == Got((), DecField(f, i, wt, c, fx, s).size)
  {
    if !TakesBlock(f, wt) {
      var fx := if f.rule.FixArray? then Enter(fx, i, f.rule.max).value else fx;
      var (prev, init) := Target(f, c, fx);
      BasicExtent(f.ty, wt, prev, init, s);
    }
  }

  lemma BlockLocal(f: Field, i: nat, wt: nat, c: Cell, fx: Fixing, s: Bytes, t: Bytes)
    requires TakesBlock(f, wt) && Prefixed(s) == Prefixed(t)
    ensures DecField(f, i, wt, c, fx, t) == DecField(f, i, wt, c, fx, s)
  {
    if f.rule.Repeated? {
    } else {
      assert f.rule.FixArray?;
    }
  }

  lemma FieldLocal(f: Field, i: nat, wt: nat, c: Cell, fx: Fixing, s: Bytes, t: Bytes)
    requires DecField(f, i, wt, c, fx, s).Got? && s[..DecField(f, i, wt, c, fx, s).size] <= t
    ensures DecField(f, i, wt, c, fx, t) == DecField(f, i, wt, c, fx, s)
  {
    if TakesBlock(f, wt) {
      PrefixedLocal(s, t);
      BlockLocal(f, i, wt, c, fx, s, t);
    } else {
      match f.rule
      case FixArray(max) => BasicLocal(f.ty, wt, ItemAt(Items(c), Enter(fx, i, max).value.size), true, s, t);
      case _ => BasicLocal(f.ty, wt, Target(f, c, fx).0, Target(f, c, fx).1, s, t);
    }
  }

  /** Whatever a step does with a record, it consumes that record exactly. */
  lemma StepExtent(desc: Desc, st: State, s: Bytes)
    requires DecStep(desc, st, s).Got?
    ensures Record(s).Got? && Record(s).size == DecStep(desc, st, s).size && Record(s).value.0 != 0
  {
    var Got(t, k) := Varint32(s);
    var i := Lookup(desc, t / 8);
    if i < |desc.fields| {
      FieldExtent(desc.fields[i], i, t % 8, At(st.cells, desc.fields[i].slot), st.fixing, s[k..]);
    }
  }

  lemma StepLocal(desc: Desc, st: State, s: Bytes, t: Bytes)
    requires DecStep(desc, st, s).Got? && s[..DecStep(desc, st, s).size] <= t
    ensures DecStep(desc, st, t) == DecStep(desc, st, s)
  {
    var Got(u, k) := Varint32(s);
    var n := DecStep(desc, st, s).size - k;
    PrefixTail(s, t, k, n);
    Varint32Local(s, t, 0, 0);
    var i := Lookup(desc, u / 8);
    if i == |desc.fields| {
      SkipLocal(u % 8, s[k..], t[k..]);
    } else {
      FieldLocal(desc.fields[i], i, u % 8, At(st.cells, desc.fields[i].slot), st.fixing, s[k..], t[k..]);
    }
  }

  /** A step sees only the record at the front: replacing what follows the record changes
      neither success nor result. */
  lemma StepOnRecord(desc: Desc, st: State, r: Bytes, x: Bytes, y: Bytes)
    requires Record(r).Got? && Record(r).size == |r|
    ensures DecStep(desc, st, r + x) == DecStep(desc, st, r + y)
    ensures DecStep(desc, st, r + x).Got? ==> DecStep(desc, st, r + x).size == |r|
  {
    StepOnRecordOneWay(desc, st, r, x, y);
    StepOnRecordOneWay(desc, st, r, y, x);
  }

  lemma StepOnRecordOneWay(desc: Desc, st: State, r: Bytes, x: Bytes, y: Bytes)
    requires Record(r).Got? && Record(r).size == |r|
    ensures DecStep(desc, st, r + x).Got? ==>
              DecStep(desc, st, r + x).size == |r| && DecStep(desc, st, r + y) == DecStep(desc, st, r + x)
  {
    if DecStep(desc, st, r + x).Got? {
      StepExtent(desc, st, r + x);
      assert r[..|r|] == r <= r + x;
      RecordLocal(r, r + x);
      assert (r + x)[..|r|] == r;
      StepLocal(desc, st, r + x, r + y);
    }
  }

  /** Decoding is sequential: after a prefix that decodes, decoding goes on from the state
      reached. */
  lemma {:induction false} LoopAppend(desc: Desc, st: State, a: Bytes, b: Bytes)
    requires DecLoop(desc, st, a).Some?
    ensures DecLoop(desc, st, a + b) == DecLoop(desc, DecLoop(desc, st, a).value, b)
    decreases |a|
  {
    if a == [] {
      assert a + b == b;
    } else {
      var Got(st', n) := DecStep(desc, st, a);
      assert a[..n] <= a + b;
      StepLocal(desc, st, a, a + b);
      assert (a + b)[n..] == a[n..] + b;
      LoopAppend(desc, st', a[n..], b);
    }
  }

  /** Decoding a submessage field is decoding its payload. */
  lemma SubmessagePayload(ty: Ty, prev: Value, init: bool, a: Bytes, t: Bytes)
    requires ty.Sub? && |a| < TWO32
    ensures DecBasic(ty, WT_STRING, prev, init, Delimited(a) + t) ==
            match DecInner(ty.desc, if init then SetDefaults(ty.desc, Cast(ty.desc, prev)) else Cast(ty.desc, prev), a)
            case None => Bad
            case Some(r) => Got(Struct(r), |Delimited(a)|)
  {
    PrefixedRoundTrip(a, t);
  }
}
