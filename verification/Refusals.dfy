/** What pb_decode refuses (pb_decode.c: pb_decode_inner, pb_skip_field, decode_static_field): field number 0,
    wire types that a field or a reader does not know, and fixed-count arrays of another count. */
module Refusals {
  import opened Wire
  import opened Message
  import opened Encoding
  import opened Wrappers
  import opened Decoding
  import opened RoundTrip
  import opened Ranges

  /** A record with field number 0 at the front: the bytes 0 to 7. */
  lemma ZeroTag(desc: Desc, dest: Cells, s: Bytes)
    requires s != [] && s[0] < 8
    ensures Decode(desc, dest, s) == None
  {
    assert Varint32(s) == Got(s[0], 1);
    StopsAtOnce(desc, dest, s);
  }

  lemma StopsAtOnce(desc: Desc, dest: Cells, s: Bytes)
    requires s != [] && DecStep(desc, Start(SetDefaults(desc, dest)), s).Bad?
    ensures Decode(desc, dest, s) == None
  {
    assert DecLoop(desc, Start(SetDefaults(desc, dest)), s) == None;
  }

  /** Wire types as the encoding rules number them. */
  function ProperWireType(ty: Ty): nat {
    if Packable(ty) then if ty.Fixed64? then 1 else if ty.Fixed32? then 5 else 0 else 2
  }

  /** A field that is no array comes with its own wire type or not at all. */
  lemma WireTypeRefused(desc: Desc, ty: Ty, dest: Cells, wt: nat, payload: Bytes)
    requires OneField(desc, ty) && wt < 8 && wt != ProperWireType(ty)
    ensures Decode(desc, dest, TagBytes(wt, desc.fields[0].tag) + payload) == None
  {
    var f, st, s := desc.fields[0], Start(SetDefaults(desc, dest)), TagBytes(wt, desc.fields[0].tag) + payload;
    TagRoundTrip(wt, f.tag, payload);
    LookupOwnTag(desc, 0);
    assert s[|TagBytes(wt, f.tag)|..] == payload;
    BasicRefused(ty, wt, Val(At(st.cells, f.slot)), payload);
    assert DecField(f, 0, wt, At(st.cells, f.slot), st.fixing, payload).Bad?;
    StopsAtOnce(desc, dest, s);
  }

  lemma BasicRefused(ty: Ty, wt: nat, prev: Value, payload: Bytes)
    requires wt < 8 && wt != ProperWireType(ty)
    ensures DecBasic(ty, wt, prev, false, payload).Bad?
  {
  }

  /** An unknown field of fixed width is passed over with its eight or four bytes; one with a group, or with a
      number that is no wire type, is refused. */
  lemma UnknownField(desc: Desc, st: State, wt: nat, tag: nat, payload: Bytes)
    requires wt < 8 && 1 <= tag <= SIZE_MAX && forall i | 0 <= i < |desc.fields| :: desc.fields[i].tag != tag
    ensures
      var step := DecStep(desc, st, TagBytes(wt, tag) + payload);
      && (wt == 1 && |payload| >= 8 ==> step == Got(st, |TagBytes(wt, tag)| + 8))
      && (wt == 5 && |payload| >= 4 ==> step == Got(st, |TagBytes(wt, tag)| + 4))
      && (wt == 3 || wt == 4 || wt == 6 || wt == 7 ==> step.Bad?)
  {
    SkippedField(desc, st, wt, tag, payload, TagBytes(wt, tag), TagBytes(wt, tag) + payload);
  }

  lemma SkippedField(desc: Desc, st: State, wt: nat, tag: nat, payload: Bytes, a: Bytes, s: Bytes)
    requires wt < 8 && 1 <= tag <= SIZE_MAX && forall i | 0 <= i < |desc.fields| :: desc.fields[i].tag != tag
    requires a == TagBytes(wt, tag) && s == a + payload
    ensures DecStep(desc, st, s) == match Skip(wt, payload) case Bad => Bad case Got(_, n) => Got(st, |a| + n)
  {
    TagRoundTrip(wt, tag, payload);
    assert s[|a|..] == payload;
    assert Lookup(desc, tag) == |desc.fields|;
  }

  // ---------- fixed-count arrays ----------

  predicate OneFixedArray(desc: Desc, ty: Ty, max: nat) {
    DescOk(desc) && |desc.fields| == 1 && desc.fields[0].ty == ty && desc.fields[0].rule == FixArray(max) && Packable(ty)
  }

  /** A packed block for a fixed-count array: accepted exactly with the right count. */
  lemma FixedCount(desc: Desc, ty: Ty, max: nat, dest: Cells, vs: seq<Value>, bs: Bytes)
    requires OneFixedArray(desc, ty, max) && CellsOk(desc, dest) && ItemsOk(ty, vs)
    requires EncItems(desc.fields[0], vs, false) == Some(bs) && |bs| < TWO32
    ensures
      Decode(desc, dest, TagBytes(WT_STRING, desc.fields[0].tag) + Delimited(bs)) ==
      if |vs| == max then Some([Arr(vs)]) else None
  {
    var f, cells := desc.fields[0], SetDefaults(desc, dest);
    FixedMemory(desc, ty, max, dest);
    FixedBlock(f, dest[0].items, vs, bs, max);
    if |vs| <= max {
      BlockAccepted(desc, Start(cells), Delimited(bs), Arr(Overlay(dest[0].items, 0, vs)), Fixing(true, 0, |vs|, max));
      if |vs| == max {
        assert Overlay(dest[0].items, 0, vs) == vs;
      }
    } else {
      BlockRefused(desc, Start(cells), Delimited(bs));
    }
  }

  /** Setting defaults leaves a fixed-count array as it is. */
  lemma FixedMemory(desc: Desc, ty: Ty, max: nat, dest: Cells)
    requires OneFixedArray(desc, ty, max) && CellsOk(desc, dest)
    ensures SetDefaults(desc, dest) == dest && desc.fields[0].slot == 0 && dest[0].Arr? && |dest[0].items| == max
  {
    assert SlotOk(desc.fields, 0) && CellOk(desc, 0, dest[0]);
    assert SetDefaults(desc, dest)[0] == DefaultCell(desc.fields[0], At(dest, 0)) == dest[0];
  }

  lemma BlockAccepted(desc: Desc, st: State, payload: Bytes, c: Cell, fx: Fixing)
    requires DescOk(desc) && |desc.fields| == |st.cells| == 1 && desc.fields[0].slot == 0 && st.seen == {} && !desc.fields[0].rule.Required?
    requires DecField(desc.fields[0], 0, WT_STRING, At(st.cells, 0), st.fixing, payload) == Got((c, fx), |payload|)
    ensures
      var r := DecLoop(desc, st, TagBytes(WT_STRING, desc.fields[0].tag) + payload);
      r.Some? && r.value.cells == [c] && r.value.fixing == fx && AllSeen(desc, r.value.seen)
  {
    OneRecord(desc, 0, st, WT_STRING, payload, c, fx);
    OneSeen(desc);
    assert Put(st.cells, 0, c) == [c];
  }

  lemma FixedBlock(f: Field, items: seq<Value>, vs: seq<Value>, bs: Bytes, max: nat)
    requires f.rule == FixArray(max) && Packable(f.ty) && TyOk(f.ty) && ItemsOk(f.ty, vs) && |items| == max
    requires EncItems(f, vs, false) == Some(bs) && |bs| < TWO32
    ensures
      DecField(f, 0, WT_STRING, Arr(items), NoFixing, Delimited(bs)) ==
      if |vs| <= max then Got((Arr(Overlay(items, 0, vs)), Fixing(true, 0, |vs|, max)), |Delimited(bs)|) else Bad
  {
    PrefixedRoundTrip(bs, []);
    assert Delimited(bs) + [] == Delimited(bs);
    PackedRoundTrip(f, vs, max);
    assert Enter(NoFixing, 0, max) == Some(Fixing(true, 0, 0, max));
  }

  lemma BlockRefused(desc: Desc, st: State, payload: Bytes)
    requires DescOk(desc) && |desc.fields| == 1
    requires DecField(desc.fields[0], 0, WT_STRING, At(st.cells, desc.fields[0].slot), st.fixing, payload).Bad?
    ensures DecLoop(desc, st, TagBytes(WT_STRING, desc.fields[0].tag) + payload) == None
  {
    TagRoundTrip(WT_STRING, desc.fields[0].tag, payload);
    LookupOwnTag(desc, 0);
    var a := TagBytes(WT_STRING, desc.fields[0].tag);
    assert (a + payload)[|a|..] == payload;
    assert DecStep(desc, st, a + payload).Bad?;
  }

  /** A fixed-count array may be sent in pieces, but not left while it is incomplete: a record of another one is
      then refused, whatever it holds. */
  lemma LeftIncomplete(desc: Desc, st: State, i: nat, wt: nat, payload: Bytes)
    requires DescOk(desc) && i < |desc.fields| && desc.fields[i].rule.FixArray? && wt < 8
    requires st.fixing.active && st.fixing.index != i && st.fixing.size != st.fixing.total
    ensures DecStep(desc, st, TagBytes(wt, desc.fields[i].tag) + payload).Bad?
  {
    var f, a := desc.fields[i], TagBytes(wt, desc.fields[i].tag);
    TagRoundTrip(wt, f.tag, payload);
    LookupOwnTag(desc, i);
    assert (a + payload)[|a|..] == payload;
    assert DecField(f, i, wt, At(st.cells, f.slot), st.fixing, payload).Bad?;
  }
}
