/** Whatever bytes arrive, the struct stays well-formed, everything decoded can be encoded
    again, and the message-level theorems that follow. */
module Validity {
  import opened Wire
  import opened Message
  import opened Encoding
  import opened Wrappers
  import opened Decoding
  import opened RoundTrip

  // ---------- decoding keeps the struct well-formed ----------

  lemma ScalarOk(ty: Ty, wt: nat, s: Bytes)
    requires TyOk(ty) && DecScalar(ty, wt, s).Got?
    ensures ValueOk(ty, DecScalar(ty, wt, s).value)
  {
    if ty.Fixed32? {
      WordSizes();
      FromLittleEndianFits(s[..4]);
    } else if ty.Fixed64? {
      WordSizes();
      FromLittleEndianFits(s[..8]);
    } else if ty.VarInt? || ty.UVarInt? || ty.SVarInt? {
      IntOk(ty, Varint(s).value);
    }
  }

  lemma IntOk(ty: Ty, u: nat)
    requires IntOf(ty, u).Some?
    ensures ValueOk(ty, IntOf(ty, u).value)
  {
  }

  lemma {:induction false} PackedOk(ty: Ty, room: int, s: Bytes)
    requires TyOk(ty) && PackedItems(ty, room, s).Some?
    ensures forall k | 0 <= k < |PackedItems(ty, room, s).value| :: ValueOk(ty, PackedItems(ty, room, s).value[k])
    decreases |s|
  {
    if s != [] {
      ScalarOk(ty, WT_PACKED, s);
      PackedOk(ty, room - 1, s[DecScalar(ty, WT_PACKED, s).size..]);
    }
  }

  lemma {:induction false} BasicOk(ty: Ty, wt: nat, prev: Value, init: bool, s: Bytes)
    requires TyOk(ty) && (ty.Sub? ==> ValueOk(ty, prev))
    requires DecBasic(ty, wt, prev, init, s).Got?
    ensures ValueOk(ty, DecBasic(ty, wt, prev, init, s).value)
    decreases |s|, 1
  {
    if ty.Sub? {
      DefaultsOk(ty.desc, prev.cells);
      InnerOk(ty.desc, if init then SetDefaults(ty.desc, prev.cells) else prev.cells, Prefixed(s).value);
    } else {
      ScalarOk(ty, wt, s);
    }
  }

  /** The memory a oneof submessage is decoded into. */
  lemma UnionTarget(desc: Desc, i: nat, c: Cell)
    requires DescOk(desc) && i < |desc.fields| && desc.fields[i].rule.Oneof?
    requires desc.fields[i].slot < |desc.fields| && CellOk(desc, desc.fields[i].slot, c)
    ensures Which(c) == desc.fields[i].tag ==> ValueOk(desc.fields[i].ty, Val(c))
    ensures desc.fields[i].ty.Sub? ==> ValueOk(desc.fields[i].ty, DefaultValue(desc.fields[i].ty, Zero(desc.fields[i].ty)))
  {
    var f := desc.fields[i];
    assert SlotOk(desc.fields, i);
    LookupOwnTag(desc, i);
    ZeroOk(f.ty);
    if f.ty.Sub? {
      DefaultsOk(f.ty.desc, AsCells(Zero(f.ty)));
    }
  }

  /** An array. */
  lemma {:induction false} ArrayOk(desc: Desc, i: nat, wt: nat, c: Cell, fx: Fixing, s: Bytes)
    requires DescOk(desc) && i < |desc.fields| && CellOk(desc, i, c)
    requires desc.fields[i].rule.Repeated? || desc.fields[i].rule.FixArray?
    requires DecField(desc.fields[i], i, wt, c, fx, s).Got?
    ensures CellOk(desc, i, DecField(desc.fields[i], i, wt, c, fx, s).value.0)
    decreases |s|, 3
  {
    var f := desc.fields[i];
    assert TyOk(f.ty);
    match f.rule
    case Repeated(max) =>
      if wt == WT_STRING && Packable(f.ty) {
        PackedOk(f.ty, max - |Items(c)|, Prefixed(s).value);
      } else {
        ZeroOk(f.ty);
        BasicOk(f.ty, wt, Zero(f.ty), true, s);
      }
    case FixArray(max) => FixedArrayOk(desc, i, wt, c, fx, s);
  }

  lemma {:induction false} FixedArrayOk(desc: Desc, i: nat, wt: nat, c: Cell, fx: Fixing, s: Bytes)
    requires DescOk(desc) && i < |desc.fields| && CellOk(desc, i, c) && desc.fields[i].rule.FixArray?
    requires DecField(desc.fields[i], i, wt, c, fx, s).Got?
    ensures CellOk(desc, i, DecField(desc.fields[i], i, wt, c, fx, s).value.0)
    decreases |s|, 2
  {
    var f := desc.fields[i];
    assert TyOk(f.ty);
    var fx' := Enter(fx, i, f.rule.max).value;
    if wt == WT_STRING && Packable(f.ty) {
      PackedOk(f.ty, f.rule.max - fx'.size, Prefixed(s).value);
    } else {
      BasicOk(f.ty, wt, ItemAt(Items(c), fx'.size), true, s);
    }
  }

  lemma {:induction false} FieldOk(desc: Desc, i: nat, wt: nat, c: Cell, fx: Fixing, s: Bytes)
    requires DescOk(desc) && i < |desc.fields|
    requires desc.fields[i].slot < |desc.fields| && CellOk(desc, desc.fields[i].slot, c)
    requires DecField(desc.fields[i], i, wt, c, fx, s).Got?
    ensures CellOk(desc, desc.fields[i].slot, DecField(desc.fields[i], i, wt, c, fx, s).value.0)
    decreases |s|, 4
  {
    var f := desc.fields[i];
    assert SlotOk(desc.fields, i);
    if f.rule.Repeated? || f.rule.FixArray? {
      ArrayOk(desc, i, wt, c, fx, s);
    } else if f.rule.Oneof? {
      UnionTarget(desc, i, c);
      LookupOwnTag(desc, i);
      BasicOk(f.ty, wt, if f.ty.Sub? && Which(c) != f.tag then DefaultValue(f.ty, Zero(f.ty)) else Val(c), false, s);
    } else {
      BasicOk(f.ty, wt, Val(c), false, s);
    }
  }

  lemma {:induction false} LoopOk(desc: Desc, st: State, s: Bytes)
    requires DescOk(desc) && CellsOk(desc, st.cells) && DecLoop(desc, st, s).Some?
    ensures CellsOk(desc, DecLoop(desc, st, s).value.cells)
    decreases |s|, 5
  {
    if s != [] {
      var Got(st', n) := DecStep(desc, st, s);
      var Got(t, k) := Varint32(s);
      var i := Lookup(desc, t / 8);
      if i < |desc.fields| {
        assert SlotOk(desc.fields, i);
        FieldOk(desc, i, t % 8, At(st.cells, desc.fields[i].slot), st.fixing, s[k..]);
      }
      LoopOk(desc, st', s[n..]);
    }
  }

  /** No input makes the decoder store an element past an array, a blob past its capacity, an
      integer outside its width, or a which_ value that names no member. */
  lemma {:induction false} InnerOk(desc: Desc, cells: Cells, s: Bytes)
    requires DescOk(desc) && CellsOk(desc, cells) && DecInner(desc, cells, s).Some?
    ensures CellsOk(desc, DecInner(desc, cells, s).value)
    decreases |s|, 6
  {
    LoopOk(desc, Start(cells), s);
  }

  lemma DecodeKeepsStructValid(desc: Desc, dest: Cells, s: Bytes)
    requires DescOk(desc) && CellsOk(desc, dest) && Decode(desc, dest, s).Some?
    ensures CellsOk(desc, Decode(desc, dest, s).value)
  {
    DefaultsOk(desc, dest);
    InnerOk(desc, SetDefaults(desc, dest), s);
  }

  // ---------- every well-formed struct can be encoded ----------

  lemma {:induction false} ValueEncodes(ty: Ty, v: Value)
    requires TyOk(ty) && ValueOk(ty, v)
    ensures EncValue(ty, v).Some?
    decreases ty, 0
  {
    if ty.Sub? {
      FieldsEncode(ty.desc, v.cells, 0);
    }
  }

  lemma {:induction false} ItemsEncode(f: Field, items: seq<Value>, tagged: bool)
    requires TyOk(f.ty) && forall k | 0 <= k < |items| :: ValueOk(f.ty, items[k])
    ensures EncItems(f, items, tagged).Some?
    decreases f.ty, 1, |items|
  {
    if items != [] {
      ValueEncodes(f.ty, items[0]);
      ItemsEncode(f, items[1..], tagged);
    }
  }

  lemma {:induction false} FieldsEncode(desc: Desc, cells: Cells, i: nat)
    requires DescOk(desc) && CellsOk(desc, cells) && i <= |desc.fields|
    ensures EncFrom(desc, cells, i).Some?
    decreases desc, 1, |desc.fields| - i
  {
    if i < |desc.fields| {
      FieldEncodes(desc, cells, i);
      FieldsEncode(desc, cells, i + 1);
    }
  }

  lemma FieldEncodes(desc: Desc, cells: Cells, i: nat)
    requires DescOk(desc) && CellsOk(desc, cells) && i < |desc.fields|
    ensures EncField(desc.fields[i], At(cells, desc.fields[i].slot)).Some?
    decreases desc, 0
  {
    var f := desc.fields[i];
    assert SlotOk(desc.fields, i) && CellOk(desc, f.slot, cells[f.slot]);
    var c := cells[f.slot];
    match f.rule
    case Repeated(_) => ItemsEncode(f, c.items, !Packable(f.ty));
    case FixArray(_) => ItemsEncode(f, c.items, !Packable(f.ty));
    case Oneof =>
      LookupOwnTag(desc, i);
      if c.which == f.tag {
        ValueEncodes(f.ty, c.v);
      }
    case _ => ValueEncodes(f.ty, c.v);
  }

  // ---------- message-level round trips ----------

  /** No fixed-count array anywhere in the message type. */
  predicate NoFixedArrays(desc: Desc) {
    forall i | 0 <= i < |desc.fields| ::
      !desc.fields[i].rule.FixArray? && (desc.fields[i].ty.Sub? ==> NoFixedArrays(desc.fields[i].ty.desc))
  }

  /** Without fixed-count arrays, pb_message_set_to_defaults erases whatever was there. */
  lemma {:induction false} DefaultsErase(desc: Desc, dest: Cells)
    requires NoFixedArrays(desc)
    ensures SetDefaults(desc, dest) == ZeroCells(desc)
    decreases desc
  {
    forall i | 0 <= i < |desc.fields|
      ensures DefaultCell(desc.fields[i], At(dest, i)) == ZeroCell(desc.fields[i])
    {
      var f := desc.fields[i];
      if f.ty.Sub? {
        DefaultsErase(f.ty.desc, AsCells(Val(At(dest, i))));
        ZeroCellsAre(f.ty.desc, Zero(f.ty));
      }
    }
  }

  /** Equal structs, but for what is in memory where an optional field is absent. */
  predicate Like(desc: Desc, a: Cells, b: Cells)
    decreases desc, 2
  {
    |a| == |b| == |desc.fields| && forall k | 0 <= k < |a| :: LikeCell(desc.fields[k], a[k], b[k])
  }

  predicate LikeCell(f: Field, a: Cell, b: Cell)
    decreases f, 1
  {
    match f.rule
    case Required => a.Plain? && b.Plain? && LikeValue(f.ty, a.v, b.v)
    case Singular => a.Plain? && b.Plain? && LikeValue(f.ty, a.v, b.v)
    case Optional => a.Opt? && b.Opt? && a.has == b.has && (a.has ==> LikeValue(f.ty, a.v, b.v))
    case Repeated(_) => a.Arr? && b.Arr? && LikeItems(f.ty, a.items, b.items)
    case FixArray(_) => a.Arr? && b.Arr? && LikeItems(f.ty, a.items, b.items)
    case Oneof => a == b
  }

  predicate LikeItems(ty: Ty, a: seq<Value>, b: seq<Value>)
    decreases ty, 1
  {
    |a| == |b| && forall j | 0 <= j < |a| :: LikeValue(ty, a[j], b[j])
  }

  predicate LikeValue(ty: Ty, a: Value, b: Value)
    decreases ty, 0
  {
    if ty.Sub? then a.Struct? && b.Struct? && Like(ty.desc, a.cells, b.cells) else a == b
  }

  lemma {:induction false} LikeSame(desc: Desc, cells: Cells)
    requires CellsOk(desc, cells)
    ensures Like(desc, cells, cells)
    decreases desc, 2
  {
    forall k | 0 <= k < |cells|
      ensures LikeCell(desc.fields[k], cells[k], cells[k])
    {
      var f, c := desc.fields[k], cells[k];
      assert CellOk(desc, k, c);
      if f.rule.Repeated? || f.rule.FixArray? {
        LikeSameItems(f.ty, c.items);
      } else if !f.rule.Oneof? {
        LikeSameValue(f.ty, c.v);
      }
    }
  }

  lemma LikeSameItems(ty: Ty, items: seq<Value>)
    requires forall j | 0 <= j < |items| :: ValueOk(ty, items[j])
    ensures LikeItems(ty, items, items)
    decreases ty, 4
  {
    forall j | 0 <= j < |items|
      ensures LikeValue(ty, items[j], items[j])
    {
      LikeSameValue(ty, items[j]);
    }
  }

  lemma LikeSameValue(ty: Ty, v: Value)
    requires ValueOk(ty, v)
    ensures LikeValue(ty, v, v)
    decreases ty, 3
  {
    if ty.Sub? {
      LikeSame(ty.desc, v.cells);
    }
  }

  lemma {:induction false} IntoLike(desc: Desc, base: Cells, cells: Cells)
    requires DescOk(desc) && CellsOk(desc, cells) && Ready(desc, base)
    ensures Like(desc, Into(desc, base, cells), cells)
    decreases desc, 2
  {
    forall k | 0 <= k < |cells|
      ensures LikeCell(desc.fields[k], IntoCell(desc.fields[k], base[k], cells[k]), cells[k])
    {
      IntoCellLike(desc, base, cells, k);
    }
  }

  lemma IntoCellLike(desc: Desc, base: Cells, cells: Cells, k: nat)
    requires DescOk(desc) && CellsOk(desc, cells) && Ready(desc, base) && k < |cells|
    ensures LikeCell(desc.fields[k], IntoCell(desc.fields[k], base[k], cells[k]), cells[k])
    decreases desc, 1
  {
    var f, c := desc.fields[k], cells[k];
    assert CellOk(desc, k, c) && TyOk(f.ty);
    ReadyCell(desc, base, k);
    if f.rule.FixArray? {
      forall j | 0 <= j < |c.items|
        ensures LikeValue(f.ty, IntoValue(f.ty, ItemAt(Items(base[k]), j), true, c.items[j]), c.items[j])
      {
        IntoValueLike(f.ty, ItemAt(Items(base[k]), j), true, c.items[j]);
      }
    } else if f.rule.Repeated? {
      LikeSameItems(f.ty, c.items);
    } else if !f.rule.Oneof? {
      ReadyValue(desc, base, k);
      IntoValueLike(f.ty, Val(base[k]), false, c.v);
    }
  }

  lemma IntoValueLike(ty: Ty, b: Value, init: bool, v: Value)
    requires TyOk(ty) && ValueOk(ty, v)
    requires ty.Sub? ==> ValueOk(ty, b) && (init || Ready(ty.desc, b.cells))
    ensures LikeValue(ty, IntoValue(ty, b, init, v), v)
    decreases ty, 3
  {
    if ty.Sub? {
      ReadyDefaults(ty.desc, b.cells);
      IntoLike(ty.desc, if init then SetDefaults(ty.desc, b.cells) else b.cells, v.cells);
    }
  }

  /** Where an optional field of the struct is absent, the memory holds what the struct does. */
  predicate Vacant(desc: Desc, base: Cells, cells: Cells)
    decreases desc, 2
  {
    forall k | 0 <= k < |desc.fields| :: VacantCell(desc.fields[k], At(base, k), At(cells, k))
  }

  predicate VacantCell(f: Field, b: Cell, c: Cell)
    decreases f, 1
  {
    match f.rule
    case Required => VacantValue(f.ty, Val(b), false, Val(c))
    case Singular => VacantValue(f.ty, Val(b), false, Val(c))
    case Optional => if Has(c) then VacantValue(f.ty, Val(b), false, Val(c)) else b == c
    case FixArray(_) => forall j | 0 <= j < |Items(c)| :: VacantValue(f.ty, ItemAt(Items(b), j), true, Items(c)[j])
    case _ => true
  }

  predicate VacantValue(ty: Ty, b: Value, init: bool, v: Value)
    decreases ty, 0
  {
    ty.Sub? ==> Vacant(ty.desc, if init then SetDefaults(ty.desc, Cast(ty.desc, b)) else Cast(ty.desc, b), AsCells(v))
  }

  /** Exactly then the struct comes back as it is. */
  lemma {:induction false} IntoExact(desc: Desc, base: Cells, cells: Cells)
    requires DescOk(desc) && CellsOk(desc, cells) && |base| == |desc.fields|
    ensures Into(desc, base, cells) == cells <==> Vacant(desc, base, cells)
    decreases desc, 2
  {
    var r := Into(desc, base, cells);
    forall k | 0 <= k < |cells|
      ensures r[k] == cells[k] <==> VacantCell(desc.fields[k], At(base, k), At(cells, k))
    {
      IntoCellExact(desc, base, cells, k);
    }
  }

  lemma IntoCellExact(desc: Desc, base: Cells, cells: Cells, k: nat)
    requires DescOk(desc) && CellsOk(desc, cells) && k < |cells|
    ensures IntoCell(desc.fields[k], At(base, k), cells[k]) == cells[k] <==> VacantCell(desc.fields[k], At(base, k), cells[k])
    decreases desc, 1
  {
    var f, b, c := desc.fields[k], At(base, k), cells[k];
    assert CellOk(desc, k, c) && TyOk(f.ty);
    if f.rule.FixArray? {
      var r := IntoItems(f.ty, Items(b), c.items);
      forall j | 0 <= j < |c.items|
        ensures r[j] == c.items[j] <==> VacantValue(f.ty, ItemAt(Items(b), j), true, Items(c)[j])
      {
        IntoValueExact(f.ty, ItemAt(Items(b), j), true, c.items[j]);
      }
    } else if f.rule.Required? || f.rule.Singular? || f.rule.Optional? {
      IntoValueExact(f.ty, Val(b), false, c.v);
    }
  }

  lemma IntoValueExact(ty: Ty, b: Value, init: bool, v: Value)
    requires TyOk(ty) && ValueOk(ty, v)
    ensures IntoValue(ty, b, init, v) == v <==> VacantValue(ty, b, init, v)
    decreases ty, 3
  {
    if ty.Sub? {
      IntoExact(ty.desc, if init then SetDefaults(ty.desc, Cast(ty.desc, b)) else Cast(ty.desc, b), v.cells);
    }
  }

  /** Repeated submessages hold no fixed-count arrays, so that it makes no difference what memory an
      element is decoded into. */
  predicate PlainRepeats(desc: Desc) {
    forall i | 0 <= i < |desc.fields| && desc.fields[i].ty.Sub? ::
      if desc.fields[i].rule.Repeated? then NoFixedArrays(desc.fields[i].ty.desc) else PlainRepeats(desc.fields[i].ty.desc)
  }

  /** The round trip: every well-formed struct can be encoded, and decoding the bytes into any
      well-formed memory rebuilds it, but for what the memory holds where an optional field is
      absent; it comes back exactly if and only if that is nothing. */
  lemma MessageRoundTrip(desc: Desc, dest: Cells, cells: Cells)
    requires DescOk(desc) && CellsOk(desc, cells) && CleanCells(desc, cells) && CellsOk(desc, dest)
    ensures EncCells(desc, cells).Some?
    ensures |EncCells(desc, cells).value| < TWO32 ==>
              var r := Decode(desc, dest, EncCells(desc, cells).value);
              && r.Some? && Like(desc, r.value, cells)
              && (PlainRepeats(desc) ==> (r == Some(cells) <==> Vacant(desc, SetDefaults(desc, dest), cells)))
  {
    FieldsEncode(desc, cells, 0);
    if |EncCells(desc, cells).value| < TWO32 {
      var base := SetDefaults(desc, dest);
      ReadyDefaults(desc, dest);
      CellsRoundTrip(desc, base, cells);
      IntoLike(desc, base, cells);
      IntoExact(desc, base, cells);
    }
  }

  // A message type with an optional submessage that holds a fixed-count array and a submessage of
  // its own, and memory with something left in that array though the submessage is absent.

  const FLAG: Desc := Desc([Field(1, Optional, Bool, 0)], [])
  const FLAGS: Desc := Desc([Field(1, FixArray(1), Bool, 0), Field(2, Optional, Sub(FLAG), 1)], [])
  const WRAPPED: Desc := Desc([Field(1, Optional, Sub(FLAGS), 0)], [])
  const NO_FLAG: Cells := [Opt(false, Num(0))]
  const STALE_FLAGS: Cells := [Arr([Num(1)]), Opt(false, Value.Struct(NO_FLAG))]
  const STALE: Cells := [Opt(false, Value.Struct(STALE_FLAGS))]

  lemma FlagOk()
    ensures DescOk(FLAG) && CellsOk(FLAG, NO_FLAG) && Zero(Sub(FLAG)) == Value.Struct(NO_FLAG) && !HasSubs(FLAG)
  {
    assert SlotOk(FLAG.fields, 0);
    assert CellOk(FLAG, 0, NO_FLAG[0]);
    assert ZeroCell(FLAG.fields[0]) == NO_FLAG[0];
    assert Zero(Sub(FLAG)).cells == NO_FLAG;
  }

  lemma FlagsOk()
    ensures DescOk(FLAGS) && CellsOk(FLAGS, STALE_FLAGS) && HasSubs(FLAGS) && SetDefaults(FLAGS, STALE_FLAGS) == STALE_FLAGS
  {
    FlagOk();
    assert SlotOk(FLAGS.fields, 0) && SlotOk(FLAGS.fields, 1);
    assert TyOk(FLAGS.fields[0].ty) && TyOk(FLAGS.fields[1].ty);
    assert CellOk(FLAGS, 0, STALE_FLAGS[0]) && CellOk(FLAGS, 1, STALE_FLAGS[1]);
    assert FLAGS.fields[1].ty.Sub?;
  }

  lemma WrappedOk()
    ensures DescOk(WRAPPED) && CellsOk(WRAPPED, STALE) && SetDefaults(WRAPPED, STALE) == STALE
  {
    FlagsOk();
    assert SlotOk(WRAPPED.fields, 0) && TyOk(WRAPPED.fields[0].ty);
    assert CellOk(WRAPPED, 0, STALE[0]);
    assert DefaultValue(Sub(FLAGS), Value.Struct(STALE_FLAGS)) == Value.Struct(STALE_FLAGS);
    assert DefaultCell(WRAPPED.fields[0], At(STALE, 0)) == STALE[0];
  }

  lemma OneAbsent(desc: Desc, cells: Cells)
    requires |desc.fields| == |cells| == 1 && desc.fields[0].slot == 0 && desc.fields[0].rule.Optional? && !Has(cells[0])
    ensures EncCells(desc, cells) == Some([])
  {
    var none: Bytes := [];
    assert EncField(desc.fields[0], At(cells, 0)) == Some(none) && EncFrom(desc, cells, 1) == Some(none);
    assert none + none == none;
  }

  /** Decoding the encoding of the zeroed struct does not clear it. */
  lemma StaleMemory()
    ensures DescOk(WRAPPED) && CellsOk(WRAPPED, STALE) && EncCells(WRAPPED, ZeroCells(WRAPPED)) == Some([])
    ensures Decode(WRAPPED, STALE, []) == Some(STALE) && STALE != ZeroCells(WRAPPED)
  {
    WrappedOk();
    OneAbsent(WRAPPED, ZeroCells(WRAPPED));
    assert RequiredBefore(WRAPPED, 1) == 0;
    assert Zero(Sub(FLAGS)).cells[0] == ZeroCell(FLAGS.fields[0]) == Arr([Num(0)]);
  }

  /** It always does from zeroed memory, and from any memory at all when there are no fixed-count
      arrays. */
  lemma CleanRoundTrip(desc: Desc, dest: Cells, cells: Cells)
    requires DescOk(desc) && CellsOk(desc, cells) && CleanCells(desc, cells)
    requires dest == ZeroCells(desc) || NoFixedArrays(desc)
    ensures EncCells(desc, cells).Some?
    ensures |EncCells(desc, cells).value| < TWO32 ==> Decode(desc, dest, EncCells(desc, cells).value) == Some(cells)
  {
    FieldsEncode(desc, cells, 0);
    if |EncCells(desc, cells).value| < TWO32 {
      ReadyZero(desc);
      CellsRoundTrip(desc, ZeroCells(desc), cells);
      IntoZero(desc, cells);
      if dest != ZeroCells(desc) {
        DefaultsErase(desc, dest);
      }
    }
  }

  /** Encoding is injective on well-formed structs. */
  lemma EncodingInjective(desc: Desc, a: Cells, b: Cells)
    requires DescOk(desc) && CellsOk(desc, a) && CleanCells(desc, a) && CellsOk(desc, b) && CleanCells(desc, b)
    requires EncCells(desc, a) == EncCells(desc, b) && EncCells(desc, a).Some? && |EncCells(desc, a).value| < TWO32
    ensures a == b
  {
    CleanRoundTrip(desc, ZeroCells(desc), a);
    CleanRoundTrip(desc, ZeroCells(desc), b);
  }
}
