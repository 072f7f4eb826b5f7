/** What encoding a struct and decoding it again amounts to: its C strings are cut at their first
    NUL and leftovers in memory are zeroed; so the same for any bytes that pb_decode accepts. */
module Canonical {
  import opened Wire
  import opened Message
  import opened Encoding
  import opened Wrappers
  import opened Decoding
  import opened RoundTrip
  import opened Validity

  // ---------- the canonical struct ----------

  /** What can be observed of a C string. */
  function Cut(b: Bytes): (r: Bytes)
    ensures |r| == StrLen(b) <= |b|
  {
    b[..StrLen(b)]
  }

  function CanonValue(ty: Ty, v: Value): Value
    decreases ty, 0
  {
    match ty
    case Str(_) => Data(Cut(AsBytes(v)))
    case Sub(desc) => Struct(CanonCells(desc, AsCells(v)))
    case _ => v
  }

  function CanonCell(desc: Desc, i: nat, c: Cell): Cell
    requires i < |desc.fields|
    decreases desc, 0
  {
    var f := desc.fields[i];
    match f.rule
    case Required => Plain(CanonValue(f.ty, Val(c)))
    case Singular => Plain(CanonValue(f.ty, Val(c)))
    case Optional => if Has(c) then Opt(true, CanonValue(f.ty, Val(c))) else Opt(false, Zero(f.ty))
    case Repeated(_) => Arr(CanonItems(f.ty, Items(c)))
    case FixArray(_) => Arr(CanonItems(f.ty, Items(c)))
    case Oneof =>
      var k := Lookup(desc, Which(c));
      if Which(c) == 0 || k == |desc.fields| then Union(0, Num(0)) else Union(Which(c), CanonValue(desc.fields[k].ty, Val(c)))
  }

  function CanonItems(ty: Ty, items: seq<Value>): (r: seq<Value>)
    ensures |r| == |items|
    decreases ty, 1
  {
    seq(|items|, k requires 0 <= k < |items| => CanonValue(ty, items[k]))
  }

  function CanonCells(desc: Desc, cells: Cells): (r: Cells)
    ensures |r| == |desc.fields|
    decreases desc, 1
  {
    seq(|desc.fields|, i requires 0 <= i < |desc.fields| => CanonCell(desc, i, At(cells, i)))
  }

  // ---------- it is well-formed and clean ----------

  lemma {:induction false} CutHasNoNul(b: Bytes)
    ensures 0 !in Cut(b) && StrLen(Cut(b)) == StrLen(b) && Cut(Cut(b)) == Cut(b)
  {
    if b != [] && b[0] != 0 {
      CutHasNoNul(b[1..]);
      assert Cut(b) == [b[0]] + Cut(b[1..]);
      assert Cut(b)[1..] == Cut(b[1..]);
    }
  }

  lemma CanonValueOk(ty: Ty, v: Value)
    requires TyOk(ty) && ValueOk(ty, v)
    ensures ValueOk(ty, CanonValue(ty, v)) && CleanValue(ty, CanonValue(ty, v))
    decreases ty, 2
  {
    if ty.Str? {
      CutHasNoNul(v.bytes);
    } else if ty.Sub? {
      CanonOk(ty.desc, v.cells);
    }
  }

  lemma CanonCellOk(desc: Desc, cells: Cells, i: nat)
    requires DescOk(desc) && CellsOk(desc, cells) && i < |cells|
    ensures CellOk(desc, i, CanonCell(desc, i, cells[i])) && CleanCell(desc, i, CanonCell(desc, i, cells[i]))
    decreases desc, 0
  {
    var f, c := desc.fields[i], cells[i];
    assert CellOk(desc, i, c) && TyOk(f.ty);
    match f.rule
    case Required => CanonValueOk(f.ty, c.v);
    case Singular => CanonValueOk(f.ty, c.v);
    case Optional =>
      ZeroOk(f.ty);
      CanonValueOk(f.ty, c.v);
    case Repeated(_) => CanonItemsOk(f.ty, c.items);
    case FixArray(_) => CanonItemsOk(f.ty, c.items);
    case Oneof =>
      if c.which != 0 {
        CanonValueOk(desc.fields[Lookup(desc, c.which)].ty, c.v);
      }
  }

  lemma CanonItemsOk(ty: Ty, items: seq<Value>)
    requires TyOk(ty) && forall k | 0 <= k < |items| :: ValueOk(ty, items[k])
    ensures ItemsOk(ty, CanonItems(ty, items))
    decreases ty, 3
  {
    forall k | 0 <= k < |items|
      ensures ValueOk(ty, CanonItems(ty, items)[k]) && CleanValue(ty, CanonItems(ty, items)[k])
    {
      CanonValueOk(ty, items[k]);
    }
  }

  lemma {:induction false} CanonOk(desc: Desc, cells: Cells)
    requires DescOk(desc) && CellsOk(desc, cells)
    ensures CellsOk(desc, CanonCells(desc, cells)) && CleanCells(desc, CanonCells(desc, cells))
    decreases desc, 1
  {
    forall i | 0 <= i < |cells|
      ensures CellOk(desc, i, CanonCells(desc, cells)[i]) && CleanCell(desc, i, At(CanonCells(desc, cells), i))
    {
      CanonCellOk(desc, cells, i);
    }
  }

  // ---------- a clean struct is canonical ----------

  lemma CleanValueSame(ty: Ty, v: Value)
    requires TyOk(ty) && ValueOk(ty, v) && CleanValue(ty, v)
    ensures CanonValue(ty, v) == v
    decreases ty, 2
  {
    if ty.Str? {
      StrLenClean(v.bytes);
    } else if ty.Sub? {
      CleanSame(ty.desc, v.cells);
    }
  }

  lemma CleanCellSame(desc: Desc, cells: Cells, i: nat)
    requires DescOk(desc) && CellsOk(desc, cells) && CleanCells(desc, cells) && i < |cells|
    ensures CanonCell(desc, i, cells[i]) == cells[i]
    decreases desc, 0
  {
    var f, c := desc.fields[i], cells[i];
    assert CellOk(desc, i, c) && CleanCell(desc, i, At(cells, i)) && TyOk(f.ty);
    match f.rule
    case Required => CleanValueSame(f.ty, c.v);
    case Singular => CleanValueSame(f.ty, c.v);
    case Optional =>
      if c.has {
        CleanValueSame(f.ty, c.v);
      }
    case Repeated(_) => CleanItemsSame(f.ty, Items(c));
    case FixArray(_) => CleanItemsSame(f.ty, Items(c));
    case Oneof =>
      if c.which != 0 {
        CleanValueSame(desc.fields[Lookup(desc, c.which)].ty, c.v);
      }
  }

  lemma CleanItemsSame(ty: Ty, items: seq<Value>)
    requires TyOk(ty) && forall k | 0 <= k < |items| :: ValueOk(ty, items[k]) && CleanValue(ty, items[k])
    ensures CanonItems(ty, items) == items
    decreases ty, 3
  {
    forall k | 0 <= k < |items|
      ensures CanonItems(ty, items)[k] == items[k]
    {
      CleanValueSame(ty, items[k]);
    }
  }

  lemma {:induction false} CleanSame(desc: Desc, cells: Cells)
    requires DescOk(desc) && CellsOk(desc, cells) && CleanCells(desc, cells)
    ensures CanonCells(desc, cells) == cells
    decreases desc, 1
  {
    forall i | 0 <= i < |cells|
      ensures CanonCells(desc, cells)[i] == cells[i]
    {
      CleanCellSame(desc, cells, i);
    }
  }

  /** And only a clean one is. */
  lemma CanonExact(desc: Desc, cells: Cells)
    requires DescOk(desc) && CellsOk(desc, cells)
    ensures CanonCells(desc, cells) == cells <==> CleanCells(desc, cells)
  {
    CanonOk(desc, cells);
    if CleanCells(desc, cells) {
      CleanSame(desc, cells);
    }
  }

  // ---------- the encoder sees no difference ----------

  lemma CanonValueEncodes(ty: Ty, v: Value)
    requires TyOk(ty) && ValueOk(ty, v)
    ensures EncValue(ty, CanonValue(ty, v)) == EncValue(ty, v)
    ensures IsDefaultValue(ty, CanonValue(ty, v)) == IsDefaultValue(ty, v)
    decreases ty, 2
  {
    if ty.Str? {
      CutHasNoNul(v.bytes);
      assert Cut(v.bytes)[..StrLen(v.bytes)] == v.bytes[..StrLen(v.bytes)];
    } else if ty.Sub? {
      CanonCellsEncode(ty.desc, v.cells);
    }
  }

  lemma {:induction false} CanonItemsEncode(f: Field, items: seq<Value>, tagged: bool)
    requires TyOk(f.ty) && forall k | 0 <= k < |items| :: ValueOk(f.ty, items[k])
    ensures EncItems(f, CanonItems(f.ty, items), tagged) == EncItems(f, items, tagged)
    decreases f.ty, 3, |items|
  {
    if items != [] {
      CanonValueEncodes(f.ty, items[0]);
      CanonItemsEncode(f, items[1..], tagged);
      CanonItemsFirst(f.ty, items);
    }
  }

  lemma CanonItemsFirst(ty: Ty, items: seq<Value>)
    requires items != []
    ensures CanonItems(ty, items)[0] == CanonValue(ty, items[0]) && CanonItems(ty, items)[1..] == CanonItems(ty, items[1..])
  {
  }

  lemma CanonArrayEncodes(f: Field, items: seq<Value>, max: nat)
    requires TyOk(f.ty) && forall k | 0 <= k < |items| :: ValueOk(f.ty, items[k])
    ensures EncArray(f, CanonItems(f.ty, items), max) == EncArray(f, items, max)
    decreases f.ty, 4
  {
    CanonItemsEncode(f, items, true);
    CanonItemsEncode(f, items, false);
  }

  lemma CanonFieldEncodes(desc: Desc, cells: Cells, i: nat)
    requires DescOk(desc) && CellsOk(desc, cells) && i < |desc.fields|
    ensures
      var f := desc.fields[i];
      && EncField(f, At(CanonCells(desc, cells), f.slot)) == EncField(f, At(cells, f.slot))
      && IsDefault(f, At(CanonCells(desc, cells), f.slot)) == IsDefault(f, At(cells, f.slot))
    decreases desc, 0
  {
    var f := desc.fields[i];
    assert SlotOk(desc.fields, i) && CellOk(desc, f.slot, cells[f.slot]) && TyOk(f.ty);
    var c := cells[f.slot];
    assert At(CanonCells(desc, cells), f.slot) == CanonCell(desc, f.slot, c);
    match f.rule
    case Required => CanonValueEncodes(f.ty, c.v);
    case Singular => CanonValueEncodes(f.ty, c.v);
    case Optional => CanonValueEncodes(f.ty, c.v);
    case Repeated(max) => CanonArrayEncodes(f, c.items, max);
    case FixArray(max) => CanonArrayEncodes(f, c.items, max);
    case Oneof =>
      LookupOwnTag(desc, i);
      if c.which == f.tag {
        CanonValueEncodes(f.ty, c.v);
      }
  }

  lemma {:induction false} CanonFromEncodes(desc: Desc, cells: Cells, i: nat)
    requires DescOk(desc) && CellsOk(desc, cells) && i <= |desc.fields|
    ensures EncFrom(desc, CanonCells(desc, cells), i) == EncFrom(desc, cells, i)
    decreases desc, 1, |desc.fields| - i
  {
    if i < |desc.fields| {
      CanonFieldEncodes(desc, cells, i);
      CanonFromEncodes(desc, cells, i + 1);
    }
  }

  lemma CanonCellsEncode(desc: Desc, cells: Cells)
    requires DescOk(desc) && CellsOk(desc, cells)
    ensures EncCells(desc, CanonCells(desc, cells)) == EncCells(desc, cells)
    ensures AllDefault(desc, CanonCells(desc, cells)) == AllDefault(desc, cells)
    decreases desc, 2
  {
    CanonFromEncodes(desc, cells, 0);
    forall i | 0 <= i < |desc.fields|
      ensures DefaultAt(desc, CanonCells(desc, cells), i) == DefaultAt(desc, cells, i)
    {
      CanonFieldEncodes(desc, cells, i);
    }
  }

  // ---------- decode, encode, decode ----------

  /** Every well-formed struct, encoded and decoded into zeroed memory, becomes canonical; it is
      the same struct exactly when it was clean. */
  lemma EncodeThenDecode(desc: Desc, cells: Cells)
    requires DescOk(desc) && CellsOk(desc, cells)
    ensures EncCells(desc, cells).Some?
    ensures |EncCells(desc, cells).value| < TWO32 ==>
              && Decode(desc, ZeroCells(desc), EncCells(desc, cells).value) == Some(CanonCells(desc, cells))
              && (CanonCells(desc, cells) == cells <==> CleanCells(desc, cells))
  {
    CanonCellsEncode(desc, cells);
    CanonOk(desc, cells);
    CleanRoundTrip(desc, ZeroCells(desc), CanonCells(desc, cells));
    CanonExact(desc, cells);
  }

  /** So for every input that pb_decode accepts: decoding it, encoding the result and decoding
      again gives the canonical struct, and from then on nothing changes. */
  lemma Reencoding(desc: Desc, s: Bytes)
    requires DescOk(desc) && Decode(desc, ZeroCells(desc), s).Some?
    ensures
      var cells := Decode(desc, ZeroCells(desc), s).value;
      && EncCells(desc, cells).Some? && EncCells(desc, CanonCells(desc, cells)) == EncCells(desc, cells)
      && (|EncCells(desc, cells).value| < TWO32 ==>
            && Decode(desc, ZeroCells(desc), EncCells(desc, cells).value) == Some(CanonCells(desc, cells))
            && (CanonCells(desc, cells) == cells <==> CleanCells(desc, cells)))
  {
    var cells := Decode(desc, ZeroCells(desc), s).value;
    ZeroCellsOk(desc);
    DecodeKeepsStructValid(desc, ZeroCells(desc), s);
    CanonCellsEncode(desc, cells);
    EncodeThenDecode(desc, cells);
  }

  // ---------- what is left over ----------

  /** No string of the struct has a NUL before its end. */
  predicate NulFreeValue(ty: Ty, v: Value)
    decreases ty, 0
  {
    match ty
    case Str(_) => 0 !in AsBytes(v)
    case Sub(desc) => NulFreeCells(desc, AsCells(v))
    case _ => true
  }

  predicate NulFreeCell(desc: Desc, i: nat, c: Cell)
    requires i < |desc.fields|
    decreases desc, 0
  {
    var f := desc.fields[i];
    match f.rule
    case Required => NulFreeValue(f.ty, Val(c))
    case Singular => NulFreeValue(f.ty, Val(c))
    case Optional => Has(c) ==> NulFreeValue(f.ty, Val(c))
    case Repeated(_) => forall k | 0 <= k < |Items(c)| :: NulFreeValue(f.ty, Items(c)[k])
    case FixArray(_) => forall k | 0 <= k < |Items(c)| :: NulFreeValue(f.ty, Items(c)[k])
    case Oneof => var k := Lookup(desc, Which(c)); Which(c) != 0 && k < |desc.fields| ==> NulFreeValue(desc.fields[k].ty, Val(c))
  }

  predicate NulFreeCells(desc: Desc, cells: Cells)
    decreases desc, 1
  {
    forall i | 0 <= i < |desc.fields| :: NulFreeCell(desc, i, At(cells, i))
  }

  /** An absent optional holds zeros, an unset union nothing. */
  predicate TidyValue(ty: Ty, v: Value)
    decreases ty, 0
  {
    ty.Sub? ==> TidyCells(ty.desc, AsCells(v))
  }

  predicate TidyCell(desc: Desc, i: nat, c: Cell)
    requires i < |desc.fields|
    decreases desc, 0
  {
    var f := desc.fields[i];
    match f.rule
    case Required => TidyValue(f.ty, Val(c))
    case Singular => TidyValue(f.ty, Val(c))
    case Optional => if Has(c) then TidyValue(f.ty, Val(c)) else Val(c) == Zero(f.ty)
    case Repeated(_) => forall k | 0 <= k < |Items(c)| :: TidyValue(f.ty, Items(c)[k])
    case FixArray(_) => forall k | 0 <= k < |Items(c)| :: TidyValue(f.ty, Items(c)[k])
    case Oneof =>
      if Which(c) == 0 then Val(c) == Num(0)
      else var k := Lookup(desc, Which(c)); k < |desc.fields| && TidyValue(desc.fields[k].ty, Val(c))
  }

  predicate TidyCells(desc: Desc, cells: Cells)
    decreases desc, 1
  {
    forall i | 0 <= i < |desc.fields| :: TidyCell(desc, i, At(cells, i))
  }

  /** A clean struct is a tidy one without embedded NULs. */
  lemma {:induction false} CleanValueParts(ty: Ty, v: Value)
    ensures CleanValue(ty, v) <==> NulFreeValue(ty, v) && TidyValue(ty, v)
    decreases ty, 0
  {
    if ty.Sub? {
      CleanParts(ty.desc, AsCells(v));
    }
  }

  lemma CleanCellParts(desc: Desc, i: nat, c: Cell)
    requires i < |desc.fields|
    ensures CleanCell(desc, i, c) <==> NulFreeCell(desc, i, c) && TidyCell(desc, i, c)
    decreases desc, 0
  {
    var f := desc.fields[i];
    CleanValueParts(f.ty, Val(c));
    if f.rule.Repeated? || f.rule.FixArray? {
      forall k | 0 <= k < |Items(c)|
        ensures CleanValue(f.ty, Items(c)[k]) <==> NulFreeValue(f.ty, Items(c)[k]) && TidyValue(f.ty, Items(c)[k])
      {
        CleanValueParts(f.ty, Items(c)[k]);
      }
    } else if f.rule.Oneof? && Lookup(desc, Which(c)) < |desc.fields| {
      CleanValueParts(desc.fields[Lookup(desc, Which(c))].ty, Val(c));
    }
  }

  lemma CleanParts(desc: Desc, cells: Cells)
    ensures CleanCells(desc, cells) <==> NulFreeCells(desc, cells) && TidyCells(desc, cells)
    decreases desc, 1
  {
    forall i | 0 <= i < |desc.fields|
      ensures CleanCell(desc, i, At(cells, i)) <==> NulFreeCell(desc, i, At(cells, i)) && TidyCell(desc, i, At(cells, i))
    {
      CleanCellParts(desc, i, At(cells, i));
    }
  }

  lemma {:induction false} ZeroTidy(ty: Ty)
    ensures TidyValue(ty, Zero(ty))
    decreases ty, 0
  {
    if ty.Sub? {
      ZeroCellsAre(ty.desc, Zero(ty));
      ZeroCellsTidy(ty.desc);
    }
  }

  lemma ZeroCellsTidy(desc: Desc)
    ensures TidyCells(desc, ZeroCells(desc))
    decreases desc, 1
  {
    forall i | 0 <= i < |desc.fields|
      ensures TidyCell(desc, i, ZeroCell(desc.fields[i]))
    {
      ZeroTidy(desc.fields[i].ty);
    }
  }

  /** Without fixed-count arrays, whatever is decoded leaves a tidy struct tidy. */
  lemma {:induction false} BasicTidy(ty: Ty, wt: nat, prev: Value, init: bool, s: Bytes)
    requires ty.Sub? ==> NoFixedArrays(ty.desc) && DescOk(ty.desc) && (init || (ValueOk(ty, prev) && TidyValue(ty, prev)))
    requires DecBasic(ty, wt, prev, init, s).Got?
    ensures TidyValue(ty, DecBasic(ty, wt, prev, init, s).value)
    decreases |s|, 1
  {
    if ty.Sub? {
      if init {
        DefaultsErase(ty.desc, Cast(ty.desc, prev));
        ZeroCellsTidy(ty.desc);
        ZeroCellsOk(ty.desc);
      }
      LoopTidy(ty.desc, Start(if init then ZeroCells(ty.desc) else prev.cells), Prefixed(s).value);
    }
  }

  /** The memory a oneof member is decoded into. */
  lemma TargetTidy(desc: Desc, i: nat, c: Cell)
    requires DescOk(desc) && NoFixedArrays(desc) && i < |desc.fields| && desc.fields[i].rule.Oneof?
    requires desc.fields[i].slot < |desc.fields| && CellOk(desc, desc.fields[i].slot, c) && TidyCell(desc, desc.fields[i].slot, c)
    ensures
      var f := desc.fields[i];
      var prev := if f.ty.Sub? && Which(c) != f.tag then DefaultValue(f.ty, Zero(f.ty)) else Val(c);
      f.ty.Sub? ==> ValueOk(f.ty, prev) && TidyValue(f.ty, prev)
  {
    var f := desc.fields[i];
    assert SlotOk(desc.fields, i) && TyOk(f.ty);
    LookupOwnTag(desc, i);
    UnionTarget(desc, i, c);
    if f.ty.Sub? && Which(c) != f.tag {
      ZeroCellsAre(f.ty.desc, Zero(f.ty));
      DefaultsOfZero(f.ty.desc);
      ZeroTidy(f.ty);
    }
  }

  lemma {:induction false} FieldTidy(desc: Desc, i: nat, wt: nat, c: Cell, fx: Fixing, s: Bytes)
    requires DescOk(desc) && NoFixedArrays(desc) && i < |desc.fields|
    requires desc.fields[i].slot < |desc.fields| && CellOk(desc, desc.fields[i].slot, c) && TidyCell(desc, desc.fields[i].slot, c)
    requires DecField(desc.fields[i], i, wt, c, fx, s).Got?
    ensures TidyCell(desc, desc.fields[i].slot, DecField(desc.fields[i], i, wt, c, fx, s).value.0)
    decreases |s|, 2
  {
    var f := desc.fields[i];
    assert SlotOk(desc.fields, i) && TyOk(f.ty);
    match f.rule
    case Repeated(max) =>
      if !(wt == WT_STRING && Packable(f.ty)) {
        BasicTidy(f.ty, wt, Zero(f.ty), true, s);
      }
    case Oneof =>
      TargetTidy(desc, i, c);
      LookupOwnTag(desc, i);
      BasicTidy(f.ty, wt, if f.ty.Sub? && Which(c) != f.tag then DefaultValue(f.ty, Zero(f.ty)) else Val(c), false, s);
    case Optional =>
      ZeroTidy(f.ty);
      BasicTidy(f.ty, wt, Val(c), false, s);
    case Required => BasicTidy(f.ty, wt, Val(c), false, s);
    case Singular => BasicTidy(f.ty, wt, Val(c), false, s);
  }

  /** One cell of a struct replaced. */
  lemma PutTidy(desc: Desc, cells: Cells, k: nat, c: Cell)
    requires CellsOk(desc, cells) && TidyCells(desc, cells) && k < |desc.fields| && CellOk(desc, k, c) && TidyCell(desc, k, c)
    ensures CellsOk(desc, Put(cells, k, c)) && TidyCells(desc, Put(cells, k, c))
  {
    forall i | 0 <= i < |desc.fields|
      ensures CellOk(desc, i, Put(cells, k, c)[i]) && TidyCell(desc, i, At(Put(cells, k, c), i))
    {
      assert CellOk(desc, i, cells[i]) && TidyCell(desc, i, At(cells, i));
    }
  }

  lemma {:induction false} StepTidy(desc: Desc, st: State, s: Bytes)
    requires DescOk(desc) && NoFixedArrays(desc) && CellsOk(desc, st.cells) && TidyCells(desc, st.cells)
    requires s != [] && DecStep(desc, st, s).Got?
    ensures CellsOk(desc, DecStep(desc, st, s).value.cells) && TidyCells(desc, DecStep(desc, st, s).value.cells)
    decreases |s|, 3
  {
    var Got(t, k) := Varint32(s);
    var i := Lookup(desc, t / 8);
    if i < |desc.fields| {
      assert SlotOk(desc.fields, i);
      var f, c := desc.fields[i], At(st.cells, desc.fields[i].slot);
      assert CellOk(desc, f.slot, c) && TidyCell(desc, f.slot, c);
      FieldOk(desc, i, t % 8, c, st.fixing, s[k..]);
      FieldTidy(desc, i, t % 8, c, st.fixing, s[k..]);
      PutTidy(desc, st.cells, f.slot, DecField(f, i, t % 8, c, st.fixing, s[k..]).value.0);
    }
  }

  lemma {:induction false} LoopTidy(desc: Desc, st: State, s: Bytes)
    requires DescOk(desc) && NoFixedArrays(desc) && CellsOk(desc, st.cells) && TidyCells(desc, st.cells) && DecLoop(desc, st, s).Some?
    ensures TidyCells(desc, DecLoop(desc, st, s).value.cells)
    decreases |s|, 4
  {
    if s != [] {
      var Got(st', n) := DecStep(desc, st, s);
      StepTidy(desc, st, s);
      LoopTidy(desc, st', s[n..]);
    }
  }

  /** For a message type without fixed-count arrays: what is decoded survives being encoded and
      decoded again exactly when no string of it has an embedded NUL. */
  lemma ReencodingExact(desc: Desc, s: Bytes)
    requires DescOk(desc) && NoFixedArrays(desc) && Decode(desc, ZeroCells(desc), s).Some?
    ensures
      var cells := Decode(desc, ZeroCells(desc), s).value;
      && EncCells(desc, cells).Some?
      && (|EncCells(desc, cells).value| < TWO32 ==>
            (Decode(desc, ZeroCells(desc), EncCells(desc, cells).value) == Some(cells) <==> NulFreeCells(desc, cells)))
  {
    var cells := Decode(desc, ZeroCells(desc), s).value;
    Reencoding(desc, s);
    ReadyZero(desc);
    ZeroCellsTidy(desc);
    LoopTidy(desc, Start(ZeroCells(desc)), s);
    CleanParts(desc, cells);
  }

  /** A message type with one string of three bytes. */
  const STR_FIELD: Field := Field(1, Required, Str(4), 0)
  const STR_DESC: Desc := Desc([STR_FIELD], [])

  lemma StrDescOk()
    ensures DescOk(STR_DESC) && ZeroCells(STR_DESC) == [Plain(Data([]))] && SetDefaults(STR_DESC, ZeroCells(STR_DESC)) == ZeroCells(STR_DESC)
    ensures RequiredCount(STR_DESC) == 1 && RequiredBefore(STR_DESC, 0) == 0
  {
    assert SlotOk(STR_DESC.fields, 0);
    DefaultsOfZero(STR_DESC);
  }

  lemma NulAccepted()
    ensures Decode(STR_DESC, ZeroCells(STR_DESC), [10, 2, 0, 65]) == Some([Plain(Data([0, 65]))])
  {
    var bytes: Bytes, payload: Bytes := [0, 65], [2, 0, 65];
    assert Delimited(bytes) == payload && TagBytes(WT_STRING, 1) + payload == [10, 2, 0, 65];
    StrAccepted(bytes, payload);
  }

  lemma StrAccepted(bytes: Bytes, payload: Bytes)
    requires |bytes| <= 3 && payload == Delimited(bytes)
    ensures Decode(STR_DESC, ZeroCells(STR_DESC), TagBytes(WT_STRING, 1) + payload) == Some([Plain(Data(bytes))])
  {
    StrDescOk();
    var zero, c := Plain(Data([])), Plain(Data(bytes));
    StrTaken(bytes, payload);
    OneRecord(STR_DESC, 0, Start([zero]), WT_STRING, payload, c, NoFixing);
    assert Put([zero], 0, c) == [c];
  }

  lemma StrTaken(bytes: Bytes, payload: Bytes)
    requires |bytes| <= 3 && payload == Delimited(bytes)
    ensures DecField(STR_FIELD, 0, WT_STRING, Plain(Data([])), NoFixing, payload) == Got((Plain(Data(bytes)), NoFixing), |payload|)
  {
    PrefixedRoundTrip(bytes, []);
    assert payload + [] == payload;
  }

  /** A string with an embedded NUL is accepted, but does not survive. */
  lemma EmbeddedNul()
    ensures
      var x := [Plain(Data([0, 65]))];
      && Decode(STR_DESC, ZeroCells(STR_DESC), [10, 2, 0, 65]) == Some(x) && EncCells(STR_DESC, x).Some?
      && Decode(STR_DESC, ZeroCells(STR_DESC), EncCells(STR_DESC, x).value) == Some([Plain(Data([]))])
  {
    var x := [Plain(Data([0, 65]))];
    StrDescOk();
    NulAccepted();
    NulCut(x);
    EncodeThenDecode(STR_DESC, x);
  }

  lemma NulCut(x: Cells)
    requires x == [Plain(Data([0, 65]))]
    ensures CanonCells(STR_DESC, x) == [Plain(Data([]))]
    ensures EncCells(STR_DESC, x).Some? && |EncCells(STR_DESC, x).value| < 100
  {
    var bytes: Bytes := [0, 65];
    assert StrLen(bytes) == 0 && Cut(bytes) == [];
    assert CanonCell(STR_DESC, 0, x[0]) == Plain(Data([]));
    assert EncValue(Str(4), Data(bytes)) == Some(Delimited([]));
    assert |TagBytes(WT_STRING, 1)| == 1 && |Delimited([])| == 1;
    var one := TagBytes(WT_STRING, 1) + Delimited([]);
    assert EncField(STR_FIELD, At(x, 0)) == Some(one);
    assert EncFrom(STR_DESC, x, 1) == Some([]) && EncFrom(STR_DESC, x, 0) == Some(one + []);
  }
}
