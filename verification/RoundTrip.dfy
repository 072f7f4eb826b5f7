/** pb_decode rebuilds exactly the struct that pb_encode wrote. */
module RoundTrip {
  import opened Wire
  import opened Message
  import opened Encoding
  import opened Wrappers
  import opened Decoding
  import opened Locality

  // ---------- scalars ----------

  /** A signed value sent as a 64-bit two's complement varint is read back in its width. */
  lemma SignedThrough64(n: int, w: nat)
    requires IntWidth(w) && n == ToSigned(n, w)
    ensures ToSigned(if w == 8 then ToSigned(ToUnsigned(n, 8), 8) else ToSigned(ToUnsigned(n, 8), 4), w) == n
    ensures (if w == 8 then ToSigned(ToUnsigned(n, 8), 8) else ToSigned(ToUnsigned(n, 8), 4)) == n
  {
    assert Modulus(8) == TWO64 && Modulus(4) == TWO32;
    SixtyFour(n);
    if w != 8 {
      assert -(TWO32 / 2) <= n < TWO32 / 2;
      ThirtyTwo(n);
    }
  }

  lemma SixtyFour(n: int)
    requires -(TWO64 / 2) <= n < TWO64 / 2
    ensures ToUnsigned(n, 8) == if n >= 0 then n else n + TWO64
    ensures ToSigned(ToUnsigned(n, 8), 8) == n
  {
    assert Modulus(8) == TWO64;
  }

  lemma ThirtyTwo(n: int)
    requires -(TWO32 / 2) <= n < TWO32 / 2
    ensures ToSigned(if n >= 0 then n else n + TWO64, 4) == n
  {
    assert Modulus(4) == TWO32 && TWO64 % TWO32 == 0;
    if n < 0 {
      assert n + TWO64 == (TWO32 - 1) * TWO32 + (n + TWO32);
    }
  }

  lemma IntRoundTrip(ty: Ty, n: int)
    requires ty.VarInt? || ty.UVarInt? || ty.SVarInt?
    requires ValueOk(ty, Num(n))
    ensures VarintOf(ty, n) < TWO64 && IntOf(ty, VarintOf(ty, n)) == Some(Num(n))
  {
    match ty
    case VarInt(w) =>
      SignedThrough64(n, w);
    case SVarInt(w) =>
      assert -(TWO64 / 2) <= n < TWO64 / 2;
      ZigZagRoundTrip(n, 0);
    case UVarInt(w) =>
      assert ToUnsigned(n, w) == n;
  }

  lemma {:induction false} StrLenClean(b: Bytes)
    requires 0 !in b
    ensures StrLen(b) == |b|
  {
    if b != [] {
      assert b[0] in b;
      assert forall x | x in b[1..] :: x in b;
      StrLenClean(b[1..]);
    }
  }

  lemma DataRoundTrip(ty: Ty, v: Value, t: Bytes)
    requires ty.Blob? || ty.Str? || ty.FixedBlob?
    requires TyOk(ty) && ValueOk(ty, v) && CleanValue(ty, v)
    ensures EncValue(ty, v) == Some(Delimited(v.bytes))
    ensures DecScalar(ty, WT_STRING, Delimited(v.bytes) + t) == Got(v, |Delimited(v.bytes)|)
  {
    PrefixedRoundTrip(v.bytes, t);
    if ty.Str? {
      StrLenClean(v.bytes);
      assert v.bytes[..|v.bytes|] == v.bytes;
    } else if ty.FixedBlob? {
      assert v.bytes[..|v.bytes|] == v.bytes;
      if v.bytes == [] {
        assert Window([], 0) == [];
      }
    }
  }

  lemma VarintScalar(ty: Ty, v: Value, wt: nat, t: Bytes)
    requires ty.VarInt? || ty.UVarInt? || ty.SVarInt?
    requires ValueOk(ty, v) && (wt == WT_VARINT || wt == WT_PACKED)
    ensures EncValue(ty, v).Some?
    ensures DecScalar(ty, wt, EncValue(ty, v).value + t) == Got(v, |EncValue(ty, v).value|)
  {
    IntRoundTrip(ty, v.n);
    VarintRoundTrip(VarintOf(ty, v.n), t);
    assert EncValue(ty, v) == Some(VarintBytes(VarintOf(ty, v.n)));
  }

  lemma FixedScalar(ty: Ty, v: Value, wt: nat, t: Bytes)
    requires ty.Fixed32? || ty.Fixed64?
    requires ValueOk(ty, v) && (wt == WireType(ty) || wt == WT_PACKED)
    ensures EncValue(ty, v).Some?
    ensures DecScalar(ty, wt, EncValue(ty, v).value + t) == Got(v, |EncValue(ty, v).value|)
  {
    WordSizes();
    if ty.Fixed32? {
      assert v.n % TWO32 == v.n;
      FixedRoundTrip(v.n, 4, t);
    } else {
      assert v.n % TWO64 == v.n;
      FixedRoundTrip(v.n, 8, t);
    }
  }

  /** A scalar, in its own wire type or as an element of a packed block. */
  lemma ScalarRoundTrip(ty: Ty, v: Value, wt: nat, t: Bytes)
    requires !ty.Sub? && TyOk(ty) && ValueOk(ty, v) && CleanValue(ty, v)
    requires wt == WireType(ty) || (wt == WT_PACKED && Packable(ty))
    ensures EncValue(ty, v).Some?
    ensures DecScalar(ty, wt, EncValue(ty, v).value + t) == Got(v, |EncValue(ty, v).value|)
  {
    if ty.Bool? {
      Varint32RoundTrip(VarintOf(ty, v.n), t);
    } else if ty.Fixed32? || ty.Fixed64? {
      FixedScalar(ty, v, wt, t);
    } else if ty.VarInt? || ty.UVarInt? || ty.SVarInt? {
      VarintScalar(ty, v, wt, t);
    } else {
      DataRoundTrip(ty, v, t);
    }
  }

  // ---------- arrays ----------

  predicate ItemsOk(ty: Ty, items: seq<Value>) {
    forall k | 0 <= k < |items| :: ValueOk(ty, items[k]) && CleanValue(ty, items[k])
  }

  /** A packed block decodes to its elements, and to an error when they do not all fit. */
  lemma {:induction false} PackedRoundTrip(f: Field, items: seq<Value>, room: int)
    requires Packable(f.ty) && TyOk(f.ty) && ItemsOk(f.ty, items)
    ensures EncItems(f, items, false).Some?
    ensures PackedItems(f.ty, room, EncItems(f, items, false).value) ==
            if items == [] || |items| <= room then Some(items) else None
    decreases |items|
  {
    if items != [] {
      var rest := items[1..];
      PackedRoundTrip(f, rest, room - 1);
      var b := EncItems(f, rest, false).value;
      ScalarRoundTrip(f.ty, items[0], WT_PACKED, b);
      PackedStep(f.ty, items[0], EncValue(f.ty, items[0]).value, b, room);
      assert items == [items[0]] + rest;
    }
  }

  lemma PackedStep(ty: Ty, v: Value, a: Bytes, b: Bytes, room: int)
    requires a != [] && DecScalar(ty, WT_PACKED, a + b) == Got(v, |a|)
    ensures PackedItems(ty, room, a + b) ==
            if room <= 0 || PackedItems(ty, room - 1, b).None? then None else Some([v] + PackedItems(ty, room - 1, b).value)
  {
    assert (a + b)[|a|..] == b;
  }

  // ---------- defaults ----------

  /** A singular field that the encoder omits holds zero. */
  lemma {:induction false} DefaultIsZero(ty: Ty, v: Value)
    requires TyOk(ty) && ValueOk(ty, v) && CleanValue(ty, v) && IsDefaultValue(ty, v)
    ensures v == Zero(ty)
  {
    if ty.Str? {
      StrLenClean(v.bytes);
    } else if ty.FixedBlob? {
      assert v.bytes == Window([], 0);
    } else if ty.Sub? {
      forall i | 0 <= i < |ty.desc.fields|
        ensures v.cells[i] == ZeroCell(ty.desc.fields[i])
      {
        DefaultCellIsZero(ty.desc, v.cells, i);
      }
      assert v.cells == ZeroCells(ty.desc);
      ZeroCellsAre(ty.desc, Zero(ty));
    }
  }

  lemma {:induction false} DefaultCellIsZero(desc: Desc, cells: Cells, i: nat)
    requires i < |desc.fields| && DescOk(desc) && CellsOk(desc, cells) && CleanCells(desc, cells)
    requires DefaultAt(desc, cells, i)
    ensures cells[i] == ZeroCell(desc.fields[i])
    decreases desc
  {
    var f := desc.fields[i];
    assert CellOk(desc, i, cells[i]) && CleanCell(desc, i, At(cells, i)) && SlotOk(desc.fields, i);
    match f.rule
    case Singular => DefaultIsZero(f.ty, cells[i].v);
    case Oneof => OtherMembersEmpty(desc, cells, i);
    case _ =>
  }

  /** Only the first cell of a oneof is used. */
  lemma OtherMembersEmpty(desc: Desc, cells: Cells, i: nat)
    requires i < |desc.fields| && DescOk(desc) && CellsOk(desc, cells) && CleanCells(desc, cells)
    requires desc.fields[i].rule.Oneof?
    ensures cells[i].Union?
    ensures desc.fields[i].slot != i || cells[i].which == 0 ==> cells[i] == Union(0, Num(0))
  {
    assert CellOk(desc, i, cells[i]) && CleanCell(desc, i, At(cells, i));
    if cells[i].which != 0 {
      var k := Lookup(desc, cells[i].which);
      assert SlotOk(desc.fields, k);
    }
  }

  predicate Sound(desc: Desc, cells: Cells) {
    DescOk(desc) && CellsOk(desc, cells) && CleanCells(desc, cells)
  }

  // ---------- decoding into memory ----------

  /** What the struct `cells` becomes when it is decoded into the memory `base`: the contents of
      absent optionals stay as they are in memory, and nothing else does. */
  function Into(desc: Desc, base: Cells, cells: Cells): (r: Cells)
    ensures |r| == |desc.fields|
    decreases desc, 2
  {
    seq(|desc.fields|, k requires 0 <= k < |desc.fields| => IntoCell(desc.fields[k], At(base, k), At(cells, k)))
  }

  function IntoCell(f: Field, b: Cell, c: Cell): Cell
    decreases f, 1
  {
    match f.rule
    case Required => Plain(IntoValue(f.ty, Val(b), false, Val(c)))
    case Singular => Plain(IntoValue(f.ty, Val(b), false, Val(c)))
    case Optional => if Has(c) then Opt(true, IntoValue(f.ty, Val(b), false, Val(c))) else b
    case FixArray(_) => Arr(IntoItems(f.ty, Items(b), Items(c)))
    case _ => c
  }

  /** A value, in place of `b`; `init` tells whether that is set to its defaults first. */
  function IntoValue(ty: Ty, b: Value, init: bool, v: Value): Value
    decreases ty, 0
  {
    if ty.Sub? then
      Struct(Into(ty.desc, if init then SetDefaults(ty.desc, Cast(ty.desc, b)) else Cast(ty.desc, b), AsCells(v)))
    else v
  }

  function IntoItems(ty: Ty, bs: seq<Value>, items: seq<Value>): (r: seq<Value>)
    ensures |r| == |items|
    decreases ty, 1
  {
    seq(|items|, k requires 0 <= k < |items| => IntoValue(ty, ItemAt(bs, k), true, items[k]))
  }

  /** Zeroed memory leaves no trace. */
  lemma {:induction false} IntoZero(desc: Desc, cells: Cells)
    requires Sound(desc, cells)
    ensures Into(desc, ZeroCells(desc), cells) == cells
    decreases desc, 1
  {
    forall k | 0 <= k < |cells|
      ensures IntoCell(desc.fields[k], ZeroCell(desc.fields[k]), cells[k]) == cells[k]
    {
      IntoZeroCell(desc, cells, k);
    }
  }

  lemma IntoZeroCell(desc: Desc, cells: Cells, k: nat)
    requires Sound(desc, cells) && k < |cells|
    ensures IntoCell(desc.fields[k], ZeroCell(desc.fields[k]), cells[k]) == cells[k]
    decreases desc, 0
  {
    var f := desc.fields[k];
    assert CellOk(desc, k, cells[k]) && CleanCell(desc, k, At(cells, k));
    match f.rule
    case FixArray(max) =>
      forall j | 0 <= j < max
        ensures IntoValue(f.ty, Zero(f.ty), true, cells[k].items[j]) == cells[k].items[j]
      {
        IntoZeroValue(f.ty, true, Items(cells[k])[j]);
      }
    case Repeated(_) =>
    case Oneof =>
    case Optional => if cells[k].has { IntoZeroValue(f.ty, false, cells[k].v); }
    case Required => IntoZeroValue(f.ty, false, cells[k].v);
    case Singular => IntoZeroValue(f.ty, false, cells[k].v);
  }

  lemma IntoZeroValue(ty: Ty, init: bool, v: Value)
    requires TyOk(ty) && ValueOk(ty, v) && CleanValue(ty, v)
    ensures IntoValue(ty, Zero(ty), init, v) == v
    decreases ty, 2
  {
    if ty.Sub? {
      ZeroCellsAre(ty.desc, Zero(ty));
      DefaultsOfZero(ty.desc);
      IntoZero(ty.desc, v.cells);
    }
  }

  /** What the encoder omits leaves the memory as it is. */
  lemma {:induction false} IntoDefault(desc: Desc, base: Cells, cells: Cells, k: nat)
    requires Sound(desc, cells) && Ready(desc, base) && k < |cells| && DefaultAt(desc, cells, k)
    ensures IntoCell(desc.fields[k], base[k], cells[k]) == base[k]
    decreases desc, 0
  {
    var f := desc.fields[k];
    assert CellOk(desc, k, cells[k]) && CleanCell(desc, k, At(cells, k)) && SlotOk(desc.fields, k);
    ReadyCell(desc, base, k);
    match f.rule
    case Oneof => OtherMembersEmpty(desc, cells, k);
    case Singular => IntoDefaultValue(desc, base, k, cells[k].v);
    case _ =>
  }

  lemma IntoDefaultValue(desc: Desc, base: Cells, k: nat, v: Value)
    requires DescOk(desc) && Ready(desc, base) && k < |desc.fields| && desc.fields[k].rule.Singular?
    requires ValueOk(desc.fields[k].ty, v) && CleanValue(desc.fields[k].ty, v) && IsDefaultValue(desc.fields[k].ty, v)
    ensures IntoValue(desc.fields[k].ty, Val(base[k]), false, v) == Val(base[k])
    decreases desc.fields[k].ty, 1
  {
    var ty, b := desc.fields[k].ty, Val(base[k]);
    assert TyOk(ty);
    ReadyValue(desc, base, k);
    if ty.Sub? {
      forall j | 0 <= j < |v.cells|
        ensures Into(ty.desc, b.cells, v.cells)[j] == b.cells[j]
      {
        IntoDefault(ty.desc, b.cells, v.cells, j);
      }
    } else {
      DefaultIsZero(ty, v);
    }
  }

  // ---------- whole messages ----------

  /** The struct after the records of the fields before `i` have been decoded. */
  function Partial(desc: Desc, base: Cells, cells: Cells, i: nat): (r: Cells)
    requires |base| == |cells| == |desc.fields|
    ensures |r| == |cells|
  {
    seq(|cells|, k requires 0 <= k < |cells| =>
      if Done(desc, cells[k], k, i) then IntoCell(desc.fields[k], base[k], cells[k]) else base[k])
  }

  /** The field that fills cell `k` comes before `i`. */
  predicate Done(desc: Desc, c: Cell, k: nat, i: nat)
    requires k < |desc.fields|
  {
    if desc.fields[k].rule.Oneof? then Lookup(desc, Which(c)) < i else k < i
  }

  function UpTo(n: nat): (s: set<nat>)
    ensures forall r: nat :: r in s <==> r < n
  {
    if n == 0 then {} else UpTo(n - 1) + {n - 1}
  }

  function SeenBefore(desc: Desc, i: nat): set<nat>
    requires i <= |desc.fields|
  {
    UpTo(if RequiredBefore(desc, i) < MAX_REQUIRED then RequiredBefore(desc, i) else MAX_REQUIRED)
  }

  predicate Midway(desc: Desc, base: Cells, cells: Cells, i: nat, st: State)
    requires i <= |desc.fields| == |cells| == |base|
  {
    && st.cells == Partial(desc, base, cells, i)
    && st.seen == SeenBefore(desc, i)
    && Complete(st.fixing)
    && (st.fixing.active ==> st.fixing.index < i)
  }

  lemma TagRoundTrip(wt: nat, tag: nat, t: Bytes)
    requires wt < 8 && 1 <= tag <= SIZE_MAX
    ensures Varint32(TagBytes(wt, tag) + t) == Got(tag * 8 + wt, |TagBytes(wt, tag)|)
  {
    Varint32RoundTrip(tag * 8 + wt, t);
  }

  /** A step that consumes everything ends the loop. */
  lemma LastStep(desc: Desc, st: State, s: Bytes, st': State)
    requires s != [] && DecStep(desc, st, s) == Got(st', |s|)
    ensures DecLoop(desc, st, s) == Some(st')
  {
    assert s[|s|..] == [];
  }

  lemma RecordStep(desc: Desc, i: nat, st: State, wt: nat, payload: Bytes, c: Cell, fx: Fixing)
    requires DescOk(desc) && i < |desc.fields| && wt < 8
    requires DecField(desc.fields[i], i, wt, At(st.cells, desc.fields[i].slot), st.fixing, payload) == Got((c, fx), |payload|)
    ensures
      var s := TagBytes(wt, desc.fields[i].tag) + payload;
      DecStep(desc, st, s) == Got(State(Put(st.cells, desc.fields[i].slot, c), Mark(desc, i, st.seen), fx), |s|)
  {
    var f := desc.fields[i];
    var s := TagBytes(wt, f.tag) + payload;
    TagRoundTrip(wt, f.tag, payload);
    LookupOwnTag(desc, i);
    assert s[|TagBytes(wt, f.tag)|..] == payload;
    assert (f.tag * 8 + wt) / 8 == f.tag && (f.tag * 8 + wt) % 8 == wt;
  }

  /** A single record of field `i`. */
  lemma OneRecord(desc: Desc, i: nat, st: State, wt: nat, payload: Bytes, c: Cell, fx: Fixing)
    requires DescOk(desc) && i < |desc.fields| && wt < 8
    requires DecField(desc.fields[i], i, wt, At(st.cells, desc.fields[i].slot), st.fixing, payload) == Got((c, fx), |payload|)
    ensures DecLoop(desc, st, TagBytes(wt, desc.fields[i].tag) + payload) ==
            Some(State(Put(st.cells, desc.fields[i].slot, c), Mark(desc, i, st.seen), fx))
  {
    RecordStep(desc, i, st, wt, payload, c, fx);
    LastStep(desc, st, TagBytes(wt, desc.fields[i].tag) + payload,
             State(Put(st.cells, desc.fields[i].slot, c), Mark(desc, i, st.seen), fx));
  }

  /** A value, decoded into the memory `prev`. */
  lemma BasicRoundTrip(ty: Ty, v: Value, prev: Value, init: bool)
    requires TyOk(ty) && ValueOk(ty, v) && CleanValue(ty, v)
    requires EncValue(ty, v).Some? && |EncValue(ty, v).value| < TWO32
    requires ty.Sub? ==> ValueOk(ty, prev) && (init || Ready(ty.desc, prev.cells))
    ensures DecBasic(ty, WireType(ty), prev, init, EncValue(ty, v).value) == Got(IntoValue(ty, prev, init, v), |EncValue(ty, v).value|)
    decreases ty, 0
  {
    var bs := EncValue(ty, v).value;
    assert bs + [] == bs;
    if ty.Sub? {
      var a := EncCells(ty.desc, v.cells).value;
      ReadyDefaults(ty.desc, prev.cells);
      CellsRoundTrip(ty.desc, if init then SetDefaults(ty.desc, prev.cells) else prev.cells, v.cells);
      SubmessagePayload(ty, prev, init, a, []);
    } else {
      ScalarRoundTrip(ty, v, WireType(ty), []);
    }
  }

  /** Moving past field `i`: only its own cell can change. */
  lemma PartialStep(desc: Desc, base: Cells, cells: Cells, i: nat, c: Cell)
    requires Sound(desc, cells) && |base| == |cells| && i < |desc.fields|
    requires
      var s := desc.fields[i].slot;
      if desc.fields[i].rule.Oneof? then
        c == if Which(At(cells, s)) == desc.fields[i].tag then At(cells, s) else At(Partial(desc, base, cells, i), s)
      else c == IntoCell(desc.fields[i], base[i], cells[i])
    ensures Partial(desc, base, cells, i + 1) == Put(Partial(desc, base, cells, i), desc.fields[i].slot, c)
  {
    var s := desc.fields[i].slot;
    assert SlotOk(desc.fields, i);
    forall k | 0 <= k < |cells|
      ensures Partial(desc, base, cells, i + 1)[k] == Put(Partial(desc, base, cells, i), s, c)[k]
    {
      if desc.fields[k].rule.Oneof? && Lookup(desc, Which(cells[k])) == i {
        assert CellOk(desc, k, cells[k]);
      } else if desc.fields[k].rule.Oneof? && k == s && desc.fields[i].rule.Oneof? {
        LookupOwnTag(desc, i);
      }
    }
  }

  lemma SeenStep(desc: Desc, i: nat)
    requires i < |desc.fields|
    ensures Mark(desc, i, SeenBefore(desc, i)) == SeenBefore(desc, i + 1)
  {
  }

  /** The cell a field occupies before any of its records, and the value in it. */
  lemma StillBase(desc: Desc, base: Cells, cells: Cells, i: nat)
    requires Sound(desc, cells) && Ready(desc, base) && i < |desc.fields|
    requires desc.fields[i].rule.Oneof? ==> Which(At(cells, desc.fields[i].slot)) == desc.fields[i].tag
    ensures desc.fields[i].slot < |base| && Partial(desc, base, cells, i)[desc.fields[i].slot] == base[desc.fields[i].slot]
  {
    assert SlotOk(desc.fields, i);
    if desc.fields[i].rule.Oneof? {
      LookupOwnTag(desc, i);
    }
  }

  /** What a single record is decoded into. */
  lemma TargetReady(desc: Desc, base: Cells, i: nat, fx: Fixing)
    requires DescOk(desc) && Ready(desc, base) && i < |desc.fields|
    requires !desc.fields[i].rule.Repeated? && !desc.fields[i].rule.FixArray?
    ensures
      var f := desc.fields[i];
      var prev := Target(f, At(base, f.slot), fx).0;
      && (f.ty.Sub? ==> ValueOk(f.ty, prev) && Ready(f.ty.desc, prev.cells))
      && (f.rule.Oneof? && f.ty.Sub? ==> prev == Zero(f.ty))
      && (!f.rule.Oneof? ==> prev == Val(base[i]))
  {
    var f := desc.fields[i];
    assert SlotOk(desc.fields, i);
    if f.rule.Oneof? {
      ReadyCell(desc, base, f.slot);
      if f.ty.Sub? {
        DefaultsOfZero(f.ty.desc);
        ZeroCellsAre(f.ty.desc, Zero(f.ty));
        ReadyZero(f.ty.desc);
      }
    } else {
      ReadyValue(desc, base, i);
    }
  }

  /** The value of a field that occurs as one record, and the cell it ends up in. */
  predicate Holds(desc: Desc, cells: Cells, i: nat, v: Value)
    requires i < |desc.fields| == |cells|
  {
    var f := desc.fields[i];
    match f.rule
    case Required => cells[i] == Plain(v)
    case Singular => cells[i] == Plain(v)
    case Optional => cells[i] == Opt(true, v)
    case Oneof => At(cells, f.slot) == Union(f.tag, v)
    case _ => false
  }

  function Landing(desc: Desc, base: Cells, cells: Cells, i: nat): Cell
    requires i < |desc.fields| == |cells| == |base|
  {
    if desc.fields[i].rule.Oneof? then At(cells, desc.fields[i].slot) else IntoCell(desc.fields[i], base[i], cells[i])
  }

  /** Such a field, decoded. */
  lemma SingleField(desc: Desc, base: Cells, cells: Cells, i: nat, fx: Fixing, v: Value)
    requires Sound(desc, cells) && Ready(desc, base) && i < |desc.fields| && Holds(desc, cells, i, v)
    requires EncValue(desc.fields[i].ty, v).Some? && |EncValue(desc.fields[i].ty, v).value| < TWO32
    ensures
      var f := desc.fields[i];
      var payload := EncValue(f.ty, v).value;
      DecField(f, i, WireType(f.ty), At(base, f.slot), fx, payload) == Got((Landing(desc, base, cells, i), fx), |payload|)
    decreases desc, 0, 0
  {
    var f := desc.fields[i];
    assert SlotOk(desc.fields, i) && CellOk(desc, f.slot, cells[f.slot]) && CleanCell(desc, f.slot, At(cells, f.slot));
    if f.rule.Oneof? {
      LookupOwnTag(desc, i);
    }
    TargetReady(desc, base, i, fx);
    BasicRoundTrip(f.ty, v, Target(f, At(base, f.slot), fx).0, false);
    if f.rule.Oneof? && f.ty.Sub? {
      IntoZeroValue(f.ty, false, v);
    }
  }

  /** A field that occurs as one record. */
  lemma SingleRoundTrip(desc: Desc, base: Cells, cells: Cells, i: nat, st: State, v: Value)
    requires Sound(desc, cells) && Ready(desc, base) && i < |desc.fields| && Midway(desc, base, cells, i, st)
    requires Holds(desc, cells, i, v)
    requires EncBasic(desc.fields[i], v).Some? && |EncBasic(desc.fields[i], v).value| < TWO32
    ensures DecLoop(desc, st, EncBasic(desc.fields[i], v).value).Some?
    ensures Midway(desc, base, cells, i + 1, DecLoop(desc, st, EncBasic(desc.fields[i], v).value).value)
    decreases desc, 0, 1
  {
    var f, c := desc.fields[i], Landing(desc, base, cells, i);
    StillBase(desc, base, cells, i);
    SingleField(desc, base, cells, i, st.fixing, v);
    OneRecord(desc, i, st, WireType(f.ty), EncValue(f.ty, v).value, c, st.fixing);
    PartialStep(desc, base, cells, i, c);
    SeenStep(desc, i);
  }

  /** Fixed-count progress after `k` elements of array field `i`. */
  function Progress(f: Field, i: nat, fx: Fixing, k: nat): Fixing {
    if f.rule.FixArray? then Fixing(true, i, k, f.rule.max) else fx
  }

  /** The array's cell after `k` elements, in the place of the elements `bs`. */
  function Filled(f: Field, bs: seq<Value>, items: seq<Value>, k: nat): Cell
    requires k <= |items|
  {
    if f.rule.FixArray? && |bs| == |items| then Arr(IntoItems(f.ty, bs, items)[..k] + bs[k..]) else Arr(items[..k])
  }

  /** And at the end. */
  function Final(f: Field, bs: seq<Value>, items: seq<Value>): seq<Value> {
    if f.rule.FixArray? then IntoItems(f.ty, bs, items) else items
  }

  /** Elements to be sent, and the memory they are to be put into. */
  predicate Sendable(f: Field, bs: seq<Value>, items: seq<Value>) {
    && (f.rule.Repeated? || f.rule.FixArray?) && TyOk(f.ty) && ItemsOk(f.ty, items) && |items| <= Max(f)
    && (f.rule.FixArray? ==> |items| == |bs| == Max(f) && forall k | 0 <= k < |bs| :: ValueOk(f.ty, bs[k]))
  }

  function Max(f: Field): nat {
    match f.rule case Repeated(max) => max case FixArray(max) => max case _ => 0
  }

  /** `k` elements have been sent, one record each. */
  predicate Sending(desc: Desc, i: nat, bs: seq<Value>, items: seq<Value>, k: nat, st: State, fx0: Fixing) {
    && DescOk(desc) && i < |desc.fields| && Sendable(desc.fields[i], bs, items) && !Packable(desc.fields[i].ty)
    && k <= |items| && Complete(fx0) && (fx0.active ==> fx0.index < i)
    && i < |st.cells| && st.cells[i] == Filled(desc.fields[i], bs, items, k)
    && st.fixing == (if k == 0 then fx0 else Progress(desc.fields[i], i, fx0, k))
  }

  /** The state after all of them. */
  function Sent(f: Field, i: nat, bs: seq<Value>, items: seq<Value>, st: State, fx0: Fixing): State
    requires i < |st.cells|
  {
    State(st.cells[i := Arr(Final(f, bs, items))], st.seen, if items == [] then fx0 else Progress(f, i, fx0, |items|))
  }

  /** An array sent as one record per element. */
  lemma {:induction false} ElementsRoundTrip(desc: Desc, i: nat, bs: seq<Value>, items: seq<Value>, k: nat, st: State, fx0: Fixing)
    requires Sending(desc, i, bs, items, k, st, fx0)
    requires EncItems(desc.fields[i], items[k..], true).Some? && |EncItems(desc.fields[i], items[k..], true).value| < TWO32
    ensures DecLoop(desc, st, EncItems(desc.fields[i], items[k..], true).value) == Some(Sent(desc.fields[i], i, bs, items, st, fx0))
    decreases desc, 0, |items| - k + 1
  {
    var f := desc.fields[i];
    if k == |items| {
      FilledAll(f, bs, items);
      assert items[k..] == [] && st.cells[i := st.cells[i]] == st.cells;
    } else {
      ItemsSplit(f, items, k);
      var st' := ElementThen(desc, i, bs, items, k, k + 1, st, fx0, EncItems(f, items[k + 1..], true).value);
      ElementsRoundTrip(desc, i, bs, items, k + 1, st', fx0);
    }
  }

  lemma ElementThen(desc: Desc, i: nat, bs: seq<Value>, items: seq<Value>, k: nat, next: nat, st: State, fx0: Fixing, b: Bytes)
    returns (st': State)
    requires Sending(desc, i, bs, items, k, st, fx0) && k < |items| && next == k + 1
    requires EncBasic(desc.fields[i], items[k]).Some? && |EncBasic(desc.fields[i], items[k]).value| < TWO32
    ensures Sending(desc, i, bs, items, next, st', fx0)
    ensures Sent(desc.fields[i], i, bs, items, st', fx0) == Sent(desc.fields[i], i, bs, items, st, fx0)
    ensures DecLoop(desc, st, EncBasic(desc.fields[i], items[k]).value + b) == DecLoop(desc, st', b)
    decreases desc, 0, 0, 1
  {
    var f := desc.fields[i];
    st' := State(st.cells[i := Filled(f, bs, items, next)], st.seen, Progress(f, i, fx0, next));
    ElementLoop(desc, i, bs, items, k, st, fx0);
    LoopThen(desc, st, EncBasic(f, items[k]).value, st', b);
    var final := Arr(Final(f, bs, items));
    assert st'.cells[i := final] == st.cells[i := final];
  }

  lemma FilledAll(f: Field, bs: seq<Value>, items: seq<Value>)
    requires f.rule.FixArray? ==> |items| == |bs|
    ensures Filled(f, bs, items, |items|) == Arr(Final(f, bs, items))
  {
    assert items[..|items|] == items && IntoItems(f.ty, bs, items)[..|items|] == IntoItems(f.ty, bs, items);
    if |bs| == |items| {
      assert bs[|items|..] == [] && IntoItems(f.ty, bs, items) + [] == IntoItems(f.ty, bs, items);
    }
  }

  lemma LoopThen(desc: Desc, st: State, a: Bytes, st': State, b: Bytes)
    requires DecLoop(desc, st, a) == Some(st')
    ensures DecLoop(desc, st, a + b) == DecLoop(desc, st', b)
  {
    LoopAppend(desc, st, a, b);
  }

  lemma ItemsSplit(f: Field, items: seq<Value>, k: nat)
    requires k < |items| && EncItems(f, items[k..], true).Some?
    ensures EncBasic(f, items[k]).Some? && EncItems(f, items[k + 1..], true).Some?
    ensures EncItems(f, items[k..], true).value == EncBasic(f, items[k]).value + EncItems(f, items[k + 1..], true).value
  {
    assert items[k..][0] == items[k] && items[k..][1..] == items[k + 1..];
  }

  lemma ElementLoop(desc: Desc, i: nat, bs: seq<Value>, items: seq<Value>, k: nat, st: State, fx0: Fixing)
    requires Sending(desc, i, bs, items, k, st, fx0) && k < |items|
    requires EncBasic(desc.fields[i], items[k]).Some? && |EncBasic(desc.fields[i], items[k]).value| < TWO32
    ensures DecLoop(desc, st, EncBasic(desc.fields[i], items[k]).value) ==
            Some(State(st.cells[i := Filled(desc.fields[i], bs, items, k + 1)], st.seen, Progress(desc.fields[i], i, fx0, k + 1)))
    decreases desc, 0, 0, 0
  {
    var f := desc.fields[i];
    assert SlotOk(desc.fields, i);
    ElementRoundTrip(f, i, bs, items, k, st.fixing, fx0);
    OneRecord(desc, i, st, WireType(f.ty), EncValue(f.ty, items[k]).value, Filled(f, bs, items, k + 1), Progress(f, i, fx0, k + 1));
  }

  lemma ElementRoundTrip(f: Field, i: nat, bs: seq<Value>, items: seq<Value>, k: nat, fx: Fixing, fx0: Fixing)
    requires Sendable(f, bs, items) && !Packable(f.ty) && k < |items|
    requires Complete(fx0) && (fx0.active ==> fx0.index < i)
    requires fx == (if k == 0 then fx0 else Progress(f, i, fx0, k))
    requires EncValue(f.ty, items[k]).Some? && |EncValue(f.ty, items[k]).value| < TWO32
    ensures DecField(f, i, WireType(f.ty), Filled(f, bs, items, k), fx, EncValue(f.ty, items[k]).value) ==
            Got((Filled(f, bs, items, k + 1), Progress(f, i, fx0, k + 1)), |EncValue(f.ty, items[k]).value|)
    decreases f, 0
  {
    if f.rule.FixArray? {
      BasicRoundTrip(f.ty, items[k], bs[k], true);
      FixedElement(f, bs, items, k);
      assert Enter(fx, i, f.rule.max) == Some(Fixing(true, i, k, f.rule.max));
    } else {
      AddedRoundTrip(f, i, items, k, fx);
    }
  }

  /** The case of a repeated field: the element is added to those before it. */
  lemma AddedRoundTrip(f: Field, i: nat, items: seq<Value>, k: nat, fx: Fixing)
    requires f.rule.Repeated? && TyOk(f.ty) && ItemsOk(f.ty, items) && !Packable(f.ty) && k < |items| <= f.rule.max
    requires EncValue(f.ty, items[k]).Some? && |EncValue(f.ty, items[k]).value| < TWO32
    ensures DecField(f, i, WireType(f.ty), Arr(items[..k]), fx, EncValue(f.ty, items[k]).value) ==
            Got((Arr(items[..k + 1]), fx), |EncValue(f.ty, items[k]).value|)
    decreases f.ty, 1
  {
    ZeroOk(f.ty);
    BasicRoundTrip(f.ty, items[k], Zero(f.ty), true);
    IntoZeroValue(f.ty, true, items[k]);
    assert items[..k + 1] == items[..k] + [items[k]];
  }

  /** One more element of a fixed-count array. */
  lemma FixedElement(f: Field, bs: seq<Value>, items: seq<Value>, k: nat)
    requires f.rule.FixArray? && k < |items| == |bs|
    ensures ItemAt(Filled(f, bs, items, k).items, k) == bs[k]
    ensures Arr(Overlay(Filled(f, bs, items, k).items, k, [IntoValue(f.ty, bs[k], true, items[k])])) == Filled(f, bs, items, k + 1)
  {
    var all := IntoItems(f.ty, bs, items);
    assert all[k] == IntoValue(f.ty, bs[k], true, items[k]);
    assert Overlay(all[..k] + bs[k..], k, [all[k]]) == all[..k + 1] + bs[k + 1..];
  }

  /** An array sent as one packed record. */
  lemma BlockRoundTrip(desc: Desc, i: nat, bs: seq<Value>, items: seq<Value>, st: State)
    requires DescOk(desc) && i < |desc.fields| && Sendable(desc.fields[i], bs, items) && Packable(desc.fields[i].ty) && items != []
    requires Complete(st.fixing) && (st.fixing.active ==> st.fixing.index < i)
    requires i < |st.cells| && st.cells[i] == Filled(desc.fields[i], bs, items, 0)
    requires EncItems(desc.fields[i], items, false).Some? && |EncItems(desc.fields[i], items, false).value| < TWO32
    ensures DecLoop(desc, st, TagBytes(WT_STRING, desc.fields[i].tag) + Delimited(EncItems(desc.fields[i], items, false).value)) ==
            Some(State(st.cells[i := Arr(Final(desc.fields[i], bs, items))], st.seen, Progress(desc.fields[i], i, st.fixing, |items|)))
  {
    var f := desc.fields[i];
    assert SlotOk(desc.fields, i);
    var block := EncItems(f, items, false).value;
    BlockField(f, i, bs, items, st.fixing);
    OneRecord(desc, i, st, WT_STRING, Delimited(block), Arr(Final(f, bs, items)), Progress(f, i, st.fixing, |items|));
  }

  lemma BlockField(f: Field, i: nat, bs: seq<Value>, items: seq<Value>, fx: Fixing)
    requires Sendable(f, bs, items) && Packable(f.ty) && items != []
    requires Complete(fx) && (fx.active ==> fx.index < i)
    requires EncItems(f, items, false).Some? && |EncItems(f, items, false).value| < TWO32
    ensures DecField(f, i, WT_STRING, Filled(f, bs, items, 0), fx, Delimited(EncItems(f, items, false).value)) ==
            Got((Arr(Final(f, bs, items)), Progress(f, i, fx, |items|)), |Delimited(EncItems(f, items, false).value)|)
  {
    var block := EncItems(f, items, false).value;
    var d := Delimited(block);
    assert Prefixed(d) == Got(block, |d|) by {
      PrefixedRoundTrip(block, []);
      assert d + [] == d;
    }
    assert PackedItems(f.ty, Max(f), block) == Some(items) by {
      PackedRoundTrip(f, items, Max(f));
    }
    BlockStored(f, i, bs, items, fx, d);
  }

  lemma BlockStored(f: Field, i: nat, bs: seq<Value>, items: seq<Value>, fx: Fixing, d: Bytes)
    requires Sendable(f, bs, items) && Packable(f.ty)
    requires Complete(fx) && (fx.active ==> fx.index < i)
    requires Prefixed(d).Got? && PackedItems(f.ty, Max(f), Prefixed(d).value) == Some(items)
    ensures DecField(f, i, WT_STRING, Filled(f, bs, items, 0), fx, d) ==
            Got((Arr(Final(f, bs, items)), Progress(f, i, fx, |items|)), Prefixed(d).size)
  {
    WrittenWhole(f, bs, items);
    if f.rule.Repeated? {
      BlockAppended(f, i, Filled(f, bs, items, 0), items, fx, d);
    } else {
      BlockOverlaid(f, i, Filled(f, bs, items, 0), items, fx, d);
    }
  }

  lemma BlockAppended(f: Field, i: nat, c: Cell, items: seq<Value>, fx: Fixing, d: Bytes)
    requires f.rule.Repeated? && Packable(f.ty) && Items(c) == [] && [] + items == items
    requires Prefixed(d).Got? && PackedItems(f.ty, Max(f), Prefixed(d).value) == Some(items)
    ensures DecField(f, i, WT_STRING, c, fx, d) == Got((Arr(items), Progress(f, i, fx, |items|)), Prefixed(d).size)
  {
  }

  lemma BlockOverlaid(f: Field, i: nat, c: Cell, items: seq<Value>, fx: Fixing, d: Bytes)
    requires f.rule.FixArray? && Packable(f.ty) && Overlay(Items(c), 0, items) == items
    requires Complete(fx) && (fx.active ==> fx.index < i)
    requires Prefixed(d).Got? && PackedItems(f.ty, Max(f), Prefixed(d).value) == Some(items)
    ensures DecField(f, i, WT_STRING, c, fx, d) == Got((Arr(items), Progress(f, i, fx, |items|)), Prefixed(d).size)
  {
    assert Enter(fx, i, f.rule.max) == Some(Fixing(true, i, 0, f.rule.max));
  }

  lemma WrittenWhole(f: Field, bs: seq<Value>, items: seq<Value>)
    requires (f.rule.Repeated? || f.rule.FixArray?) && Packable(f.ty)
    requires f.rule.FixArray? ==> |items| == |bs|
    ensures Final(f, bs, items) == items
    ensures f.rule.Repeated? ==> Items(Filled(f, bs, items, 0)) == [] && [] + items == items
    ensures f.rule.FixArray? ==> Overlay(Items(Filled(f, bs, items, 0)), 0, items) == items
  {
    assert items[..0] == [] && IntoItems(f.ty, bs, items) == items;
  }

  /** The array of field `i`, and the memory it is put into. */
  lemma ArraySendable(desc: Desc, base: Cells, cells: Cells, i: nat)
    requires Sound(desc, cells) && Ready(desc, base) && i < |desc.fields|
    requires desc.fields[i].rule.Repeated? || desc.fields[i].rule.FixArray?
    ensures desc.fields[i].slot == i && cells[i].Arr? && Sendable(desc.fields[i], Items(base[i]), Items(cells[i]))
    ensures base[i] == Filled(desc.fields[i], Items(base[i]), Items(cells[i]), 0)
    ensures IntoCell(desc.fields[i], base[i], cells[i]) == Arr(Final(desc.fields[i], Items(base[i]), Items(cells[i])))
  {
    assert SlotOk(desc.fields, i) && CellOk(desc, i, cells[i]) && CleanCell(desc, i, At(cells, i));
    ReadyCell(desc, base, i);
    var bs, items := Items(base[i]), Items(cells[i]);
    assert items[..0] == [] && IntoItems(desc.fields[i].ty, bs, items)[..0] == [] && bs[0..] == bs && [] + bs == bs;
  }

  lemma ArraySent(desc: Desc, i: nat, bs: seq<Value>, items: seq<Value>, st: State)
    requires DescOk(desc) && i < |desc.fields| && Sendable(desc.fields[i], bs, items)
    requires Complete(st.fixing) && (st.fixing.active ==> st.fixing.index < i)
    requires i < |st.cells| && st.cells[i] == Filled(desc.fields[i], bs, items, 0)
    requires EncField(desc.fields[i], Arr(items)).Some? && |EncField(desc.fields[i], Arr(items)).value| < TWO32
    ensures DecLoop(desc, st, EncField(desc.fields[i], Arr(items)).value) == Some(Sent(desc.fields[i], i, bs, items, st, st.fixing))
    decreases desc, 0, |items| + 2
  {
    var f := desc.fields[i];
    if items == [] {
      FilledAll(f, bs, items);
      assert st.cells[i := st.cells[i]] == st.cells;
    } else if Packable(f.ty) {
      BlockRoundTrip(desc, i, bs, items, st);
    } else {
      assert items[0..] == items;
      ElementsRoundTrip(desc, i, bs, items, 0, st, st.fixing);
    }
  }

  lemma ArrayRoundTrip(desc: Desc, base: Cells, cells: Cells, i: nat, st: State)
    requires Sound(desc, cells) && Ready(desc, base) && i < |desc.fields| && Midway(desc, base, cells, i, st)
    requires desc.fields[i].rule.Repeated? || desc.fields[i].rule.FixArray?
    requires EncField(desc.fields[i], cells[i]).Some? && |EncField(desc.fields[i], cells[i]).value| < TWO32
    ensures DecLoop(desc, st, EncField(desc.fields[i], cells[i]).value).Some?
    ensures Midway(desc, base, cells, i + 1, DecLoop(desc, st, EncField(desc.fields[i], cells[i]).value).value)
    decreases desc, 1
  {
    var f, bs, items := desc.fields[i], Items(base[i]), Items(cells[i]);
    ArraySendable(desc, base, cells, i);
    ArraySent(desc, i, bs, items, st);
    PartialStep(desc, base, cells, i, IntoCell(f, base[i], cells[i]));
    SeenStep(desc, i);
  }

  /** A field that is not sent: the memory already holds what it should. */
  predicate Omitted(f: Field, c: Cell) {
    match f.rule
    case Optional => !Has(c)
    case Singular => IsDefault(f, c)
    case Oneof => Which(c) != f.tag
    case _ => false
  }

  lemma OmittedRoundTrip(desc: Desc, base: Cells, cells: Cells, i: nat, st: State)
    requires Sound(desc, cells) && Ready(desc, base) && i < |desc.fields| && Midway(desc, base, cells, i, st)
    requires Omitted(desc.fields[i], At(cells, desc.fields[i].slot))
    ensures Midway(desc, base, cells, i + 1, st)
  {
    var f := desc.fields[i];
    assert SlotOk(desc.fields, i);
    if f.rule.Oneof? {
      PartialStep(desc, base, cells, i, Partial(desc, base, cells, i)[f.slot]);
    } else {
      if f.rule.Singular? {
        IntoDefault(desc, base, cells, i);
      }
      PartialStep(desc, base, cells, i, base[i]);
    }
    SeenStep(desc, i);
  }

  /** Field `i`: present, absent or repeated. */
  lemma FieldRoundTrip(desc: Desc, base: Cells, cells: Cells, i: nat, st: State)
    requires Sound(desc, cells) && Ready(desc, base) && i < |desc.fields| && Midway(desc, base, cells, i, st)
    requires EncField(desc.fields[i], At(cells, desc.fields[i].slot)).Some?
    requires |EncField(desc.fields[i], At(cells, desc.fields[i].slot)).value| < TWO32
    ensures DecLoop(desc, st, EncField(desc.fields[i], At(cells, desc.fields[i].slot)).value).Some?
    ensures Midway(desc, base, cells, i + 1, DecLoop(desc, st, EncField(desc.fields[i], At(cells, desc.fields[i].slot)).value).value)
    decreases desc, 2
  {
    var f := desc.fields[i];
    assert SlotOk(desc.fields, i) && CellOk(desc, f.slot, cells[f.slot]);
    if f.rule.Repeated? || f.rule.FixArray? {
      ArrayRoundTrip(desc, base, cells, i, st);
    } else if Omitted(f, cells[f.slot]) {
      OmittedRoundTrip(desc, base, cells, i, st);
    } else {
      SingleRoundTrip(desc, base, cells, i, st, cells[f.slot].v);
    }
  }

  lemma EncSplit(desc: Desc, cells: Cells, i: nat, next: nat) returns (a: Bytes, b: Bytes)
    requires i < |desc.fields| && EncFrom(desc, cells, i).Some? && next == i + 1
    ensures EncField(desc.fields[i], At(cells, desc.fields[i].slot)) == Some(a) && EncFrom(desc, cells, next) == Some(b)
    ensures EncFrom(desc, cells, i) == Some(a + b)
  {
    a, b := EncField(desc.fields[i], At(cells, desc.fields[i].slot)).value, EncFrom(desc, cells, next).value;
  }

  /** Field `i`, and what comes behind it. */
  lemma FieldThen(desc: Desc, base: Cells, cells: Cells, i: nat, next: nat, st: State, a: Bytes, b: Bytes) returns (st': State)
    requires Sound(desc, cells) && Ready(desc, base) && i < |desc.fields| && Midway(desc, base, cells, i, st) && next == i + 1
    requires EncField(desc.fields[i], At(cells, desc.fields[i].slot)) == Some(a) && |a| < TWO32
    ensures Midway(desc, base, cells, next, st') && DecLoop(desc, st, a + b) == DecLoop(desc, st', b)
    decreases desc, 3, 0, 0
  {
    FieldRoundTrip(desc, base, cells, i, st);
    st' := DecLoop(desc, st, a).value;
    LoopThen(desc, st, a, st', b);
  }

  lemma {:induction false} FieldsRoundTrip(desc: Desc, base: Cells, cells: Cells, i: nat, st: State, s: Bytes)
    requires Sound(desc, cells) && Ready(desc, base) && i <= |desc.fields| && Midway(desc, base, cells, i, st)
    requires EncFrom(desc, cells, i) == Some(s) && |s| < TWO32
    ensures DecLoop(desc, st, s).Some? && Midway(desc, base, cells, |desc.fields|, DecLoop(desc, st, s).value)
    decreases desc, 3, |desc.fields| - i, 1
  {
    if i < |desc.fields| {
      var next := i + 1;
      var a, b := EncSplit(desc, cells, i, next);
      var st' := FieldThen(desc, base, cells, i, next, st, a, b);
      FieldsRoundTrip(desc, base, cells, next, st', b);
    }
  }

  /** At the two ends. */
  lemma PartialEnds(desc: Desc, base: Cells, cells: Cells)
    requires Sound(desc, cells) && Ready(desc, base)
    ensures Partial(desc, base, cells, 0) == base && Partial(desc, base, cells, |desc.fields|) == Into(desc, base, cells)
  {
    forall k | 0 <= k < |cells|
      ensures Partial(desc, base, cells, 0)[k] == base[k]
      ensures Partial(desc, base, cells, |desc.fields|)[k] == Into(desc, base, cells)[k]
    {
      assert CellOk(desc, k, cells[k]) && CleanCell(desc, k, At(cells, k));
      ReadyCell(desc, base, k);
    }
  }

  /** Decoding what was encoded, into memory set to its defaults. */
  lemma {:induction false} CellsRoundTrip(desc: Desc, base: Cells, cells: Cells)
    requires Sound(desc, cells) && Ready(desc, base)
    requires EncCells(desc, cells).Some? && |EncCells(desc, cells).value| < TWO32
    ensures DecInner(desc, base, EncCells(desc, cells).value) == Some(Into(desc, base, cells))
    decreases desc, 4
  {
    PartialEnds(desc, base, cells);
    FieldsRoundTrip(desc, base, cells, 0, Start(base), EncCells(desc, cells).value);
  }
}
