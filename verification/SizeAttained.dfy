/** When encoded_size is the size of an encoding (nanopb_generator.py): for messages of scalars, strings and
    bytes, the exact condition on types, sizes, tags and counts under which some struct that the schema
    allows fills it. */
module SizeAttained {
  import opened Wire
  import opened Message
  import opened Encoding
  import opened Wrappers
  import opened SizeBound
  import opened SizeGaps
  import opened Omission
  import Validity

  predicate Simple(t: FieldType) { t.ScalarType? || t.StringType? || t.BytesType? }

  predicate SimpleMessage(m: ProtoMessage) {
    forall i | 0 <= i < |m.fields| :: Simple(m.fields[i].ftype)
  }

  // ---------- the condition ----------

  /** A string of `n` bytes is allowed for, and one of n - 1 can be stored: the prefix of the length must not
      get shorter by that. */
  predicate TypeAttains(t: FieldType) {
    t.StringType? ==> t.maxSize != 128 && t.maxSize != 16384
  }

  /** A singular field is sent only if it can hold something. */
  predicate CanHold(t: FieldType) {
    (t.StringType? ==> t.maxSize > 1) && (t.BytesType? ==> t.maxSize > 0)
  }

  predicate FieldAttains(p: ProtoField) {
    match p.rule
    case Singular => TypeAttains(p.ftype) && CanHold(p.ftype)
    case Repeated(max) => ArrayAttains(p, max)
    case FixArray(max) => ArrayAttains(p, max)
    case _ => TypeAttains(p.ftype)
  }

  /** Arrays of scalars are packed: a tag and a length instead of a tag for each.  Of strings and bytes there is
      a tag for each, but for a single one the byte of a length is allowed for as well. */
  predicate ArrayAttains(p: ProtoField, max: nat) {
    if p.ftype.ScalarType? then max <= 1 || (max == 2 && p.tag <= 15)
    else max == 0 || (max != 1 && TypeAttains(p.ftype))
  }

  /** Every field, and of every oneof one of the largest members. */
  predicate MessageAttains(m: ProtoMessage) {
    && (forall i | 0 <= i < |m.fields| && !m.fields[i].rule.Oneof? :: FieldAttains(m.fields[i]))
    && (forall l | 0 <= l < |m.fields| && Member(m, l, l) :: exists k: nat :: k < |m.fields| && Fills(m, l, k))
  }

  predicate Fills(m: ProtoMessage, l: nat, k: nat) {
    Member(m, l, k) && FieldSize(m.fields[k]) == Largest(m, l, 0) && TypeAttains(m.fields[k].ftype)
  }

  // ---------- values ----------

  /** The longest encoding of a value of this type. */
  function Longest(t: FieldType): nat {
    match t
    case ScalarType(s, size) => ScalarSize(s, size)
    case StringType(n) => if n == 0 then 0 else |VarintBytes(n - 1)| + n - 1
    case BytesType(n, _) => |VarintBytes(n)| + n
    case _ => 0
  }

  /** And a value that has it. */
  function Widest(ty: Ty, t: FieldType): Value {
    match t
    case StringType(n) => Data(seq(if n == 0 then 0 else n - 1, _ => 1))
    case BytesType(n, _) => Data(seq(n, _ => 1))
    case _ =>
      match ty
      case VarInt(_) => Num(-1)
      case UVarInt(w) => Num(Modulus(w) - 1)
      case SVarInt(w) => Num(Modulus(w) / 2 - 1)
      case _ => Num(1)
  }

  lemma ScalarWidest(ty: Ty, s: Scalar, size: IntSize)
    requires TypeMatches(ty, ScalarType(s, size))
    ensures
      var v := Widest(ty, ScalarType(s, size));
      ValueOk(ty, v) && EncValue(ty, v).Some? && |EncValue(ty, v).value| == ScalarSize(s, size) && AsNum(v) != 0
  {
    ScalarKind(ty, s, size);
    if ty.VarInt? {
      MinusOne(ty.width);
    } else if ty.UVarInt? {
      Top(ty.width);
    } else if ty.SVarInt? {
      HalfTop(ty.width);
    }
  }

  lemma ScalarKind(ty: Ty, s: Scalar, size: IntSize)
    requires TypeMatches(ty, ScalarType(s, size))
    ensures ty.VarInt? ==> IntWidth(ty.width) && ScalarSize(s, size) == 10
    ensures ty.UVarInt? || ty.SVarInt? ==> IntWidth(ty.width) && ScalarSize(s, size) == WidthLength(ty.width)
    ensures !ty.VarInt? && !ty.UVarInt? && !ty.SVarInt? ==>
              (ty == Bool && ScalarSize(s, size) == 1) || (ty == Fixed32 && ScalarSize(s, size) == 4) ||
              (ty == Fixed64 && ScalarSize(s, size) == 8)
  {
  }

  /** Bytes of the largest number of a width. */
  function WidthLength(w: nat): nat { if w == 1 then 2 else if w == 2 then 3 else if w == 4 then 5 else 10 }

  lemma TopLength(w: nat)
    requires IntWidth(w)
    ensures |VarintBytes(Modulus(w) - 1)| == |VarintBytes(Modulus(w) - 2)| == WidthLength(w)
  {
    VarintLengths();
    assert (Modulus(w) - 2) / 128 == (Modulus(w) - 1) / 128;
  }

  lemma MinusOneBits(w: nat)
    requires IntWidth(w)
    ensures ToSigned(-1, w) == -1 && ToUnsigned(-1, 8) == TWO64 - 1
  {
    Wraps(Modulus(w));
    Wraps(TWO64);
  }

  lemma Wraps(m: nat)
    requires m >= 2
    ensures (-1) % m == m - 1
  {
  }

  lemma TopStays(w: nat)
    requires IntWidth(w)
    ensures ToUnsigned(Modulus(w) - 1, w) == Modulus(w) - 1 && ToSigned(Modulus(w) / 2 - 1, w) == Modulus(w) / 2 - 1
  {
    Stays(Modulus(w) - 1, Modulus(w));
    Stays(Modulus(w) / 2 - 1, Modulus(w));
  }

  lemma Stays(n: nat, m: nat)
    requires n < m
    ensures n % m == n
  {
  }

  /** An integer whose payload is the varint `u`. */
  lemma PayloadIs(ty: Ty, n: int, u: nat, length: nat)
    requires (ty.VarInt? || ty.UVarInt? || ty.SVarInt?) && IntWidth(ty.width) && VarintOf(ty, n) == u && |VarintBytes(u)| == length
    ensures EncValue(ty, Num(n)).Some? && |EncValue(ty, Num(n)).value| == length
  {
  }

  lemma MinusOne(w: nat)
    requires IntWidth(w)
    ensures ValueOk(VarInt(w), Num(-1))
    ensures EncValue(VarInt(w), Num(-1)).Some? && |EncValue(VarInt(w), Num(-1)).value| == 10
  {
    TopLength(8);
    MinusOneBits(w);
    PayloadIs(VarInt(w), -1, TWO64 - 1, 10);
  }

  lemma Top(w: nat)
    requires IntWidth(w)
    ensures ValueOk(UVarInt(w), Num(Modulus(w) - 1))
    ensures
      var sent := EncValue(UVarInt(w), Num(Modulus(w) - 1));
      sent.Some? && |sent.value| == WidthLength(w)
  {
    TopLength(w);
    TopStays(w);
    PayloadIs(UVarInt(w), Modulus(w) - 1, Modulus(w) - 1, WidthLength(w));
  }

  lemma HalfTop(w: nat)
    requires IntWidth(w)
    ensures ValueOk(SVarInt(w), Num(Modulus(w) / 2 - 1))
    ensures
      var sent := EncValue(SVarInt(w), Num(Modulus(w) / 2 - 1));
      sent.Some? && |sent.value| == WidthLength(w)
  {
    TopLength(w);
    TopStays(w);
    PayloadIs(SVarInt(w), Modulus(w) / 2 - 1, Modulus(w) - 2, WidthLength(w));
  }

  lemma {:induction false} NoTerminator(b: Bytes)
    requires forall k | 0 <= k < |b| :: b[k] == 1
    ensures StrLen(b) == |b|
    decreases |b|
  {
    if b != [] {
      NoTerminator(b[1..]);
    }
  }

  lemma ValueWidest(ty: Ty, t: FieldType)
    requires Simple(t) && TyOk(ty) && TypeMatches(ty, t)
    ensures
      var v := Widest(ty, t);
      && ValueOk(ty, v) && Declared(ty, t, v) && EncValue(ty, v).Some? && |EncValue(ty, v).value| == Longest(t)
      && (Silent(ty, v) <==> !CanHold(t))
  {
    match t
    case ScalarType(s, size) => ScalarWidest(ty, s, size);
    case StringType(n) => NoTerminator(Widest(ty, t).bytes);
    case BytesType(n, _) =>
  }

  lemma ValueLongest(ty: Ty, t: FieldType, v: Value)
    requires Simple(t) && TyOk(ty) && TypeMatches(ty, t) && ValueOk(ty, v) && Declared(ty, t, v) && EncValue(ty, v).Some?
    ensures |EncValue(ty, v).value| <= Longest(t)
    ensures !CanHold(t) ==> Silent(ty, v)
  {
    match t
    case ScalarType(s, size) => ScalarBound(ty, s, size, v);
    case StringType(n) => VarintLengthGrows(StrLen(v.bytes), n - 1);
    case BytesType(n, fixedLength) => VarintLengthGrows(|v.bytes|, n);
  }

  /** The bound for the type is that length, except for two sizes of strings. */
  lemma LongestIsSize(ty: Ty, t: FieldType)
    requires Simple(t) && TyOk(ty) && TypeMatches(ty, t)
    ensures TypeSize(t).Some? && Longest(t) <= TypeSize(t).value && (Longest(t) == TypeSize(t).value <==> TypeAttains(t))
  {
    match t
    case ScalarType(s, size) =>
    case StringType(n) =>
      ShortVarint(n);
      PrefixLengths(n);
    case BytesType(n, _) => ShortVarint(n);
  }

  lemma PrefixLengths(n: nat)
    requires 1 <= n <= SIZE_MAX
    ensures |VarintBytes(n - 1)| <= |VarintBytes(n)|
    ensures |VarintBytes(n - 1)| == |VarintBytes(n)| <==> n != 128 && n != 16384
  {
    VarintDigits(n - 1);
    VarintDigits(n);
  }

  lemma VarintDigits(n: nat)
    requires n <= SIZE_MAX
    ensures |VarintBytes(n)| == if n < 128 then 1 else if n < 16384 then 2 else 3
  {
    if n >= 128 {
      assert n / 128 < 128 <==> n < 16384;
      assert n / 128 / 128 < 128;
    }
  }

  // ---------- fields ----------

  /** The longest that field can get. */
  function LongestField(p: ProtoField): nat {
    var t, e := |VarintBytes(8 * p.tag)|, Longest(p.ftype);
    match p.rule
    case Singular => if CanHold(p.ftype) then t + e else 0
    case Repeated(max) => LongestArray(p, max)
    case FixArray(max) => LongestArray(p, max)
    case _ => t + e
  }

  function LongestArray(p: ProtoField, max: nat): nat {
    var t, e := |VarintBytes(8 * p.tag)|, Longest(p.ftype);
    if max == 0 then 0
    else if p.ftype.ScalarType? then t + |VarintBytes(Times(e, max))| + Times(e, max)
    else Times(t + e, max)
  }

  /** A field of a descriptor, as the generator sees it. */
  predicate Paired(f: Field, p: ProtoField) {
    && Simple(p.ftype) && TyOk(f.ty) && f.tag == p.tag <= SIZE_MAX && f.rule == p.rule && TypeMatches(f.ty, p.ftype)
  }

  lemma BasicLength(f: Field, p: ProtoField, v: Value)
    requires Paired(f, p) && EncValue(f.ty, v).Some?
    ensures EncBasic(f, v).Some? && |EncBasic(f, v).value| == |VarintBytes(8 * p.tag)| + |EncValue(f.ty, v).value|
  {
    SameLengthTag(WireType(f.ty), f.tag);
  }

  /** An element of an array, with a tag of its own or without. */
  function LongestElement(p: ProtoField, tagged: bool): nat {
    Longest(p.ftype) + (if tagged then |VarintBytes(8 * p.tag)| else 0)
  }

  lemma {:induction false} ItemsLength(f: Field, p: ProtoField, items: seq<Value>, tagged: bool)
    requires Paired(f, p) && forall k | 0 <= k < |items| :: ValueOk(f.ty, items[k]) && Declared(f.ty, p.ftype, items[k])
    requires EncItems(f, items, tagged).Some?
    ensures |EncItems(f, items, tagged).value| <= Times(LongestElement(p, tagged), |items|)
    ensures AllWidest(f.ty, p.ftype, items) ==> |EncItems(f, items, tagged).value| == Times(LongestElement(p, tagged), |items|)
    decreases |items|
  {
    if items != [] {
      ItemsLength(f, p, items[1..], tagged);
      ElementLength(f, p, items[0], tagged);
      OneMoreElement(LongestElement(p, tagged), |items| - 1);
    }
  }

  predicate AllWidest(ty: Ty, t: FieldType, items: seq<Value>) {
    forall k | 0 <= k < |items| :: items[k] == Widest(ty, t)
  }

  lemma ElementLength(f: Field, p: ProtoField, v: Value, tagged: bool)
    requires Paired(f, p) && ValueOk(f.ty, v) && Declared(f.ty, p.ftype, v)
    requires (if tagged then EncBasic(f, v) else EncValue(f.ty, v)).Some?
    ensures
      var n := |(if tagged then EncBasic(f, v) else EncValue(f.ty, v)).value|;
      n <= LongestElement(p, tagged) && (v == Widest(f.ty, p.ftype) ==> n == LongestElement(p, tagged))
  {
    ValueWidest(f.ty, p.ftype);
    BasicLength(f, p, v);
    ValueLongest(f.ty, p.ftype, v);
  }

  lemma PackedIsScalar(f: Field, p: ProtoField)
    requires Paired(f, p)
    ensures Packable(f.ty) <==> p.ftype.ScalarType?
  {
  }

  lemma ArrayLongest(f: Field, p: ProtoField, items: seq<Value>, max: nat)
    requires Paired(f, p) && |items| <= max && forall k | 0 <= k < |items| :: ValueOk(f.ty, items[k]) && Declared(f.ty, p.ftype, items[k])
    requires EncArray(f, items, max).Some?
    ensures |EncArray(f, items, max).value| <= LongestArray(p, max)
    ensures |items| == max && AllWidest(f.ty, p.ftype, items) ==> |EncArray(f, items, max).value| == LongestArray(p, max)
  {
    if items != [] {
      PackedIsScalar(f, p);
      var e := LongestElement(p, !Packable(f.ty));
      ItemsLength(f, p, items, !Packable(f.ty));
      TimesGrows(e, e, |items|, max);
      if Packable(f.ty) {
        SameLengthTag(WT_STRING, f.tag);
        VarintLengthGrows(|EncItems(f, items, false).value|, Times(e, max));
      }
    }
  }

  /** No cell that the schema allows contributes more. */
  lemma FieldLongest(desc: Desc, m: ProtoMessage, cells: Cells, i: nat)
    requires Accountable(desc, m, cells) && SimpleMessage(m) && i < |m.fields|
    ensures Contribution(desc, cells, i) <= LongestField(m.fields[i])
  {
    var f, p := desc.fields[i], m.fields[i];
    var c := At(cells, f.slot);
    assert FieldMatches(desc, m, i) && DeclaredCell(desc, m, i, At(cells, p.slot));
    Placed(desc, cells, i);
    Validity.FieldEncodes(desc, cells, i);
    match f.rule
    case Repeated(max) => ArrayLongest(f, p, c.items, max);
    case FixArray(max) => ArrayLongest(f, p, c.items, max);
    case Oneof => MemberLongest(desc, m, cells, i);
    case _ =>
      FieldOmitted(desc, cells, i);
      if EncField(f, c) != Some([]) {
        BasicLength(f, p, c.v);
        ValueLongest(f.ty, p.ftype, c.v);
      }
  }

  lemma MemberLongest(desc: Desc, m: ProtoMessage, cells: Cells, i: nat)
    requires Accountable(desc, m, cells) && SimpleMessage(m) && i < |m.fields| && m.fields[i].rule.Oneof?
    ensures Contribution(desc, cells, i) <= LongestField(m.fields[i])
  {
    var f, p := desc.fields[i], m.fields[i];
    var c := At(cells, f.slot);
    assert FieldMatches(desc, m, i) && DeclaredCell(desc, m, i, At(cells, p.slot));
    Placed(desc, cells, i);
    LookupOwnTag(desc, i);
    if Which(c) == f.tag {
      BasicLength(f, p, c.v);
      ValueLongest(f.ty, p.ftype, c.v);
    }
  }

  /** What the bound for a field leaves over its longest form. */
  lemma FieldCondition(f: Field, p: ProtoField)
    requires Paired(f, p)
    ensures FieldSize(p).Some? && LongestField(p) <= FieldSize(p).value
    ensures LongestField(p) == FieldSize(p).value <==> FieldAttains(p)
  {
    LongestIsSize(f.ty, p.ftype);
    ShortVarint(p.tag * 8);
    match p.rule
    case Repeated(max) => ArrayCondition(f, p, max);
    case FixArray(max) => ArrayCondition(f, p, max);
    case _ =>
  }

  lemma ArrayCondition(f: Field, p: ProtoField, max: nat)
    requires Paired(f, p) && (p.rule == Repeated(max) || p.rule == FixArray(max))
    ensures FieldSize(p).Some? && LongestArray(p, max) <= FieldSize(p).value
    ensures LongestArray(p, max) == FieldSize(p).value <==> ArrayAttains(p, max)
  {
    ArraySizeIs(f, p, max);
    ArrayCompared(p, max, |VarintBytes(8 * p.tag)|, Longest(p.ftype), TypeSize(p.ftype).value);
  }

  lemma ArrayCompared(p: ProtoField, max: nat, t: nat, e: nat, a: nat)
    requires p.tag <= SIZE_MAX && t == |VarintBytes(8 * p.tag)| && e == Longest(p.ftype) && e <= a
    requires (p.ftype.ScalarType? ==> 1 <= e <= 10 && TypeAttains(p.ftype)) && (e == a <==> TypeAttains(p.ftype))
    ensures
      var bound := Times(a + t, max) + (if max == 1 then 1 else 0);
      LongestArray(p, max) <= bound && (LongestArray(p, max) == bound <==> ArrayAttains(p, max))
  {
    if max == 0 {
      assert Times(a + t, 0) == 0;
    } else if p.ftype.ScalarType? {
      PackedCondition(t, e, max, p.tag);
    } else {
      UnpackedCondition(t, e, a, max);
    }
  }

  lemma ArraySizeIs(f: Field, p: ProtoField, max: nat)
    requires Paired(f, p) && (p.rule == Repeated(max) || p.rule == FixArray(max))
    ensures TypeSize(p.ftype).Some? && Longest(p.ftype) <= TypeSize(p.ftype).value
    ensures Longest(p.ftype) == TypeSize(p.ftype).value <==> TypeAttains(p.ftype)
    ensures p.ftype.ScalarType? ==> 1 <= Longest(p.ftype) <= 10
    ensures FieldSize(p) == Some(Times(TypeSize(p.ftype).value + |VarintBytes(8 * p.tag)|, max) + (if max == 1 then 1 else 0))
  {
    LongestIsSize(f.ty, p.ftype);
    FieldSizeIs(p, TypeSize(p.ftype).value);
  }

  lemma FieldSizeIs(p: ProtoField, a: nat)
    requires TypeSize(p.ftype) == Some(a) && p.tag <= SIZE_MAX
    ensures FieldSize(p) == Some(ForRule(p.rule, a + |VarintBytes(8 * p.tag)|))
  {
    ShortVarint(p.tag * 8);
  }

  lemma UnpackedCondition(t: nat, e: nat, a: nat, max: nat)
    requires e <= a && max >= 1
    ensures Times(t + e, max) <= Times(a + t, max)
    ensures Times(t + e, max) == Times(a + t, max) + (if max == 1 then 1 else 0) <==> max != 1 && e == a
  {
    assert (a + t) * max - (t + e) * max == (a - e) * max;
  }

  lemma PackedCondition(t: nat, e: nat, max: nat, tag: nat)
    requires 1 <= e <= 10 && max >= 1 && tag <= SIZE_MAX && t == |VarintBytes(8 * tag)|
    ensures t + |VarintBytes(Times(e, max))| + Times(e, max) <= Times(e + t, max) + (if max == 1 then 1 else 0)
    ensures t + |VarintBytes(Times(e, max))| + Times(e, max) == Times(e + t, max) + (if max == 1 then 1 else 0) <==>
            max == 1 || (max == 2 && tag <= 15)
  {
    Distribute(e, t, max);
    TimesGrows(e, 10, max, max);
    LengthLinear(Times(e, max));
    ShortTag(tag);
    if max >= 3 {
      TagPerElement(t, max);
    }
  }

  lemma ShortTag(tag: nat)
    ensures |VarintBytes(8 * tag)| == 1 <==> tag <= 15
  {
  }

  // ---------- messages ----------

  lemma PairedFields(desc: Desc, m: ProtoMessage, i: nat)
    requires DescOk(desc) && Describes(desc, m) && SimpleMessage(m) && i < |m.fields|
    ensures Paired(desc.fields[i], m.fields[i])
  {
    assert FieldMatches(desc, m, i);
  }

  /** If some struct fills the bound, the condition holds. */
  lemma AttainedMeets(desc: Desc, m: ProtoMessage, cells: Cells)
    requires Accountable(desc, m, cells) && SimpleMessage(m) && GapFrom(desc, m, cells, 0) == 0
    ensures MessageAttains(m)
  {
    NothingOver(desc, m, cells, 0);
    forall i | 0 <= i < |m.fields| && !m.fields[i].rule.Oneof?
      ensures FieldAttains(m.fields[i])
    {
      PairedFields(desc, m, i);
      FieldCondition(desc.fields[i], m.fields[i]);
      FieldLongest(desc, m, cells, i);
      assert Gap(desc, m, cells, i) == 0;
    }
    forall l | 0 <= l < |m.fields| && Member(m, l, l)
      ensures exists k: nat :: k < |m.fields| && Fills(m, l, k)
    {
      var k := FilledOneof(desc, m, cells, l);
    }
  }

  lemma FilledOneof(desc: Desc, m: ProtoMessage, cells: Cells, l: nat) returns (k: nat)
    requires Accountable(desc, m, cells) && SimpleMessage(m) && Member(m, l, l)
    requires forall j | 0 <= j < |m.fields| :: Gap(desc, m, cells, j) == 0
    ensures Fills(m, l, k)
  {
    k := Selected(desc, cells, l);
    LargestIsPositive(desc, m, cells, l);
    assert Gap(desc, m, cells, l) == 0;
    SelectedMember(desc, m, cells, l);
    assert Gap(desc, m, cells, k) == 0;
    FilledMember(desc, m, cells, l, k);
  }

  lemma LargestIsPositive(desc: Desc, m: ProtoMessage, cells: Cells, l: nat)
    requires Accountable(desc, m, cells) && SimpleMessage(m) && Member(m, l, l)
    ensures Largest(m, l, 0).Some? && Largest(m, l, 0).value > 0
  {
    EntriesKnown(m, 0, l);
    LargestCovers(m, l, 0, l);
    PairedFields(desc, m, l);
    FieldCondition(desc.fields[l], m.fields[l]);
  }

  lemma FilledMember(desc: Desc, m: ProtoMessage, cells: Cells, l: nat, k: nat)
    requires Accountable(desc, m, cells) && SimpleMessage(m) && Member(m, l, k) && Largest(m, l, 0).Some?
    requires Contribution(desc, cells, k) == Largest(m, l, 0).value
    ensures Fills(m, l, k)
  {
    PairedFields(desc, m, k);
    FieldLongest(desc, m, cells, k);
    LargestCovers(m, l, 0, k);
    MemberFills(desc.fields[k], m.fields[k], Largest(m, l, 0).value);
  }

  lemma MemberFills(f: Field, p: ProtoField, largest: nat)
    requires Paired(f, p) && p.rule.Oneof? && FieldSize(p).Some? && FieldSize(p).value <= largest <= LongestField(p)
    ensures FieldSize(p) == Some(largest) && TypeAttains(p.ftype)
  {
    FieldCondition(f, p);
  }

  // ---------- a struct that fills the bound ----------

  /** The first member from `j` on that can fill the bound of the oneof at `l`, or |fields|. */
  function Chosen(m: ProtoMessage, l: nat, j: nat): (k: nat)
    requires j <= |m.fields|
    ensures j <= k <= |m.fields| && (k < |m.fields| ==> Fills(m, l, k)) && forall i | j <= i < k :: !Fills(m, l, i)
    decreases |m.fields| - j
  {
    if j == |m.fields| || Fills(m, l, j) then j else Chosen(m, l, j + 1)
  }

  function FullCell(desc: Desc, m: ProtoMessage, i: nat): Cell
    requires i < |m.fields| == |desc.fields|
  {
    var w := Widest(desc.fields[i].ty, m.fields[i].ftype);
    match m.fields[i].rule
    case Optional => Opt(true, w)
    case Repeated(max) => Arr(seq(max, _ => w))
    case FixArray(max) => Arr(seq(max, _ => w))
    case Oneof =>
      var k := Chosen(m, i, 0);
      if m.fields[i].slot == i && k < |m.fields| then Union(m.fields[k].tag, Widest(desc.fields[k].ty, m.fields[k].ftype))
      else Union(0, Num(0))
    case _ => Plain(w)
  }

  function FullCells(desc: Desc, m: ProtoMessage): (cells: Cells)
    requires |m.fields| == |desc.fields|
    ensures |cells| == |m.fields| && forall i | 0 <= i < |m.fields| :: cells[i] == FullCell(desc, m, i)
  {
    seq(|m.fields|, i requires 0 <= i < |m.fields| => FullCell(desc, m, i))
  }

  lemma FullCellOk(desc: Desc, m: ProtoMessage, i: nat)
    requires DescOk(desc) && Describes(desc, m) && SimpleMessage(m) && i < |m.fields|
    ensures CellOk(desc, i, FullCell(desc, m, i))
  {
    assert FieldMatches(desc, m, i) && SlotOk(desc.fields, i);
    ValueWidest(desc.fields[i].ty, m.fields[i].ftype);
    if m.fields[i].rule.Oneof? {
      var k := Chosen(m, i, 0);
      if k < |m.fields| {
        assert FieldMatches(desc, m, k);
        ValueWidest(desc.fields[k].ty, m.fields[k].ftype);
        LookupOwnTag(desc, k);
      }
    }
  }

  lemma FullCellDeclared(desc: Desc, m: ProtoMessage, i: nat)
    requires DescOk(desc) && Describes(desc, m) && SimpleMessage(m) && i < |m.fields|
    ensures DeclaredCell(desc, m, i, At(FullCells(desc, m), m.fields[i].slot))
  {
    var p := m.fields[i];
    assert FieldMatches(desc, m, i) && SlotOk(desc.fields, i);
    ValueWidest(desc.fields[i].ty, p.ftype);
    if p.rule.Oneof? {
      FullMemberDeclared(desc, m, i);
    }
  }

  lemma FullMemberDeclared(desc: Desc, m: ProtoMessage, i: nat)
    requires DescOk(desc) && Describes(desc, m) && SimpleMessage(m) && i < |m.fields| && m.fields[i].rule.Oneof?
    ensures DeclaredCell(desc, m, i, At(FullCells(desc, m), m.fields[i].slot))
  {
    var slot := m.fields[i].slot;
    assert FieldMatches(desc, m, i) && SlotOk(desc.fields, i);
    var c := FullCell(desc, m, slot);
    assert At(FullCells(desc, m), slot) == c;
    if Which(c) == desc.fields[i].tag {
      var k := Chosen(m, slot, 0);
      assert FieldMatches(desc, m, k) && FieldMatches(desc, m, slot);
      LookupOwnTag(desc, i);
      LookupOwnTag(desc, k);
      ValueWidest(desc.fields[i].ty, m.fields[i].ftype);
    }
  }

  lemma FullAccountable(desc: Desc, m: ProtoMessage)
    requires DescOk(desc) && Describes(desc, m) && SimpleMessage(m) && MessageSize(m).Some?
    ensures Accountable(desc, m, FullCells(desc, m))
  {
    forall i | 0 <= i < |m.fields|
      ensures CellOk(desc, i, FullCells(desc, m)[i]) && DeclaredCell(desc, m, i, At(FullCells(desc, m), m.fields[i].slot))
    {
      FullCellOk(desc, m, i);
      FullCellDeclared(desc, m, i);
    }
  }

  /** Its fields are the longest ones. */
  lemma FullField(desc: Desc, m: ProtoMessage, i: nat)
    requires DescOk(desc) && Describes(desc, m) && SimpleMessage(m) && MessageSize(m).Some? && i < |m.fields|
    requires !m.fields[i].rule.Oneof? && (m.fields[i].rule.Singular? ==> CanHold(m.fields[i].ftype))
    ensures Contribution(desc, FullCells(desc, m), i) == LongestField(m.fields[i])
  {
    var f, p, cells := desc.fields[i], m.fields[i], FullCells(desc, m);
    FullAccountable(desc, m);
    PairedFields(desc, m, i);
    Placed(desc, cells, i);
    Validity.FieldEncodes(desc, cells, i);
    ValueWidest(f.ty, p.ftype);
    var w := Widest(f.ty, p.ftype);
    match p.rule
    case Repeated(max) => ArrayLongest(f, p, seq(max, _ => w), max);
    case FixArray(max) => ArrayLongest(f, p, seq(max, _ => w), max);
    case _ =>
      BasicLength(f, p, w);
      FieldOmitted(desc, cells, i);
  }

  lemma FullMember(desc: Desc, m: ProtoMessage, i: nat)
    requires DescOk(desc) && Describes(desc, m) && SimpleMessage(m) && MessageSize(m).Some? && i < |m.fields|
    requires m.fields[i].rule.Oneof? && Selected(desc, FullCells(desc, m), m.fields[i].slot) == i
    ensures Contribution(desc, FullCells(desc, m), i) == LongestField(m.fields[i])
  {
    var f, p, cells := desc.fields[i], m.fields[i], FullCells(desc, m);
    PairedFields(desc, m, i);
    assert FieldMatches(desc, m, i) && SlotOk(desc.fields, i);
    assert At(cells, p.slot) == FullCell(desc, m, p.slot);
    var k := Chosen(m, p.slot, 0);
    LookupOwnTag(desc, i);
    assert FieldMatches(desc, m, k);
    LookupOwnTag(desc, k);
    ValueWidest(f.ty, p.ftype);
    BasicLength(f, p, Widest(f.ty, p.ftype));
  }

  /** Under the condition, nothing is left over. */
  lemma FullGap(desc: Desc, m: ProtoMessage, i: nat)
    requires DescOk(desc) && Describes(desc, m) && SimpleMessage(m) && MessageSize(m).Some? && MessageAttains(m) && i < |m.fields|
    ensures Gap(desc, m, FullCells(desc, m), i) == 0
  {
    var p, cells := m.fields[i], FullCells(desc, m);
    PairedFields(desc, m, i);
    FieldCondition(desc.fields[i], p);
    if !p.rule.Oneof? {
      FullField(desc, m, i);
    } else {
      FullOneof(desc, m, i);
    }
  }

  lemma FullOneof(desc: Desc, m: ProtoMessage, i: nat)
    requires DescOk(desc) && Describes(desc, m) && SimpleMessage(m) && MessageSize(m).Some? && MessageAttains(m) && i < |m.fields|
    requires m.fields[i].rule.Oneof? && FieldSize(m.fields[i]).Some? 
    requires LongestField(m.fields[i]) == FieldSize(m.fields[i]).value <==> TypeAttains(m.fields[i].ftype)
    ensures Gap(desc, m, FullCells(desc, m), i) == 0
  {
    var slot, cells := m.fields[i].slot, FullCells(desc, m);
    FullAccountable(desc, m);
    OneofAccount(desc, m, cells, i);
    assert At(cells, slot) == FullCell(desc, m, slot);
    var k := Chosen(m, slot, 0);
    assert k < |m.fields| && FieldMatches(desc, m, k);
    LookupOwnTag(desc, k);
    if k == i {
      FullMember(desc, m, i);
    }
  }

  // ---------- the main result ----------

  lemma {:induction false} SizesKnown(desc: Desc, m: ProtoMessage, i: nat)
    requires DescOk(desc) && Describes(desc, m) && SimpleMessage(m) && i <= |m.fields|
    ensures SizeFrom(m, i).Some?
    decreases |m.fields| - i
  {
    if i < |m.fields| {
      PairedFields(desc, m, i);
      FieldCondition(desc.fields[i], m.fields[i]);
      LargestKnown(desc, m, i, 0);
      SizesKnown(desc, m, i + 1);
    }
  }

  lemma {:induction false} LargestKnown(desc: Desc, m: ProtoMessage, slot: nat, i: nat)
    requires DescOk(desc) && Describes(desc, m) && SimpleMessage(m)
    ensures Largest(m, slot, i).Some?
    decreases |m.fields| - i
  {
    if i < |m.fields| {
      PairedFields(desc, m, i);
      FieldCondition(desc.fields[i], m.fields[i]);
      LargestKnown(desc, m, slot, i + 1);
    }
  }

  /** What the schema allows: well-formed structs with byte strings of at most max_size bytes. */
  ghost predicate Allowed(desc: Desc, m: ProtoMessage, cells: Cells)
    requires Describes(desc, m)
  {
    CellsOk(desc, cells) && DeclaredCells(desc, m, cells)
  }

  /** For every message of scalars, strings and bytes: encoded_size is a number, no struct that the schema
      allows encodes to more, and one of them encodes to exactly that if and only if the condition holds. */
  lemma SizeIsAttained(desc: Desc, m: ProtoMessage)
    requires DescOk(desc) && Describes(desc, m) && SimpleMessage(m)
    ensures MessageSize(m).Some?
    ensures forall cells | Allowed(desc, m, cells) :: EncCells(desc, cells).Some? && |EncCells(desc, cells).value| <= MessageSize(m).value
    ensures (exists cells :: Allowed(desc, m, cells) && |EncCells(desc, cells).value| == MessageSize(m).value) <==> MessageAttains(m)
  {
    SizesKnown(desc, m, 0);
    forall cells | Allowed(desc, m, cells)
      ensures EncCells(desc, cells).Some? && |EncCells(desc, cells).value| <= MessageSize(m).value
      ensures |EncCells(desc, cells).value| == MessageSize(m).value ==> MessageAttains(m)
    {
      SizeIsAccounted(desc, m, cells);
      NothingOver(desc, m, cells, 0);
      if GapFrom(desc, m, cells, 0) == 0 {
        AttainedMeets(desc, m, cells);
      }
    }
    if MessageAttains(m) {
      var cells := FullCells(desc, m);
      Filled(desc, m);
      assert Allowed(desc, m, cells);
    }
  }

  lemma Filled(desc: Desc, m: ProtoMessage)
    requires DescOk(desc) && Describes(desc, m) && SimpleMessage(m) && MessageSize(m).Some? && MessageAttains(m)
    ensures
      var cells := FullCells(desc, m);
      Allowed(desc, m, cells) && EncCells(desc, cells).Some? && |EncCells(desc, cells).value| == MessageSize(m).value
  {
    var cells := FullCells(desc, m);
    FullAccountable(desc, m);
    forall i | 0 <= i < |m.fields|
      ensures Gap(desc, m, cells, i) == 0
    {
      FullGap(desc, m, i);
    }
    NothingOver(desc, m, cells, 0);
    SizeIsAccounted(desc, m, cells);
  }
}
