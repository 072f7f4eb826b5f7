/** The generator's bound on encoded sizes (encoded_size of nanopb_generator.py) covers what
    pb_encode writes.

    A ProtoMessage lists its fields in descriptor order; the members of a oneof name the
    first of them in `slot`, as the fields of a descriptor do. */
module SizeBound {
  import opened Wire
  import opened Message
  import opened Encoding
  import opened Wrappers
  import opened Streams
  import Encoder
  import FieldIter

  // ---------- what the generator knows ----------

  datatype Scalar =
    | TBool | TDouble | TFixed32 | TFixed64 | TFloat | TInt32 | TInt64 | TSFixed32 | TSFixed64
    | TSInt32 | TSInt64 | TUInt32 | TUInt64

  datatype IntSize = Default | Is8 | Is16 | Is32 | Is64

  datatype FieldType =
    | ScalarType(scalar: Scalar, size: IntSize)
    | EnumType(values: seq<int>, known: bool)   // known: found among the dependencies
    | StringType(maxSize: nat)
    | BytesType(maxSize: nat, fixedLength: bool)
    | MessageType(msg: ProtoMessage)

  datatype ProtoField = ProtoField(tag: nat, rule: Rule, ftype: FieldType, slot: nat)

  datatype ProtoMessage = ProtoMessage(fields: seq<ProtoField>)

  // ---------- encoded_size ----------

  /** `v >> (k * 7)`. */
  function ShiftedRight(v: nat, k: nat): nat {
    if k == 0 then v else ShiftedRight(v, k - 1) / 128
  }

  /** The loop of varint_max_size from `i` on; `None` is its ValueError. */
  function FirstFit(v: nat, i: nat): Option<nat>
    decreases 11 - i
  {
    if i >= 11 then None else if ShiftedRight(v, i) == 0 then Some(i) else FirstFit(v, i + 1)
  }

  function VarintMaxSize(maxValue: int): Option<nat> {
    FirstFit(if maxValue < 0 then TWO64 - maxValue else maxValue, 1)
  }

  /** varint_max_size as it runs. */
  method ComputeVarintMaxSize(maxValue: int) returns (r: Option<nat>)
    ensures r == VarintMaxSize(maxValue)
  {
    var v := maxValue;
    if v < 0 {
      v := TWO64 - v;
    }
    var rest := v;
    for i := 1 to 11
      invariant rest == ShiftedRight(v, i - 1) && FirstFit(v, 1) == FirstFit(v, i)
    {
      rest := rest / 128;
      if rest == 0 {
        return Some(i);
      }
    }
    r := None;
  }

  /** Encoded size and data size of the `datatypes` table. */
  function SignedWidth(size: IntSize, natural: nat): nat {
    match size case Default => natural case Is8 => 1 case Is16 => 2 case Is32 => 4 case Is64 => 8
  }

  function ScalarSize(t: Scalar, size: IntSize): nat {
    match t
    case TBool => 1
    case TDouble => 8
    case TFixed32 => 4
    case TFixed64 => 8
    case TFloat => 4
    case TSFixed32 => 4
    case TSFixed64 => 8
    case TInt32 => 10
    case TInt64 => 10
    case TSInt32 => (match size case Default => 5 case Is8 => 2 case Is16 => 3 case Is32 => 5 case Is64 => 10)
    case TSInt64 => (match size case Default => 10 case Is8 => 2 case Is16 => 3 case Is32 => 5 case Is64 => 10)
    case TUInt32 => (match size case Default => 5 case Is8 => 2 case Is16 => 3 case Is32 => 5 case Is64 => 10)
    case TUInt64 => (match size case Default => 10 case Is8 => 2 case Is16 => 3 case Is32 => 5 case Is64 => 10)
  }

  function MaxOf(a: nat, b: nat): nat { if a > b then a else b }

  /** Enum.encoded_size: over an empty enum, max raises. */
  function EnumSize(values: seq<int>): Option<nat> {
    if values == [] then None
    else
      match VarintMaxSize(values[0])
      case None => None
      case Some(a) =>
        if |values| == 1 then Some(a)
        else match EnumSize(values[1..]) case None => None case Some(b) => Some(MaxOf(a, b))
  }

  /** encsize before the tag is added. */
  function TypeSize(t: FieldType): Option<nat>
    decreases t, 0
  {
    match t
    case ScalarType(s, size) => Some(ScalarSize(s, size))
    case EnumType(values, known) => if known then EnumSize(values) else Some(10)
    case StringType(n) => (match VarintMaxSize(n) case None => None case Some(k) => Some(k + n - 1))
    case BytesType(n, _) => (match VarintMaxSize(n) case None => None case Some(k) => Some(k + n))
    case MessageType(m) =>
      match MessageSize(m)
      case None => None
      case Some(n) => match VarintMaxSize(n) case None => None case Some(k) => Some(n + k)
  }

  /** Field.encoded_size. */
  function FieldSize(f: ProtoField): Option<nat>
    decreases f, 1
  {
    match TypeSize(f.ftype)
    case None => None
    case Some(a) =>
      match VarintMaxSize(f.tag * 8)
      case None => None
      case Some(t) => Some(ForRule(f.rule, a + t))
  }

  /** Arrays: room for max_count unpacked elements, and for the length prefix of a packed array
      when there is only one. */
  function ForRule(rule: Rule, e: nat): nat {
    if rule.Repeated? || rule.FixArray? then Times(e, rule.max) + (if rule.max == 1 then 1 else 0) else e
  }

  function Times(a: nat, b: nat): nat { a * b }

  /** OneOf.encoded_size over the members from index `i` on. */
  function Largest(m: ProtoMessage, slot: nat, i: nat): Option<nat>
    decreases m, 0, |m.fields| - i
  {
    if i >= |m.fields| then Some(0)
    else
      match Largest(m, slot, i + 1)
      case None => None
      case Some(b) =>
        if m.fields[i].rule.Oneof? && m.fields[i].slot == slot then
          match FieldSize(m.fields[i]) case None => None case Some(a) => Some(MaxOf(a, b))
        else
          Some(b)
  }

  /** What entry `i` adds to Message.encoded_size: a oneof counts at its first member. */
  function EntrySize(m: ProtoMessage, i: nat): Option<nat>
    requires i < |m.fields|
    decreases m, 1
  {
    if !m.fields[i].rule.Oneof? then FieldSize(m.fields[i])
    else if m.fields[i].slot == i then Largest(m, i, 0)
    else Some(0)
  }

  function SizeFrom(m: ProtoMessage, i: nat): Option<nat>
    decreases m, 2, |m.fields| - i
  {
    if i >= |m.fields| then Some(0)
    else
      match EntrySize(m, i)
      case None => None
      case Some(a) => match SizeFrom(m, i + 1) case None => None case Some(b) => Some(a + b)
  }

  /** Message.encoded_size. */
  function MessageSize(m: ProtoMessage): Option<nat>
    decreases m, 3
  {
    SizeFrom(m, 0)
  }

  // ---------- descriptors of generated messages ----------

  predicate HasNegative(values: seq<int>) {
    exists k :: 0 <= k < |values| && values[k] < 0
  }

  /** The in-memory type the generated code gives a field. */
  predicate TypeMatches(ty: Ty, t: FieldType)
    decreases t, 0
  {
    match t
    case ScalarType(s, size) =>
      (match s
       case TBool => ty == Bool
       case TDouble => ty == Fixed64
       case TFixed64 => ty == Fixed64
       case TSFixed64 => ty == Fixed64
       case TFloat => ty == Fixed32
       case TFixed32 => ty == Fixed32
       case TSFixed32 => ty == Fixed32
       case TInt32 => ty == VarInt(SignedWidth(size, 4))
       case TInt64 => ty == VarInt(SignedWidth(size, 8))
       case TSInt32 => ty == SVarInt(SignedWidth(size, 4))
       case TSInt64 => ty == SVarInt(SignedWidth(size, 8))
       case TUInt32 => ty == UVarInt(SignedWidth(size, 4))
       case TUInt64 => ty == UVarInt(SignedWidth(size, 8)))
    case EnumType(values, known) => if known && !HasNegative(values) then ty.UVarInt? else ty.VarInt?
    case StringType(n) => ty == Str(n)
    case BytesType(n, fixedLength) => if fixedLength then ty == FixedBlob(n) else ty == Blob(ArraySize(n))
    case MessageType(m) => ty.Sub? && Describes(ty.desc, m)
  }

  /** sizeof(PB_BYTES_ARRAY_T(n)): its 16-bit size member makes the size even. */
  function ArraySize(n: nat): nat { BYTES_OFFSET + n + n % 2 }

  predicate Describes(desc: Desc, m: ProtoMessage)
    decreases m, 1
  {
    |desc.fields| == |m.fields| && forall i | 0 <= i < |m.fields| :: FieldMatches(desc, m, i)
  }

  predicate FieldMatches(desc: Desc, m: ProtoMessage, i: nat)
    requires i < |m.fields| == |desc.fields|
    decreases m, 0
  {
    var f, p := desc.fields[i], m.fields[i];
    f.tag == p.tag && f.rule == p.rule && f.slot == p.slot && TypeMatches(f.ty, p.ftype)
  }

  /** The values the schema allows: enum fields hold declared values, byte strings have at most
      max_size bytes.  Everything else the encoder checks itself. */
  predicate Declared(ty: Ty, t: FieldType, v: Value)
    requires TypeMatches(ty, t)
    decreases t, 0
  {
    match t
    case EnumType(values, known) => known ==> AsNum(v) in values && ValueOk(ty, v)
    case BytesType(n, fixedLength) => !fixedLength ==> |AsBytes(v)| <= n
    case MessageType(m) => DeclaredCells(ty.desc, m, AsCells(v))
    case _ => true
  }

  predicate DeclaredCells(desc: Desc, m: ProtoMessage, cells: Cells)
    requires Describes(desc, m)
    decreases m, 1
  {
    forall i | 0 <= i < |m.fields| :: DeclaredCell(desc, m, i, At(cells, m.fields[i].slot))
  }

  predicate DeclaredCell(desc: Desc, m: ProtoMessage, i: nat, c: Cell)
    requires i < |m.fields| && Describes(desc, m)
    decreases m, 0
  {
    var f, p := desc.fields[i], m.fields[i];
    assert FieldMatches(desc, m, i);
    match p.rule
    case Repeated(_) => forall k | 0 <= k < |Items(c)| :: Declared(f.ty, p.ftype, Items(c)[k])
    case FixArray(_) => forall k | 0 <= k < |Items(c)| :: Declared(f.ty, p.ftype, Items(c)[k])
    case Oneof => Which(c) == f.tag ==> Declared(f.ty, p.ftype, Val(c))
    case _ => Declared(f.ty, p.ftype, Val(c))
  }

  // ---------- varint_max_size is exact ----------

  lemma {:induction false} FirstFitIs(v: nat, i: nat)
    requires 1 <= i <= 11 && (i == 1 || ShiftedRight(v, i - 1) > 0)
    ensures
      var n := i - 1 + |VarintBytes(ShiftedRight(v, i - 1))|;
      FirstFit(v, i) == if n <= 10 then Some(n) else None
    decreases 11 - i
  {
    if i <= 10 {
      var w := ShiftedRight(v, i - 1);
      assert ShiftedRight(v, i) == w / 128;
      if w >= 128 {
        FirstFitIs(v, i + 1);
      }
    }
  }

  /** It is the exact length of the longest varint up to `n`, and 10 for a negative value,
      which is encoded as 64 bits. */
  lemma VarintMaxSizeExact(n: int)
    ensures 0 <= n ==>
              VarintMaxSize(n) == if |VarintBytes(n)| <= 10 then Some(|VarintBytes(n)|) else None
    ensures 0 <= n && VarintMaxSize(n).Some? ==> forall m | 0 <= m <= n :: |VarintBytes(m)| <= VarintMaxSize(n).value
    ensures n < 0 && VarintMaxSize(n).Some? ==> VarintMaxSize(n) == Some(10)
  {
    if 0 <= n {
      FirstFitIs(n, 1);
      forall m | 0 <= m <= n
        ensures |VarintBytes(m)| <= |VarintBytes(n)|
      {
        VarintLengthGrows(m, n);
      }
    } else {
      FirstFitIs(TWO64 - n, 1);
      TenDigits();
      VarintLengthGrows(TWO64 - 1, TWO64 - n);
    }
  }

  lemma TenDigits()
    ensures |VarintBytes(TWO64 - 1)| == 10
  {
    VarintLengths();
  }

  // ---------- single values ----------

  lemma WordLength(x: nat, w: nat)
    requires IntWidth(w) && x < Modulus(w)
    ensures |VarintBytes(x)| <= if w == 1 then 2 else if w == 2 then 3 else if w == 4 then 5 else 10
  {
    VarintLengths();
    VarintLengthGrows(x, Modulus(w) - 1);
  }

  lemma ScalarBound(ty: Ty, s: Scalar, size: IntSize, v: Value)
    requires TypeMatches(ty, ScalarType(s, size))
    ensures EncValue(ty, v).Some? && |EncValue(ty, v).value| <= ScalarSize(s, size)
  {
    match ty
    case UVarInt(w) => WordLength(ToUnsigned(AsNum(v), w), w);
    case SVarInt(w) => WordLength(ZigZag(ToSigned(AsNum(v), w)), w);
    case VarInt(w) => WordLength(ToUnsigned(ToSigned(AsNum(v), w), 8), 8);
    case _ =>
  }

  /** An enum field holding a declared value. */
  lemma EnumBound(ty: Ty, values: seq<int>, known: bool, v: Value)
    requires TypeMatches(ty, EnumType(values, known)) && Declared(ty, EnumType(values, known), v)
    requires EncValue(ty, v).Some? && TypeSize(EnumType(values, known)).Some?
    ensures |EncValue(ty, v).value| <= TypeSize(EnumType(values, known)).value
  {
    var n := AsNum(v);
    if known {
      EnumSizeCovers(values, n);
      VarintMaxSizeExact(n);
      EnumVarint(ty, n);
    }
    WordLength(VarintOf(ty, n), 8);
  }

  /** Non-negative enum values are encoded as they are. */
  lemma EnumVarint(ty: Ty, n: int)
    requires (ty.VarInt? || ty.UVarInt?) && ValueOk(ty, Num(n))
    ensures n >= 0 ==> VarintOf(ty, n) == n
    ensures ty.UVarInt? ==> n >= 0
  {
  }

  lemma {:induction false} EnumSizeCovers(values: seq<int>, n: int)
    requires n in values && EnumSize(values).Some?
    ensures VarintMaxSize(n).Some? && VarintMaxSize(n).value <= EnumSize(values).value
  {
    if values[0] != n {
      EnumSizeCovers(values[1..], n);
    }
  }

  lemma PrefixBound(n: nat, max: nat)
    requires n <= max && VarintMaxSize(max).Some?
    ensures |VarintBytes(n)| <= VarintMaxSize(max).value
  {
    VarintMaxSizeExact(max);
  }

  lemma TagBound(wt: nat, tag: nat)
    requires wt < 8 && VarintMaxSize(tag * 8).Some?
    ensures 1 <= |TagBytes(wt, tag)| <= VarintMaxSize(tag * 8).value
  {
    VarintMaxSizeExact(tag * 8);
    WireTypeBits(tag, wt);
    var a, b := tag * 8, tag * 8 + wt;
    assert |VarintBytes(a)| == |VarintBytes(b)|;
  }

  lemma WireTypeBits(tag: nat, wt: nat)
    requires wt < 8
    ensures (tag * 8 + wt) / 128 == (tag * 8) / 128
    ensures tag * 8 < 128 <==> tag * 8 + wt < 128
  {
    var q, r := tag / 16, tag % 16;
    DivideBy128(q, 8 * r);
    DivideBy128(q, 8 * r + wt);
  }

  lemma DivideBy128(q: nat, r: nat)
    requires r < 128
    ensures (128 * q + r) / 128 == q
  {
  }

  // ---------- arrays ----------

  lemma {:induction false} LengthLinear(x: nat)
    ensures |VarintBytes(x)| <= 1 + x / 128
  {
    if x >= 128 {
      LengthLinear(x / 128);
    }
  }

  lemma Distribute(e: nat, t: nat, n: nat)
    ensures Times(e + t, n) == Times(e, n) + Times(t, n)
  {
  }

  lemma TimesGrows(a: nat, b: nat, m: nat, n: nat)
    requires a <= b && m <= n
    ensures Times(a, m) <= Times(b, n)
  {
    assert a * m <= b * m <= b * n;
  }

  /** `t * n >= t + n - 1`. */
  lemma TagPerElement(t: nat, n: nat)
    requires t >= 1 && n >= 1
    ensures Times(t, n) >= t + n - 1
  {
    assert t * n - t - n + 1 == (t - 1) * (n - 1);
  }

  /** A packed array never exceeds the bound made for an unpacked one, given the extra byte at
      max_count == 1: `count` elements of at most `e` bytes, tags of at most `t`. */
  lemma PackedWithinUnpacked(count: nat, e: nat, t: nat, sum: nat, tagLength: nat, max: nat)
    requires 1 <= count <= max && e <= 10 && sum <= Times(e, count) && 1 <= tagLength <= t
    ensures tagLength + |VarintBytes(sum)| + sum <= Times(e + t, max) + (if max == 1 then 1 else 0)
  {
    Distribute(e, t, max);
    TimesGrows(e, e, count, max);
    TimesGrows(t, t, count, max);
    TimesGrows(e, 10, count, count);
    LengthLinear(sum);
    if count == 1 {
      TagPerElement(t, max);
    } else {
      assert |VarintBytes(sum)| <= count - 1;
      TagPerElement(t, count);
    }
  }

  // ---------- fields and messages ----------

  lemma {:induction false} ValueBound(ty: Ty, t: FieldType, v: Value)
    requires TyOk(ty) && TypeMatches(ty, t) && Declared(ty, t, v) && EncValue(ty, v).Some? && TypeSize(t).Some?
    ensures |EncValue(ty, v).value| <= TypeSize(t).value
    decreases t, 0
  {
    match t
    case ScalarType(s, size) => ScalarBound(ty, s, size, v);
    case EnumType(values, known) => EnumBound(ty, values, known, v);
    case StringType(n) => PrefixBound(StrLen(AsBytes(v)), n);
    case BytesType(n, fixedLength) => PrefixBound(if fixedLength then n else |AsBytes(v)|, n);
    case MessageType(m) =>
      EncodedSizeBound(ty.desc, m, AsCells(v));
      PrefixBound(|EncCells(ty.desc, AsCells(v)).value|, MessageSize(m).value);
  }

  lemma {:induction false} BasicBound(f: Field, p: ProtoField, v: Value)
    requires TyOk(f.ty) && f.tag == p.tag && TypeMatches(f.ty, p.ftype) && Declared(f.ty, p.ftype, v)
    requires EncBasic(f, v).Some? && TypeSize(p.ftype).Some? && VarintMaxSize(p.tag * 8).Some?
    ensures |EncBasic(f, v).value| <= TypeSize(p.ftype).value + VarintMaxSize(p.tag * 8).value
    decreases p.ftype, 1
  {
    ValueBound(f.ty, p.ftype, v);
    TagBound(WireType(f.ty), p.tag);
  }

  /** The bound for one element of an array, with a tag of its own or without. */
  function ElementSize(p: ProtoField, tagged: bool): nat
    requires TypeSize(p.ftype).Some? && VarintMaxSize(p.tag * 8).Some?
  {
    TypeSize(p.ftype).value + (if tagged then VarintMaxSize(p.tag * 8).value else 0)
  }

  lemma ElementBound(f: Field, p: ProtoField, v: Value, tagged: bool)
    requires TyOk(f.ty) && f.tag == p.tag && TypeMatches(f.ty, p.ftype) && Declared(f.ty, p.ftype, v)
    requires TypeSize(p.ftype).Some? && VarintMaxSize(p.tag * 8).Some?
    ensures
      var r := if tagged then EncBasic(f, v) else EncValue(f.ty, v);
      r.Some? ==> |r.value| <= ElementSize(p, tagged)
    decreases p.ftype, 2, 0
  {
    if (if tagged then EncBasic(f, v) else EncValue(f.ty, v)).Some? {
      if tagged {
        BasicBound(f, p, v);
      } else {
        ValueBound(f.ty, p.ftype, v);
      }
    }
  }

  lemma {:induction false} ItemsBound(f: Field, p: ProtoField, items: seq<Value>, tagged: bool)
    requires TyOk(f.ty) && f.tag == p.tag && TypeMatches(f.ty, p.ftype)
    requires forall k | 0 <= k < |items| :: Declared(f.ty, p.ftype, items[k])
    requires EncItems(f, items, tagged).Some? && TypeSize(p.ftype).Some? && VarintMaxSize(p.tag * 8).Some?
    ensures |EncItems(f, items, tagged).value| <= Times(ElementSize(p, tagged), |items|)
    decreases p.ftype, 2, 1, |items|
  {
    if items != [] {
      ElementBound(f, p, items[0], tagged);
      ItemsBound(f, p, items[1..], tagged);
      OneMoreElement(ElementSize(p, tagged), |items| - 1);
    }
  }

  lemma OneMoreElement(e: nat, n: nat)
    ensures Times(e, n + 1) == e + Times(e, n)
  {
  }

  /** Elements that can be packed take at most ten bytes each. */
  lemma PackableIsShort(ty: Ty, t: FieldType)
    requires TypeMatches(ty, t) && Packable(ty) && TypeSize(t).Some?
    ensures TypeSize(t).value <= 10
  {
    match t
    case EnumType(values, known) =>
      if known {
        EnumIsShort(values);
      }
    case _ =>
  }

  lemma {:induction false} EnumIsShort(values: seq<int>)
    requires EnumSize(values).Some?
    ensures EnumSize(values).value <= 10
  {
    VarintMaxSizeExact(values[0]);
    if |values| > 1 {
      EnumIsShort(values[1..]);
    }
  }

  lemma PackedBlockBound(f: Field, p: ProtoField, items: seq<Value>, body: Bytes)
    requires f.tag == p.tag && TypeMatches(f.ty, p.ftype) && Packable(f.ty) && FieldSize(p).Some?
    requires p.rule.Repeated? || p.rule.FixArray?
    requires 1 <= |items| <= p.rule.max && |body| <= Times(ElementSize(p, false), |items|)
    ensures |TagBytes(WT_STRING, f.tag) + Delimited(body)| <= FieldSize(p).value
  {
    PackableIsShort(f.ty, p.ftype);
    TagBound(WT_STRING, p.tag);
    PackedWithinUnpacked(|items|, TypeSize(p.ftype).value, VarintMaxSize(p.tag * 8).value,
                         |body|, |TagBytes(WT_STRING, f.tag)|, p.rule.max);
  }

  lemma ArrayBound(f: Field, p: ProtoField, items: seq<Value>)
    requires TyOk(f.ty) && f.tag == p.tag && f.rule == p.rule && TypeMatches(f.ty, p.ftype) && (p.rule.Repeated? || p.rule.FixArray?)
    requires forall k | 0 <= k < |items| :: Declared(f.ty, p.ftype, items[k])
    requires EncArray(f, items, p.rule.max).Some? && FieldSize(p).Some?
    ensures |EncArray(f, items, p.rule.max).value| <= FieldSize(p).value
    decreases p.ftype, 3
  {
    if items != [] {
      ItemsBound(f, p, items, !Packable(f.ty));
      if Packable(f.ty) {
        PackedBlockBound(f, p, items, EncItems(f, items, false).value);
      } else {
        TimesGrows(ElementSize(p, true), ElementSize(p, true), |items|, p.rule.max);
      }
    }
  }

  /** A field stays within its own bound, and an unselected oneof member writes nothing. */
  lemma FieldBound(desc: Desc, m: ProtoMessage, i: nat, c: Cell)
    requires DescOk(desc) && Describes(desc, m) && i < |m.fields| && DeclaredCell(desc, m, i, c)
    requires EncField(desc.fields[i], c).Some? && FieldSize(m.fields[i]).Some?
    ensures |EncField(desc.fields[i], c).value| <= FieldSize(m.fields[i]).value
    ensures desc.fields[i].rule.Oneof? && Which(c) != desc.fields[i].tag ==> EncField(desc.fields[i], c).value == []
    decreases m, 1
  {
    var f, p := desc.fields[i], m.fields[i];
    assert FieldMatches(desc, m, i);
    if f.rule.Repeated? || f.rule.FixArray? {
      ArrayBound(f, p, Items(c));
    } else if EncField(f, c).value != [] {
      BasicBound(f, p, Val(c));
    }
  }

  // Oneof accounting: Message.encoded_size counts a oneof at its first member, pb_encode
  // writes it at the selected one.  `Owed` is what has been counted before entry `i` for
  // oneofs whose selected member is still to come.

  /** The member of the oneof at `slot` that is set, or |fields|. */
  function Selected(desc: Desc, cells: Cells, slot: nat): nat {
    Lookup(desc, Which(At(cells, slot)))
  }

  function OwedBy(desc: Desc, m: ProtoMessage, cells: Cells, i: nat, l: nat): nat {
    if l < |m.fields| && m.fields[l].rule.Oneof? && m.fields[l].slot == l && i <= Selected(desc, cells, l) && Largest(m, l, 0).Some?
    then Largest(m, l, 0).value else 0
  }

  function Owed(desc: Desc, m: ProtoMessage, cells: Cells, i: nat, n: nat): nat {
    if n == 0 then 0 else Owed(desc, m, cells, i, n - 1) + OwedBy(desc, m, cells, i, n - 1)
  }

  lemma {:induction false} OwedSettled(desc: Desc, m: ProtoMessage, cells: Cells, i: nat, n: nat, slot: nat)
    ensures Owed(desc, m, cells, i + 1, n) + (if slot < n then OwedBy(desc, m, cells, i, slot) - OwedBy(desc, m, cells, i + 1, slot) else 0)
            <= Owed(desc, m, cells, i, n)
    decreases n
  {
    if n > 0 {
      OwedSettled(desc, m, cells, i, n - 1, slot);
    }
  }

  lemma {:induction false} LargestCovers(m: ProtoMessage, slot: nat, j: nat, i: nat)
    requires j <= i < |m.fields| && m.fields[i].rule.Oneof? && m.fields[i].slot == slot && Largest(m, slot, j).Some?
    ensures FieldSize(m.fields[i]).Some? && FieldSize(m.fields[i]).value <= Largest(m, slot, j).value
    decreases i - j
  {
    if j < i {
      LargestCovers(m, slot, j + 1, i);
    }
  }

  lemma {:induction false} EntriesKnown(m: ProtoMessage, j: nat, i: nat)
    requires j <= i < |m.fields| && SizeFrom(m, j).Some?
    ensures EntrySize(m, i).Some?
    decreases i - j
  {
    if j < i {
      EntriesKnown(m, j + 1, i);
    }
  }

  /** Entry `i`: what it writes is covered by what is counted for it or still owed to it. */
  lemma EntryStep(desc: Desc, m: ProtoMessage, cells: Cells, i: nat)
    requires DescOk(desc) && Describes(desc, m) && DeclaredCells(desc, m, cells) && MessageSize(m).Some?
    requires i < |m.fields| && EncField(desc.fields[i], At(cells, desc.fields[i].slot)).Some?
    ensures EntrySize(m, i).Some?
    ensures |EncField(desc.fields[i], At(cells, desc.fields[i].slot)).value| + Owed(desc, m, cells, i + 1, i + 1)
            <= EntrySize(m, i).value + Owed(desc, m, cells, i, i)
    decreases m, 2
  {
    var slot := m.fields[i].slot;
    assert FieldMatches(desc, m, i) && SlotOk(desc.fields, i);
    assert FieldMatches(desc, m, slot);
    EntriesKnown(m, 0, i);
    EntriesKnown(m, 0, slot);
    if m.fields[i].rule.Oneof? {
      LargestCovers(m, slot, 0, i);
      LookupOwnTag(desc, i);
    }
    FieldBound(desc, m, i, At(cells, slot));
    OwedSettled(desc, m, cells, i, i, slot);
  }

  lemma {:induction false} FieldsBound(desc: Desc, m: ProtoMessage, cells: Cells, i: nat)
    requires DescOk(desc) && Describes(desc, m) && DeclaredCells(desc, m, cells) && MessageSize(m).Some?
    requires i <= |m.fields| && EncFrom(desc, cells, i).Some?
    ensures SizeFrom(m, i).Some?
    ensures |EncFrom(desc, cells, i).value| <= SizeFrom(m, i).value + Owed(desc, m, cells, i, i)
    decreases m, 3, |m.fields| - i
  {
    if i < |m.fields| {
      EntryStep(desc, m, cells, i);
      FieldsBound(desc, m, cells, i + 1);
    }
  }

  /** The main result: for every message type whose size is a number and every value the schema
      allows, pb_encode writes at most encoded_size bytes. */
  lemma EncodedSizeBound(desc: Desc, m: ProtoMessage, cells: Cells)
    requires DescOk(desc) && Describes(desc, m) && DeclaredCells(desc, m, cells)
    requires MessageSize(m).Some? && EncCells(desc, cells).Some?
    ensures |EncCells(desc, cells).value| <= MessageSize(m).value
    decreases m, 4
  {
    FieldsBound(desc, m, cells, 0);
  }

  /** What the bound is for: pb_encode into a buffer of encoded_size bytes never runs out of
      space. */
  method EncodeBounded(desc: Desc, m: ProtoMessage, cells: Cells, buf: array<byte>) returns (ok: bool, n: nat)
    requires DescOk(desc) && FieldIter.FullyPacked(desc) && Encoder.MeasuredCells(desc, cells)
    requires Describes(desc, m) && DeclaredCells(desc, m, cells)
    requires MessageSize(m).Some? && buf.Length >= MessageSize(m).value
    modifies buf
    ensures ok <==> EncCells(desc, cells).Some?
    ensures ok ==> n <= buf.Length && buf[..n] == EncCells(desc, cells).value
  {
    if EncCells(desc, cells).Some? {
      EncodedSizeBound(desc, m, cells);
    }
    var stream := new OStream(buf, 0, buf.Length);
    ok := Encoder.EncodeMessage(stream, desc, cells);
    n := stream.written;
  }

  // ---------- what the bound does not cover ----------

  /** A bytes field: the memory of an odd-sized array has a padding byte, which the run-time
      checks count as capacity.  The bound holds exactly up to the declared max_size. */
  lemma BytesBoundExact(n: nat, v: Value)
    requires EncValue(Blob(ArraySize(n)), v).Some? && TypeSize(BytesType(n, false)).Some?
    ensures |EncValue(Blob(ArraySize(n)), v).value| <= TypeSize(BytesType(n, false)).value <==> |AsBytes(v)| <= n
  {
    if |AsBytes(v)| <= n {
      PrefixBound(|AsBytes(v)|, n);
    } else {
      VarintMaxSizeExact(n);
      VarintLengthGrows(n, |AsBytes(v)|);
    }
  }

  /** The message type with one required bytes field, as the generator sees it and as it is
      compiled. */
  function OneBytesField(tag: nat, n: nat): ProtoMessage {
    ProtoMessage([ProtoField(tag, Required, BytesType(n, false), 0)])
  }

  function OneBlobField(tag: nat, n: nat): Desc {
    Desc([Field(tag, Required, Blob(ArraySize(n)), 0)], [])
  }

  /** For this message type, whatever the encoder accepts stays within encoded_size exactly up
      to the declared max_size. */
  lemma MessageBoundExact(tag: nat, n: nat, bytes: Bytes)
    requires 1 <= tag <= SIZE_MAX && n < SIZE_MAX - BYTES_OFFSET && |bytes| + BYTES_OFFSET <= ArraySize(n)
    ensures
      var desc, m, cells := OneBlobField(tag, n), OneBytesField(tag, n), [Plain(Data(bytes))];
      && DescOk(desc) && Describes(desc, m) && CellsOk(desc, cells)
      && EncCells(desc, cells).Some? && MessageSize(m).Some?
      && (|EncCells(desc, cells).value| <= MessageSize(m).value <==> |bytes| <= n)
  {
    var desc, m, cells := OneBlobField(tag, n), OneBytesField(tag, n), [Plain(Data(bytes))];
    ShortVarint(tag * 8);
    ShortVarint(n);
    SameLengthTag(WT_STRING, tag);
    BytesBoundExact(n, Data(bytes));
    OneFieldEncodes(desc, cells, EncValue(Blob(ArraySize(n)), Data(bytes)).value);
    OneFieldSize(m);
    assert FieldMatches(desc, m, 0);
  }

  lemma ShortVarint(n: nat)
    requires n < 0x10_0000
    ensures VarintMaxSize(n) == Some(|VarintBytes(n)|)
  {
    VarintMaxSizeExact(n);
    VarintLengthGrows(n, 0x1F_FFFF);
    assert |VarintBytes(0x1F_FFFF)| <= 4;
  }

  lemma SameLengthTag(wt: nat, tag: nat)
    requires wt < 8
    ensures |TagBytes(wt, tag)| == |VarintBytes(tag * 8)|
  {
    WireTypeBits(tag, wt);
  }

  lemma OneFieldEncodes(desc: Desc, cells: Cells, payload: Bytes)
    requires |desc.fields| == |cells| == 1 && desc.fields[0].slot == 0 && desc.fields[0].rule.Required?
    requires EncValue(desc.fields[0].ty, Val(cells[0])) == Some(payload)
    ensures EncCells(desc, cells) == Some(TagBytes(WireType(desc.fields[0].ty), desc.fields[0].tag) + payload)
  {
    var bs := TagBytes(WireType(desc.fields[0].ty), desc.fields[0].tag) + payload;
    assert EncField(desc.fields[0], At(cells, 0)) == Some(bs);
    assert EncFrom(desc, cells, 1) == Some([]) && bs + [] == bs;
  }

  lemma OneFieldSize(m: ProtoMessage)
    requires |m.fields| == 1 && m.fields[0].rule.Required?
    ensures MessageSize(m) == FieldSize(m.fields[0])
  {
    assert SizeFrom(m, 1) == Some(0) && EntrySize(m, 0) == FieldSize(m.fields[0]);
  }

  /** A one-byte array accepts two bytes, and then the message outgrows encoded_size. */
  lemma PaddingByteCounterexample()
    ensures
      var desc, cells := OneBlobField(1, 1), [Plain(Data([1, 2]))];
      && CellsOk(desc, cells) && Describes(desc, OneBytesField(1, 1))
      && EncCells(desc, cells) == Some([10, 2, 1, 2]) && MessageSize(OneBytesField(1, 1)) == Some(3)
  {
    MessageBoundExact(1, 1, [1, 2]);
    assert VarintBytes(2) + [1, 2] == [2, 1, 2];
    OneFieldEncodes(OneBlobField(1, 1), [Plain(Data([1, 2]))], [2, 1, 2]);
    assert TagBytes(WT_STRING, 1) + [2, 1, 2] == [10, 2, 1, 2];
    ShortVarint(8);
    ShortVarint(1);
    OneFieldSize(OneBytesField(1, 1));
  }
}
