/** The bytes pb_encode produces for a struct, as a function.  `None` stands for an encoder
    error that does not depend on the output stream. */
module Encoding {
  import opened Wire
  import opened Message
  import opened Wrappers

  /** pb_encode_tag_for_field. */
  function WireType(ty: Ty): nat {
    match ty
    case Bool => WT_VARINT
    case VarInt(_) => WT_VARINT
    case UVarInt(_) => WT_VARINT
    case SVarInt(_) => WT_VARINT
    case Fixed32 => WT_32BIT
    case Fixed64 => WT_64BIT
    case _ => WT_STRING
  }

  /** The unsigned 64-bit value pb_enc_varint hands to pb_encode_varint. */
  function VarintOf(ty: Ty, n: int): nat {
    match ty
    case VarInt(w) => ToUnsigned(ToSigned(n, w), 8)
    case SVarInt(w) => ZigZag(ToSigned(n, w))
    case UVarInt(w) => ToUnsigned(n, w)
    case _ => if n == 0 then 0 else 1
  }

  predicate WidthOk(ty: Ty) {
    match ty
    case VarInt(w) => IntWidth(w)
    case UVarInt(w) => IntWidth(w)
    case SVarInt(w) => IntWidth(w)
    case _ => true
  }

  /** The payload of one field, without its tag. */
  function EncValue(ty: Ty, v: Value): Option<Bytes>
    decreases ty, 0
  {
    match ty
    case Fixed32 => Some(LittleEndian(AsNum(v) % TWO32, 4))
    case Fixed64 => Some(LittleEndian(AsNum(v) % TWO64, 8))
    case Blob(n) =>
      if |AsBytes(v)| > n - BYTES_OFFSET then None else Some(Delimited(AsBytes(v)))
    case Str(n) =>
      var size := StrLen(AsBytes(v));
      if size > n - 1 then None else Some(Delimited(AsBytes(v)[..size]))
    case FixedBlob(n) => Some(Delimited(Window(AsBytes(v), n)))
    case Sub(desc) =>
      (match EncCells(desc, AsCells(v))
       case None => None
       case Some(bs) => Some(Delimited(bs)))
    case _ => if WidthOk(ty) then Some(VarintBytes(VarintOf(ty, AsNum(v)))) else None
  }

  /** encode_basic_field. */
  function EncBasic(f: Field, v: Value): Option<Bytes>
    decreases f.ty, 1
  {
    match EncValue(f.ty, v)
    case None => None
    case Some(bs) => Some(TagBytes(WireType(f.ty), f.tag) + bs)
  }

  /** The elements of a packed array, or of an unpacked one with a tag each. */
  function EncItems(f: Field, items: seq<Value>, tagged: bool): Option<Bytes>
    decreases f.ty, 2, |items|
  {
    if items == [] then Some([])
    else
      match if tagged then EncBasic(f, items[0]) else EncValue(f.ty, items[0])
      case None => None
      case Some(a) =>
        match EncItems(f, items[1..], tagged)
        case None => None
        case Some(b) => Some(a + b)
  }

  /** encode_array: packed whenever the type allows it. */
  function EncArray(f: Field, items: seq<Value>, max: nat): Option<Bytes>
    decreases f.ty, 3
  {
    if items == [] then Some([])
    else if |items| > max then None
    else if Packable(f.ty) then
      match EncItems(f, items, false)
      case None => None
      case Some(bs) => Some(TagBytes(WT_STRING, f.tag) + Delimited(bs))
    else
      EncItems(f, items, true)
  }

  /** pb_check_proto3_default_value, for a descriptor without default_value. */
  predicate IsDefault(f: Field, c: Cell)
    decreases f, 1
  {
    match f.rule
    case Required => false
    case Repeated(_) => Items(c) == []
    case FixArray(max) => max == 0
    case Oneof => Which(c) == 0
    case Optional => !Has(c)
    case Singular => IsDefaultValue(f.ty, Val(c))
  }

  predicate IsDefaultValue(ty: Ty, v: Value)
    decreases ty, 0
  {
    match ty
    case Bool => AsNum(v) == 0
    case VarInt(w) => ToUnsigned(AsNum(v), w) == 0
    case UVarInt(w) => ToUnsigned(AsNum(v), w) == 0
    case SVarInt(w) => ToUnsigned(AsNum(v), w) == 0
    case Fixed32 => AsNum(v) % TWO32 == 0
    case Fixed64 => AsNum(v) % TWO64 == 0
    case Blob(_) => AsBytes(v) == []
    case Str(_) => StrLen(AsBytes(v)) == 0
    case FixedBlob(n) => n == 0
    case Sub(desc) => AllDefault(desc, AsCells(v))
  }

  predicate AllDefault(desc: Desc, cells: Cells)
    decreases desc, 1
  {
    forall i | 0 <= i < |desc.fields| :: DefaultAt(desc, cells, i)
  }

  predicate DefaultAt(desc: Desc, cells: Cells, i: nat)
    requires i < |desc.fields|
    decreases desc, 0
  {
    IsDefault(desc.fields[i], At(cells, desc.fields[i].slot))
  }

  /** encode_field. */
  function EncField(f: Field, c: Cell): Option<Bytes>
    decreases f, 2
  {
    match f.rule
    case Oneof => if Which(c) != f.tag then Some([]) else EncBasic(f, Val(c))
    case Optional => if !Has(c) then Some([]) else EncBasic(f, Val(c))
    case Singular => if IsDefault(f, c) then Some([]) else EncBasic(f, Val(c))
    case Required => EncBasic(f, Val(c))
    case Repeated(max) => EncArray(f, Items(c), max)
    case FixArray(max) => EncArray(f, Items(c), max)
  }

  /** The fields from index `i` on, in descriptor order. */
  function EncFrom(desc: Desc, cells: Cells, i: nat): Option<Bytes>
    requires i <= |desc.fields|
    decreases desc, 0, |desc.fields| - i
  {
    if i == |desc.fields| then Some([])
    else
      match EncField(desc.fields[i], At(cells, desc.fields[i].slot))
      case None => None
      case Some(a) =>
        match EncFrom(desc, cells, i + 1)
        case None => None
        case Some(b) => Some(a + b)
  }

  /** pb_encode. */
  function EncCells(desc: Desc, cells: Cells): Option<Bytes>
    decreases desc, 1
  {
    EncFrom(desc, cells, 0)
  }
}
