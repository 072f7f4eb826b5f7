/** Message descriptors and the structs they describe.

    A descriptor is a finite tree: a static submessage field embeds its struct, so a message
    type never contains itself.  Struct memory is a value tree, one cell per field.  The
    members of a oneof share the cell of the first of them. */
module Message {
  import opened Wire

  /** PB_LTYPE together with the data_size it needs. */
  datatype Ty =
    | Bool
    | VarInt(width: nat)        // int32, int64, enum
    | UVarInt(width: nat)       // uint32, uint64, enum without negative values
    | SVarInt(width: nat)       // sint32, sint64
    | Fixed32
    | Fixed64
    | Blob(dataSize: nat)       // PB_LTYPE_BYTES: pb_bytes_array_t of dataSize bytes in all
    | Str(dataSize: nat)        // char[dataSize]
    | FixedBlob(dataSize: nat)  // PB_LTYPE_FIXED_LENGTH_BYTES
    | Sub(desc: Desc)

  /** PB_HTYPE, split by whether the field has a pSize of its own. */
  datatype Rule =
    | Required
    | Optional             // has_ flag
    | Singular             // no has_ flag: presence is "not the default value"
    | Repeated(max: nat)   // _count field
    | FixArray(max: nat)   // no _count field: always max items
    | Oneof                // which_ field shared by the members

  datatype Field = Field(tag: nat, rule: Rule, ty: Ty, slot: nat)

  /** `info` is the packed field_info array; `fields` is what it says (FieldIter.dfy). */
  datatype Desc = Desc(fields: seq<Field>, info: seq<nat>)

  datatype Value = Num(n: int) | Data(bytes: Bytes) | Struct(cells: seq<Cell>)

  datatype Cell =
    | Plain(v: Value)
    | Opt(has: bool, v: Value)
    | Arr(items: seq<Value>)         // the items counted by pSize
    | Union(which: nat, v: Value)

  type Cells = seq<Cell>

  /** offsetof(pb_bytes_array_t, bytes) and PB_SIZE_MAX for the 16-bit pb_size_t. */
  const BYTES_OFFSET: nat := 2
  const SIZE_MAX: nat := 0xFFFF

  // ---------- reading and writing struct memory ----------
  // These accessors are total: memory that was never written as the type it is read as
  // reads as zeros.  On a struct laid out by its descriptor (CellsOk) that never happens.

  function At(cells: Cells, k: nat): Cell {
    if k < |cells| then cells[k] else Plain(Num(0))
  }

  function Put(cells: Cells, k: nat, c: Cell): (r: Cells)
    ensures |r| == |cells|
  {
    if k < |cells| then cells[k := c] else cells
  }

  function AsNum(v: Value): int { if v.Num? then v.n else 0 }
  function AsBytes(v: Value): Bytes { if v.Data? then v.bytes else [] }
  function AsCells(v: Value): Cells { if v.Struct? then v.cells else [] }

  /** The memory at a place, seen as a struct of this type. */
  function Cast(desc: Desc, v: Value): (r: Cells)
    ensures |r| == |desc.fields|
    ensures v.Struct? && |v.cells| == |desc.fields| ==> r == v.cells
  {
    seq(|desc.fields|, i requires 0 <= i < |desc.fields| => At(AsCells(v), i))
  }

  function Has(c: Cell): bool { c.Opt? && c.has }
  function Which(c: Cell): nat { if c.Union? then c.which else 0 }
  function Items(c: Cell): seq<Value> { if c.Arr? then c.items else [] }
  function Val(c: Cell): Value { if c.Arr? then Num(0) else c.v }

  // ---------- integers in memory ----------

  predicate IntWidth(w: nat) { w == 1 || w == 2 || w == 4 || w == 8 }

  function Modulus(w: nat): (m: nat)
    ensures m >= 256 && m % 2 == 0
  {
    if w == 1 then 0x100 else if w == 2 then 0x1_0000 else if w == 4 then TWO32 else TWO64
  }

  /** The C conversions to uintN_t and intN_t, N == 8 * w. */
  function ToUnsigned(n: int, w: nat): (u: nat)
    ensures u < Modulus(w)
  {
    n % Modulus(w)
  }

  function ToSigned(n: int, w: nat): (s: int)
    ensures -(Modulus(w) / 2) <= s < Modulus(w) / 2
  {
    var u := n % Modulus(w);
    if u >= Modulus(w) / 2 then u - Modulus(w) else u
  }

  /** Length of a C string: up to the first NUL. */
  function StrLen(b: Bytes): (n: nat)
    ensures n <= |b|
    ensures 0 !in b[..n]
    ensures n < |b| ==> b[n] == 0
  {
    if b == [] || b[0] == 0 then 0 else 1 + StrLen(b[1..])
  }

  /** The first `n` bytes at a place in memory, zeros where it was never written. */
  function Window(b: Bytes, n: nat): (r: Bytes)
    ensures |r| == n
  {
    if n <= |b| then b[..n] else b + seq(n - |b|, _ => 0)
  }

  // ---------- descriptors ----------

  /** Types that may be packed: PB_LTYPE(type) <= PB_LTYPE_LAST_PACKABLE. */
  predicate Packable(ty: Ty) {
    ty.Bool? || ty.VarInt? || ty.UVarInt? || ty.SVarInt? || ty.Fixed32? || ty.Fixed64?
  }

  /** Linear lookup: the index of the first field from `i` on with this tag, or |fields|. */
  function LookupFrom(fields: seq<Field>, tag: nat, i: nat): (k: nat)
    requires i <= |fields|
    ensures i <= k <= |fields|
    ensures k < |fields| ==> fields[k].tag == tag
    ensures forall j | i <= j < k :: fields[j].tag != tag
    decreases |fields| - i
  {
    if i == |fields| || fields[i].tag == tag then i else LookupFrom(fields, tag, i + 1)
  }

  function Lookup(desc: Desc, tag: nat): (k: nat)
    ensures k <= |desc.fields|
    ensures k < |desc.fields| ==> desc.fields[k].tag == tag
    ensures forall j | 0 <= j < k :: desc.fields[j].tag != tag
  {
    LookupFrom(desc.fields, tag, 0)
  }

  predicate HasSubs(desc: Desc) {
    exists i :: 0 <= i < |desc.fields| && desc.fields[i].ty.Sub?
  }

  /** required_field_index of field `i`. */
  function RequiredBefore(desc: Desc, i: nat): (n: nat)
    requires i <= |desc.fields|
    ensures n <= i
  {
    if i == 0 then 0 else RequiredBefore(desc, i - 1) + (if desc.fields[i - 1].rule.Required? then 1 else 0)
  }

  function RequiredCount(desc: Desc): nat { RequiredBefore(desc, |desc.fields|) }

  // ---------- zeroed and defaulted structs ----------

  function Zero(ty: Ty): Value {
    match ty
    case Blob(_) => Data([])
    case Str(_) => Data([])
    case FixedBlob(n) => Data(Window([], n))
    case Sub(desc) => Struct(seq(|desc.fields|, i requires 0 <= i < |desc.fields| => ZeroCell(desc.fields[i])))
    case _ => Num(0)
  }

  function ZeroCell(f: Field): Cell {
    match f.rule
    case Required => Plain(Zero(f.ty))
    case Singular => Plain(Zero(f.ty))
    case Optional => Opt(false, Zero(f.ty))
    case Repeated(_) => Arr([])
    case FixArray(max) => Arr(seq(max, _ => Zero(f.ty)))
    case Oneof => Union(0, Num(0))
  }

  /** A zero-initialised struct. */
  function ZeroCells(desc: Desc): (cells: Cells)
    ensures |cells| == |desc.fields|
  {
    seq(|desc.fields|, i requires 0 <= i < |desc.fields| => ZeroCell(desc.fields[i]))
  }

  /** pb_message_set_to_defaults, for a descriptor without default_value. */
  function SetDefaults(desc: Desc, cells: Cells): (r: Cells)
    ensures |r| == |desc.fields|
    decreases desc, 1
  {
    seq(|desc.fields|, i requires 0 <= i < |desc.fields| => DefaultCell(desc.fields[i], At(cells, i)))
  }

  /** pb_field_set_to_default.  A fixed-count array is left as it is; the contents of a union
      whose which_ is 0 cannot be observed. */
  function DefaultCell(f: Field, c: Cell): Cell
    decreases f, 0
  {
    match f.rule
    case Required => Plain(DefaultValue(f.ty, Val(c)))
    case Singular => Plain(DefaultValue(f.ty, Val(c)))
    case Optional => Opt(false, DefaultValue(f.ty, Val(c)))
    case Repeated(_) => Arr([])
    case FixArray(_) => c
    case Oneof => Union(0, Num(0))
  }

  function DefaultValue(ty: Ty, v: Value): Value
    decreases ty, 0
  {
    if ty.Sub? && HasSubs(ty.desc) then Struct(SetDefaults(ty.desc, AsCells(v))) else Zero(ty)
  }

  // ---------- well-formed descriptors and structs ----------

  predicate TyOk(ty: Ty)
    decreases ty, 0
  {
    match ty
    case VarInt(w) => IntWidth(w)
    case UVarInt(w) => IntWidth(w)
    case SVarInt(w) => IntWidth(w)
    case Blob(n) => BYTES_OFFSET <= n <= SIZE_MAX
    case Str(n) => 1 <= n <= SIZE_MAX
    case FixedBlob(n) => n <= SIZE_MAX
    case Sub(desc) => DescOk(desc)
    case _ => true
  }

  predicate SlotOk(fields: seq<Field>, i: nat)
    requires i < |fields|
  {
    var f := fields[i];
    && f.slot <= i
    && (if f.rule.Oneof? then fields[f.slot].rule.Oneof? && fields[f.slot].slot == f.slot else f.slot == i)
  }

  /** What the generator guarantees: tags are 16-bit and strictly increasing, sizes are valid,
      and each oneof has one cell. */
  predicate DescOk(desc: Desc)
    decreases desc, 1
  {
    && (forall i | 0 <= i < |desc.fields| :: 1 <= desc.fields[i].tag <= SIZE_MAX)
    && (forall i, j | 0 <= i < j < |desc.fields| :: desc.fields[i].tag < desc.fields[j].tag)
    && (forall i | 0 <= i < |desc.fields| :: SlotOk(desc.fields, i))
    && (forall i | 0 <= i < |desc.fields| :: TyOk(desc.fields[i].ty))
  }

  /** A value that memory of this type can hold: counts within arrays, blobs within their
      capacity, integers within their width. */
  predicate ValueOk(ty: Ty, v: Value)
    decreases ty, 0
  {
    match ty
    case Bool => v.Num? && (v.n == 0 || v.n == 1)
    case VarInt(w) => v.Num? && IntWidth(w) && v.n == ToSigned(v.n, w)
    case UVarInt(w) => v.Num? && IntWidth(w) && v.n == ToUnsigned(v.n, w)
    case SVarInt(w) => v.Num? && IntWidth(w) && v.n == ToSigned(v.n, w)
    case Fixed32 => v.Num? && 0 <= v.n < TWO32
    case Fixed64 => v.Num? && 0 <= v.n < TWO64
    case Blob(n) => v.Data? && |v.bytes| + BYTES_OFFSET <= n && |v.bytes| <= SIZE_MAX
    case Str(n) => v.Data? && |v.bytes| + 1 <= n
    case FixedBlob(n) => v.Data? && |v.bytes| == n
    case Sub(desc) => v.Struct? && CellsOk(desc, v.cells)
  }

  predicate CellOk(desc: Desc, i: nat, c: Cell)
    requires i < |desc.fields|
    decreases desc, 0
  {
    var f := desc.fields[i];
    match f.rule
    case Required => c.Plain? && ValueOk(f.ty, c.v)
    case Singular => c.Plain? && ValueOk(f.ty, c.v)
    case Optional => c.Opt? && ValueOk(f.ty, c.v)
    case Repeated(max) => c.Arr? && |c.items| <= max && forall k | 0 <= k < |c.items| :: ValueOk(f.ty, c.items[k])
    case FixArray(max) => c.Arr? && |c.items| == max && forall k | 0 <= k < |c.items| :: ValueOk(f.ty, c.items[k])
    case Oneof =>
      c.Union? && (c.which == 0 ||
                   (var k := Lookup(desc, c.which);
                    k < |desc.fields| && desc.fields[k].rule.Oneof? && desc.fields[k].slot == i && ValueOk(desc.fields[k].ty, c.v)))
  }

  predicate CellsOk(desc: Desc, cells: Cells)
    decreases desc, 1
  {
    |cells| == |desc.fields| && forall i | 0 <= i < |desc.fields| :: CellOk(desc, i, cells[i])
  }

  // ---------- canonical structs: what is absent is zero ----------

  /** No leftovers: an absent optional holds zeros, an unset union nothing, and a C string has
      no NUL before its end. */
  predicate CleanValue(ty: Ty, v: Value)
    decreases ty, 0
  {
    match ty
    case Str(_) => 0 !in AsBytes(v)
    case Sub(desc) => CleanCells(desc, AsCells(v))
    case _ => true
  }

  predicate CleanCell(desc: Desc, i: nat, c: Cell)
    requires i < |desc.fields|
    decreases desc, 0
  {
    var f := desc.fields[i];
    match f.rule
    case Required => CleanValue(f.ty, Val(c))
    case Singular => CleanValue(f.ty, Val(c))
    case Optional => if Has(c) then CleanValue(f.ty, Val(c)) else Val(c) == Zero(f.ty)
    case Repeated(_) => forall k | 0 <= k < |Items(c)| :: CleanValue(f.ty, Items(c)[k])
    case FixArray(_) => forall k | 0 <= k < |Items(c)| :: CleanValue(f.ty, Items(c)[k])
    case Oneof =>
      if Which(c) == 0 then Val(c) == Num(0)
      else
        var k := Lookup(desc, Which(c));
        k < |desc.fields| && CleanValue(desc.fields[k].ty, Val(c))
  }

  predicate CleanCells(desc: Desc, cells: Cells)
    decreases desc, 1
  {
    forall i | 0 <= i < |desc.fields| :: CleanCell(desc, i, At(cells, i))
  }

  // ---------- properties of descriptors ----------

  /** Strictly increasing tags: lookup finds a field exactly by its own tag. */
  lemma LookupOwnTag(desc: Desc, i: nat)
    requires DescOk(desc) && i < |desc.fields|
    ensures Lookup(desc, desc.fields[i].tag) == i
  {
  }

  lemma ZeroCellsAre(desc: Desc, v: Value)
    requires v == Zero(Sub(desc))
    ensures AsCells(v) == ZeroCells(desc)
  {
  }

  /** Defaulting zeroed memory leaves it zeroed, submessages included. */
  lemma {:induction false} DefaultsOfZero(desc: Desc)
    ensures SetDefaults(desc, ZeroCells(desc)) == ZeroCells(desc)
  {
    forall i | 0 <= i < |desc.fields|
      ensures DefaultCell(desc.fields[i], ZeroCell(desc.fields[i])) == ZeroCell(desc.fields[i])
    {
      var f := desc.fields[i];
      if f.ty.Sub? {
        DefaultsOfZero(f.ty.desc);
        ZeroCellsAre(f.ty.desc, Zero(f.ty));
      }
    }
  }

  // ---------- defaulted memory ----------

  lemma {:induction false} ZeroOk(ty: Ty)
    requires TyOk(ty)
    ensures ValueOk(ty, Zero(ty))
  {
    if ty.Sub? {
      ZeroCellsOk(ty.desc);
      ZeroCellsAre(ty.desc, Zero(ty));
    }
  }

  lemma {:induction false} ZeroCellsOk(desc: Desc)
    requires DescOk(desc)
    ensures CellsOk(desc, ZeroCells(desc))
  {
    forall i | 0 <= i < |desc.fields|
      ensures CellOk(desc, i, ZeroCell(desc.fields[i]))
    {
      ZeroOk(desc.fields[i].ty);
    }
  }

  lemma {:induction false} DefaultsOk(desc: Desc, cells: Cells)
    requires DescOk(desc) && CellsOk(desc, cells)
    ensures CellsOk(desc, SetDefaults(desc, cells))
    decreases desc
  {
    forall i | 0 <= i < |desc.fields|
      ensures CellOk(desc, i, DefaultCell(desc.fields[i], cells[i]))
    {
      var f := desc.fields[i];
      assert CellOk(desc, i, cells[i]);
      ZeroOk(f.ty);
      if f.ty.Sub? && (f.rule.Required? || f.rule.Singular? || f.rule.Optional?) {
        DefaultsOk(f.ty.desc, AsCells(cells[i].v));
      }
    }
  }

  /** Setting defaults twice is setting them once. */
  lemma {:induction false} DefaultsTwice(desc: Desc, cells: Cells)
    ensures SetDefaults(desc, SetDefaults(desc, cells)) == SetDefaults(desc, cells)
    decreases desc
  {
    forall i | 0 <= i < |desc.fields|
      ensures DefaultCell(desc.fields[i], SetDefaults(desc, cells)[i]) == SetDefaults(desc, cells)[i]
    {
      var f, c := desc.fields[i], At(cells, i);
      if f.ty.Sub? {
        DefaultsTwice(f.ty.desc, AsCells(Val(c)));
      }
      assert DefaultValue(f.ty, DefaultValue(f.ty, Val(c))) == DefaultValue(f.ty, Val(c));
      assert SetDefaults(desc, cells)[i] == DefaultCell(f, c);
    }
  }

  /** Memory that a message may be decoded into: well-formed, and set to its defaults. */
  predicate Ready(desc: Desc, base: Cells) {
    CellsOk(desc, base) && SetDefaults(desc, base) == base
  }

  lemma ReadyZero(desc: Desc)
    requires DescOk(desc)
    ensures Ready(desc, ZeroCells(desc))
  {
    ZeroCellsOk(desc);
    DefaultsOfZero(desc);
  }

  lemma ReadyDefaults(desc: Desc, cells: Cells)
    requires DescOk(desc) && CellsOk(desc, cells)
    ensures Ready(desc, SetDefaults(desc, cells))
  {
    DefaultsOk(desc, cells);
    DefaultsTwice(desc, cells);
  }

  /** Such memory field by field. */
  lemma ReadyCell(desc: Desc, base: Cells, i: nat)
    requires Ready(desc, base) && i < |desc.fields|
    ensures
      var f := desc.fields[i];
      match f.rule
      case Repeated(_) => base[i] == Arr([])
      case FixArray(max) => base[i].Arr? && |base[i].items| == max && forall k | 0 <= k < max :: ValueOk(f.ty, base[i].items[k])
      case Oneof => base[i] == Union(0, Num(0))
      case Optional => base[i] == Opt(false, Val(base[i]))
      case _ => base[i] == Plain(Val(base[i]))
  {
    assert CellOk(desc, i, base[i]);
    assert SetDefaults(desc, base)[i] == DefaultCell(desc.fields[i], base[i]);
  }

  /** A value in it. */
  lemma ReadyValue(desc: Desc, base: Cells, i: nat)
    requires DescOk(desc) && Ready(desc, base) && i < |desc.fields|
    requires desc.fields[i].rule.Required? || desc.fields[i].rule.Singular? || desc.fields[i].rule.Optional?
    ensures
      var ty, v := desc.fields[i].ty, Val(base[i]);
      if ty.Sub? then v.Struct? && Ready(ty.desc, v.cells) else v == Zero(ty)
  {
    var f := desc.fields[i];
    assert CellOk(desc, i, base[i]);
    assert SetDefaults(desc, base)[i] == DefaultCell(f, base[i]);
    assert Val(base[i]) == DefaultValue(f.ty, Val(base[i]));
    if f.ty.Sub? && !HasSubs(f.ty.desc) {
      ZeroCellsAre(f.ty.desc, Zero(f.ty));
      ReadyZero(f.ty.desc);
    }
  }
}
