/** What pb_encode leaves out (pb_encode.c: pb_check_proto3_default_value, encode_field): a singular
    field that holds nothing, said of the values in the struct. */
module Omission {
  import opened Wire
  import opened Message
  import opened Encoding
  import opened Wrappers

  // ---------- values that are not sent ----------

  /** Numbers are 0, strings and bytes empty, submessages silent in every field. */
  predicate Silent(ty: Ty, v: Value)
    decreases ty, 0
  {
    match ty
    case Blob(_) => AsBytes(v) == []
    case Str(_) => AsBytes(v) == [] || AsBytes(v)[0] == 0
    case FixedBlob(n) => n == 0
    case Sub(desc) => SilentCells(desc, AsCells(v))
    case _ => AsNum(v) == 0
  }

  predicate SilentField(f: Field, c: Cell)
    decreases f, 0
  {
    match f.rule
    case Required => false
    case Optional => !Has(c)
    case Singular => Silent(f.ty, Val(c))
    case Repeated(_) => |Items(c)| == 0
    case FixArray(max) => max == 0
    case Oneof => Which(c) != f.tag
  }

  predicate SilentCells(desc: Desc, cells: Cells)
    decreases desc, 0
  {
    forall i | 0 <= i < |desc.fields| :: SilentAt(desc, cells, i)
  }

  predicate SilentAt(desc: Desc, cells: Cells, i: nat)
    requires i < |desc.fields|
    decreases desc, 0, 0
  {
    SilentField(desc.fields[i], At(cells, desc.fields[i].slot))
  }

  // ---------- numbers ----------

  lemma NumberSilent(ty: Ty, v: Value)
    requires Packable(ty) && ValueOk(ty, v)
    ensures IsDefaultValue(ty, v) <==> v.n == 0
  {
    match ty
    case VarInt(w) => SignedZero(v.n, w);
    case SVarInt(w) => SignedZero(v.n, w);
    case _ =>
  }

  lemma SignedZero(n: int, w: nat)
    requires n == ToSigned(n, w)
    ensures ToUnsigned(n, w) == 0 <==> n == 0
  {
    var m := Modulus(w);
    if n < 0 {
      assert n % m == n + m;
    }
  }

  lemma EmptyString(b: Bytes)
    ensures StrLen(b) == 0 <==> b == [] || b[0] == 0
  {
  }

  // ---------- what is sent is not empty ----------

  lemma BasicSent(f: Field, v: Value)
    ensures EncBasic(f, v) != Some([])
  {
    assert |TagBytes(WireType(f.ty), f.tag)| > 0;
  }

  lemma ArraySent(f: Field, items: seq<Value>, max: nat)
    ensures EncArray(f, items, max) == Some([]) <==> items == []
  {
    if items != [] && |items| <= max {
      if Packable(f.ty) {
        assert |TagBytes(WT_STRING, f.tag)| > 0;
      } else {
        BasicSent(f, items[0]);
      }
    }
  }

  lemma {:induction false} FromSent(desc: Desc, cells: Cells, i: nat)
    requires i <= |desc.fields|
    ensures
      EncFrom(desc, cells, i) == Some([]) <==>
      forall j | i <= j < |desc.fields| :: EncField(desc.fields[j], At(cells, desc.fields[j].slot)) == Some([])
    decreases |desc.fields| - i
  {
    if i < |desc.fields| {
      FromSent(desc, cells, i + 1);
      var a, b := EncField(desc.fields[i], At(cells, desc.fields[i].slot)), EncFrom(desc, cells, i + 1);
      if a.Some? && b.Some? {
        assert EncFrom(desc, cells, i) == Some(a.value + b.value);
        BothEmpty(a.value, b.value);
      }
    }
  }

  lemma BothEmpty(a: Bytes, b: Bytes)
    ensures a + b == [] <==> a == [] && b == []
  {
    assert |a + b| == |a| + |b|;
  }

  // ---------- the condition ----------

  /** The cell of a field. */
  lemma Placed(desc: Desc, cells: Cells, i: nat)
    requires DescOk(desc) && CellsOk(desc, cells) && i < |desc.fields|
    ensures
      var f := desc.fields[i];
      && f.slot < |cells| && At(cells, f.slot) == cells[f.slot] && CellOk(desc, f.slot, cells[f.slot])
      && SlotOk(desc.fields, i) && (!f.rule.Oneof? ==> f.slot == i) && TyOk(f.ty)
  {
    assert SlotOk(desc.fields, i);
  }

  /** A submessage is taken for default exactly if it is silent. */
  lemma {:induction false} DefaultIsSilent(desc: Desc, cells: Cells)
    requires DescOk(desc) && CellsOk(desc, cells)
    ensures AllDefault(desc, cells) <==> SilentCells(desc, cells)
    decreases desc
  {
    if AllDefault(desc, cells) {
      forall i | 0 <= i < |desc.fields|
        ensures SilentAt(desc, cells, i)
      {
        assert DefaultAt(desc, cells, i);
        FieldIsSilent(desc, cells, i);
      }
    }
    if SilentCells(desc, cells) {
      forall i | 0 <= i < |desc.fields|
        ensures DefaultAt(desc, cells, i)
      {
        assert SilentAt(desc, cells, i);
        FieldIsSilent(desc, cells, i);
        NoneSelected(desc, cells, i);
      }
    }
  }

  lemma {:induction false} FieldIsSilent(desc: Desc, cells: Cells, i: nat)
    requires DescOk(desc) && CellsOk(desc, cells) && i < |desc.fields|
    ensures DefaultAt(desc, cells, i) ==> SilentAt(desc, cells, i)
    ensures SilentAt(desc, cells, i) && !desc.fields[i].rule.Oneof? ==> DefaultAt(desc, cells, i)
    decreases desc, 0
  {
    var f := desc.fields[i];
    Placed(desc, cells, i);
    var c := At(cells, f.slot);
    assert DefaultAt(desc, cells, i) == IsDefault(f, c) && SilentAt(desc, cells, i) == SilentField(f, c);
    if f.rule.Singular? {
      assert c == cells[i] && ValueOk(f.ty, c.v);
      ValueIsSilent(f.ty, c.v);
      assert IsDefault(f, c) == IsDefaultValue(f.ty, c.v);
      assert SilentField(f, c) == Silent(f.ty, c.v);
    }
  }

  lemma {:induction false} ValueIsSilent(ty: Ty, v: Value)
    requires TyOk(ty) && ValueOk(ty, v)
    ensures IsDefaultValue(ty, v) <==> Silent(ty, v)
    decreases ty, 0
  {
    if Packable(ty) {
      NumberSilent(ty, v);
    } else if ty.Sub? {
      DefaultIsSilent(ty.desc, v.cells);
    } else if ty.Str? {
      EmptyString(v.bytes);
    }
  }

  /** A oneof with which_ set has a member that is not silent. */
  lemma SetMember(desc: Desc, cells: Cells, i: nat) returns (k: nat)
    requires DescOk(desc) && CellsOk(desc, cells) && i < |desc.fields| && desc.fields[i].rule.Oneof?
    requires Which(At(cells, desc.fields[i].slot)) != 0
    ensures k < |desc.fields| && !SilentAt(desc, cells, k)
  {
    Placed(desc, cells, i);
    var c := cells[desc.fields[i].slot];
    k := Lookup(desc, Which(c));
    Placed(desc, cells, k);
    assert SilentAt(desc, cells, k) == SilentField(desc.fields[k], c);
  }

  lemma NoneSelected(desc: Desc, cells: Cells, i: nat)
    requires DescOk(desc) && CellsOk(desc, cells) && SilentCells(desc, cells) && i < |desc.fields|
    ensures desc.fields[i].rule.Oneof? ==> DefaultAt(desc, cells, i)
  {
    var f := desc.fields[i];
    if f.rule.Oneof? {
      assert DefaultAt(desc, cells, i) == IsDefault(f, At(cells, f.slot));
      if Which(At(cells, f.slot)) != 0 {
        var k := SetMember(desc, cells, i);
      }
    }
  }

  /** A field of a well-formed struct contributes no byte exactly if it is silent. */
  lemma FieldOmitted(desc: Desc, cells: Cells, i: nat)
    requires DescOk(desc) && CellsOk(desc, cells) && i < |desc.fields|
    ensures EncField(desc.fields[i], At(cells, desc.fields[i].slot)) == Some([]) <==> SilentAt(desc, cells, i)
  {
    var f := desc.fields[i];
    Placed(desc, cells, i);
    var c := cells[f.slot];
    BasicSent(f, Val(c));
    match f.rule
    case Repeated(max) => ArraySent(f, c.items, max);
    case FixArray(max) => ArraySent(f, c.items, max);
    case Singular => FieldIsSilent(desc, cells, i);
    case _ =>
  }

  /** A singular field: what decides is that the number is 0, the string or bytes are empty, or every
      field of the submessage contributes nothing. */
  lemma SingularOmitted(desc: Desc, cells: Cells, i: nat)
    requires DescOk(desc) && CellsOk(desc, cells) && i < |desc.fields| && desc.fields[i].rule.Singular?
    ensures
      var f := desc.fields[i];
      var v := Val(At(cells, f.slot));
      EncField(f, At(cells, f.slot)) == Some([]) <==>
      match f.ty
      case Blob(_) => |AsBytes(v)| == 0
      case Str(_) => |AsBytes(v)| == 0 || AsBytes(v)[0] == 0
      case FixedBlob(n) => n == 0
      case Sub(sub) => forall j | 0 <= j < |sub.fields| :: EncField(sub.fields[j], At(AsCells(v), sub.fields[j].slot)) == Some([])
      case _ => AsNum(v) == 0
  {
    var f := desc.fields[i];
    Placed(desc, cells, i);
    var c := cells[f.slot];
    FieldOmitted(desc, cells, i);
    assert SilentAt(desc, cells, i) == SilentField(f, c) == Silent(f.ty, c.v);
    if f.ty.Sub? {
      SubmessageOmitted(f.ty.desc, c.v.cells);
    }
  }

  lemma SubmessageOmitted(sub: Desc, cells: Cells)
    requires DescOk(sub) && CellsOk(sub, cells)
    ensures
      SilentCells(sub, cells) <==>
      forall j | 0 <= j < |sub.fields| :: EncField(sub.fields[j], At(cells, sub.fields[j].slot)) == Some([])
  {
    forall j | 0 <= j < |sub.fields|
      ensures EncField(sub.fields[j], At(cells, sub.fields[j].slot)) == Some([]) <==> SilentAt(sub, cells, j)
    {
      FieldOmitted(sub, cells, j);
    }
  }

  /** A well-formed struct encodes to nothing exactly if it is silent. */
  lemma MessageOmitted(desc: Desc, cells: Cells)
    requires DescOk(desc) && CellsOk(desc, cells)
    ensures EncCells(desc, cells) == Some([]) <==> SilentCells(desc, cells)
  {
    FromSent(desc, cells, 0);
    SubmessageOmitted(desc, cells);
  }

  // ---------- zeroed structs ----------

  /** Message types with nothing that is always sent: required fields, arrays of fixed count, bytes
      of fixed length. */
  predicate Vanishing(desc: Desc)
    decreases desc, 1
  {
    forall i | 0 <= i < |desc.fields| :: VanishingAt(desc, i)
  }

  predicate VanishingAt(desc: Desc, i: nat)
    requires i < |desc.fields|
    decreases desc, 0
  {
    var f := desc.fields[i];
    match f.rule
    case Required => false
    case FixArray(max) => max == 0
    case Singular => (f.ty.FixedBlob? ==> f.ty.dataSize == 0) && (f.ty.Sub? ==> Vanishing(f.ty.desc))
    case _ => true
  }

  lemma {:induction false} ZeroedIsSilent(desc: Desc)
    requires DescOk(desc)
    ensures SilentCells(desc, ZeroCells(desc)) <==> Vanishing(desc)
    decreases desc
  {
    var cells := ZeroCells(desc);
    forall i | 0 <= i < |desc.fields|
      ensures SilentAt(desc, cells, i) <==> VanishingAt(desc, i)
    {
      var f := desc.fields[i];
      assert SlotOk(desc.fields, i);
      assert At(cells, f.slot) == ZeroCell(desc.fields[f.slot]);
      assert SilentAt(desc, cells, i) == SilentField(f, At(cells, f.slot));
      if f.rule.Singular? {
        ZeroSilent(f.ty);
      }
    }
  }

  lemma {:induction false} ZeroSilent(ty: Ty)
    requires TyOk(ty)
    ensures Silent(ty, Zero(ty)) <==> (ty.FixedBlob? ==> ty.dataSize == 0) && (ty.Sub? ==> Vanishing(ty.desc))
    decreases ty
  {
    if ty.Sub? {
      ZeroedIsSilent(ty.desc);
      ZeroCellsAre(ty.desc, Zero(ty));
    }
  }

  /** Zeroed memory of such a type encodes to nothing, and of no other. */
  lemma ZeroedOmitted(desc: Desc)
    requires DescOk(desc)
    ensures EncCells(desc, ZeroCells(desc)) == Some([]) <==> Vanishing(desc)
  {
    ZeroCellsOk(desc);
    MessageOmitted(desc, ZeroCells(desc));
    ZeroedIsSilent(desc);
  }

  // ---------- google.protobuf.Duration ----------

  /** int64 seconds = 1; int32 nanos = 2. */
  function Duration(): Desc {
    Desc([Field(1, Singular, VarInt(8), 0), Field(2, Singular, VarInt(4), 1)], [])
  }

  /** Five seconds: nanos is 0 and not sent. */
  lemma FiveSeconds()
    ensures DescOk(Duration()) && EncCells(Duration(), [Plain(Num(5)), Plain(Num(0))]) == Some([8, 5])
    ensures EncCells(Duration(), [Plain(Num(0)), Plain(Num(0))]) == Some([])
  {
    var desc, five, none := Duration(), [Plain(Num(5)), Plain(Num(0))], [Plain(Num(0)), Plain(Num(0))];
    SecondsAndNanos();
    FromSent(desc, five, 1);
    assert EncField(desc.fields[1], five[1]) == EncField(desc.fields[1], none[1]) == Some([]);
    assert EncField(desc.fields[0], none[0]) == Some([]);
    FromSent(desc, none, 0);
    assert [8, 5] + [] == [8, 5];
  }

  lemma SecondsAndNanos()
    ensures EncField(Duration().fields[0], Plain(Num(5))) == Some([8, 5])
    ensures EncField(Duration().fields[1], Plain(Num(0))) == Some([])
  {
    assert TagBytes(WT_VARINT, 1) == VarintBytes(8) == [8];
    assert VarintBytes(5) == [5] && [8] + [5] == [8, 5];
    assert EncValue(VarInt(8), Num(5)) == Some(VarintBytes(5));
  }
}
