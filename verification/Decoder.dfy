/** pb_decode and its helpers as they run: reading a stream record by record and storing into
    a struct in place. */
module Decoder {
  import opened Wire
  import opened Message
  import opened Encoding
  import opened Wrappers
  import opened Decoding
  import opened Streams
  import FieldIter

  /** The memory of one struct. */
  class Struct {
    var cells: Cells

    constructor (cells: Cells)
      ensures this.cells == cells
    {
      this.cells := cells;
    }

    /** Storing a cell; the others are unchanged. */
    method Store(k: nat, c: Cell)
      modifies this
      ensures cells == Put(old(cells), k, c)
    {
      if k < |cells| {
        cells := cells[k := c];
      }
    }
  }

  // ---------- defaults ----------

  /** `cells` is `was` with its first `i` fields set to their defaults. */
  ghost predicate Defaulted(desc: Desc, was: Cells, cells: Cells, i: nat) {
    && i <= |was| == |cells| == |desc.fields|
    && (forall k | 0 <= k < i :: cells[k] == DefaultCell(desc.fields[k], was[k]))
    && (forall k | i <= k < |was| :: cells[k] == was[k])
  }

  lemma DefaultedNext(desc: Desc, was: Cells, cells: Cells, i: nat)
    requires Defaulted(desc, was, cells, i) && i < |was|
    ensures Defaulted(desc, was, cells[i := DefaultCell(desc.fields[i], cells[i])], i + 1)
  {
  }

  lemma DefaultedAll(desc: Desc, was: Cells, cells: Cells)
    requires Defaulted(desc, was, cells, |was|)
    ensures cells == SetDefaults(desc, was)
  {
  }

  /** pb_message_set_to_defaults, for a descriptor without default_value. */
  method SetToDefaults(dest: Struct, desc: Desc)
    requires |dest.cells| == |desc.fields| && FieldIter.FullyPacked(desc)
    modifies dest
    ensures dest.cells == SetDefaults(desc, old(dest.cells))
    decreases desc, 1
  {
    if |desc.fields| == 0 {
      assert dest.cells == SetDefaults(desc, dest.cells);
      return;
    }
    var iter := FieldIter.Begin(desc);
    ghost var was, i := dest.cells, 0;
    while true
      invariant iter.Valid() && iter.words == desc.info && iter.count == |desc.fields| && iter.index == i && fresh(iter)
      invariant Defaulted(desc, was, dest.cells, i)
      decreases |desc.fields| - i
    {
      DefaultedNext(desc, was, dest.cells, i);
      FieldSetToDefault(dest, desc.fields[iter.index], iter.index);
      i := i + 1;
      var more := iter.Next();
      if !more {
        DefaultedAll(desc, was, dest.cells);
        return;
      }
    }
  }

  /** pb_field_set_to_default. */
  method FieldSetToDefault(dest: Struct, f: Field, i: nat)
    requires i < |dest.cells| && FieldIter.TyPacked(f.ty)
    modifies dest
    ensures dest.cells == old(dest.cells)[i := DefaultCell(f, old(dest.cells)[i])]
    decreases f, 2
  {
    var v := Val(dest.cells[i]);
    match f.rule
    case Repeated(_) =>
      dest.Store(i, Arr([]));
    case FixArray(_) =>
    case Oneof =>
      dest.Store(i, Union(0, Num(0)));
    case _ =>
      if f.ty.Sub? && HasSubs(f.ty.desc) {
        var sub := new Struct(Cast(f.ty.desc, v));
        SetToDefaults(sub, f.ty.desc);
        assert sub.cells == SetDefaults(f.ty.desc, AsCells(v));
        v := Value.Struct(sub.cells);
      } else {
        v := Zero(f.ty);
      }
      dest.Store(i, if f.rule.Optional? then Opt(false, v) else Plain(v));
  }

  // ---------- scalars ----------

  /** pb_dec_varint. */
  method DecodeInt(stream: IStream, ty: Ty) returns (ok: bool, v: Value)
    requires stream.Valid() && (ty.VarInt? || ty.UVarInt? || ty.SVarInt?)
    modifies stream
    ensures stream.Took(ok, v, match Varint(old(stream.Rest()))
                               case Bad => Bad
                               case Got(u, n) => match IntOf(ty, u) case None => Bad case Some(x) => Got(x, n))
  {
    v := Num(0);
    if ty.UVarInt? {
      var value: nat;
      ok, value := stream.DecodeVarint();
      if !ok || !IntWidth(ty.width) {
        return false, v;
      }
      var clamped := ToUnsigned(value, ty.width);
      if clamped != value {
        return false, v;
      }
      v := Num(clamped);
    } else {
      var svalue: int;
      if ty.SVarInt? {
        ok, svalue := stream.DecodeSVarint();
      } else {
        var value: nat;
        ok, value := stream.DecodeVarint();
        svalue := if ty.width == 8 then ToSigned(value, 8) else ToSigned(value, 4);
      }
      if !ok || !IntWidth(ty.width) {
        return false, v;
      }
      var clamped := ToSigned(svalue, ty.width);
      if clamped != svalue {
        return false, v;
      }
      v := Num(clamped);
    }
  }

  /** The size checks of pb_dec_bytes, pb_dec_string and pb_dec_fixed_length_bytes. */
  method CheckSize(ty: Ty, size: nat) returns (ok: bool)
    requires ty.Blob? || ty.Str? || ty.FixedBlob?
    ensures forall bs: Bytes | |bs| == size :: ok <==> DataOf(ty, bs).Some?
  {
    match ty
    case Blob(n) =>
      ok := size <= SIZE_MAX && size + BYTES_OFFSET <= n;
    case Str(n) =>
      ok := size != TWO32 - 1 && size + 1 <= n;
    case FixedBlob(n) =>
      ok := size <= SIZE_MAX && (size == 0 || size == n);
  }

  /** pb_dec_bytes, pb_dec_string and pb_dec_fixed_length_bytes. */
  method DecodeData(stream: IStream, ty: Ty) returns (ok: bool, v: Value)
    requires stream.Valid() && (ty.Blob? || ty.Str? || ty.FixedBlob?)
    modifies stream
    ensures stream.Took(ok, v, DecDelimited(ty, WT_STRING, old(stream.Rest())))
  {
    var data: Bytes;
    ok, data := ReadPayload(stream, ty);
    v := Data(if ty.FixedBlob? && data == [] then Window([], ty.dataSize) else data);
  }

  /** Its bytes, read only when their length is acceptable. */
  method ReadPayload(stream: IStream, ty: Ty) returns (ok: bool, data: Bytes)
    requires stream.Valid() && (ty.Blob? || ty.Str? || ty.FixedBlob?)
    modifies stream
    ensures stream.Took(ok, data, Payload(ty, old(stream.Rest())))
  {
    data := [];
    ghost var s0 := stream.Rest();
    var size: nat;
    ok, size := stream.DecodeVarint32();
    if !ok {
      return;
    }
    ghost var s := stream.Rest();
    DelimitedData(ty, s0, size, |s0| - |s|, s);
    ok := CheckSize(ty, size);
    if !ok {
      return;
    }
    ok, data := stream.Read(size);
  }

  function Payload(ty: Ty, s: Bytes): Parsed<Bytes> {
    match Prefixed(s)
    case Bad => Bad
    case Got(bs, n) => if DataOf(ty, bs).Some? then Got(bs, n) else Bad
  }

  /** Behind the length prefix: whether `size` is acceptable, and then the bytes themselves. */
  lemma DelimitedData(ty: Ty, s0: Bytes, size: nat, k: nat, s: Bytes)
    requires Varint32(s0) == Got(size, k) && k <= |s0| && s == s0[k..]
    ensures size > |s| ==> Payload(ty, s0).Bad?
    ensures size <= |s| ==> Payload(ty, s0) == if DataOf(ty, s[..size]).Some? then Got(s[..size], k + size) else Bad
    ensures size <= |s| ==> s[size..] == s0[k + size..]
  {
    if size <= |s| {
      assert s[..size] == s0[k..k + size];
    }
  }

  /** decode_basic_field, submessages apart. */
  method DecodeScalar(stream: IStream, ty: Ty, wt: nat) returns (ok: bool, v: Value)
    requires stream.Valid() && !ty.Sub?
    modifies stream
    ensures stream.Took(ok, v, DecScalar(ty, wt, old(stream.Rest())))
  {
    v := Num(0);
    match ty
    case Bool =>
      if wt != WT_VARINT && wt != WT_PACKED {
        return false, v;
      }
      var value: nat;
      ok, value := stream.DecodeVarint32();
      v := Num(if value != 0 then 1 else 0);
    case Fixed32 =>
      if wt != WT_32BIT && wt != WT_PACKED {
        return false, v;
      }
      var value: nat;
      ok, value := stream.DecodeFixed32();
      v := Num(value);
    case Fixed64 =>
      if wt != WT_64BIT && wt != WT_PACKED {
        return false, v;
      }
      var value: nat;
      ok, value := stream.DecodeFixed64();
      v := Num(value);
    case VarInt(_) =>
      ok, v := DecodeVarintField(stream, ty, wt);
    case UVarInt(_) =>
      ok, v := DecodeVarintField(stream, ty, wt);
    case SVarInt(_) =>
      ok, v := DecodeVarintField(stream, ty, wt);
    case Blob(_) =>
      ok, v := DecodeDataField(stream, ty, wt);
    case Str(_) =>
      ok, v := DecodeDataField(stream, ty, wt);
    case FixedBlob(_) =>
      ok, v := DecodeDataField(stream, ty, wt);
  }

  method DecodeDataField(stream: IStream, ty: Ty, wt: nat) returns (ok: bool, v: Value)
    requires stream.Valid() && (ty.Blob? || ty.Str? || ty.FixedBlob?)
    modifies stream
    ensures stream.Took(ok, v, DecScalar(ty, wt, old(stream.Rest())))
  {
    if wt != WT_STRING {
      return false, Num(0);
    }
    ok, v := DecodeData(stream, ty);
  }

  method DecodeVarintField(stream: IStream, ty: Ty, wt: nat) returns (ok: bool, v: Value)
    requires stream.Valid() && (ty.VarInt? || ty.UVarInt? || ty.SVarInt?)
    modifies stream
    ensures stream.Took(ok, v, DecScalar(ty, wt, old(stream.Rest())))
  {
    if wt != WT_VARINT && wt != WT_PACKED {
      return false, Num(0);
    }
    ok, v := DecodeInt(stream, ty);
  }

  // ---------- the required-field bitfield ----------

  /** A 32-bit word, bit by bit. */
  type BitWord = w: seq<bool> | |w| == 32 witness seq(32, _ => false)

  /** The bitfield holds exactly the tracked indexes in `seen`. */
  ghost predicate Represents(bitfield: seq<BitWord>, seen: set<nat>) {
    |bitfield| == 2 && forall r: nat :: r in seen <==> r < MAX_REQUIRED && bitfield[r / 32][r % 32]
  }

  /** `fields_seen.bitfield[index >> 5] |= 1 << (index & 31)`. */
  method MarkSeen(bitfield: array<BitWord>, index: nat, ghost seen: set<nat>)
    requires bitfield.Length == 2 && Represents(bitfield[..], seen)
    modifies bitfield
    ensures Represents(bitfield[..], if index < MAX_REQUIRED then seen + {index} else seen)
  {
    if index < MAX_REQUIRED {
      bitfield[index / 32] := bitfield[index / 32][index % 32 := true];
    }
  }

  /** The check for missing required fields: whole words against allbits, the rest against
      `allbits >> (32 - (count & 31))`. */
  method AllRequiredSeen(bitfield: array<BitWord>, requiredCount: nat, ghost seen: set<nat>) returns (ok: bool)
    requires bitfield.Length == 2 && Represents(bitfield[..], seen)
    requires forall r | r in seen :: r < requiredCount
    ensures ok <==> forall r | 0 <= r < requiredCount && r < MAX_REQUIRED :: r in seen
  {
    var count := if requiredCount > MAX_REQUIRED then MAX_REQUIRED else requiredCount;
    var allbits: BitWord := seq(32, _ => true);
    var i := 0;
    while i < count / 32
      invariant i <= count / 32
      invariant forall r | 0 <= r < 32 * i :: r in seen
    {
      if bitfield[i] != allbits {
        ghost var b :| 0 <= b < 32 && !bitfield[i][b];
        assert 32 * i + b !in seen;
        return false;
      }
      forall r | 32 * i <= r < 32 * (i + 1)
        ensures r in seen
      {
        assert bitfield[..][r / 32] == allbits;
      }
      i := i + 1;
    }
    if count % 32 != 0 {
      var k := count % 32;
      var low: BitWord := seq(32, b => b < k);
      if bitfield[count / 32] != low {
        ghost var b :| 0 <= b < 32 && bitfield[count / 32][b] != low[b];
        ghost var r := 32 * (count / 32) + b;
        assert r / 32 == count / 32 && r % 32 == b && r < MAX_REQUIRED;
        assert r in seen <==> bitfield[..][r / 32][b];
        return false;
      }
      forall r | 32 * (count / 32) <= r < count
        ensures r in seen
      {
        assert r / 32 == count / 32 && low[r % 32];
        assert bitfield[..][r / 32] == low;
      }
    }
    ok := true;
  }

  // ---------- fields ----------

  /** decode_basic_field; a submessage is decoded in the memory `prev` it occupies. */
  method DecodeBasicField(stream: IStream, ty: Ty, wt: nat, prev: Value, init: bool) returns (ok: bool, v: Value)
    requires stream.Valid() && TyOk(ty) && FieldIter.TyPacked(ty)
    modifies stream
    ensures stream.Took(ok, v, DecBasic(ty, wt, prev, init, old(stream.Rest())))
    decreases stream.left, 2
  {
    if ty.Sub? {
      if wt != WT_STRING {
        return false, Num(0);
      }
      ok, v := DecodeSubmessage(stream, ty, prev, init);
    } else {
      ok, v := DecodeScalar(stream, ty, wt);
    }
  }

  /** pb_dec_submessage. */
  method DecodeSubmessage(stream: IStream, ty: Ty, prev: Value, init: bool) returns (ok: bool, v: Value)
    requires stream.Valid() && ty.Sub? && TyOk(ty) && FieldIter.TyPacked(ty)
    modifies stream
    ensures stream.Took(ok, v, DecBasic(ty, WT_STRING, prev, init, old(stream.Rest())))
    decreases stream.left, 1
  {
    var sub := new Struct(Cast(ty.desc, prev));
    ok := DecodeDelimited(stream, ty.desc, sub, init);
    v := Value.Struct(sub.cells);
  }

  /** Its substream: opened, decoded from and closed again, whatever the outcome. */
  method DecodeDelimited(stream: IStream, desc: Desc, dest: Struct, init: bool) returns (ok: bool)
    requires stream.Valid() && DescOk(desc) && FieldIter.FullyPacked(desc) && |dest.cells| == |desc.fields|
    modifies stream, dest
    ensures stream.Took(ok, dest.cells, Delimitedly(desc, if init then SetDefaults(desc, old(dest.cells)) else old(dest.cells), old(stream.Rest())))
    decreases stream.left, 0
  {
    ghost var s0, p0, l0 := stream.Rest(), stream.pos, stream.left;
    var substream: IStream;
    ok, substream := stream.MakeSubstream();
    if !ok {
      return;
    }
    ghost var n := Prefixed(s0).size;
    var status := DecodeInner(substream, desc, dest, init);
    ok := stream.CloseSubstream(substream);
    if status {
      SuffixSlice(stream.buf, p0, l0, n);
      assert stream.pos == p0 + n && stream.Rest() == s0[n..];
    }
    ok := ok && status;
  }

  function Delimitedly(desc: Desc, cells: Cells, s: Bytes): Parsed<Cells> {
    match Prefixed(s)
    case Bad => Bad
    case Got(bs, n) => match DecInner(desc, cells, bs) case None => Bad case Some(r) => Got(r, n)
  }

  /** The packed-array loop of decode_static_field: elements are stored one by one from
      position `pos` of the array on. */
  method DecodePacked(stream: IStream, ty: Ty, room: int) returns (ok: bool, items: seq<Value>)
    requires stream.Valid() && Packable(ty)
    modifies stream
    ensures stream.Took(ok, items, match Prefixed(old(stream.Rest()))
                                   case Bad => Bad
                                   case Got(bs, n) => match PackedItems(ty, room, bs) case None => Bad case Some(vs) => Got(vs, n))
  {
    items := [];
    var substream: IStream;
    ok, substream := stream.MakeSubstream();
    if !ok {
      return;
    }
    var status;
    status, items := DecodeElements(substream, ty, room);
    if substream.left != 0 {
      // "array overflow"
      return false, items;
    }
    ok := stream.CloseSubstream(substream);
    ok := ok && status;
  }

  /** Its loop: it stops at the end of the block, when the array is full, or at an error. */
  method DecodeElements(stream: IStream, ty: Ty, room: int) returns (ok: bool, items: seq<Value>)
    requires stream.Valid() && Packable(ty)
    modifies stream
    ensures stream.Valid() && stream.pos >= old(stream.pos) && stream.pos + stream.left <= old(stream.pos) + old(stream.left)
    ensures ok && stream.left == 0 <==> PackedItems(ty, room, old(stream.Rest())).Some?
    ensures ok && stream.left == 0 ==>
              items == PackedItems(ty, room, old(stream.Rest())).value && stream.pos == old(stream.pos) + old(stream.left)
  {
    items, ok := [], true;
    ghost var bs := stream.Rest();
    PrependedNil(PackedItems(ty, room, bs));
    while stream.left > 0 && |items| < room
      invariant stream.Valid() && stream.pos >= old(stream.pos) && stream.pos + stream.left == old(stream.pos) + old(stream.left)
      invariant PackedItems(ty, room, bs) == Prepended(items, PackedItems(ty, room - |items|, stream.Rest()))
      decreases stream.left
    {
      ok, items := DecodeElement(stream, ty, room, items);
      if !ok {
        return;
      }
    }
    PackedEnd(ty, room - |items|, stream.Rest(), items);
  }

  lemma PackedEnd(ty: Ty, room: int, s: Bytes, done: seq<Value>)
    requires s == [] || room <= 0
    ensures Prepended(done, PackedItems(ty, room, s)) == if s == [] then Some(done) else None
  {
    assert done + [] == done;
  }

  /** One element, stored behind the others. */
  method DecodeElement(stream: IStream, ty: Ty, ghost room: int, items: seq<Value>) returns (ok: bool, items': seq<Value>)
    requires stream.Valid() && Packable(ty) && stream.left > 0 && |items| < room
    modifies stream
    ensures stream.Valid() && stream.pos >= old(stream.pos) && stream.pos + stream.left <= old(stream.pos) + old(stream.left)
    ensures ok ==> stream.pos + stream.left == old(stream.pos) + old(stream.left) && stream.pos > old(stream.pos)
    ensures Prepended(items, PackedItems(ty, room - |items|, old(stream.Rest()))) ==
            if ok then Prepended(items', PackedItems(ty, room - |items'|, stream.Rest())) else None
  {
    PackedStep(ty, room - |items|, stream.Rest(), items);
    var v: Value;
    ok, v := DecodeScalar(stream, ty, WT_PACKED);
    items' := items + [v];
  }

  function Prepended(done: seq<Value>, rest: Option<seq<Value>>): Option<seq<Value>> {
    match rest case None => None case Some(vs) => Some(done + vs)
  }

  lemma PrependedNil(rest: Option<seq<Value>>)
    ensures Prepended([], rest) == rest
  {
    if rest.Some? {
      assert [] + rest.value == rest.value;
    }
  }

  lemma PackedStep(ty: Ty, room: int, s: Bytes, done: seq<Value>)
    requires s != [] && room > 0
    ensures Prepended(done, PackedItems(ty, room, s)) ==
            match DecScalar(ty, WT_PACKED, s)
            case Bad => None
            case Got(v, n) => Prepended(done + [v], PackedItems(ty, room - 1, s[n..]))
  {
    match DecScalar(ty, WT_PACKED, s)
    case Bad =>
    case Got(v, n) =>
      var r := PackedItems(ty, room - 1, s[n..]);
      if r.Some? {
        assert done + ([v] + r.value) == done + [v] + r.value;
      }
  }

  /** decode_static_field. */
  method DecodeStaticField(stream: IStream, desc: Desc, i: nat, arraySize: nat, wt: nat, dest: Struct, fixing: Fixing)
    returns (ok: bool, fixing': Fixing)
    requires stream.Valid() && DescOk(desc) && FieldIter.FullyPacked(desc)
    requires i < |desc.fields| && FieldIter.HasSize(desc.fields[i].rule, arraySize)
    modifies stream, dest
    ensures
      var f := desc.fields[i];
      var r := DecField(f, i, wt, At(old(dest.cells), f.slot), fixing, old(stream.Rest()));
      && stream.Took(ok, fixing', match r case Bad => Bad case Got((c, fx), n) => Got(fx, n))
      && |dest.cells| == |old(dest.cells)|
      && (ok ==> dest.cells == Put(old(dest.cells), f.slot, r.value.0))
    decreases stream.left, 4, 0
  {
    var f := desc.fields[i];
    var c := At(dest.cells, f.slot);
    var v: Value;
    fixing' := fixing;
    match f.rule
    case Repeated(_) =>
      ok := DecodeRepeated(stream, f, arraySize, i, wt, dest, fixing);
    case FixArray(_) =>
      ok, fixing' := DecodeFixedArray(stream, f, arraySize, i, wt, dest, fixing);
    case Oneof =>
      var prev := UnionMemory(f, c);
      ok, v := DecodeBasicField(stream, f.ty, wt, prev, false);
      dest.Store(f.slot, Union(f.tag, v));
    case Optional =>
      ok, v := DecodeBasicField(stream, f.ty, wt, Val(c), false);
      dest.Store(f.slot, Opt(true, v));
    case _ =>
      ok, v := DecodeBasicField(stream, f.ty, wt, Val(c), false);
      dest.Store(f.slot, Plain(v));
  }

  /** What a oneof member is decoded into: the current contents, or zeroed and defaulted memory
      for a submessage that was not the current member. */
  method UnionMemory(f: Field, c: Cell) returns (prev: Value)
    requires f.rule.Oneof? && FieldIter.TyPacked(f.ty)
    ensures prev == if f.ty.Sub? && Which(c) != f.tag then DefaultValue(f.ty, Zero(f.ty)) else Val(c)
  {
    prev := Val(c);
    if f.ty.Sub? && Which(c) != f.tag {
      prev := Zero(f.ty);
      if HasSubs(f.ty.desc) {
        var sub := new Struct(Cast(f.ty.desc, prev));
        SetToDefaults(sub, f.ty.desc);
        prev := Value.Struct(sub.cells);
      }
    }
  }

  /** What one occurrence adds to an array with `room` elements left: a packed block, or the
      element at `prev`. */
  function Added(ty: Ty, wt: nat, room: int, prev: Value, s: Bytes): Parsed<seq<Value>> {
    if wt == WT_STRING && Packable(ty) then
      match Prefixed(s)
      case Bad => Bad
      case Got(bs, n) => match PackedItems(ty, room, bs) case None => Bad case Some(vs) => Got(vs, n)
    else if room <= 0 then Bad
    else
      match DecBasic(ty, wt, prev, true, s) case Bad => Bad case Got(v, n) => Got([v], n)
  }

  method DecodeAdded(stream: IStream, ty: Ty, wt: nat, room: int, prev: Value) returns (ok: bool, vs: seq<Value>)
    requires stream.Valid() && TyOk(ty) && FieldIter.TyPacked(ty)
    modifies stream
    ensures stream.Took(ok, vs, Added(ty, wt, room, prev, old(stream.Rest())))
    decreases stream.left, 3, 0
  {
    if wt == WT_STRING && Packable(ty) {
      ok, vs := DecodePacked(stream, ty, room);
    } else {
      if room <= 0 {
        // "array overflow"
        return false, [];
      }
      var v: Value;
      ok, v := DecodeBasicField(stream, ty, wt, prev, true);
      vs := [v];
    }
  }

  /** The same for a repeated field. */
  method DecodeRepeated(stream: IStream, f: Field, max: nat, i: nat, wt: nat, dest: Struct, ghost fixing: Fixing) returns (ok: bool)
    requires stream.Valid() && f.rule == Repeated(max) && TyOk(f.ty) && FieldIter.TyPacked(f.ty)
    modifies stream, dest
    ensures
      var r := DecField(f, i, wt, At(old(dest.cells), f.slot), fixing, old(stream.Rest()));
      && stream.Took(ok, fixing, match r case Bad => Bad case Got((c, fx), n) => Got(fx, n))
      && |dest.cells| == |old(dest.cells)|
      && (ok ==> dest.cells == Put(old(dest.cells), f.slot, r.value.0))
    decreases stream.left, 3, 1
  {
    var items := Items(At(dest.cells, f.slot));
    var vs: seq<Value>;
    ok, vs := DecodeAdded(stream, f.ty, wt, max - |items|, Zero(f.ty));
    dest.Store(f.slot, Arr(items + vs));
  }

  /** The same for a fixed-count array, whose counter lives in the decoder. */
  method DecodeFixedArray(stream: IStream, f: Field, max: nat, i: nat, wt: nat, dest: Struct, fixing: Fixing)
    returns (ok: bool, fixing': Fixing)
    requires stream.Valid() && f.rule == FixArray(max) && TyOk(f.ty) && FieldIter.TyPacked(f.ty)
    modifies stream, dest
    ensures
      var r := DecField(f, i, wt, At(old(dest.cells), f.slot), fixing, old(stream.Rest()));
      && stream.Took(ok, fixing', match r case Bad => Bad case Got((c, fx), n) => Got(fx, n))
      && |dest.cells| == |old(dest.cells)|
      && (ok ==> dest.cells == Put(old(dest.cells), f.slot, r.value.0))
    decreases stream.left, 3, 1
  {
    var items := Items(At(dest.cells, f.slot));
    fixing' := fixing;
    if !fixing.active || fixing.index != i {
      if fixing.active && fixing.size != fixing.total {
        return false, fixing;
      }
      fixing' := Fixing(true, i, 0, max);
    }
    var size := fixing'.size;
    var vs: seq<Value>;
    ok, vs := DecodeAdded(stream, f.ty, wt, max - size, ItemAt(items, size));
    dest.Store(f.slot, Arr(Overlay(items, size, vs)));
    fixing' := fixing'.(size := size + |vs|);
  }

  // ---------- messages ----------

  /** What a step does once tag and wire type are known. */
  function Apply(desc: Desc, st: State, tag: nat, wt: nat, s: Bytes): Parsed<State> {
    if tag == 0 then Bad
    else
      var i := Lookup(desc, tag);
      if i == |desc.fields| then
        match Skip(wt, s) case Bad => Bad case Got(_, n) => Got(st, n)
      else
        var f := desc.fields[i];
        match DecField(f, i, wt, At(st.cells, f.slot), st.fixing, s)
        case Bad => Bad
        case Got((c, fx), n) => Got(State(Put(st.cells, f.slot, c), Mark(desc, i, st.seen), fx), n)
  }

  lemma StepIsApply(desc: Desc, st: State, s: Bytes, tag: nat, wt: nat, k: nat, s1: Bytes)
    requires Varint32(s) == Got(tag * 8 + wt, k) && wt < 8 && s1 == s[k..]
    ensures DecStep(desc, st, s) == Longer(Apply(desc, st, tag, wt, s1), k)
  {
    assert (tag * 8 + wt) / 8 == tag && (tag * 8 + wt) % 8 == wt;
  }

  /** The body of the pb_decode_inner loop after the tag. */
  method DecodeRecord(stream: IStream, desc: Desc, iter: FieldIter.Iterator, dest: Struct, bitfield: array<BitWord>,
                      tag: nat, wt: nat, fixing: Fixing, ghost st: State) returns (ok: bool, fixing': Fixing, ghost st': State)
    requires stream.Valid() && DescOk(desc) && FieldIter.FullyPacked(desc)
    requires iter.Valid() && iter.words == desc.info && iter.count == |desc.fields|
    requires bitfield.Length == 2 && Represents(bitfield[..], st.seen)
    requires dest.cells == st.cells && fixing == st.fixing
    modifies stream, dest, bitfield, iter
    ensures stream.Took(ok, st', Apply(desc, st, tag, wt, old(stream.Rest())))
    ensures |dest.cells| == |old(dest.cells)| && iter.Valid()
    ensures ok ==> Represents(bitfield[..], st'.seen) && dest.cells == st'.cells && fixing' == st'.fixing
    decreases stream.left, 5, 0
  {
    st', fixing' := st, fixing;
    if tag == 0 {
      // "zero tag"
      return false, fixing, st;
    }
    var found := FindField(iter, desc, tag);
    if found {
      ok, fixing', st' := DecodeKnown(stream, desc, iter.index, iter.requiredIndex, iter.current.typ, iter.current.arraySize,
                                      dest, bitfield, tag, wt, fixing, st);
    } else {
      ok := stream.SkipField(wt);
    }
  }

  /** The iterator moved to the field with this tag, if there is one. */
  method FindField(iter: FieldIter.Iterator, desc: Desc, tag: nat) returns (found: bool)
    requires DescOk(desc) && FieldIter.FullyPacked(desc) && tag > 0
    requires iter.Valid() && iter.words == desc.info && iter.count == |desc.fields|
    modifies iter
    ensures iter.Valid() && (found <==> Lookup(desc, tag) < |desc.fields|)
    ensures found ==> iter.index == Lookup(desc, tag) && iter.requiredIndex == RequiredBefore(desc, iter.index)
    ensures found ==>
              var rule := desc.fields[iter.index].rule;
              FieldIter.HasSize(rule, iter.current.arraySize) && (FieldIter.IsRequired(iter.current.typ) <==> rule.Required?)
  {
    found := iter.Find(tag);
    FieldIter.FoundIsLookup(desc, tag, iter.index);
    if found {
      FieldIter.RequiredIndexes(desc, iter.index);
      FieldIter.CurrentField(desc, iter.index);
    }
  }

  /** Its part for a field of the message. */
  method DecodeKnown(stream: IStream, desc: Desc, i: nat, requiredIndex: nat, typ: nat, arraySize: nat, dest: Struct,
                     bitfield: array<BitWord>, ghost tag: nat, wt: nat, fixing: Fixing, ghost st: State)
    returns (ok: bool, fixing': Fixing, ghost st': State)
    requires stream.Valid() && DescOk(desc) && FieldIter.FullyPacked(desc)
    requires i < |desc.fields| && tag > 0 && Lookup(desc, tag) == i && requiredIndex == RequiredBefore(desc, i)
    requires FieldIter.HasSize(desc.fields[i].rule, arraySize) && (FieldIter.IsRequired(typ) <==> desc.fields[i].rule.Required?)
    requires bitfield.Length == 2 && Represents(bitfield[..], st.seen)
    requires dest.cells == st.cells && fixing == st.fixing
    modifies stream, dest, bitfield
    ensures stream.Took(ok, st', Apply(desc, st, tag, wt, old(stream.Rest())))
    ensures |dest.cells| == |old(dest.cells)|
    ensures ok ==> Represents(bitfield[..], st'.seen) && dest.cells == st'.cells && fixing' == st'.fixing
    decreases stream.left, 4, 1
  {
    if FieldIter.IsRequired(typ) {
      MarkSeen(bitfield, requiredIndex, st.seen);
    }
    ok, fixing' := DecodeStaticField(stream, desc, i, arraySize, wt, dest, fixing);
    st' := State(dest.cells, Mark(desc, i, st.seen), fixing');
  }

  /** Only indexes of required fields are ever marked. */
  lemma {:induction false} SeenIsRequired(desc: Desc, st: State, s: Bytes)
    requires DecLoop(desc, st, s).Some? && forall r | r in st.seen :: r < RequiredCount(desc)
    ensures forall r | r in DecLoop(desc, st, s).value.seen :: r < RequiredCount(desc)
    decreases |s|
  {
    if s != [] {
      var Got(t, k) := Varint32(s);
      var i := Lookup(desc, t / 8);
      if i < |desc.fields| && desc.fields[i].rule.Required? {
        RequiredGrows(desc, i, |desc.fields|);
      }
      SeenIsRequired(desc, DecStep(desc, st, s).value, s[DecStep(desc, st, s).size..]);
    }
  }

  lemma {:induction false} RequiredGrows(desc: Desc, i: nat, j: nat)
    requires i < j <= |desc.fields| && desc.fields[i].rule.Required?
    ensures RequiredBefore(desc, i) < RequiredBefore(desc, j)
  {
    if j > i + 1 {
      RequiredGrows(desc, i, j - 1);
    }
  }

  /** The state of the loop: `whole` is what decoding all of the input comes to. */
  ghost predicate InLoop(stream: IStream, desc: Desc, iter: FieldIter.Iterator, dest: Struct, bitfield: array<BitWord>, fixing: Fixing,
                         st: State, start: nat, end: nat, width: nat, whole: Option<State>)
    reads stream, iter, dest, bitfield
  {
    && stream.Valid() && start <= stream.pos && stream.pos + stream.left == end
    && iter.Valid() && iter.words == desc.info && iter.count == |desc.fields|
    && bitfield.Length == 2 && Represents(bitfield[..], st.seen)
    && dest.cells == st.cells && fixing == st.fixing && |dest.cells| == width
    && DecLoop(desc, st, stream.Rest()) == whole
  }

  /** And after it. */
  ghost predicate LoopDone(stream: IStream, dest: Struct, bitfield: array<BitWord>, ok: bool, fixing: Fixing,
                           st: State, start: nat, end: nat, width: nat, whole: Option<State>)
    reads stream, dest, bitfield
  {
    && stream.Valid() && start <= stream.pos && stream.pos + stream.left <= end && |dest.cells| == width
    && (ok <==> whole.Some?)
    && (ok ==> stream.pos == end && stream.left == 0 && whole == Some(st) && dest.cells == st.cells && fixing == st.fixing)
    && (ok ==> bitfield.Length == 2 && Represents(bitfield[..], st.seen))
  }

  /** The body of the loop, which stops at the end of the stream or at an error. */
  method LoopTurn(stream: IStream, desc: Desc, iter: FieldIter.Iterator, dest: Struct, bitfield: array<BitWord>, fixing: Fixing,
                  ghost st: State, ghost start: nat, ghost end: nat, ghost width: nat, ghost whole: Option<State>)
    returns (stop: bool, ok: bool, fixing': Fixing, ghost st': State)
    requires DescOk(desc) && FieldIter.FullyPacked(desc)
    requires InLoop(stream, desc, iter, dest, bitfield, fixing, st, start, end, width, whole)
    modifies stream, dest, bitfield, iter
    ensures stop ==> LoopDone(stream, dest, bitfield, ok, fixing', st', start, end, width, whole)
    ensures !stop ==> stream.left < old(stream.left) && InLoop(stream, desc, iter, dest, bitfield, fixing', st', start, end, width, whole)
    decreases stream.left, 5, 1
  {
    st', fixing' := st, fixing;
    ghost var s := stream.Rest();
    LoopEnds(desc, st, s, whole);
    var wt, tag, eof;
    ok, wt, tag, eof := stream.DecodeTag();
    if !ok {
      return true, eof, fixing', st';
    }
    ghost var s1 := stream.Rest();
    LoopUnfolds(desc, st, s, tag, wt, |s| - |s1|, s1, whole);
    ok, fixing', st' := DecodeRecord(stream, desc, iter, dest, bitfield, tag, wt, fixing, st);
    stop := !ok;
  }

  lemma LoopEnds(desc: Desc, st: State, s: Bytes, whole: Option<State>)
    requires DecLoop(desc, st, s) == whole
    ensures s == [] ==> whole == Some(st)
    ensures s != [] && Varint32(s).Bad? ==> whole == None
    ensures s != [] && DecStep(desc, st, s).Bad? ==> whole == None
    ensures s != [] && DecStep(desc, st, s).Got? ==>
              var r := DecStep(desc, st, s);
              r.size <= |s| && whole == DecLoop(desc, r.value, s[r.size..])
  {
  }

  /** Behind the tag the loop goes on with what Apply makes of the record. */
  lemma LoopUnfolds(desc: Desc, st: State, s: Bytes, tag: nat, wt: nat, k: nat, s1: Bytes, whole: Option<State>)
    requires DecLoop(desc, st, s) == whole
    requires Varint32(s) == Got(tag * 8 + wt, k) && wt < 8 && s1 == s[k..]
    ensures Apply(desc, st, tag, wt, s1).Bad? ==> whole == None
    ensures Apply(desc, st, tag, wt, s1).Got? ==>
              var r := Apply(desc, st, tag, wt, s1);
              r.size <= |s1| && whole == DecLoop(desc, r.value, s1[r.size..])
  {
    LoopEnds(desc, st, s, whole);
    StepIsApply(desc, st, s, tag, wt, k, s1);
    var r := Apply(desc, st, tag, wt, s1);
    if r.Got? {
      DropTwice(s, k, r.size);
    }
  }

  lemma DropTwice(s: Bytes, k: nat, n: nat)
    requires k + n <= |s|
    ensures s[k..][n..] == s[k + n..]
  {
  }

  /** The pb_decode_inner loop: until the end of the stream or an error. */
  method DecodeRecords(stream: IStream, desc: Desc, dest: Struct, bitfield: array<BitWord>)
    returns (ok: bool, fixing: Fixing, ghost st: State)
    requires stream.Valid() && DescOk(desc) && FieldIter.FullyPacked(desc)
    requires bitfield.Length == 2 && Represents(bitfield[..], {})
    modifies stream, dest, bitfield
    ensures LoopDone(stream, dest, bitfield, ok, fixing, st, old(stream.pos), old(stream.pos) + old(stream.left), |old(dest.cells)|,
                     DecLoop(desc, Start(old(dest.cells)), old(stream.Rest())))
    decreases stream.left, 6
  {
    st, fixing := Start(dest.cells), NoFixing;
    ghost var start, end, width, whole := stream.pos, stream.pos + stream.left, |dest.cells|, DecLoop(desc, st, stream.Rest());
    var iter := FieldIter.Begin(desc);
    var stop := false;
    while true
      invariant fresh(iter) && stream.left <= old(stream.left)
      invariant InLoop(stream, desc, iter, dest, bitfield, fixing, st, start, end, width, whole)
      decreases stream.left
    {
      stop, ok, fixing, st := LoopTurn(stream, desc, iter, dest, bitfield, fixing, st, start, end, width, whole);
      if stop {
        return;
      }
    }
  }

  /** pb_decode_inner. */
  method DecodeInner(stream: IStream, desc: Desc, dest: Struct, init: bool) returns (ok: bool)
    requires stream.Valid() && DescOk(desc) && FieldIter.FullyPacked(desc) && |dest.cells| == |desc.fields|
    modifies stream, dest
    ensures
      var r := DecInner(desc, if init then SetDefaults(desc, old(dest.cells)) else old(dest.cells), old(stream.Rest()));
      && stream.Took(ok, dest.cells, match r case None => Bad case Some(cells) => Got(cells, old(stream.left)))
      && |dest.cells| == |desc.fields|
    decreases stream.left, 7
  {
    if init {
      SetToDefaults(dest, desc);
    }
    var bitfield := new BitWord[2](_ => seq(32, _ => false));
    ghost var cells0, s0 := dest.cells, stream.Rest();
    var fixing;
    ghost var st;
    ok, fixing, st := DecodeRecords(stream, desc, dest, bitfield);
    if ok {
      SeenIsRequired(desc, Start(cells0), s0);
      ok := CheckComplete(desc, bitfield, fixing, st);
    }
  }

  /** The checks at the end of a message. */
  method CheckComplete(desc: Desc, bitfield: array<BitWord>, fixing: Fixing, ghost st: State) returns (ok: bool)
    requires bitfield.Length == 2 && Represents(bitfield[..], st.seen) && fixing == st.fixing
    requires forall r | r in st.seen :: r < RequiredCount(desc)
    ensures ok <==> Accepted(desc, st)
  {
    if fixing.active && fixing.size != fixing.total {
      // "wrong size for fixed count field"
      return false;
    }
    ok := AllRequiredSeen(bitfield, RequiredCount(desc), st.seen);
  }

  /** pb_decode. */
  method PbDecode(stream: IStream, desc: Desc, dest: Struct) returns (ok: bool)
    requires stream.Valid() && DescOk(desc) && FieldIter.FullyPacked(desc) && |dest.cells| == |desc.fields|
    modifies stream, dest
    ensures ok <==> Decode(desc, old(dest.cells), old(stream.Rest())).Some?
    ensures ok ==> dest.cells == Decode(desc, old(dest.cells), old(stream.Rest())).value
    ensures ok ==> stream.left == 0 && stream.pos == old(stream.pos) + old(stream.left)
  {
    ok := DecodeInner(stream, desc, dest, true);
  }
}
