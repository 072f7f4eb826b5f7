/** pb_encode and its helpers as they run: writing to a stream, twice for every submessage. */
module Encoder {
  import opened Wire
  import opened Message
  import opened Encoding
  import opened Wrappers
  import opened Streams
  import FieldIter

  // ---------- what size_t can hold ----------

  /** Every length computed while encoding fits a 64-bit size_t. */
  predicate Measured(ty: Ty, v: Value)
    decreases ty, 0
  {
    ty.Sub? ==>
      && (EncCells(ty.desc, AsCells(v)).Some? ==> |EncCells(ty.desc, AsCells(v)).value| < TWO64)
      && MeasuredCells(ty.desc, AsCells(v))
  }

  predicate MeasuredCell(f: Field, c: Cell)
    decreases f, 0
  {
    if f.rule.Repeated? || f.rule.FixArray? then
      && (EncItems(f, Items(c), false).Some? ==> |EncItems(f, Items(c), false).value| < TWO64)
      && forall k | 0 <= k < |Items(c)| :: Measured(f.ty, Items(c)[k])
    else
      Measured(f.ty, Val(c))
  }

  predicate MeasuredCells(desc: Desc, cells: Cells)
    decreases desc, 1
  {
    forall i | 0 <= i < |desc.fields| :: MeasuredCell(desc.fields[i], At(cells, desc.fields[i].slot))
  }

  // ---------- pb_check_proto3_default_value ----------

  method CheckDefault(f: Field, c: Cell) returns (isDefault: bool)
    requires FieldIter.TyPacked(f.ty)
    ensures isDefault == IsDefault(f, c)
    decreases f
  {
    match f.rule
    case Required => isDefault := false;
    case Repeated(_) => isDefault := |Items(c)| == 0;
    case FixArray(max) => isDefault := max == 0;
    case Oneof => isDefault := Which(c) == 0;
    case Optional => isDefault := !Has(c);
    case Singular =>
      if f.ty.Sub? {
        isDefault := CheckAllDefault(f.ty.desc, AsCells(Val(c)));
      } else {
        isDefault := IsDefaultValue(f.ty, Val(c));
      }
  }

  predicate DefaultBefore(desc: Desc, cells: Cells, i: nat)
    requires i <= |desc.fields|
  {
    forall j | 0 <= j < i :: DefaultAt(desc, cells, j)
  }

  /** Its loop over the fields of a submessage. */
  method CheckAllDefault(desc: Desc, cells: Cells) returns (isDefault: bool)
    requires FieldIter.FullyPacked(desc)
    ensures isDefault == AllDefault(desc, cells)
    decreases desc, 1
  {
    var iter := FieldIter.Begin(desc);
    var more := |desc.fields| > 0;
    ghost var i := 0;
    while more
      invariant iter.Valid() && iter.words == desc.info && iter.count == |desc.fields|
      invariant i <= |desc.fields| && (if more then iter.index == i < |desc.fields| else i == |desc.fields|)
      invariant DefaultBefore(desc, cells, i)
      decreases |desc.fields| - i
    {
      isDefault := CheckDefaultAt(desc, cells, iter.index);
      if !isDefault {
        assert !AllDefault(desc, cells);
        return;
      }
      assert DefaultBefore(desc, cells, i + 1);
      more := iter.Next();
      i := i + 1;
    }
    isDefault := true;
  }

  method CheckDefaultAt(desc: Desc, cells: Cells, i: nat) returns (isDefault: bool)
    requires FieldIter.FullyPacked(desc) && i < |desc.fields|
    ensures isDefault == DefaultAt(desc, cells, i)
    decreases desc, 0
  {
    var f := desc.fields[i];
    isDefault := CheckDefault(f, At(cells, f.slot));
  }

  // ---------- values ----------

  /** pb_enc_varint and pb_enc_bool: sign or zero extension from data_size, then a varint. */
  method EncodeInt(stream: OStream, ty: Ty, n: int) returns (ok: bool)
    requires stream.Valid() && (ty.Bool? || ty.VarInt? || ty.UVarInt? || ty.SVarInt?)
    modifies stream, stream.buf
    ensures stream.Emitted(ok, EncValue(ty, Num(n)))
  {
    match ty
    case Bool =>
      ok := stream.EncodeVarint(if n != 0 then 1 else 0);
    case UVarInt(w) =>
      if !IntWidth(w) {
        return false;
      }
      ok := stream.EncodeVarint(ToUnsigned(n, w));
    case SVarInt(w) =>
      if !IntWidth(w) {
        return false;
      }
      ok := stream.EncodeSVarint(ToSigned(n, w));
    case VarInt(w) =>
      if !IntWidth(w) {
        return false;
      }
      ok := stream.EncodeVarint(ToUnsigned(ToSigned(n, w), 8));
  }

  /** pb_enc_string: the length up to the terminator, which must lie within the array. */
  method EncodeCString(stream: OStream, str: Bytes, dataSize: nat) returns (ok: bool)
    requires stream.Valid() && dataSize <= SIZE_MAX
    modifies stream, stream.buf
    ensures stream.Emitted(ok, EncValue(Str(dataSize), Data(str)))
  {
    if dataSize == 0 {
      return false;
    }
    // memory holds a NUL after the last byte written, as long as there is room for one
    var size := 0;
    while size < dataSize - 1 && size < |str| && str[size] != 0
      invariant size <= dataSize - 1 && size <= |str|
      invariant 0 !in str[..size]
    {
      assert str[..size + 1] == str[..size] + [str[size]];
      size := size + 1;
    }
    StrLenFrom(str, size);
    if size < |str| && str[size] != 0 {
      return false;
    }
    ok := stream.EncodeString(str[..size]);
  }

  lemma {:induction false} StrLenFrom(b: Bytes, n: nat)
    requires n <= |b| && 0 !in b[..n]
    ensures StrLen(b) >= n
    ensures n == |b| || b[n] == 0 ==> StrLen(b) == n
    ensures n < |b| && b[n] != 0 ==> StrLen(b) > n
  {
    if n > 0 {
      assert b[0] == b[..n][0];
      assert b[1..][..n - 1] == b[..n][1..];
      StrLenFrom(b[1..], n - 1);
    }
  }

  /** The payload of one field. */
  method EncodeValue(stream: OStream, ty: Ty, v: Value) returns (ok: bool)
    requires stream.Valid() && TyOk(ty) && FieldIter.TyPacked(ty) && Measured(ty, v)
    modifies stream, stream.buf
    ensures stream.Emitted(ok, EncValue(ty, v))
    decreases ty, 1
  {
    match ty
    case Fixed32 => ok := stream.EncodeFixed32(AsNum(v) % TWO32);
    case Fixed64 => ok := stream.EncodeFixed64(AsNum(v) % TWO64);
    case Blob(n) =>
      if |AsBytes(v)| > n - BYTES_OFFSET {
        return false;
      }
      ok := stream.EncodeString(AsBytes(v));
    case Str(n) => ok := EncodeCString(stream, AsBytes(v), n);
    case FixedBlob(n) => ok := stream.EncodeString(Window(AsBytes(v), n));
    case Sub(desc) => ok := EncodeSubmessage(stream, desc, AsCells(v));
    case _ => ok := EncodeInt(stream, ty, AsNum(v));
  }

  /** pb_encode_submessage: measure with a sizing stream, write the length, then encode into a
      substream limited to that length. */
  method EncodeSubmessage(stream: OStream, desc: Desc, cells: Cells) returns (ok: bool)
    requires stream.Valid() && DescOk(desc) && FieldIter.FullyPacked(desc) && MeasuredCells(desc, cells)
    requires EncCells(desc, cells).Some? ==> |EncCells(desc, cells).value| < TWO64
    modifies stream, stream.buf
    ensures stream.Emitted(ok, match EncCells(desc, cells) case None => None case Some(bs) => Some(Delimited(bs)))
    decreases desc, 4
  {
    var substream := new OStream(null, 0, 0);
    ok := EncodeMessage(substream, desc, cells);
    if !ok {
      return;
    }
    ok := stream.EncodeVarint(substream.written);
    if ok {
      ok := EncodeSized(stream, desc, cells, substream.written);
    }
  }

  /** What follows the length prefix. */
  method EncodeSized(stream: OStream, desc: Desc, cells: Cells, size: nat) returns (ok: bool)
    requires stream.Valid() && DescOk(desc) && FieldIter.FullyPacked(desc) && MeasuredCells(desc, cells)
    requires EncCells(desc, cells).Some? && |EncCells(desc, cells).value| == size
    modifies stream, stream.buf
    ensures stream.Emitted(ok, EncCells(desc, cells))
    decreases desc, 3, 2
  {
    if stream.buf == null {
      stream.Count(size);
      return true;
    }
    if stream.written + size > stream.maxSize {
      return false;
    }
    var substream := new OStream(stream.buf, stream.pos, size);
    ok := EncodeMessage(substream, desc, cells);
    stream.written := stream.written + substream.written;
    stream.pos := substream.pos;
    if substream.written != size {
      // "submsg size changed"
      ok := false;
    }
  }

  // ---------- fields ----------

  /** encode_basic_field. */
  method EncodeBasicField(stream: OStream, f: Field, v: Value) returns (ok: bool)
    requires stream.Valid() && f.tag <= SIZE_MAX && TyOk(f.ty) && FieldIter.TyPacked(f.ty) && Measured(f.ty, v)
    modifies stream, stream.buf
    ensures stream.Emitted(ok, EncBasic(f, v))
    decreases f.ty, 2, 0
  {
    ok := stream.EncodeTag(WireType(f.ty), f.tag);
    if ok {
      ghost var mid, head := stream.pos, TagBytes(WireType(f.ty), f.tag);
      ok := EncodeValue(stream, f.ty, v);
      if ok && stream.buf != null {
        assert stream.buf[old(stream.pos)..mid] == head;
        Joined(stream.buf[..], old(stream.pos), mid, stream.pos, head, EncValue(f.ty, v).value);
      }
    }
  }

  /** Two outputs in a row. */
  lemma Joined(s: Bytes, p: nat, m: nat, q: nat, x: Bytes, y: Bytes)
    requires p <= m <= q <= |s| && s[p..m] == x && s[m..q] == y
    ensures s[p..q] == x + y
  {
    assert s[p..q] == s[p..m] + s[m..q];
  }

  /** `done` followed by what is still to come. */
  function Followed(done: Bytes, rest: Option<Bytes>): Option<Bytes> {
    match rest case None => None case Some(b) => Some(done + b)
  }

  lemma FollowedNil(rest: Option<Bytes>)
    ensures Followed([], rest) == rest
  {
    if rest.Some? {
      assert [] + rest.value == rest.value;
    }
  }

  lemma FollowedTwice(done: Bytes, a: Bytes, rest: Option<Bytes>)
    ensures Followed(done, Followed(a, rest)) == Followed(done + a, rest)
  {
    if rest.Some? {
      assert done + (a + rest.value) == done + a + rest.value;
    }
  }

  lemma ItemsFollow(f: Field, items: seq<Value>, i: nat, tagged: bool, done: Bytes)
    requires i < |items|
    ensures
      var r := if tagged then EncBasic(f, items[i]) else EncValue(f.ty, items[i]);
      Followed(done, EncItems(f, items[i..], tagged)) ==
      if r.Some? then Followed(done + r.value, EncItems(f, items[i + 1..], tagged)) else None
  {
    assert items[i..][0] == items[i] && items[i..][1..] == items[i + 1..];
    var r := if tagged then EncBasic(f, items[i]) else EncValue(f.ty, items[i]);
    if r.Some? {
      FollowedTwice(done, r.value, EncItems(f, items[i + 1..], tagged));
    }
  }

  lemma FieldsFollow(desc: Desc, cells: Cells, i: nat, done: Bytes)
    requires i < |desc.fields|
    ensures
      var r := EncField(desc.fields[i], At(cells, desc.fields[i].slot));
      Followed(done, EncFrom(desc, cells, i)) ==
      if r.Some? then Followed(done + r.value, EncFrom(desc, cells, i + 1)) else None
  {
    var r := EncField(desc.fields[i], At(cells, desc.fields[i].slot));
    if r.Some? {
      FollowedTwice(done, r.value, EncFrom(desc, cells, i + 1));
    }
  }

  function EncElement(f: Field, v: Value, tagged: bool): Option<Bytes> {
    if tagged then EncBasic(f, v) else EncValue(f.ty, v)
  }

  /** One element, after `done` has been written from position `start` on. */
  method EncodeElement(stream: OStream, f: Field, v: Value, tagged: bool, ghost start: nat, ghost done: Bytes)
    returns (ok: bool)
    requires stream.Valid() && f.tag <= SIZE_MAX && TyOk(f.ty) && FieldIter.TyPacked(f.ty) && Measured(f.ty, v)
    requires stream.buf != null ==> start <= stream.pos && stream.buf[start..stream.pos] == done
    modifies stream, stream.buf
    ensures stream.Emitted(ok, EncElement(f, v, tagged))
    ensures ok && stream.buf != null ==> stream.buf[start..stream.pos] == done + EncElement(f, v, tagged).value
    decreases f.ty, 2, 1
  {
    if tagged {
      ok := EncodeBasicField(stream, f, v);
    } else {
      ok := EncodeValue(stream, f.ty, v);
    }
    if ok && stream.buf != null {
      assert stream.buf[start..old(stream.pos)] == done;
      assert stream.buf[start..stream.pos] == stream.buf[start..old(stream.pos)] + stream.buf[old(stream.pos)..stream.pos];
    }
  }

  /** The element loops of encode_array, with a tag per element or without. */
  method EncodeElements(stream: OStream, f: Field, items: seq<Value>, tagged: bool) returns (ok: bool)
    requires stream.Valid() && f.tag <= SIZE_MAX && TyOk(f.ty) && FieldIter.TyPacked(f.ty)
    requires forall k | 0 <= k < |items| :: Measured(f.ty, items[k])
    modifies stream, stream.buf
    ensures stream.Emitted(ok, EncItems(f, items, tagged))
    decreases f.ty, 3, 0
  {
    var i := 0;
    ghost var done: Bytes := [];
    FollowedNil(EncItems(f, items, tagged));
    assert items[0..] == items;
    while i < |items|
      invariant i <= |items|
      invariant stream.Emitted(true, Some(done))
      invariant EncItems(f, items, tagged) == Followed(done, EncItems(f, items[i..], tagged))
    {
      ItemsFollow(f, items, i, tagged, done);
      ok := EncodeElement(stream, f, items[i], tagged, old(stream.pos), done);
      if !ok {
        return;
      }
      done := done + EncElement(f, items[i], tagged).value;
      i := i + 1;
    }
    ok := true;
  }

  /** encode_array: the size of a packed block is known for fixed-width elements and measured
      for varints. */
  method EncodeArray(stream: OStream, f: Field, items: seq<Value>, max: nat) returns (ok: bool)
    requires stream.Valid() && f.tag <= SIZE_MAX && TyOk(f.ty) && FieldIter.TyPacked(f.ty)
    requires forall k | 0 <= k < |items| :: Measured(f.ty, items[k])
    requires EncItems(f, items, false).Some? ==> |EncItems(f, items, false).value| < TWO64
    modifies stream, stream.buf
    ensures stream.Emitted(ok, EncArray(f, items, max))
    decreases f.ty, 4
  {
    var count := |items|;
    if count == 0 {
      return true;
    }
    if count > max {
      return false;
    }
    if Packable(f.ty) {
      ok := EncodePacked(stream, f, items);
    } else {
      ok := EncodeElements(stream, f, items, true);
    }
  }

  /** Its packed case: tag, length, elements. */
  method EncodePacked(stream: OStream, f: Field, items: seq<Value>) returns (ok: bool)
    requires stream.Valid() && f.tag <= SIZE_MAX && TyOk(f.ty) && Packable(f.ty)
    requires forall k | 0 <= k < |items| :: Measured(f.ty, items[k])
    requires EncItems(f, items, false).Some? ==> |EncItems(f, items, false).value| < TWO64
    modifies stream, stream.buf
    ensures EncItems(f, items, false).Some?
    ensures stream.Emitted(ok, Some(TagBytes(WT_STRING, f.tag) + Delimited(EncItems(f, items, false).value)))
    decreases f.ty, 3, 3
  {
    PackedSize(f, items);
    ok := stream.EncodeTag(WT_STRING, f.tag);
    if !ok {
      return;
    }
    ok := EncodeBlock(stream, f, items);
  }

  /** The size of the block, then the block. */
  method EncodeBlock(stream: OStream, f: Field, items: seq<Value>) returns (ok: bool)
    requires stream.Valid() && f.tag <= SIZE_MAX && TyOk(f.ty) && Packable(f.ty)
    requires forall k | 0 <= k < |items| :: Measured(f.ty, items[k])
    requires EncItems(f, items, false).Some? && |EncItems(f, items, false).value| < TWO64
    modifies stream, stream.buf
    ensures stream.Emitted(ok, Some(Delimited(EncItems(f, items, false).value)))
    decreases f.ty, 3, 2
  {
    ghost var block := EncItems(f, items, false).value;
    var size := BlockSize(f, items);
    ok := stream.EncodeVarint(size);
    if !ok {
      return;
    }
    if stream.buf == null {
      stream.Count(size);
      return;
    }
    ghost var mid := stream.pos;
    ok := EncodeElements(stream, f, items, false);
    if ok {
      assert stream.buf[old(stream.pos)..mid] == VarintBytes(size);
      Joined(stream.buf[..], old(stream.pos), mid, stream.pos, VarintBytes(size), block);
    }
  }

  /** Known for fixed-width elements, measured with a sizing stream for varints. */
  method BlockSize(f: Field, items: seq<Value>) returns (size: nat)
    requires f.tag <= SIZE_MAX && TyOk(f.ty) && Packable(f.ty)
    requires forall k | 0 <= k < |items| :: Measured(f.ty, items[k])
    requires EncItems(f, items, false).Some?
    ensures size == |EncItems(f, items, false).value|
    decreases f.ty, 3, 1
  {
    PackedSize(f, items);
    if f.ty.Fixed32? {
      size := 4 * |items|;
    } else if f.ty.Fixed64? {
      size := 8 * |items|;
    } else {
      var sizestream := new OStream(null, 0, 0);
      var ok := EncodeElements(sizestream, f, items, false);
      size := sizestream.written;
    }
  }

  /** Fixed-width elements always encode, to their width each. */
  lemma {:induction false} PackedSize(f: Field, items: seq<Value>)
    requires Packable(f.ty) && TyOk(f.ty)
    ensures EncItems(f, items, false).Some?
    ensures f.ty.Fixed32? ==> |EncItems(f, items, false).value| == 4 * |items|
    ensures f.ty.Fixed64? ==> |EncItems(f, items, false).value| == 8 * |items|
    decreases |items|
  {
    if items != [] {
      PackedSize(f, items[1..]);
    }
  }

  /** encode_field. */
  method EncodeField(stream: OStream, f: Field, arraySize: nat, c: Cell) returns (ok: bool)
    requires FieldIter.HasSize(f.rule, arraySize)
    requires stream.Valid() && f.tag <= SIZE_MAX && TyOk(f.ty) && FieldIter.TyPacked(f.ty) && MeasuredCell(f, c)
    modifies stream, stream.buf
    ensures stream.Emitted(ok, EncField(f, c))
    decreases f, 5
  {
    match f.rule
    case Oneof =>
      if Which(c) != f.tag {
        return true;
      }
      ok := EncodeBasicField(stream, f, Val(c));
    case Optional =>
      if !Has(c) {
        return true;
      }
      ok := EncodeBasicField(stream, f, Val(c));
    case Singular =>
      var isDefault := CheckDefault(f, c);
      if isDefault {
        return true;
      }
      ok := EncodeBasicField(stream, f, Val(c));
    case Required => ok := EncodeBasicField(stream, f, Val(c));
    case Repeated(_) => ok := EncodeArray(stream, f, Items(c), arraySize);
    case FixArray(_) => ok := EncodeArray(stream, f, Items(c), arraySize);
  }

  /** `rest(i)` is what the fields from `i` on are encoded to. */
  ghost predicate IsRest(rest: nat -> Option<Bytes>, desc: Desc, cells: Cells) {
    forall i: nat {:trigger EncFrom(desc, cells, i)} | i <= |desc.fields| :: rest(i) == EncFrom(desc, cells, i)
  }

  /** Field `i`, after `done` has been written.  When it fails, so does any attempt to write
      `done` and all that follows it. */
  method EncodeFieldAt(stream: OStream, desc: Desc, cells: Cells, i: nat, ghost next: nat, arraySize: nat, ghost start: nat, ghost count: nat,
                       ghost before: Bytes, ghost done: Bytes, ghost rest: nat -> Option<Bytes>) returns (ok: bool, ghost done': Bytes)
    requires DescOk(desc) && FieldIter.FullyPacked(desc) && MeasuredCells(desc, cells) && i < |desc.fields| && next == i + 1
    requires FieldIter.HasSize(desc.fields[i].rule, arraySize)
    requires IsRest(rest, desc, cells) && rest(0) == Followed(done, rest(i))
    requires stream.EmittedSince(start, count, before, true, Some(done))
    modifies stream, stream.buf
    ensures ok ==> stream.EmittedSince(start, count, before, true, Some(done')) && rest(0) == Followed(done', rest(next))
    ensures !ok ==> stream.EmittedSince(start, count, before, false, rest(0))
    decreases desc, 2, 0
  {
    FieldsFollow(desc, cells, i, done);
    ghost var r, mid := EncField(desc.fields[i], At(cells, desc.fields[i].slot)), stream.pos;
    ok := EncodeField(stream, desc.fields[i], arraySize, At(cells, desc.fields[i].slot));
    done' := done;
    if ok {
      done' := done + r.value;
      if stream.buf != null {
        assert stream.buf[start..mid] == done;
        Joined(stream.buf[..], start, mid, stream.pos, done, r.value);
      }
    }
  }

  // ---------- messages ----------

  /** pb_encode: it succeeds exactly when the struct is encodable and the bytes fit, and then
      they are what has been appended; a sizing stream has counted exactly as many. */
  method EncodeMessage(stream: OStream, desc: Desc, cells: Cells) returns (ok: bool)
    requires stream.Valid() && DescOk(desc) && FieldIter.FullyPacked(desc) && MeasuredCells(desc, cells)
    modifies stream, stream.buf
    ensures stream.Emitted(ok, EncCells(desc, cells))
    decreases desc, 3, 1
  {
    if |desc.fields| == 0 {
      return true;
    }
    ghost var rest := (i: nat) => if i <= |desc.fields| then EncFrom(desc, cells, i) else None;
    ok := EncodeFields(stream, desc, cells, stream.pos, stream.written, if stream.buf == null then [] else stream.buf[..], rest);
  }

  /** Its loop over a message type with fields. */
  method EncodeFields(stream: OStream, desc: Desc, cells: Cells, ghost start: nat, ghost count: nat, ghost before: Bytes,
                      ghost rest: nat -> Option<Bytes>) returns (ok: bool)
    requires DescOk(desc) && FieldIter.FullyPacked(desc) && MeasuredCells(desc, cells) && |desc.fields| > 0
    requires stream.EmittedSince(start, count, before, true, Some([])) && IsRest(rest, desc, cells)
    modifies stream, stream.buf
    ensures stream.EmittedSince(start, count, before, ok, rest(0))
    decreases desc, 3, 0
  {
    var iter := FieldIter.Begin(desc);
    ghost var i: nat, done: Bytes := 0, [];
    FollowedNil(rest(0));
    while true
      invariant fresh(iter) && FieldsWritten(stream, iter, desc, i, start, count, before, done, rest)
      decreases |desc.fields| - i
    {
      var stop;
      stop, ok, done := FieldTurn(stream, iter, desc, cells, i, i + 1, start, count, before, done, rest);
      if stop {
        return;
      }
      i := i + 1;
    }
  }

  /** The fields before `i` have been written, as `done`. */
  ghost predicate FieldsWritten(stream: OStream, iter: FieldIter.Iterator, desc: Desc, i: nat, start: nat, count: nat,
                         before: Bytes, done: Bytes, rest: nat -> Option<Bytes>)
    reads stream, stream.buf, iter
  {
    && iter.Valid() && iter.words == desc.info && iter.count == |desc.fields| && iter.index == i < |desc.fields|
    && stream.EmittedSince(start, count, before, true, Some(done)) && rest(0) == Followed(done, rest(i))
  }

  /** One turn: the loop stops at an error or behind the last field. */
  method FieldTurn(stream: OStream, iter: FieldIter.Iterator, desc: Desc, cells: Cells, ghost i: nat, ghost next: nat,
                   ghost start: nat, ghost count: nat, ghost before: Bytes, ghost done: Bytes, ghost rest: nat -> Option<Bytes>)
    returns (stop: bool, ok: bool, ghost done': Bytes)
    requires DescOk(desc) && FieldIter.FullyPacked(desc) && MeasuredCells(desc, cells) && IsRest(rest, desc, cells)
    requires FieldsWritten(stream, iter, desc, i, start, count, before, done, rest) && next == i + 1
    modifies stream, stream.buf, iter
    ensures stop ==> stream.EmittedSince(start, count, before, ok, rest(0))
    ensures !stop ==> next < |desc.fields| && FieldsWritten(stream, iter, desc, next, start, count, before, done', rest)
    decreases desc, 2, 1
  {
    var k, arraySize := iter.index, iter.current.arraySize;
    FieldIter.CurrentSize(iter, desc);
    ok, done' := EncodeFieldAt(stream, desc, cells, k, next, arraySize, start, count, before, done, rest);
    if !ok {
      return true, false, done';
    }
    var more := NextField(stream, iter, desc, cells, i, next, start, count, before, done', rest);
    stop := !more;
  }

  /** pb_field_iter_next behind field `i`, which is written. */
  method NextField(ghost stream: OStream, iter: FieldIter.Iterator, ghost desc: Desc, ghost cells: Cells, ghost i: nat, ghost next: nat,
                   ghost start: nat, ghost count: nat, ghost before: Bytes, ghost done: Bytes, ghost rest: nat -> Option<Bytes>)
    returns (more: bool)
    requires IsRest(rest, desc, cells) && next == i + 1 && rest(0) == Followed(done, rest(next))
    requires iter.Valid() && iter.words == desc.info && iter.count == |desc.fields| && iter.index == i < |desc.fields|
    requires stream.EmittedSince(start, count, before, true, Some(done))
    modifies iter
    ensures more ==> next < |desc.fields| && FieldsWritten(stream, iter, desc, next, start, count, before, done, rest)
    ensures !more ==> stream.EmittedSince(start, count, before, true, rest(0))
  {
    more := iter.Next();
    if !more {
      NothingFollows(desc, cells, next, done, rest);
    }
  }

  lemma NothingFollows(desc: Desc, cells: Cells, i: nat, done: Bytes, rest: nat -> Option<Bytes>)
    requires IsRest(rest, desc, cells) && i == |desc.fields|
    ensures Followed(done, rest(i)) == Some(done)
  {
    assert EncFrom(desc, cells, i) == Some([]);
    assert done + [] == done;
  }

  /** pb_get_encoded_size. */
  method GetEncodedSize(desc: Desc, cells: Cells) returns (ok: bool, size: nat)
    requires DescOk(desc) && FieldIter.FullyPacked(desc) && MeasuredCells(desc, cells)
    ensures ok <==> EncCells(desc, cells).Some?
    ensures ok ==> size == |EncCells(desc, cells).value|
  {
    var stream := new OStream(null, 0, 0);
    ok := EncodeMessage(stream, desc, cells);
    size := stream.written;
  }
}
