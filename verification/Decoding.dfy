/** pb_decode_inner as a function: what a sequence of bytes does to a struct. */
module Decoding {
  import opened Wire
  import opened Message
  import opened Encoding
  import opened Wrappers

  // ---------- single values ----------

  /** pb_dec_varint after the varint `u` has been read: conversion and overflow check. */
  function IntOf(ty: Ty, u: nat): Option<Value> {
    match ty
    case UVarInt(w) => if IntWidth(w) && ToUnsigned(u, w) == u then Some(Num(u)) else None
    case VarInt(w) =>
      var s := if w == 8 then ToSigned(u, 8) else ToSigned(u, 4);
      if IntWidth(w) && ToSigned(s, w) == s then Some(Num(s)) else None
    case SVarInt(w) =>
      var s := UnZigZag(u);
      if IntWidth(w) && ToSigned(s, w) == s then Some(Num(s)) else None
    case _ => None
  }

  /** pb_dec_bytes, pb_dec_string, pb_dec_fixed_length_bytes: what a delimited payload of
      these types stores. */
  function DataOf(ty: Ty, bs: Bytes): Option<Value> {
    match ty
    case Blob(n) => if |bs| > SIZE_MAX || |bs| + BYTES_OFFSET > n then None else Some(Data(bs))
    case Str(n) => if |bs| == TWO32 - 1 || |bs| + 1 > n then None else Some(Data(bs))
    case FixedBlob(n) =>
      if |bs| > SIZE_MAX then None
      else if |bs| == 0 then Some(Data(Window([], n)))
      else if |bs| != n then None
      else Some(Data(bs))
    case _ => None
  }

  /** decode_basic_field for everything but submessages. */
  function DecScalar(ty: Ty, wt: nat, s: Bytes): (r: Parsed<Value>)
    ensures r.Got? ==> 1 <= r.size <= |s|
  {
    match ty
    case Bool =>
      if wt != WT_VARINT && wt != WT_PACKED then Bad
      else
        (match Varint32(s)
         case Bad => Bad
         case Got(v, n) => Got(Num(if v == 0 then 0 else 1), n))
    case Fixed32 =>
      if wt != WT_32BIT && wt != WT_PACKED then Bad
      else (match Fixed(s, 4) case Bad => Bad case Got(v, n) => Got(Num(v), n))
    case Fixed64 =>
      if wt != WT_64BIT && wt != WT_PACKED then Bad
      else (match Fixed(s, 8) case Bad => Bad case Got(v, n) => Got(Num(v), n))
    case Blob(_) => DecDelimited(ty, wt, s)
    case Str(_) => DecDelimited(ty, wt, s)
    case FixedBlob(_) => DecDelimited(ty, wt, s)
    case Sub(_) => Bad
    case _ =>
      if wt != WT_VARINT && wt != WT_PACKED then Bad
      else
        match Varint(s)
        case Bad => Bad
        case Got(u, n) =>
          match IntOf(ty, u)
          case None => Bad
          case Some(v) => Got(v, n)
  }

  function DecDelimited(ty: Ty, wt: nat, s: Bytes): (r: Parsed<Value>)
    ensures r.Got? ==> 1 <= r.size <= |s|
  {
    if wt != WT_STRING then Bad
    else
      match Prefixed(s)
      case Bad => Bad
      case Got(bs, n) =>
        match DataOf(ty, bs)
        case None => Bad
        case Some(v) => Got(v, n)
  }

  /** The elements of a packed block, at most `room` of them and nothing left over. */
  function PackedItems(ty: Ty, room: int, s: Bytes): (r: Option<seq<Value>>)
    ensures r.Some? ==> |r.value| <= (if room < 0 then 0 else room)
    decreases |s|
  {
    if s == [] then Some([])
    else if room <= 0 then None
    else
      match DecScalar(ty, WT_PACKED, s)
      case Bad => None
      case Got(v, n) =>
        match PackedItems(ty, room - 1, s[n..])
        case None => None
        case Some(vs) => Some([v] + vs)
  }

  // ---------- decoder state ----------

  /** Progress through the fixed-count array met last: fixed_count_field (none while
      inactive), fixed_count_size and fixed_count_total_size. */
  datatype Fixing = Fixing(active: bool, index: nat, size: nat, total: nat)

  const NoFixing := Fixing(false, 0, 0, 0)

  /** The struct being filled, the required fields seen (by required_field_index, the first
      64 only), and the fixed-count progress. */
  datatype State = State(cells: Cells, seen: set<nat>, fixing: Fixing)

  const MAX_REQUIRED: nat := 64

  predicate Complete(fx: Fixing) { !fx.active || fx.size == fx.total }

  /** Entering fixed-count field `i`: the previous one must be complete. */
  function Enter(fx: Fixing, i: nat, max: nat): Option<Fixing> {
    if fx.active && fx.index == i then Some(fx)
    else if Complete(fx) then Some(Fixing(true, i, 0, max))
    else None
  }

  /** Items `vs` stored in a fixed-count array from position `pos` on. */
  function Overlay(items: seq<Value>, pos: nat, vs: seq<Value>): (r: seq<Value>)
    ensures |r| == |items|
  {
    seq(|items|, k requires 0 <= k < |items| => if pos <= k < pos + |vs| then vs[k - pos] else items[k])
  }

  function ItemAt(items: seq<Value>, k: nat): Value {
    if k < |items| then items[k] else Num(0)
  }

  function Mark(desc: Desc, i: nat, seen: set<nat>): set<nat>
    requires i < |desc.fields|
  {
    if desc.fields[i].rule.Required? && RequiredBefore(desc, i) < MAX_REQUIRED
    then seen + {RequiredBefore(desc, i)} else seen
  }

  /** The required-field check at the end of a message. */
  predicate AllSeen(desc: Desc, seen: set<nat>) {
    forall r | 0 <= r < RequiredCount(desc) && r < MAX_REQUIRED :: r in seen
  }

  // ---------- fields ----------

  /** decode_basic_field.  `prev` is the memory decoded into; `init` tells whether a
      submessage is first set to its defaults (no PB_DECODE_NOINIT). */
  function DecBasic(ty: Ty, wt: nat, prev: Value, init: bool, s: Bytes): (r: Parsed<Value>)
    ensures r.Got? ==> 1 <= r.size <= |s|
    decreases |s|, 1
  {
    if ty.Sub? then
      if wt != WT_STRING then Bad
      else
        match Prefixed(s)
        case Bad => Bad
        case Got(bs, n) =>
          var cells := if init then SetDefaults(ty.desc, Cast(ty.desc, prev)) else Cast(ty.desc, prev);
          match DecInner(ty.desc, cells, bs)
          case None => Bad
          case Some(r) => Got(Struct(r), n)
    else
      DecScalar(ty, wt, s)
  }

  /** decode_static_field for field `i`: the new contents of its cell and the new
      fixed-count progress. */
  function DecField(f: Field, i: nat, wt: nat, c: Cell, fx: Fixing, s: Bytes): (r: Parsed<(Cell, Fixing)>)
    ensures r.Got? ==> 1 <= r.size <= |s|
    decreases |s|, 2
  {
    match f.rule
    case Required => (match DecBasic(f.ty, wt, Val(c), false, s) case Bad => Bad case Got(v, n) => Got((Plain(v), fx), n))
    case Singular => (match DecBasic(f.ty, wt, Val(c), false, s) case Bad => Bad case Got(v, n) => Got((Plain(v), fx), n))
    case Optional => (match DecBasic(f.ty, wt, Val(c), false, s) case Bad => Bad case Got(v, n) => Got((Opt(true, v), fx), n))
    case Repeated(max) =>
      if wt == WT_STRING && Packable(f.ty) then
        match Prefixed(s)
        case Bad => Bad
        case Got(bs, n) =>
          match PackedItems(f.ty, max - |Items(c)|, bs)
          case None => Bad
          case Some(vs) => Got((Arr(Items(c) + vs), fx), n)
      else if |Items(c)| >= max then Bad
      else (match DecBasic(f.ty, wt, Zero(f.ty), true, s) case Bad => Bad case Got(v, n) => Got((Arr(Items(c) + [v]), fx), n))
    case FixArray(max) =>
      (match Enter(fx, i, max)
       case None => Bad
       case Some(fx) =>
         if wt == WT_STRING && Packable(f.ty) then
           match Prefixed(s)
           case Bad => Bad
           case Got(bs, n) =>
             match PackedItems(f.ty, max - fx.size, bs)
             case None => Bad
             case Some(vs) => Got((Arr(Overlay(Items(c), fx.size, vs)), fx.(size := fx.size + |vs|)), n)
         else if fx.size >= max then Bad
         else
           match DecBasic(f.ty, wt, ItemAt(Items(c), fx.size), true, s)
           case Bad => Bad
           case Got(v, n) => Got((Arr(Overlay(Items(c), fx.size, [v])), fx.(size := fx.size + 1)), n))
    case Oneof =>
      // a submessage that was not the current member starts from zeroed, defaulted memory
      var prev := if f.ty.Sub? && Which(c) != f.tag then DefaultValue(f.ty, Zero(f.ty)) else Val(c);
      match DecBasic(f.ty, wt, prev, false, s)
      case Bad => Bad
      case Got(v, n) => Got((Union(f.tag, v), fx), n)
  }

  // ---------- messages ----------

  /** One turn of the pb_decode_inner loop: a tag and the field it announces. */
  function DecStep(desc: Desc, st: State, s: Bytes): (r: Parsed<State>)
    ensures r.Got? ==> 1 <= r.size <= |s| && |r.value.cells| == |st.cells|
    decreases |s|, 3
  {
    match Varint32(s)
    case Bad => Bad
    case Got(t, k) =>
      var tag, wt := t / 8, t % 8;
      if tag == 0 then Bad
      else
        var i := Lookup(desc, tag);
        if i == |desc.fields| then
          match Skip(wt, s[k..])
          case Bad => Bad
          case Got(_, n) => Got(st, k + n)
        else
          var f := desc.fields[i];
          match DecField(f, i, wt, At(st.cells, f.slot), st.fixing, s[k..])
          case Bad => Bad
          case Got((c, fx), n) => Got(State(Put(st.cells, f.slot, c), Mark(desc, i, st.seen), fx), k + n)
  }

  function DecLoop(desc: Desc, st: State, s: Bytes): (r: Option<State>)
    ensures r.Some? ==> |r.value.cells| == |st.cells|
    decreases |s|, 4
  {
    if s == [] then Some(st)
    else
      match DecStep(desc, st, s)
      case Bad => None
      case Got(st', n) => DecLoop(desc, st', s[n..])
  }

  /** The checks after the loop. */
  predicate Accepted(desc: Desc, st: State) {
    Complete(st.fixing) && AllSeen(desc, st.seen)
  }

  function Start(cells: Cells): State { State(cells, {}, NoFixing) }

  /** pb_decode_inner with PB_DECODE_NOINIT. */
  function DecInner(desc: Desc, cells: Cells, s: Bytes): (r: Option<Cells>)
    ensures r.Some? ==> |r.value| == |cells|
    decreases |s|, 5
  {
    match DecLoop(desc, Start(cells), s)
    case None => None
    case Some(st) => if Accepted(desc, st) then Some(st.cells) else None
  }

  /** pb_decode: the destination is set to its defaults first. */
  function Decode(desc: Desc, dest: Cells, s: Bytes): (r: Option<Cells>)
    ensures r.Some? ==> |r.value| == |desc.fields|
  {
    DecInner(desc, SetDefaults(desc, dest), s)
  }
}
