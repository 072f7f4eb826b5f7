/** Which numbers and payloads a field accepts (pb_decode.c: pb_dec_varint, pb_dec_bool,
    pb_dec_fixed32, pb_dec_fixed64, pb_dec_bytes, pb_dec_string, pb_dec_fixed_length_bytes): said of
    what is sent and of the bounds, and carried to pb_decode on messages with one field. */
module Ranges {
  import opened Wire
  import opened Message
  import opened Encoding
  import opened Wrappers
  import opened Decoding
  import opened RoundTrip
  import opened Presence

  // ---------- varints ----------

  /** `n` bytes of which exactly the last one has its upper bit clear. */
  predicate Terminated(s: Bytes, n: nat) {
    1 <= n <= |s| && s[n - 1] < 128 && forall i | 0 <= i < n - 1 :: s[i] >= 128
  }

  /** Their lower seven bits, least significant first. */
  function Digits(s: Bytes, n: nat): nat
    requires n <= |s|
  {
    if n == 0 then 0 else s[0] as nat % 128 + 128 * Digits(s[1..], n - 1)
  }

  lemma {:induction false} VarintAtExact(s: Bytes, k: nat, n: nat)
    requires k <= 9
    ensures
      VarintAt(s, k).Got? && VarintAt(s, k).size == n <==>
      Terminated(s, n) && k + n <= 10 && (k + n == 10 ==> s[n - 1] <= 1)
    ensures VarintAt(s, k).Got? && VarintAt(s, k).size == n ==> VarintAt(s, k).value == Digits(s, n)
    decreases |s|
  {
    if s != [] && s[0] >= 128 && n >= 1 && k < 9 {
      VarintAtExact(s[1..], k + 1, n - 1);
      assert forall i | 1 <= i < |s| :: s[i] == s[1..][i - 1];
    }
  }

  /** A varint has up to ten bytes, the tenth at most 1; it need not be the shortest form of its value. */
  lemma VarintExact(s: Bytes, n: nat)
    ensures
      Varint(s).Got? && Varint(s).size == n <==>
      Terminated(s, n) && n <= 10 && (n == 10 ==> s[9] <= 1)
    ensures Varint(s).Got? && Varint(s).size == n ==> Varint(s).value == Digits(s, n)
  {
    VarintAtExact(s, 0, n);
  }

  // ---------- the 32-bit reader ----------

  /** The first five digits hold 35 bits.  The three bits too many must all be clear, or all be set like the
      sign bit. */
  predicate FitsIn32(d: nat) { d < 0x1_0000_0000 || 0x7_8000_0000 <= d < 0x8_0000_0000 }

  /** Each byte behind them is without digits or, behind a negative number, all ones up to bit 63. */
  predicate OnlySign(s: Bytes, n: nat, negative: bool)
    requires n <= |s|
  {
    forall i | 5 <= i < n :: s[i] as nat % 128 == 0 || (negative && s[i] == if i < 9 then 0xFF else 1)
  }

  function Digits32(s: Bytes, n: nat): nat
    requires n <= |s|
  {
    Digits(s, if n < 5 then n else 5)
  }

  /** Behind the fifth byte. */
  lemma {:induction false} SignAt(t: Bytes, s: Bytes, k: nat, acc: nat, n: nat)
    requires 5 <= k <= 10 && k <= |t| && s == t[k..] && k < n
    requires forall i | 0 <= i < k :: t[i] >= 128
    ensures
      Varint32At(s, k, acc) == Got(acc, n - k) <==>
      && n <= 10 && Terminated(t, n)
      && forall i | k <= i < n :: t[i] as nat % 128 == 0 || (acc >= 0x8000_0000 && t[i] == if i < 9 then 0xFF else 1)
    ensures Varint32At(s, k, acc).Got? ==> Varint32At(s, k, acc).value == acc
    decreases |t| - k
  {
    if s != [] && Accepts32(s[0], k, acc) && s[0] >= 128 && k < 10 {
      assert s[1..] == t[k + 1..] && s[0] == t[k];
      if k + 1 < n {
        SignAt(t, s[1..], k + 1, acc, n);
      } else {
        assert Varint32At(s[1..], k + 1, acc).Got? ==> Varint32At(s[1..], k + 1, acc).size >= 1;
        SignValue(s[1..], k + 1, acc);
      }
    }
  }

  lemma {:induction false} SignValue(s: Bytes, k: nat, acc: nat)
    requires k >= 5
    ensures Varint32At(s, k, acc).Got? ==> Varint32At(s, k, acc).value == acc
    decreases |s|
  {
    if s != [] && s[0] >= 128 {
      SignValue(s[1..], k + 1, acc);
    }
  }

  lemma {:induction false} DigitsMore(t: Bytes, k: nat)
    requires k <= 4 && k < |t|
    ensures Digits(t, k + 1) == Digits(t, k) + Place(t[k] as nat % 128, k)
    ensures Digits(t, k) < Weight(k)
    decreases k
  {
    if k > 0 {
      DigitsMore(t[1..], k - 1);
    } else {
      assert Digits(t[1..], 0) == 0;
    }
  }

  /** What the reader makes of a varint of `n` bytes. */
  predicate Reads32(t: Bytes, n: nat) {
    && Terminated(t, n) && n <= 10
    && (n >= 5 ==> FitsIn32(Digits(t, 5)) && OnlySign(t, n, Digits(t, 5) % 0x1_0000_0000 >= 0x8000_0000))
  }

  /** The fifth byte. */
  lemma Fifth(t: Bytes, s: Bytes, acc: nat, n: nat)
    requires |t| >= 5 && s == t[4..] && n >= 5 && acc == Digits(t, 4) && forall i | 0 <= i < 4 :: t[i] >= 128
    ensures Varint32At(s, 4, acc).Got? && Varint32At(s, 4, acc).size == n - 4 <==> Reads32(t, n)
    ensures Varint32At(s, 4, acc).Got? ==> Varint32At(s, 4, acc).value == Digits(t, 5) % 0x1_0000_0000
  {
    var all := Digits(t, 5);
    DigitsMore(t, 4);
    FifthDigit(s[0], acc, all);
    if FitsIn32(all) {
      FifthTaken(t, s, acc, n, all % 0x1_0000_0000);
    }
  }

  lemma FifthDigit(b: byte, acc: nat, all: nat)
    requires acc < 0x1000_0000 && all == acc + Place(b as nat % 128, 4)
    ensures FitsIn32(all) <==> Accepts32(b, 4, acc)
    ensures FitsIn32(all) ==> Collect32(b, 4, acc) == all % 0x1_0000_0000
  {
    var d := b as nat % 128;
    if d >= 120 {
      assert all == 7 * 0x1_0000_0000 + (acc + Place(d - 112, 4));
    }
  }

  lemma FifthTaken(t: Bytes, s: Bytes, acc: nat, n: nat, c: nat)
    requires |t| >= 5 && s == t[4..] && n >= 5 && forall i | 0 <= i < 4 :: t[i] >= 128
    requires Accepts32(s[0], 4, acc) && Collect32(s[0], 4, acc) == c
    ensures Varint32At(s, 4, acc).Got? ==> Varint32At(s, 4, acc).value == c
    ensures
      Varint32At(s, 4, acc).Got? && Varint32At(s, 4, acc).size == n - 4 <==>
      Terminated(t, n) && n <= 10 && OnlySign(t, n, c >= 0x8000_0000)
  {
    if s[0] >= 128 {
      assert s[1..] == t[5..];
      SignValue(s[1..], 5, c);
      if n > 5 {
        SignAt(t, s[1..], 5, c, n);
      }
    }
  }

  /** Where the varint ends, seen from its byte `k`. */
  lemma EndsAt(t: Bytes, k: nat, n: nat)
    requires k <= 3 && k < n && k <= |t| && forall i | 0 <= i < k :: t[i] >= 128
    ensures k == |t| ==> !Reads32(t, n)
    ensures k < |t| && t[k] < 128 ==> (Reads32(t, n) <==> n == k + 1)
    ensures k < |t| && t[k] >= 128 && n == k + 1 ==> !Reads32(t, n)
  {
  }

  lemma OneMore(t: Bytes, s: Bytes, k: nat, acc: nat)
    requires k <= 3 && k < |t| && s == t[k..] && acc == Digits(t, k)
    ensures s[1..] == t[k + 1..] && s[0] == t[k] && Accepts32(s[0], k, acc)
    ensures Collect32(s[0], k, acc) == Digits(t, k + 1) < 0x1_0000_0000
  {
    DigitsMore(t, k);
  }

  lemma {:induction false} Front(t: Bytes, s: Bytes, k: nat, acc: nat, n: nat)
    requires k <= 4 && k < n && k <= |t| && s == t[k..] && acc == Digits(t, k) && forall i | 0 <= i < k :: t[i] >= 128
    ensures Varint32At(s, k, acc).Got? && Varint32At(s, k, acc).size == n - k <==> Reads32(t, n)
    ensures Reads32(t, n) ==> Varint32At(s, k, acc).value == Digits32(t, n) % 0x1_0000_0000
    decreases 4 - k
  {
    if k == 4 {
      if s != [] {
        Fifth(t, s, acc, n);
      }
    } else {
      EndsAt(t, k, n);
      if s != [] {
        OneMore(t, s, k, acc);
        if s[0] >= 128 && n > k + 1 {
          Front(t, s[1..], k + 1, Digits(t, k + 1), n);
        }
      }
    }
  }

  /** The 32-bit reader takes the same bytes, if what does not fit into 32 bits is the sign; its value is that
      of the first five digits. */
  lemma Varint32Exact(s: Bytes, n: nat)
    ensures Varint32(s).Got? && Varint32(s).size == n <==> Reads32(s, n)
    ensures Reads32(s, n) ==> Varint32(s).value == Digits32(s, n) % 0x1_0000_0000
  {
    if n > 0 {
      Front(s, s, 0, 0, n);
    }
  }

  // ---------- numbers ----------

  predicate Integer(ty: Ty) { ty.VarInt? || ty.UVarInt? || ty.SVarInt? }

  /** The 64-bit varint `u`, read as the type says: int32 and narrower take the low 32 bits, signed. */
  function Sent(ty: Ty, u: nat): int {
    match ty
    case VarInt(w) =>
      if w == 8 then if u < 0x8000_0000_0000_0000 then u else u - 0x1_0000_0000_0000_0000
      else
        var low := u % 0x1_0000_0000;
        if low < 0x8000_0000 then low else low - 0x1_0000_0000
    case SVarInt(_) => if u % 2 == 0 then u / 2 else -(u + 1) / 2
    case _ => u
  }

  predicate InRange(ty: Ty, n: int) {
    match ty
    case UVarInt(w) =>
      0 <= n <= (if w == 1 then 0xFF else if w == 2 then 0xFFFF else if w == 4 then 0xFFFF_FFFF else 0xFFFF_FFFF_FFFF_FFFF)
    case VarInt(w) => Between(n, w)
    case SVarInt(w) => Between(n, w)
    case _ => false
  }

  predicate Between(n: int, w: nat) {
    if w == 1 then -0x80 <= n <= 0x7F
    else if w == 2 then -0x8000 <= n <= 0x7FFF
    else if w == 4 then -0x8000_0000 <= n <= 0x7FFF_FFFF
    else -0x8000_0000_0000_0000 <= n <= 0x7FFF_FFFF_FFFF_FFFF
  }

  lemma Unsigned(u: nat, w: nat)
    requires IntWidth(w) && u < TWO64
    ensures ToUnsigned(u, w) == u <==> InRange(UVarInt(w), u)
  {
    if u < Modulus(w) {
      assert u % Modulus(w) == u;
    }
  }

  lemma Signed(s: int, w: nat)
    requires IntWidth(w)
    ensures ToSigned(s, w) == s <==> Between(s, w)
  {
    var m := Modulus(w);
    if -(m / 2) <= s < m / 2 {
      assert s % m == if s < 0 then s + m else s;
    }
  }

  lemma LowBits(u: nat)
    requires u < TWO64
    ensures ToSigned(u, 4) == Sent(VarInt(4), u) && ToSigned(u, 8) == Sent(VarInt(8), u)
  {
    assert u % TWO64 == u;
  }

  lemma NumberRange(ty: Ty, u: nat)
    requires Integer(ty) && TyOk(ty) && u < TWO64
    ensures IntOf(ty, u) == if InRange(ty, Sent(ty, u)) then Some(Num(Sent(ty, u))) else None
  {
    LowBits(u);
    match ty
    case UVarInt(w) => Unsigned(u, w);
    case VarInt(w) => Signed(Sent(ty, u), w);
    case SVarInt(w) => Signed(Sent(ty, u), w);
  }

  /** A number is accepted exactly if it lies in the range of its type, and is stored as sent. */
  lemma NumberAccepted(ty: Ty, s: Bytes)
    requires Integer(ty) && TyOk(ty) && Varint(s).Got?
    ensures
      var n := Sent(ty, Varint(s).value);
      DecScalar(ty, WT_VARINT, s) == if InRange(ty, n) then Got(Num(n), Varint(s).size) else Bad
  {
    VarintFits(s, 0);
    NumberRange(ty, Varint(s).value);
  }

  // ---------- payloads ----------

  /** Capacity: a string needs one more byte for its terminator, bytes two for their size; bytes of
      fixed length come in that length, or not at all. */
  predicate Holds(ty: Ty, bs: Bytes) {
    match ty
    case Str(n) => |bs| <= n - 1
    case Blob(n) => |bs| <= n - 2
    case FixedBlob(n) => |bs| == n || |bs| == 0
    case _ => false
  }

  function Kept(ty: Ty, bs: Bytes): Bytes {
    if ty.FixedBlob? && bs == [] then seq(ty.dataSize, _ => 0) else bs
  }

  lemma PayloadAccepted(ty: Ty, bs: Bytes)
    requires (ty.Str? || ty.Blob? || ty.FixedBlob?) && TyOk(ty) && |bs| < TWO32
    ensures
      DecScalar(ty, WT_STRING, Delimited(bs)) == if Holds(ty, bs) then Got(Data(Kept(ty, bs)), |Delimited(bs)|) else Bad
  {
    PrefixedRoundTrip(bs, []);
    assert Delimited(bs) + [] == Delimited(bs);
    if ty.FixedBlob? && bs == [] {
      assert Window([], ty.dataSize) == Kept(ty, bs);
    }
  }

  // ---------- messages with one field ----------

  predicate OneField(desc: Desc, ty: Ty) {
    && DescOk(desc) && |desc.fields| == 1 && desc.fields[0].ty == ty
    && (desc.fields[0].rule.Required? || desc.fields[0].rule.Optional? || desc.fields[0].rule.Singular?)
  }

  /** The struct that holds `v`. */
  function Holding1(desc: Desc, v: Value): Cells
    requires |desc.fields| == 1
  {
    [if desc.fields[0].rule.Optional? then Opt(true, v) else Plain(v)]
  }

  lemma OneFieldDecodes(desc: Desc, ty: Ty, dest: Cells, wt: nat, payload: Bytes, v: Value)
    requires OneField(desc, ty) && !ty.Sub? && wt < 8 && DecScalar(ty, wt, payload) == Got(v, |payload|)
    ensures Decode(desc, dest, TagBytes(wt, desc.fields[0].tag) + payload) == Some(Holding1(desc, v))
  {
    var f, st := desc.fields[0], Start(SetDefaults(desc, dest));
    assert SlotOk(desc.fields, 0);
    OneRecord(desc, 0, st, wt, payload, Holding1(desc, v)[0], NoFixing);
    assert Put(st.cells, 0, Holding1(desc, v)[0]) == Holding1(desc, v);
    OneSeen(desc);
  }

  lemma OneSeen(desc: Desc)
    requires |desc.fields| == 1
    ensures AllSeen(desc, Mark(desc, 0, {}))
  {
    assert RequiredBefore(desc, 0) == 0 && RequiredCount(desc) == RequiredBefore(desc, 1) <= 1;
  }

  lemma OneFieldRefuses(desc: Desc, ty: Ty, dest: Cells, wt: nat, payload: Bytes)
    requires OneField(desc, ty) && !ty.Sub? && wt < 8 && Skip(wt, payload) == Got((), |payload|)
    requires DecScalar(ty, wt, payload).Bad?
    ensures Decode(desc, dest, TagBytes(wt, desc.fields[0].tag) + payload).None?
  {
    var st, a := Start(SetDefaults(desc, dest)), TagBytes(wt, desc.fields[0].tag) + payload;
    RefusedRecord(desc, 0, st, wt, payload, []);
    assert a + [] == a;
  }

  /** pb_decode on a message with one integer field, required, optional or singular, of any tag and into
      any memory: it succeeds exactly if the number sent is in range, and stores the number sent. */
  lemma IntegerMessage(desc: Desc, ty: Ty, dest: Cells, s: Bytes)
    requires OneField(desc, ty) && Integer(ty) && Varint(s).Got? && Varint(s).size == |s|
    ensures
      var n := Sent(ty, Varint(s).value);
      Decode(desc, dest, TagBytes(WT_VARINT, desc.fields[0].tag) + s) ==
      if InRange(ty, n) then Some(Holding1(desc, Num(n))) else None
  {
    var n := Sent(ty, Varint(s).value);
    NumberAccepted(ty, s);
    if InRange(ty, n) {
      OneFieldDecodes(desc, ty, dest, WT_VARINT, s, Num(n));
    } else {
      VarintExtent(s, 0);
      OneFieldRefuses(desc, ty, dest, WT_VARINT, s);
    }
  }

  /** A bool: whatever 32 bits arrive, true unless they are zero. */
  lemma BoolMessage(desc: Desc, dest: Cells, s: Bytes)
    requires OneField(desc, Bool) && Varint32(s).Got? && Varint32(s).size == |s|
    ensures
      Decode(desc, dest, VarintBytes(8 * desc.fields[0].tag) + s) ==
      Some(Holding1(desc, Num(if Varint32(s).value == 0 then 0 else 1)))
  {
    OneFieldDecodes(desc, Bool, dest, WT_VARINT, s, Num(if Varint32(s).value == 0 then 0 else 1));
  }

  /** The same for strings and bytes. */
  lemma PayloadMessage(desc: Desc, ty: Ty, dest: Cells, bs: Bytes)
    requires OneField(desc, ty) && (ty.Str? || ty.Blob? || ty.FixedBlob?) && |bs| < TWO32
    ensures
      Decode(desc, dest, TagBytes(WT_STRING, desc.fields[0].tag) + Delimited(bs)) ==
      if Holds(ty, bs) then Some(Holding1(desc, Data(Kept(ty, bs)))) else None
  {
    PayloadAccepted(ty, bs);
    if Holds(ty, bs) {
      OneFieldDecodes(desc, ty, dest, WT_STRING, Delimited(bs), Data(Kept(ty, bs)));
    } else {
      PrefixedRoundTrip(bs, []);
      assert Delimited(bs) + [] == Delimited(bs);
      OneFieldRefuses(desc, ty, dest, WT_STRING, Delimited(bs));
    }
  }

  /** And for words of fixed width, whose tags are 8t + 5 and 8t + 1: least significant byte first. */
  lemma Fixed32Message(desc: Desc, dest: Cells, a: byte, b: byte, c: byte, d: byte)
    requires OneField(desc, Fixed32)
    ensures
      Decode(desc, dest, VarintBytes(8 * desc.fields[0].tag + 5) + [a, b, c, d]) ==
      Some(Holding1(desc, Num(a + 0x100 * b + 0x1_0000 * c + 0x100_0000 * d)))
  {
    FourBytes(a, b, c, d);
    OneFieldDecodes(desc, Fixed32, dest, WT_32BIT, [a, b, c, d], Num(a + 0x100 * b + 0x1_0000 * c + 0x100_0000 * d));
  }

  lemma FourBytes(a: byte, b: byte, c: byte, d: byte)
    ensures FromLittleEndian([a, b, c, d]) == a + 0x100 * b + 0x1_0000 * c + 0x100_0000 * d
    ensures [a, b, c, d][..4] == [a, b, c, d]
  {
    assert [a, b, c, d][1..] == [b, c, d] && [b, c, d][1..] == [c, d] && [c, d][1..] == [d];
    assert [d][1..] == [] && FromLittleEndian([d]) == d as nat;
    assert FromLittleEndian([c, d]) == c as nat + 0x100 * d as nat;
    assert FromLittleEndian([b, c, d]) == b as nat + 0x100 * c as nat + 0x1_0000 * d as nat;
  }

  function Word32(s: Bytes): nat
    requires |s| == 4
  {
    s[0] as nat + 0x100 * s[1] as nat + 0x1_0000 * s[2] as nat + 0x100_0000 * s[3] as nat
  }

  lemma WordIs(s: Bytes)
    requires |s| == 4
    ensures FromLittleEndian(s) == Word32(s)
  {
    assert s == [s[0], s[1], s[2], s[3]];
    FourBytes(s[0], s[1], s[2], s[3]);
  }

  lemma {:induction false} LittleEndianSplits(s: Bytes, t: Bytes)
    ensures FromLittleEndian(s + t) == FromLittleEndian(s) + Power256(|s|) * FromLittleEndian(t)
  {
    if s == [] {
      assert s + t == t;
    } else {
      assert (s + t)[1..] == s[1..] + t;
      LittleEndianSplits(s[1..], t);
      Distribute(s[0], FromLittleEndian(s[1..]), Power256(|s| - 1), FromLittleEndian(t));
    }
  }

  lemma Distribute(d: nat, a: nat, p: nat, b: nat)
    ensures d + 256 * (a + p * b) == d + 256 * a + 256 * p * b
  {
  }

  lemma Fixed64Message(desc: Desc, dest: Cells, low: Bytes, high: Bytes)
    requires OneField(desc, Fixed64) && |low| == |high| == 4
    ensures
      Decode(desc, dest, VarintBytes(8 * desc.fields[0].tag + 1) + (low + high)) ==
      Some(Holding1(desc, Num(Word32(low) + 0x1_0000_0000 * Word32(high))))
  {
    LittleEndianSplits(low, high);
    WordSizes();
    WordIs(low);
    WordIs(high);
    assert (low + high)[..8] == low + high;
    OneFieldDecodes(desc, Fixed64, dest, WT_64BIT, low + high, Num(Word32(low) + 0x1_0000_0000 * Word32(high)));
  }

  /** 2^32 in a uint32 field with tag 1 is refused; 2^32 - 1 is stored. */
  lemma TooLarge(dest: Cells)
    ensures
      var desc := Desc([Field(1, Required, UVarInt(4), 0)], []);
      && Decode(desc, dest, [8, 0x80, 0x80, 0x80, 0x80, 0x10]) == None
      && Decode(desc, dest, [8, 0xFF, 0xFF, 0xFF, 0xFF, 0x0F]) == Some([Plain(Num(0xFFFF_FFFF))])
  {
    var desc := Desc([Field(1, Required, UVarInt(4), 0)], []);
    FiveByteVarints();
    AfterEight(desc, dest, [0x80, 0x80, 0x80, 0x80, 0x10], 0x1_0000_0000, [8, 0x80, 0x80, 0x80, 0x80, 0x10]);
    AfterEight(desc, dest, [0xFF, 0xFF, 0xFF, 0xFF, 0x0F], 0xFFFF_FFFF, [8, 0xFF, 0xFF, 0xFF, 0xFF, 0x0F]);
  }

  lemma AfterEight(desc: Desc, dest: Cells, s: Bytes, n: nat, all: Bytes)
    requires desc.fields == [Field(1, Required, UVarInt(4), 0)] && Varint(s) == Got(n, |s|) && all == [8] + s
    ensures Decode(desc, dest, all) == if n <= 0xFFFF_FFFF then Some([Plain(Num(n))]) else None
  {
    assert TagBytes(WT_VARINT, 1) == [8];
    IntegerMessage(desc, UVarInt(4), dest, s);
  }

  lemma FiveByteVarints()
    ensures Varint([0x80, 0x80, 0x80, 0x80, 0x10]) == Got(0x1_0000_0000, 5)
    ensures Varint([0xFF, 0xFF, 0xFF, 0xFF, 0x0F]) == Got(0xFFFF_FFFF, 5)
  {
    assert VarintAt([0x10], 4) == Got(0x10, 1) && VarintAt([0x0F], 4) == Got(0x0F, 1);
    Continues([0x80, 0x10], 3, 0x10, 1);
    Continues([0x80, 0x80, 0x10], 2, 0x800, 2);
    Continues([0x80, 0x80, 0x80, 0x10], 1, 0x4_0000, 3);
    Continues([0x80, 0x80, 0x80, 0x80, 0x10], 0, 0x200_0000, 4);
    Continues([0xFF, 0x0F], 3, 0x0F, 1);
    Continues([0xFF, 0xFF, 0x0F], 2, 0x7FF, 2);
    Continues([0xFF, 0xFF, 0xFF, 0x0F], 1, 0x3_FFFF, 3);
    Continues([0xFF, 0xFF, 0xFF, 0xFF, 0x0F], 0, 0x1FF_FFFF, 4);
  }

  lemma Continues(s: Bytes, k: nat, v: nat, n: nat)
    requires k < 9 && s != [] && s[0] >= 128 && VarintAt(s[1..], k + 1) == Got(v, n)
    ensures VarintAt(s, k) == Got(s[0] - 128 + 128 * v, n + 1)
  {
  }

  // ---------- what is sent ----------

  /** A number of any type in range: its tag with the wire type, and its payload.  Signed integers are
      extended to 64 bits; zigzag sends the non-negative ones as even numbers. */
  lemma NumberBytes(f: Field, n: int)
    requires Packable(f.ty) && ValueOk(f.ty, Num(n))
    ensures
      var sent := EncBasic(f, Num(n));
      && (f.ty.Fixed32? ==> n >= 0 && sent == Some(VarintBytes(8 * f.tag + 5) + LittleEndian(n, 4)))
      && (f.ty.Fixed64? ==> n >= 0 && sent == Some(VarintBytes(8 * f.tag + 1) + LittleEndian(n, 8)))
      && (f.ty.VarInt? && n < 0 ==> n + TWO64 >= 0 && sent == Some(VarintBytes(8 * f.tag) + VarintBytes(n + TWO64)))
      && (f.ty.SVarInt? ==> sent == Some(VarintBytes(8 * f.tag) + VarintBytes(if n < 0 then -2 * n - 1 else 2 * n)))
      && ((f.ty.Bool? || f.ty.UVarInt? || (f.ty.VarInt? && n >= 0)) ==>
           n >= 0 && sent == Some(VarintBytes(8 * f.tag) + VarintBytes(n)))
  {
    NumberPayload(f.ty, n);
    TagIs(f);
  }

  lemma TagIs(f: Field)
    ensures TagBytes(WireType(f.ty), f.tag) == VarintBytes(8 * f.tag + WireType(f.ty))
  {
  }

  lemma NumberPayload(ty: Ty, n: int)
    requires Packable(ty) && ValueOk(ty, Num(n))
    ensures
      var sent := EncValue(ty, Num(n));
      && (ty.Fixed32? ==> n >= 0 && sent == Some(LittleEndian(n, 4)))
      && (ty.Fixed64? ==> n >= 0 && sent == Some(LittleEndian(n, 8)))
      && (ty.VarInt? && n < 0 ==> n + TWO64 >= 0 && sent == Some(VarintBytes(n + TWO64)))
      && (ty.SVarInt? ==> sent == Some(VarintBytes(if n < 0 then -2 * n - 1 else 2 * n)))
      && ((ty.Bool? || ty.UVarInt? || (ty.VarInt? && n >= 0)) ==> n >= 0 && sent == Some(VarintBytes(n)))
  {
    match ty
    case VarInt(w) => Extended(n, w);
    case Fixed32 => Small(n, TWO32);
    case Fixed64 => Small(n, TWO64);
    case _ =>
  }

  lemma Small(n: nat, m: nat)
    requires n < m
    ensures n % m == n
  {
  }

  lemma Extended(n: int, w: nat)
    requires IntWidth(w) && n == ToSigned(n, w)
    ensures ToUnsigned(n, 8) == if n < 0 then n + 0x1_0000_0000_0000_0000 else n
  {
    assert -0x8000_0000_0000_0000 <= n < 0x8000_0000_0000_0000;
    if n < 0 {
      assert n % TWO64 == n + TWO64;
    }
  }

  /** Zigzag orders by magnitude, a negative number just before its opposite. */
  lemma ZigZagOrders(v: int, w: int)
    ensures ZigZag(v) < ZigZag(w) <==> Magnitude(v) < Magnitude(w) || (v < 0 && w == -v)
    ensures ZigZag(v) % 2 == 0 <==> v >= 0
  {
  }

  function Magnitude(v: int): nat { if v < 0 then -v else v }
}
