/** The protobuf wire format as src/nanopb reads and writes it: varints, little-endian
    words, tags, and skipping.  Everything here is a function of a byte sequence; the
    stream objects in Streams.dfy are proved to compute these functions.

    Bytes are integers below 256.  Masks and shifts of the C code appear as `%` and `/` by
    powers of two, and an `|=` of disjoint bits as an addition. */
module Wire {
  type byte = b: int | 0 <= b < 256
  type Bytes = seq<byte>

  const TWO32: nat := 0x1_0000_0000
  const TWO64: nat := 0x1_0000_0000_0000_0000

  /** What reading from the front of a byte sequence yields: an error, or a value and the
      number of bytes it occupied. */
  datatype Parsed<+T> = Bad | Got(value: T, size: nat)

  // ---------- varints ----------

  /** The base-128 digits of `n`, least significant first, all but the last marked with the
      continuation bit. */
  function VarintBytes(n: nat): (s: Bytes)
    ensures |s| >= 1
  {
    if n < 128 then [n] else [n % 128 + 128] + VarintBytes(n / 128)
  }

  /** pb_decode_varint after `k` bytes (bitpos == 7 * k): bits past the 64th are an error. */
  function VarintAt(s: Bytes, k: nat): (r: Parsed<nat>)
    ensures r.Got? ==> 1 <= r.size <= |s|
  {
    if s == [] then Bad
    else if k >= 9 && s[0] >= 2 then Bad
    else if s[0] < 128 then Got(s[0], 1)
    else
      match VarintAt(s[1..], k + 1)
      case Bad => Bad
      case Got(v, n) => Got(s[0] - 128 + 128 * v, n + 1)
  }

  function Varint(s: Bytes): (r: Parsed<nat>)
    ensures r.Got? ==> 1 <= r.size <= |s|
  {
    VarintAt(s, 0)
  }

  /** 2^(7k) for the digits that fall inside 32 bits. */
  function Weight(k: nat): nat
    requires k <= 4
  {
    if k == 0 then 1 else if k == 1 then 0x80 else if k == 2 then 0x4000 else if k == 3 then 0x20_0000 else 0x1000_0000
  }

  /** `x << 7 * k`. */
  function Place(x: nat, k: nat): nat
    requires k <= 4
  {
    if k == 0 then x else if k == 1 then x * 0x80 else if k == 2 then x * 0x4000
    else if k == 3 then x * 0x20_0000 else x * 0x1000_0000
  }

  /** `b & 0x7F`. */
  function Low7(b: byte): (d: nat)
    ensures d < 128
  {
    if b < 128 then b else b - 128
  }

  /** The test pb_decode_varint32 makes on byte number `k` (bitpos == 7 * k) with value `b`
      when `acc` has been collected.  Past 32 bits it takes zeros, or the sign bits of a
      negative value; of the fifth byte the bits past 32 must all be clear or all be set. */
  predicate Accepts32(b: byte, k: nat, acc: nat) {
    if k >= 5 then
      k < 10 && (Low7(b) == 0 || (acc >= 0x8000_0000 && b == (if k < 9 then 0xFF else 0x01)))
    else if k == 4 then
      Low7(b) < 16 || Low7(b) >= 120
    else
      true
  }

  function Collect32(b: byte, k: nat, acc: nat): nat {
    if k >= 5 then acc
    else if k == 4 then acc + Place(if Low7(b) < 16 then Low7(b) else if Low7(b) >= 112 then Low7(b) - 112 else 0, 4)
    else acc + Place(Low7(b), k)
  }

  function Varint32At(s: Bytes, k: nat, acc: nat): (r: Parsed<nat>)
    ensures r.Got? ==> 1 <= r.size <= |s|
  {
    if s == [] || !Accepts32(s[0], k, acc) then Bad
    else if s[0] < 128 then Got(Collect32(s[0], k, acc), 1)
    else
      match Varint32At(s[1..], k + 1, Collect32(s[0], k, acc))
      case Bad => Bad
      case Got(v, n) => Got(v, n + 1)
  }

  function Varint32(s: Bytes): (r: Parsed<nat>)
    ensures r.Got? ==> 1 <= r.size <= |s|
  {
    Varint32At(s, 0, 0)
  }

  /** What is left of 64 bits after `k` digits. */
  function Room(k: nat): nat
    requires k <= 9
  {
    if k == 0 then TWO64 else Room(k - 1) / 128
  }

  lemma RoomValues()
    ensures Room(1) == 0x200_0000_0000_0000 && Room(2) == 0x4_0000_0000_0000 && Room(3) == 0x800_0000_0000
    ensures Room(4) == 0x10_0000_0000 && Room(5) == 0x2000_0000 && Room(6) == 0x40_0000
    ensures Room(7) == 0x8000 && Room(8) == 0x100 && Room(9) == 2
  {
    assert Room(1) == 0x200_0000_0000_0000;
    assert Room(2) == 0x4_0000_0000_0000;
    assert Room(3) == 0x800_0000_0000;
    assert Room(4) == 0x10_0000_0000;
    assert Room(5) == 0x2000_0000;
    assert Room(6) == 0x40_0000;
    assert Room(7) == 0x8000;
    assert Room(8) == 0x100;
  }

  lemma RoomShrinks(n: nat, k: nat)
    requires k <= 9 && n < Room(k) && n >= 128
    ensures k <= 8 && n / 128 < Room(k + 1)
  {
    RoomValues();
  }

  lemma {:induction false} VarintAtRoundTrip(n: nat, k: nat, t: Bytes)
    requires k <= 9 && n < Room(k)
    ensures VarintAt(VarintBytes(n) + t, k) == Got(n, |VarintBytes(n)|)
  {
    RoomValues();
    if n >= 128 {
      RoomShrinks(n, k);
      VarintAtRoundTrip(n / 128, k + 1, t);
      assert (VarintBytes(n) + t)[1..] == VarintBytes(n / 128) + t;
    }
  }

  /** The decoder inverts the encoder on every 64-bit value. */
  lemma VarintRoundTrip(n: nat, t: Bytes)
    requires n < TWO64
    ensures Varint(VarintBytes(n) + t) == Got(n, |VarintBytes(n)|)
  {
    VarintAtRoundTrip(n, 0, t);
  }

  lemma PlaceStep(d: nat, q: nat, k: nat)
    requires k < 4
    ensures Place(d + 128 * q, k) == Place(d, k) + Place(q, k + 1)
  {
  }

  lemma PlaceCeiling(n: nat, k: nat)
    requires k <= 4 && Place(n, k) < TWO32
    ensures n >= 128 ==> k < 4 && Place(n / 128, k + 1) < TWO32
    ensures k == 4 ==> n < 16
  {
    if n >= 128 && k < 4 {
      PlaceStep(n % 128, n / 128, k);
    }
  }

  /** The last digit of a 32-bit value, where `pb_decode_varint32` keeps four bits only. */
  lemma Varint32Top(n: nat, acc: nat, t: Bytes)
    requires n < 16
    ensures Varint32At(VarintBytes(n) + t, 4, acc) == Got(acc + Place(n, 4), 1)
  {
  }

  lemma {:induction false} Varint32AtRoundTrip(n: nat, k: nat, acc: nat, t: Bytes)
    requires k <= 4 && Place(n, k) < TWO32
    ensures Varint32At(VarintBytes(n) + t, k, acc) == Got(acc + Place(n, k), |VarintBytes(n)|)
  {
    PlaceCeiling(n, k);
    if k == 4 {
      Varint32Top(n, acc, t);
    } else if n >= 128 {
      var d := n % 128;
      Varint32AtRoundTrip(n / 128, k + 1, acc + Place(d, k), t);
      assert (VarintBytes(n) + t)[1..] == VarintBytes(n / 128) + t;
      PlaceStep(d, n / 128, k);
    }
  }

  lemma Varint32RoundTrip(n: nat, t: Bytes)
    requires n < TWO32
    ensures Varint32(VarintBytes(n) + t) == Got(n, |VarintBytes(n)|)
  {
    Varint32AtRoundTrip(n, 0, 0, t);
  }

  /** No encoding of a value is shorter than the one the encoder emits. */
  lemma {:induction false} VarintIsMinimal(s: Bytes, k: nat)
    requires VarintAt(s, k).Got?
    ensures |VarintBytes(VarintAt(s, k).value)| <= VarintAt(s, k).size
  {
    if s[0] >= 128 {
      VarintIsMinimal(s[1..], k + 1);
    }
  }

  /** Every decoded value has 64 bits. */
  lemma {:induction false} VarintFits(s: Bytes, k: nat)
    requires k <= 9 && VarintAt(s, k).Got?
    ensures VarintAt(s, k).value < Room(k)
  {
    RoomValues();
    if s[0] >= 128 {
      VarintFits(s[1..], k + 1);
      if k == 0 {} else if k == 1 {} else if k == 2 {} else if k == 3 {} else if k == 4 {}
      else if k == 5 {} else if k == 6 {} else if k == 7 {} else {}
    }
  }

  lemma {:induction false} Varint32Padding(s: Bytes, k: nat, acc: nat)
    requires 5 <= k && Varint32At(s, k, acc).Got?
    ensures Varint32At(s, k, acc).value == acc
    ensures VarintAt(s, k).Got? && VarintAt(s, k).size == Varint32At(s, k, acc).size
  {
    if s[0] >= 128 {
      Varint32Padding(s[1..], k + 1, acc);
    }
  }

  lemma ModuloPeriod(a: nat, q: nat)
    ensures (a + q * TWO32) % TWO32 == a % TWO32
  {
  }

  /** Only the low four bits of the fifth digit matter modulo 2^32. */
  lemma TopDigit(acc: nat, d: nat, w: nat)
    requires d < 128
    ensures (acc + (d + 128 * w) * 0x1000_0000) % TWO32 == (acc + (d % 16) * 0x1000_0000) % TWO32
  {
    var r, q := d % 16, d / 16 + 8 * w;
    assert d + 128 * w == r + 16 * q;
    ModuloPeriod(acc + r * 0x1000_0000, q);
  }

  lemma Varint32RefinesTop(s: Bytes, acc: nat)
    requires Varint32At(s, 4, acc).Got?
    ensures VarintAt(s, 4).Got? && VarintAt(s, 4).size == Varint32At(s, 4, acc).size
    ensures (acc + Place(VarintAt(s, 4).value, 4)) % TWO32 == Varint32At(s, 4, acc).value % TWO32
  {
    var b := s[0];
    var d := Low7(b);
    assert d % 16 == if d < 16 then d else d - 112;
    if b >= 128 {
      Varint32Padding(s[1..], 5, Collect32(b, 4, acc));
      TopDigit(acc, d, VarintAt(s[1..], 5).value);
    } else {
      TopDigit(acc, d, 0);
    }
  }

  lemma {:induction false} Varint32RefinesAt(s: Bytes, k: nat, acc: nat)
    requires k <= 4 && Varint32At(s, k, acc).Got?
    ensures VarintAt(s, k).Got? && VarintAt(s, k).size == Varint32At(s, k, acc).size
    ensures (acc + Place(VarintAt(s, k).value, k)) % TWO32 == Varint32At(s, k, acc).value % TWO32
  {
    var b := s[0];
    if k == 4 {
      Varint32RefinesTop(s, acc);
    } else if b >= 128 {
      var acc' := Collect32(b, k, acc);
      Varint32RefinesAt(s[1..], k + 1, acc');
      var w := VarintAt(s[1..], k + 1).value;
      PlaceStep(b - 128, w, k);
    }
  }

  lemma {:induction false} Varint32FitsAt(s: Bytes, k: nat, acc: nat)
    requires Varint32At(s, k, acc).Got?
    requires if k <= 4 then acc < Weight(k) else acc < TWO32
    ensures Varint32At(s, k, acc).value < TWO32
  {
    var acc' := Collect32(s[0], k, acc);
    assert if k + 1 <= 4 then acc' < Weight(k + 1) else acc' < TWO32 by {
      if k == 0 {} else if k == 1 {} else if k == 2 {} else if k == 3 {} else if k == 4 {} else {}
    }
    if s[0] >= 128 {
      Varint32FitsAt(s[1..], k + 1, acc');
    } else {
      if k == 0 {} else if k == 1 {} else if k == 2 {} else if k == 3 {} else {}
    }
  }

  /** Whenever the 32-bit reader succeeds the 64-bit reader succeeds on the same bytes,
      consumes the same count and agrees modulo 2^32. */
  lemma Varint32Refines(s: Bytes)
    requires Varint32(s).Got?
    ensures Varint(s).Got? && Varint(s).size == Varint32(s).size
    ensures Varint32(s).value == Varint(s).value % TWO32
  {
    Varint32RefinesAt(s, 0, 0);
    Varint32FitsAt(s, 0, 0);
  }

  /** Longer values never have shorter encodings. */
  lemma {:induction false} VarintLengthGrows(a: nat, b: nat)
    requires a <= b
    ensures |VarintBytes(a)| <= |VarintBytes(b)|
  {
    if a >= 128 {
      VarintLengthGrows(a / 128, b / 128);
    }
  }

  lemma VarintLengths()
    ensures |VarintBytes(0xFF)| == 2 && |VarintBytes(0xFFFF)| == 3 && |VarintBytes(0xFFFF_FFFF)| == 5
    ensures |VarintBytes(TWO64 - 1)| == 10
    ensures |VarintBytes(16383)| == 2
  {
    assert |VarintBytes(0x1FF_FFFF)| == 4 by { assert |VarintBytes(0x3_FFFF)| == 3; }
    assert |VarintBytes(TWO64 - 1)| == 10 by {
      assert |VarintBytes(0x7FFF)| == 3;
      assert |VarintBytes(0x3F_FFFF)| == 4;
      assert |VarintBytes(0x1FFF_FFFF)| == 5;
      assert |VarintBytes(0xF_FFFF_FFFF)| == 6;
      assert |VarintBytes(0x7FF_FFFF_FFFF)| == 7;
      assert |VarintBytes(0x3_FFFF_FFFF_FFFF)| == 8;
      assert |VarintBytes(0x1FF_FFFF_FFFF_FFFF)| == 9;
    }
  }

  // ---------- zigzag ----------

  /** The value pb_encode_svarint emits for a signed 64-bit `v`. */
  function ZigZag(v: int): nat {
    if v < 0 then -2 * v - 1 else 2 * v
  }

  /** The value pb_decode_svarint recovers from a 64-bit varint: `~(v >> 1)` or `v >> 1`. */
  function UnZigZag(v: nat): int {
    if v % 2 == 1 then -1 - v / 2 else v / 2
  }

  /** The two are inverse bijections between signed and unsigned 64-bit integers. */
  lemma ZigZagRoundTrip(v: int, u: nat)
    requires -(TWO64 / 2) <= v < TWO64 / 2 && u < TWO64
    ensures ZigZag(v) < TWO64 && UnZigZag(ZigZag(v)) == v
    ensures -(TWO64 / 2) <= UnZigZag(u) < TWO64 / 2 && ZigZag(UnZigZag(u)) == u
  {
  }

  // ---------- fixed-width words ----------

  function LittleEndian(n: nat, w: nat): (s: Bytes)
    ensures |s| == w
  {
    if w == 0 then [] else [n % 256] + LittleEndian(n / 256, w - 1)
  }

  function FromLittleEndian(s: Bytes): nat {
    if s == [] then 0 else s[0] + 256 * FromLittleEndian(s[1..])
  }

  function Power256(w: nat): (p: nat)
    ensures p >= 1
  {
    if w == 0 then 1 else 256 * Power256(w - 1)
  }

  lemma {:induction false} LittleEndianRoundTrip(n: nat, w: nat)
    requires n < Power256(w)
    ensures FromLittleEndian(LittleEndian(n, w)) == n
  {
    if w > 0 {
      LittleEndianRoundTrip(n / 256, w - 1);
    }
  }

  lemma {:induction false} FromLittleEndianFits(s: Bytes)
    ensures FromLittleEndian(s) < Power256(|s|)
  {
    if s != [] {
      FromLittleEndianFits(s[1..]);
    }
  }

  lemma WordSizes()
    ensures Power256(1) == 0x100 && Power256(2) == 0x1_0000 && Power256(4) == TWO32 && Power256(8) == TWO64
  {
    assert Power256(2) == 0x1_0000;
    assert Power256(4) == TWO32;
    assert Power256(6) == 0x1_0000_0000_0000;
  }

  function Fixed(s: Bytes, w: nat): (r: Parsed<nat>)
    ensures r.Got? ==> r.size == w <= |s|
  {
    if |s| < w then Bad else Got(FromLittleEndian(s[..w]), w)
  }

  lemma FixedRoundTrip(n: nat, w: nat, t: Bytes)
    requires n < Power256(w)
    ensures Fixed(LittleEndian(n, w) + t, w) == Got(n, w)
  {
    LittleEndianRoundTrip(n, w);
    assert (LittleEndian(n, w) + t)[..w] == LittleEndian(n, w);
  }

  // ---------- tags, lengths and skipping ----------

  const WT_VARINT: nat := 0
  const WT_64BIT: nat := 1
  const WT_STRING: nat := 2
  const WT_32BIT: nat := 5
  /** PB_WT_PACKED: internal marker for elements of a packed array. */
  const WT_PACKED: nat := 255

  function TagBytes(wt: nat, tag: nat): Bytes {
    VarintBytes(tag * 8 + wt)
  }

  /** A length prefix and the bytes it covers (pb_encode_string). */
  function Delimited(s: Bytes): (r: Bytes)
    ensures |r| == |VarintBytes(|s|)| + |s|
  {
    VarintBytes(|s|) + s
  }

  /** pb_make_string_substream: the bytes covered by a length prefix. */
  function Prefixed(s: Bytes): (r: Parsed<Bytes>)
    ensures r.Got? ==> |r.value| < r.size <= |s|
    ensures r.Got? ==> r.value == s[r.size - |r.value|..r.size]
  {
    match Varint32(s)
    case Bad => Bad
    case Got(n, k) => if |s| - k < n then Bad else Got(s[k..k + n], k + n)
  }

  lemma PrefixedRoundTrip(s: Bytes, t: Bytes)
    requires |s| < TWO32
    ensures Prefixed(Delimited(s) + t) == Got(s, |Delimited(s)|)
  {
    Varint32RoundTrip(|s|, s + t);
    assert Delimited(s) + t == VarintBytes(|s|) + (s + t);
    var k := |VarintBytes(|s|)|;
    assert (Delimited(s) + t)[k..k + |s|] == s;
  }

  /** pb_skip_varint: no limit on the number of continuation bytes. */
  function SkipVarint(s: Bytes): (r: Parsed<()>)
    ensures r.Got? ==> 1 <= r.size <= |s|
  {
    if s == [] then Bad
    else if s[0] < 128 then Got((), 1)
    else match SkipVarint(s[1..]) case Bad => Bad case Got(_, n) => Got((), n + 1)
  }

  /** pb_skip_field. */
  function Skip(wt: nat, s: Bytes): (r: Parsed<()>)
    ensures r.Got? ==> 1 <= r.size <= |s|
  {
    if wt == WT_VARINT then SkipVarint(s)
    else if wt == WT_64BIT then if |s| < 8 then Bad else Got((), 8)
    else if wt == WT_STRING then match Prefixed(s) case Bad => Bad case Got(_, n) => Got((), n)
    else if wt == WT_32BIT then if |s| < 4 then Bad else Got((), 4)
    else Bad
  }

  /** Tag, wire type and extent of the record at the front of `s`: what a reader that knows no
      descriptor at all can tell. */
  function Record(s: Bytes): (r: Parsed<(nat, nat)>)
    ensures r.Got? ==> 1 <= r.size <= |s|
  {
    match Varint32(s)
    case Bad => Bad
    case Got(t, k) =>
      match Skip(t % 8, s[k..])
      case Bad => Bad
      case Got(_, n) => Got((t / 8, t % 8), k + n)
  }

  // ---------- a successful read depends only on the bytes it consumes ----------

  lemma {:induction false} VarintLocal(s: Bytes, t: Bytes, k: nat)
    requires VarintAt(s, k).Got? && s[..VarintAt(s, k).size] <= t
    ensures VarintAt(t, k) == VarintAt(s, k)
  {
    assert t[0] == s[..VarintAt(s, k).size][0] == s[0];
    if s[0] >= 128 {
      assert s[1..][..VarintAt(s[1..], k + 1).size] == s[..VarintAt(s, k).size][1..];
      VarintLocal(s[1..], t[1..], k + 1);
    }
  }

  lemma {:induction false} Varint32Local(s: Bytes, t: Bytes, k: nat, acc: nat)
    requires Varint32At(s, k, acc).Got? && s[..Varint32At(s, k, acc).size] <= t
    ensures Varint32At(t, k, acc) == Varint32At(s, k, acc)
  {
    assert t[0] == s[..Varint32At(s, k, acc).size][0] == s[0];
    if s[0] >= 128 {
      var acc' := Collect32(s[0], k, acc);
      assert s[1..][..Varint32At(s[1..], k + 1, acc').size] == s[..Varint32At(s, k, acc).size][1..];
      Varint32Local(s[1..], t[1..], k + 1, acc');
    }
  }

  lemma PrefixedLocal(s: Bytes, t: Bytes)
    requires Prefixed(s).Got? && s[..Prefixed(s).size] <= t
    ensures Prefixed(t) == Prefixed(s)
  {
    var Got(n, k) := Varint32(s);
    var p := s[..k + n];
    assert s[..k] == p[..k] <= t;
    Varint32Local(s, t, 0, 0);
    assert t[k..k + n] == p[k..k + n] == s[k..k + n];
  }

  lemma FixedLocal(s: Bytes, t: Bytes, w: nat)
    requires Fixed(s, w).Got? && s[..w] <= t
    ensures Fixed(t, w) == Fixed(s, w)
  {
    assert t[..w] == s[..w];
  }

  lemma {:induction false} SkipVarintLocal(s: Bytes, t: Bytes)
    requires SkipVarint(s).Got? && s[..SkipVarint(s).size] <= t
    ensures SkipVarint(t) == SkipVarint(s)
  {
    assert t[0] == s[..SkipVarint(s).size][0] == s[0];
    if s[0] >= 128 {
      assert s[1..][..SkipVarint(s[1..]).size] == s[..SkipVarint(s).size][1..];
      SkipVarintLocal(s[1..], t[1..]);
    }
  }

  lemma SkipLocal(wt: nat, s: Bytes, t: Bytes)
    requires Skip(wt, s).Got? && s[..Skip(wt, s).size] <= t
    ensures Skip(wt, t) == Skip(wt, s)
  {
    if wt == WT_VARINT {
      SkipVarintLocal(s, t);
    } else if wt == WT_STRING {
      PrefixedLocal(s, t);
    }
  }

  /** How a read after a tag or length sees a prefix. */
  lemma PrefixTail(s: Bytes, t: Bytes, k: nat, n: nat)
    requires k + n <= |s| && s[..k + n] <= t
    ensures s[..k] <= t && s[k..][..n] <= t[k..]
  {
    var p := s[..k + n];
    assert t[..k] == p[..k] == s[..k];
    assert t[k..][..n] == p[k..] == s[k..][..n];
  }

  lemma RecordLocal(s: Bytes, t: Bytes)
    requires Record(s).Got? && s[..Record(s).size] <= t
    ensures Record(t) == Record(s)
  {
    var Got(u, k) := Varint32(s);
    var n := Skip(u % 8, s[k..]).size;
    PrefixTail(s, t, k, n);
    Varint32Local(s, t, 0, 0);
    SkipLocal(u % 8, s[k..], t[k..]);
  }

  lemma {:induction false} VarintExtent(s: Bytes, k: nat)
    requires VarintAt(s, k).Got?
    ensures SkipVarint(s) == Got((), VarintAt(s, k).size)
  {
    if s[0] >= 128 {
      VarintExtent(s[1..], k + 1);
    }
  }
}
