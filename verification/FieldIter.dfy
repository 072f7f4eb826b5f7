/** pb_field_iter_t: the cyclic iterator over a packed field_info array, and the packing of
    field descriptors into 1, 2, 4 or 8 words. */
module FieldIter {
  import opened Wire
  import opened Message

  // ---------- packed descriptors ----------

  /** What load_descriptor_values extracts for one field. */
  datatype Info = Info(tag: nat, typ: nat, dataOffset: nat, dataSize: nat, sizeOffset: nat, arraySize: nat)

  /** `1 << (word0 & 3)`: the number of words of a descriptor. */
  function Width(word0: nat): (w: nat)
    ensures w == 1 || w == 2 || w == 4 || w == 8
  {
    var k := word0 % 4;
    if k == 0 then 1 else if k == 1 then 2 else if k == 2 then 4 else 8
  }

  function Word(words: seq<nat>, i: nat): nat {
    if i < |words| then words[i] else 0
  }

  /** Bits `lo` and up of a word, `width` values wide. */
  function Bits(word: nat, lo: nat, range: nat): nat
    requires lo > 0 && range > 0
  {
    (word / lo) % range
  }

  /** The conversion to the 16-bit pb_size_t. */
  function Size(n: nat): (s: nat)
    ensures s <= SIZE_MAX && (n <= SIZE_MAX ==> s == n)
  {
    n % 0x1_0000
  }

  /** load_descriptor_values. */
  function Load(words: seq<nat>, at: nat): Info {
    var w0, w1, w2, w3, w4 :=
      Word(words, at), Word(words, at + 1), Word(words, at + 2), Word(words, at + 3), Word(words, at + 4);
    var typ := Bits(w0, 0x100, 0x100);
    var low := Bits(w0, 4, 0x40);
    match Width(w0)
    case 1 => Info(low, typ, Bits(w0, 0x1_0000, 0x100), Bits(w0, 0x1000_0000, 0x10), Bits(w0, 0x100_0000, 0x10), 1)
    case 2 => Info(low + 0x40 * (w1 / 0x1000_0000), typ, w1 % 0x1_0000, Bits(w1, 0x1_0000, 0x1000),
                   Bits(w0, 0x1000_0000, 0x10), Bits(w0, 0x1_0000, 0x1000))
    case 4 => Info(Size(low + 0x40 * (w1 / 0x100)), typ, w2, Size(w3), w1 % 0x100, Size(w0 / 0x1_0000))
    case _ => Info(Size(low + 0x40 * (w1 / 0x100)), typ, w2, Size(w3), w1 % 0x100, Size(w4))
  }

  /** PB_FIELDINFO_ASSERT_n: what each format has room for. */
  predicate Fits(f: Info, width: nat) {
    && f.typ < 0x100
    && (match width
        case 1 => f.tag < 0x40 && f.dataOffset < 0x100 && f.sizeOffset < 0x10 && f.dataSize < 0x10 && f.arraySize < 2
        case 2 => f.tag < 0x400 && f.dataOffset < 0x1_0000 && f.sizeOffset < 0x10 && f.dataSize < 0x1000 && f.arraySize < 0x1000
        case 4 => f.tag < 0x1_0000 && f.dataOffset < 0x1_0000 && f.sizeOffset < 0x80 && f.dataSize < 0x1_0000 && f.arraySize < 0x1_0000
        case 8 => f.tag < 0x1_0000 && f.dataOffset < 0x1_0000 && f.sizeOffset < 0x80 && f.dataSize < 0x1_0000 && f.arraySize < 0x1_0000
        case _ => false)
  }

  /** What the format has room for at all: one word holds no array_size, and 1 is read. */
  function Held(f: Info, width: nat): Info {
    if width == 1 then f.(arraySize := 1) else f
  }

  /** PB_FIELDINFO_n. */
  function Pack(f: Info, width: nat): seq<nat> {
    var head := (f.tag % 0x40) * 4 + f.typ * 0x100;
    match width
    case 1 => [0 + head + (f.dataOffset % 0x100) * 0x1_0000 + (f.sizeOffset % 0x10) * 0x100_0000 + (f.dataSize % 0x10) * 0x1000_0000]
    case 2 => [1 + head + (f.arraySize % 0x1000) * 0x1_0000 + (f.sizeOffset % 0x10) * 0x1000_0000,
               f.dataOffset % 0x1_0000 + (f.dataSize % 0x1000) * 0x1_0000 + ((f.tag / 0x40) % 0x10) * 0x1000_0000]
    case 4 => [2 + head + (f.arraySize % 0x1_0000) * 0x1_0000, f.sizeOffset % 0x100 + (f.tag / 0x40) * 0x100, f.dataOffset, f.dataSize]
    case _ => [3 + head, f.sizeOffset % 0x100 + (f.tag / 0x40) * 0x100, f.dataOffset, f.dataSize, f.arraySize, 0, 0, 0]
  }

  lemma PackedWords(f: Info, width: nat, words: seq<nat>, at: nat)
    requires Fits(f, width) && at + |Pack(f, width)| <= |words| && words[at..at + |Pack(f, width)|] == Pack(f, width)
    ensures |Pack(f, width)| == width
    ensures forall k | 0 <= k < width :: words[at + k] == Pack(f, width)[k]
  {
    var p := Pack(f, width);
    forall k | 0 <= k < |p|
      ensures words[at + k] == p[k]
    {
      assert words[at..at + |p|][k] == words[at + k];
    }
  }

  /** A sum of bit fields, each below the weight of the next, splits into them again. */
  lemma FourFields(a: nat, b: nat, c: nat, d: nat)
    requires a < 4 && b < 0x40 && c < 0x100
    ensures (a + b * 4 + c * 0x100 + d * 0x1_0000) % 4 == a
    ensures Bits(a + b * 4 + c * 0x100 + d * 0x1_0000, 4, 0x40) == b
    ensures Bits(a + b * 4 + c * 0x100 + d * 0x1_0000, 0x100, 0x100) == c
    ensures (a + b * 4 + c * 0x100 + d * 0x1_0000) / 0x1_0000 == d
  {
    var w := a + b * 4 + c * 0x100 + d * 0x1_0000;
    assert w / 4 == b + 0x40 * (c + 0x100 * d);
    assert w / 0x100 == c + 0x100 * d;
  }

  lemma Small(x: nat, m: nat)
    requires x < m
    ensures x % m == x
  {
  }

  lemma LoadOne(f: Info, words: seq<nat>, at: nat)
    requires Fits(f, 1) && Word(words, at) == Pack(f, 1)[0]
    ensures Width(Word(words, at)) == 1 && Load(words, at) == Held(f, 1)
  {
    var d := f.dataOffset + f.sizeOffset * 0x100 + f.dataSize * 0x1000;
    Small(f.tag, 0x40);
    Small(f.dataOffset, 0x100);
    Small(f.sizeOffset, 0x10);
    Small(f.dataSize, 0x10);
    FourFields(0, f.tag, f.typ, d);
    assert Word(words, at) == 0 + f.tag * 4 + f.typ * 0x100 + d * 0x1_0000;
    OneWordTop(Word(words, at), f.dataOffset, f.sizeOffset, f.dataSize);
  }

  lemma LoadTwo(f: Info, words: seq<nat>, at: nat)
    requires Fits(f, 2) && Word(words, at) == Pack(f, 2)[0] && Word(words, at + 1) == Pack(f, 2)[1]
    ensures Width(Word(words, at)) == 2 && Load(words, at) == f
  {
    SplitTag(f.tag);
    FirstOfTwo(f, Word(words, at));
    SecondOfTwo(f, Word(words, at + 1));
  }

  lemma SecondOfTwo(f: Info, w: nat)
    requires Fits(f, 2) && w == Pack(f, 2)[1]
    ensures w % 0x1_0000 == f.dataOffset && Bits(w, 0x1_0000, 0x1000) == f.dataSize && w / 0x1000_0000 == f.tag / 0x40
  {
    Small(f.dataOffset, 0x1_0000);
    Small(f.dataSize, 0x1000);
    Small(f.tag / 0x40, 0x10);
    SecondWord(w, f.dataOffset, f.dataSize, f.tag / 0x40);
  }

  lemma FirstOfTwo(f: Info, w: nat)
    requires Fits(f, 2) && w == Pack(f, 2)[0]
    ensures w % 4 == 1 && Bits(w, 4, 0x40) == f.tag % 0x40 && Bits(w, 0x100, 0x100) == f.typ
    ensures Bits(w, 0x1_0000, 0x1000) == f.arraySize && Bits(w, 0x1000_0000, 0x10) == f.sizeOffset
  {
    var d := f.arraySize + f.sizeOffset * 0x1000;
    Small(f.arraySize, 0x1000);
    Small(f.sizeOffset, 0x10);
    FourFields(1, f.tag % 0x40, f.typ, d);
    assert w == 1 + (f.tag % 0x40) * 4 + f.typ * 0x100 + d * 0x1_0000;
    TwoWordTop(w, f.arraySize, f.sizeOffset);
  }

  lemma SplitTag(tag: nat)
    ensures tag == tag % 0x40 + 0x40 * (tag / 0x40)
  {
  }

  lemma LoadWide(f: Info, width: nat, words: seq<nat>, at: nat)
    requires width == 4 || width == 8
    requires Fits(f, width) && forall k | 0 <= k < width :: Word(words, at + k) == Pack(f, width)[k]
    ensures Width(Word(words, at)) == width && Load(words, at) == f
  {
    var low, high := f.tag % 0x40, f.tag / 0x40;
    assert f.tag == low + 0x40 * high;
    var p := Pack(f, width);
    var w1 := Word(words, at + 1);
    assert Word(words, at + 0) == p[0] && w1 == p[1] && Word(words, at + 2) == p[2] && Word(words, at + 3) == p[3];
    assert width == 8 ==> Word(words, at + 4) == p[4];
    assert w1 == f.sizeOffset + high * 0x100;
    assert w1 / 0x100 == high && w1 % 0x100 == f.sizeOffset;
    FourFields(if width == 4 then 2 else 3, low, f.typ, if width == 4 then f.arraySize else 0);
  }

  /** Unpacking inverts packing in every format, wherever the descriptor stands, except that an
      array_size of 0, which the assertion of the 1-word format lets pass, is read as 1. */
  lemma LoadInvertsPack(f: Info, width: nat, words: seq<nat>, at: nat)
    requires Fits(f, width) && at + |Pack(f, width)| <= |words| && words[at..at + |Pack(f, width)|] == Pack(f, width)
    ensures Width(words[at]) == width == |Pack(f, width)| && Load(words, at) == Held(f, width)
    ensures Load(words, at) == f <==> width != 1 || f.arraySize == 1
  {
    PackedWords(f, width, words, at);
    assert Word(words, at) == words[at + 0];
    if width == 1 {
      LoadOne(f, words, at);
    } else if width == 2 {
      LoadTwo(f, words, at);
    } else {
      LoadWide(f, width, words, at);
    }
  }

  lemma OneWordTop(w: nat, a: nat, b: nat, c: nat)
    requires a < 0x100 && b < 0x10 && c < 0x10 && w / 0x1_0000 == a + b * 0x100 + c * 0x1000
    ensures Bits(w, 0x1_0000, 0x100) == a && Bits(w, 0x100_0000, 0x10) == b && Bits(w, 0x1000_0000, 0x10) == c
  {
    assert w / 0x100_0000 == (w / 0x1_0000) / 0x100 && w / 0x1000_0000 == (w / 0x1_0000) / 0x1000;
  }

  lemma TwoWordTop(w: nat, a: nat, b: nat)
    requires a < 0x1000 && b < 0x10 && w / 0x1_0000 == a + b * 0x1000
    ensures Bits(w, 0x1_0000, 0x1000) == a && Bits(w, 0x1000_0000, 0x10) == b
  {
    assert w / 0x1000_0000 == (w / 0x1_0000) / 0x1000;
  }

  lemma SecondWord(w: nat, a: nat, b: nat, c: nat)
    requires a < 0x1_0000 && b < 0x1000 && c < 0x10 && w == a + b * 0x1_0000 + c * 0x1000_0000
    ensures w % 0x1_0000 == a && Bits(w, 0x1_0000, 0x1000) == b && w / 0x1000_0000 == c
  {
    assert w / 0x1_0000 == b + c * 0x1000;
  }

  /** A whole field_info array, every descriptor in a width of its own. */
  function PackAll(infos: seq<Info>, widths: seq<nat>): seq<nat>
    requires |infos| == |widths|
  {
    if infos == [] then []
    else PackAll(infos[..|infos| - 1], widths[..|infos| - 1]) + Pack(infos[|infos| - 1], widths[|infos| - 1])
  }

  lemma {:induction false} PackPrefix(infos: seq<Info>, widths: seq<nat>, i: nat)
    requires i <= |infos| == |widths|
    ensures PackAll(infos[..i], widths[..i]) <= PackAll(infos, widths)
    decreases |infos|
  {
    if i == |infos| {
      assert infos[..i] == infos && widths[..i] == widths;
    } else {
      var n := |infos| - 1;
      PackPrefix(infos[..n], widths[..n], i);
      assert infos[..n][..i] == infos[..i] && widths[..n][..i] == widths[..i];
    }
  }

  /** The words before descriptor `i`. */
  function Before(infos: seq<Info>, widths: seq<nat>, i: nat): nat
    requires i <= |infos| == |widths|
  {
    |PackAll(infos[..i], widths[..i])|
  }

  lemma BeforeNext(infos: seq<Info>, widths: seq<nat>, i: nat)
    requires i < |infos| == |widths|
    ensures Before(infos, widths, i + 1) == Before(infos, widths, i) + |Pack(infos[i], widths[i])|
  {
    var next := i + 1;
    assert infos[..next][..i] == infos[..i] && widths[..next][..i] == widths[..i];
  }

  /** Descriptor `i` is read where it stands exactly if a pb_size_t can hold that position. */
  lemma {:induction false} PositionExact(infos: seq<Info>, widths: seq<nat>, tail: seq<nat>, i: nat, words: seq<nat>)
    requires i < |infos| == |widths| && forall k | 0 <= k < |infos| :: Fits(infos[k], widths[k])
    requires words == PackAll(infos, widths) + tail
    ensures WordIndex(words, i) == Before(infos, widths, i) <==> Before(infos, widths, i) <= SIZE_MAX
    decreases i
  {
    if i > 0 {
      PositionExact(infos, widths, tail, i - 1, words);
      PositionNext(infos, widths, tail, i - 1, i, words);
    }
  }

  /** The position of the next descriptor, if this one is read where it stands. */
  lemma PositionNext(infos: seq<Info>, widths: seq<nat>, tail: seq<nat>, i: nat, next: nat, words: seq<nat>)
    requires i < next == i + 1 <= |infos| == |widths| && Fits(infos[i], widths[i]) && words == PackAll(infos, widths) + tail
    ensures Before(infos, widths, i) <= Before(infos, widths, next)
    ensures WordIndex(words, i) == Before(infos, widths, i) ==> WordIndex(words, next) == Size(Before(infos, widths, next))
  {
    BeforeNext(infos, widths, i);
    PackedReads(infos, widths, tail, i, words, Before(infos, widths, i));
  }

  /** Reading a packed array, whatever mix of widths it uses: descriptor `i` is read where it
      stands exactly if a pb_size_t can hold that position, and then gives back what was packed. */
  lemma PackedListReadsBack(infos: seq<Info>, widths: seq<nat>, tail: seq<nat>, i: nat)
    requires i < |infos| == |widths| && forall k | 0 <= k < |infos| :: Fits(infos[k], widths[k])
    ensures WordIndex(PackAll(infos, widths) + tail, i) == Before(infos, widths, i) <==> Before(infos, widths, i) <= SIZE_MAX
    ensures Before(infos, widths, i) <= SIZE_MAX ==> InfoOf(PackAll(infos, widths) + tail, i) == Held(infos[i], widths[i])
  {
    var words := PackAll(infos, widths) + tail;
    PositionExact(infos, widths, tail, i, words);
    PackedReads(infos, widths, tail, i, words, Before(infos, widths, i));
  }

  lemma PackedReads(infos: seq<Info>, widths: seq<nat>, tail: seq<nat>, i: nat, words: seq<nat>, at: nat)
    requires i < |infos| == |widths| && Fits(infos[i], widths[i])
    requires words == PackAll(infos, widths) + tail && at == |PackAll(infos[..i], widths[..i])|
    ensures Load(words, at) == Held(infos[i], widths[i]) && Width(Word(words, at)) == |Pack(infos[i], widths[i])|
  {
    PackedAt(infos, widths, tail, i);
    LoadInvertsPack(infos[i], widths[i], words, at);
  }

  /** Descriptor `i` stands behind those before it. */
  lemma PackedAt(infos: seq<Info>, widths: seq<nat>, tail: seq<nat>, i: nat)
    requires i < |infos| == |widths|
    ensures
      var words, at, p := PackAll(infos, widths) + tail, |PackAll(infos[..i], widths[..i])|, Pack(infos[i], widths[i]);
      at + |p| <= |words| && words[at..at + |p|] == p
  {
    var next := i + 1;
    PackPrefix(infos, widths, next);
    assert infos[..next][..i] == infos[..i] && widths[..next][..i] == widths[..i];
    InTheMiddle(PackAll(infos[..i], widths[..i]), Pack(infos[i], widths[i]), PackAll(infos, widths), tail);
  }

  lemma InTheMiddle(a: seq<nat>, p: seq<nat>, all: seq<nat>, tail: seq<nat>)
    requires a + p <= all
    ensures |a| + |p| <= |all + tail| && (all + tail)[|a|..|a| + |p|] == p
  {
    assert all[..|a| + |p|] == a + p;
  }

  // ---------- type bytes ----------

  function LType(ty: Ty): nat {
    match ty
    case Bool => 0x00
    case VarInt(_) => 0x01
    case UVarInt(_) => 0x02
    case SVarInt(_) => 0x03
    case Fixed32 => 0x04
    case Fixed64 => 0x05
    case Blob(_) => 0x06
    case Str(_) => 0x07
    case Sub(_) => 0x08
    case FixedBlob(_) => 0x0B
  }

  function HType(rule: Rule): nat {
    match rule
    case Required => 0x00
    case Optional => 0x10
    case Singular => 0x10
    case Repeated(_) => 0x20
    case FixArray(_) => 0x20
    case Oneof => 0x30
  }

  const LTYPE_EXTENSION: nat := 0x0A

  predicate IsRequired(typ: nat) { (typ / 0x10) % 4 == 0 }
  predicate IsSubmsg(typ: nat) { typ % 0x10 == 0x08 || typ % 0x10 == 0x09 }
  predicate IsExtension(typ: nat) { typ % 0x10 == LTYPE_EXTENSION }

  // ---------- the field_info array as a list ----------

  /** field_info_index, required_field_index and submessage_index of field `i`: prefix sums, as
      far as a pb_size_t holds them. */
  function WordIndex(words: seq<nat>, i: nat): (at: nat)
    ensures at <= SIZE_MAX
  {
    if i == 0 then 0 else Size(WordIndex(words, i - 1) + Width(Word(words, WordIndex(words, i - 1))))
  }

  function InfoOf(words: seq<nat>, i: nat): Info {
    Load(words, WordIndex(words, i))
  }

  function RequiredIndex(words: seq<nat>, i: nat): nat {
    if i == 0 then 0 else Size(RequiredIndex(words, i - 1) + (if IsRequired(InfoOf(words, i - 1).typ) then 1 else 0))
  }

  function SubmsgIndex(words: seq<nat>, i: nat): nat {
    if i == 0 then 0 else Size(SubmsgIndex(words, i - 1) + (if IsSubmsg(InfoOf(words, i - 1).typ) then 1 else 0))
  }

  /** A generated descriptor: strictly increasing tags, no extension placeholder, the largest
      tag is the last one, and an index one past the end still fits pb_size_t. */
  predicate Generated(words: seq<nat>, count: nat, largestTag: nat) {
    && count < SIZE_MAX
    && (forall i, j | 0 <= i < j < count :: InfoOf(words, i).tag < InfoOf(words, j).tag)
    && NoExtensions(words, count)
    && largestTag == if count == 0 then 0 else InfoOf(words, count - 1).tag
  }

  predicate NoExtensions(words: seq<nat>, count: nat) {
    forall i | 0 <= i < count :: !IsExtension(InfoOf(words, i).typ)
  }

  predicate Exists(words: seq<nat>, count: nat, tag: nat) {
    exists i :: 0 <= i < count && InfoOf(words, i).tag == tag
  }

  /** The six tag bits in the first word are those of the tag, in every format. */
  lemma LowTagBits(words: seq<nat>, at: nat)
    ensures Load(words, at).tag % 0x40 == (Word(words, at) / 4) % 0x40
  {
    var w1, low := Word(words, at + 1), Bits(Word(words, at), 4, 0x40);
    LowSix(low, 0);
    LowSix(low, w1 / 0x1000_0000);
    LowSix(low, w1 / 0x100);
  }

  lemma LowSix(low: nat, high: nat)
    requires low < 0x40
    ensures (low + 0x40 * high) % 0x40 == low && Size(low + 0x40 * high) % 0x40 == low
  {
    var q, r := high / 0x400, high % 0x400;
    assert high == 0x400 * q + r;
    Modulo(low + 0x40 * r, q);
  }

  lemma Modulo(n: nat, q: nat)
    requires n <= SIZE_MAX
    ensures Size(n + 0x1_0000 * q) == n
  {
  }

  class Iterator {
    const words: seq<nat>  // descriptor->field_info
    const count: nat       // descriptor->field_count
    const largestTag: nat
    var index: nat
    var infoIndex: nat
    var requiredIndex: nat
    var submsgIndex: nat
    var current: Info      // tag, type, data_size, array_size and offsets of the current field

    /** All indexes are the prefix sums for `index`. */
    ghost predicate Placed()
      reads this
    {
      && index < count
      && infoIndex == WordIndex(words, index)
      && requiredIndex == RequiredIndex(words, index)
      && submsgIndex == SubmsgIndex(words, index)
    }

    /** At a field and with its values loaded, whatever the descriptor. */
    ghost predicate Loaded()
      reads this
    {
      && NoExtensions(words, count)
      && (if count == 0 then largestTag == 0 && current.tag == 0 && index == 0 else Placed() && current == InfoOf(words, index))
    }

    ghost predicate Valid()
      reads this
    {
      Generated(words, count, largestTag) && Loaded()
    }

    /** pb_field_iter_begin. */
    constructor (words: seq<nat>, count: nat, largestTag: nat)
      requires count < SIZE_MAX && NoExtensions(words, count) && (count == 0 ==> largestTag == 0)
      ensures Loaded() && index == 0 && this.words == words && this.count == count && this.largestTag == largestTag
    {
      this.words, this.count, this.largestTag := words, count, largestTag;
      index, infoIndex, requiredIndex, submsgIndex := 0, 0, 0, 0;
      current := if count == 0 then Info(0, 0, 0, 0, 0, 0) else Load(words, 0);
    }

    /** advance_iterator: to the next field, or from the last one (or from past the end) to
        the first. */
    method Advance()
      requires count > 0 && (Placed() || index == count)
      modifies this`index, this`infoIndex, this`requiredIndex, this`submsgIndex
      ensures Placed() && index == if old(index) + 1 < count then old(index) + 1 else 0
    {
      index := index + 1;
      if index >= count {
        index, infoIndex, submsgIndex, requiredIndex := 0, 0, 0, 0;
      } else {
        var prevDescriptor := Word(words, infoIndex);
        var prevType := (prevDescriptor / 0x100) % 0x100;
        infoIndex := Size(infoIndex + Width(prevDescriptor));
        requiredIndex := Size(requiredIndex + (if IsRequired(prevType) then 1 else 0));
        submsgIndex := Size(submsgIndex + (if IsSubmsg(prevType) then 1 else 0));
      }
    }

    /** pb_field_iter_next. */
    method Next() returns (more: bool)
      requires Valid() && count > 0
      modifies this
      ensures Valid() && index == (if old(index) + 1 < count then old(index) + 1 else 0)
      ensures more <==> old(index) + 1 < count
    {
      Advance();
      current := Load(words, infoIndex);
      more := index != 0;
    }

    /** One turn of the search: advance, compare six tag bits, and only then load the field. */
    method Probe(tag: nat) returns (hit: bool)
      requires 0 < count && (Placed() || index == count)
      modifies this
      ensures Placed() && index == if old(index) + 1 < count then old(index) + 1 else 0
      ensures hit <==> InfoOf(words, index).tag == tag && !IsExtension(InfoOf(words, index).typ)
      ensures hit ==> current == InfoOf(words, index)
    {
      Advance();
      var fieldInfo := Word(words, infoIndex);
      LowTagBits(words, infoIndex);
      hit := false;
      if (fieldInfo / 4) % 0x40 == tag % 0x40 {
        current := Load(words, infoIndex);
        hit := current.tag == tag && !IsExtension(current.typ);
      }
    }

    /** No field up to the current one has the tag, counted from `start` (or, after the wrap, also
        from the first one).  If the search is not `whole`, nothing is known of those after `start`. */
    ghost predicate Searching(tag: nat, start: nat, whole: bool, wrapped: bool)
      reads this
    {
      && start < count
      && (!wrapped ==> start <= index && Placed() && forall i | start < i <= index :: InfoOf(words, i).tag != tag)
      && (wrapped && whole ==> forall i | start < i < count :: InfoOf(words, i).tag != tag)
      && (wrapped && index != count ==> index < start && Placed() && forall i | 0 <= i <= index :: InfoOf(words, i).tag != tag)
    }

    /** How far the search is from where it ends. */
    ghost function Ahead(wrapped: bool): int
      reads this
    {
      (if wrapped then 0 else count + 2) + (if index == count then count + 1 else count - index)
    }

    /** One turn: a hit, or back at `start` without one, or further on. */
    method SearchTurn(tag: nat, start: nat, ghost whole: bool, ghost wrapped: bool) returns (hit: bool, ghost wrapped': bool)
      requires Searching(tag, start, whole, wrapped) && InfoOf(words, start).tag != tag && NoExtensions(words, count)
      modifies this
      ensures Placed() && (hit ==> current == InfoOf(words, index) && current.tag == tag)
      ensures !hit && index == start && whole ==> forall i | 0 <= i < count :: InfoOf(words, i).tag != tag
      ensures !hit && index != start ==> Searching(tag, start, whole, wrapped') && 0 <= Ahead(wrapped') < old(Ahead(wrapped))
    {
      wrapped' := wrapped || index + 1 == count;
      hit := Probe(tag);
    }

    /** The search loop, from `start` (or from past the end, to begin with the first field)
        all the way round to `start`.  It is `whole` if it need not pass the fields it leaves out. */
    method Search(tag: nat, start: nat, ghost whole: bool) returns (found: bool)
      requires start < count && InfoOf(words, start).tag != tag && NoExtensions(words, count)
      requires (index == start && Placed()) || index == count
      requires index == count && whole ==> forall i | start < i < count :: InfoOf(words, i).tag != tag
      modifies this
      ensures Placed() && current == InfoOf(words, index)
      ensures found ==> current.tag == tag
      ensures !found ==> index == start && (whole ==> forall i | 0 <= i < count :: InfoOf(words, i).tag != tag)
    {
      ghost var wrapped := index == count;
      while true
        invariant Searching(tag, start, whole, wrapped)
        decreases Ahead(wrapped)
      {
        var hit;
        hit, wrapped := SearchTurn(tag, start, whole, wrapped);
        if hit {
          return true;
        }
        if index == start {
          break;
        }
      }
      current := Load(words, infoIndex);
      found := false;
    }

    /** pb_field_iter_find: from any position it terminates, finds no field but one with the tag,
        and otherwise comes back to where it started.  In a generated descriptor it finds the
        field exactly when there is one. */
    method Find(tag: nat) returns (found: bool)
      requires Loaded() && tag > 0
      modifies this
      ensures Loaded()
      ensures found ==> count > 0 && current.tag == tag && Exists(words, count, tag)
      ensures Generated(words, count, largestTag) ==> (found <==> Exists(words, count, tag))
      ensures !found ==> index == old(index) && current == old(current)
    {
      ghost var whole := Generated(words, count, largestTag);
      if current.tag == tag {
        assert count > 0 && InfoOf(words, index).tag == tag;
        return true;
      } else if tag > largestTag {
        if whole {
          NoneAbove(words, count, largestTag, tag);
        }
        return false;
      }
      var start := index;
      if tag < current.tag {
        if whole {
          AllAfterAreLarger(words, count, largestTag, tag, start);
        }
        index := count;
      }
      found := Search(tag, start, whole);
      assert found ==> InfoOf(words, index).tag == tag;
    }
  }

  lemma NoneAbove(words: seq<nat>, count: nat, largestTag: nat, tag: nat)
    requires Generated(words, count, largestTag) && tag > largestTag
    ensures !Exists(words, count, tag)
  {
    forall i | 0 <= i < count
      ensures InfoOf(words, i).tag <= largestTag
    {
      assert i < count - 1 ==> InfoOf(words, i).tag < InfoOf(words, count - 1).tag;
    }
  }

  lemma AllAfterAreLarger(words: seq<nat>, count: nat, largestTag: nat, tag: nat, start: nat)
    requires Generated(words, count, largestTag) && start < count && tag < InfoOf(words, start).tag
    ensures forall i | start < i < count :: InfoOf(words, i).tag != tag
  {
  }

  // ---------- descriptors and their packed form ----------

  /** PB_DATA_SIZE: the size of one item in memory.  That of a submessage is not modelled. */
  function DataSize(ty: Ty): nat {
    match ty
    case Bool => 1
    case VarInt(w) => w
    case UVarInt(w) => w
    case SVarInt(w) => w
    case Fixed32 => 4
    case Fixed64 => 8
    case Blob(n) => n
    case Str(n) => n
    case FixedBlob(n) => n
    case Sub(_) => 0
  }

  /** PB_ARRAY_SIZE. */
  function ArraySize(rule: Rule): nat {
    match rule
    case Repeated(max) => max
    case FixArray(max) => max
    case _ => 1
  }

  /** What is loaded for a field says what the field is. */
  predicate Describes(info: Info, f: Field) {
    && info.tag == f.tag && info.typ == LType(f.ty) + HType(f.rule)
    && info.arraySize == ArraySize(f.rule) && (!f.ty.Sub? ==> info.dataSize == DataSize(f.ty))
  }

  /** `desc.info` is a packing of `desc.fields`: the iterator over it meets the fields in order
      with their tags, types and sizes. */
  predicate Packed(desc: Desc) {
    && Generated(desc.info, |desc.fields|, LargestTag(desc))
    && forall i {:trigger InfoOf(desc.info, i)} | 0 <= i < |desc.fields| :: Describes(InfoOf(desc.info, i), desc.fields[i])
  }

  /** The array_size that is loaded for an array. */
  predicate HasSize(rule: Rule, arraySize: nat) {
    rule.Repeated? || rule.FixArray? ==> arraySize == rule.max
  }

  /** What the codecs use of the field the iterator is at. */
  lemma CurrentField(desc: Desc, i: nat)
    requires Packed(desc) && i < |desc.fields|
    ensures InfoOf(desc.info, i).tag == desc.fields[i].tag && HasSize(desc.fields[i].rule, InfoOf(desc.info, i).arraySize)
    ensures IsRequired(InfoOf(desc.info, i).typ) <==> desc.fields[i].rule.Required?
  {
    TypeParts(desc.fields[i]);
  }

  /** The array_size of the field an iterator is at. */
  lemma CurrentSize(iter: Iterator, desc: Desc)
    requires FullyPacked(desc) && iter.Valid() && iter.words == desc.info && iter.count == |desc.fields| && iter.count > 0
    ensures HasSize(desc.fields[iter.index].rule, iter.current.arraySize)
  {
    CurrentField(desc, iter.index);
  }

  /** `desc.info` is made from these descriptors of its fields, each in a format with room for
      it; the compiler puts a zero word behind them. */
  predicate MadeFrom(desc: Desc, infos: seq<Info>, widths: seq<nat>, tail: seq<nat>) {
    && |infos| == |widths| == |desc.fields| < SIZE_MAX && desc.info == PackAll(infos, widths) + tail
    && (forall k | 0 <= k < |infos| :: Fits(infos[k], widths[k]) && Held(infos[k], widths[k]) == infos[k])
    && (forall k | 0 <= k < |infos| :: Describes(infos[k], desc.fields[k]))
  }

  /** In any mix of formats, that is such a packing as long as the last descriptor starts where a
      pb_size_t can reach. */
  lemma PackAllIsPacked(desc: Desc, infos: seq<Info>, widths: seq<nat>, tail: seq<nat>)
    requires DescOk(desc) && MadeFrom(desc, infos, widths, tail)
    requires desc.fields != [] ==> Before(infos, widths, |infos| - 1) <= SIZE_MAX
    ensures Packed(desc)
  {
    forall i | 0 <= i < |infos|
      ensures Describes(InfoOf(desc.info, i), desc.fields[i]) && !IsExtension(InfoOf(desc.info, i).typ)
    {
      EntryPacked(desc, infos, widths, tail, i);
    }
    TagsGrow(desc);
  }

  lemma EntryPacked(desc: Desc, infos: seq<Info>, widths: seq<nat>, tail: seq<nat>, i: nat)
    requires MadeFrom(desc, infos, widths, tail) && i < |infos| && Before(infos, widths, |infos| - 1) <= SIZE_MAX
    ensures Describes(InfoOf(desc.info, i), desc.fields[i]) && !IsExtension(InfoOf(desc.info, i).typ)
  {
    BeforeGrows(infos, widths, i, |infos| - 1);
    ReadsAsMade(desc, infos, widths, tail, i);
    TypeParts(desc.fields[i]);
  }

  lemma ReadsAsMade(desc: Desc, infos: seq<Info>, widths: seq<nat>, tail: seq<nat>, i: nat)
    requires MadeFrom(desc, infos, widths, tail) && i < |infos| && Before(infos, widths, i) <= SIZE_MAX
    ensures WordIndex(desc.info, i) == Before(infos, widths, i) && InfoOf(desc.info, i) == infos[i]
    ensures Describes(infos[i], desc.fields[i])
  {
    PackedListReadsBack(infos, widths, tail, i);
  }

  lemma TagsGrow(desc: Desc)
    requires DescOk(desc) && |desc.fields| < SIZE_MAX
    requires forall i | 0 <= i < |desc.fields| ::
               Describes(InfoOf(desc.info, i), desc.fields[i]) && !IsExtension(InfoOf(desc.info, i).typ)
    ensures Packed(desc)
  {
  }

  lemma {:induction false} BeforeGrows(infos: seq<Info>, widths: seq<nat>, i: nat, j: nat)
    requires i <= j <= |infos| == |widths|
    ensures Before(infos, widths, i) <= Before(infos, widths, j)
    decreases j
  {
    if i < j {
      BeforeGrows(infos, widths, i, j - 1);
      BeforeNext(infos, widths, j - 1);
    }
  }

  lemma {:induction false} BeforeUniform(infos: seq<Info>, widths: seq<nat>, width: nat, i: nat)
    requires i <= |infos| == |widths| && Format(width) && forall k | 0 <= k < |infos| :: widths[k] == width
    ensures Before(infos, widths, i) == width * i
  {
    if i > 0 {
      var j := i - 1;
      BeforeUniform(infos, widths, width, j);
      BeforeNext(infos, widths, j);
      PackLength(infos[j], width);
      assert width * i == width * j + width;
    }
  }

  predicate Format(width: nat) { width == 1 || width == 2 || width == 4 || width == 8 }

  lemma PackLength(f: Info, width: nat)
    requires Format(width)
    ensures |Pack(f, width)| == width
  {
  }

  /** In one format for all fields, as the generator chooses it, that is the exact condition:
      where the index overflows it comes back to the first field. */
  lemma UniformExact(desc: Desc, infos: seq<Info>, width: nat, tail: seq<nat>)
    requires DescOk(desc) && desc.fields != [] && MadeFrom(desc, infos, seq(|infos|, _ => width), tail)
    ensures Packed(desc) <==> width * (|desc.fields| - 1) <= SIZE_MAX
  {
    var widths, n := seq(|infos|, _ => width), |infos|;
    MadeFormat(desc, infos, widths, tail, 0);
    BeforeUniform(infos, widths, width, n - 1);
    if width * (n - 1) <= SIZE_MAX {
      PackAllIsPacked(desc, infos, widths, tail);
    } else {
      OverflowPoint(width, n - 1);
      Overflows(desc, infos, widths, width, tail, 0x1_0000 / width);
      NotPacked(desc, 0x1_0000 / width);
    }
  }

  lemma OverflowPoint(width: nat, last: nat)
    requires Format(width) && width * last > SIZE_MAX
    ensures width * (0x1_0000 / width) == 0x1_0000 && 0 < 0x1_0000 / width <= last
  {
  }

  lemma MadeFormat(desc: Desc, infos: seq<Info>, widths: seq<nat>, tail: seq<nat>, k: nat)
    requires MadeFrom(desc, infos, widths, tail) && k < |infos|
    ensures Format(widths[k])
  {
    assert Fits(infos[k], widths[k]);
  }

  /** The first descriptor that a pb_size_t cannot reach is read as the one at the beginning. */
  lemma Overflows(desc: Desc, infos: seq<Info>, widths: seq<nat>, width: nat, tail: seq<nat>, k: nat)
    requires MadeFrom(desc, infos, widths, tail) && Format(width) && forall j | 0 <= j < |infos| :: widths[j] == width
    requires 0 < k < |infos| && width * k == 0x1_0000
    ensures InfoOf(desc.info, k) == InfoOf(desc.info, 0)
  {
    var j := k - 1;
    assert width * j + width == 0x1_0000;
    BeforeUniform(infos, widths, width, j);
    WidthAsMade(desc, infos, widths, tail, j);
    assert WordIndex(desc.info, k) == Size(0x1_0000) == 0;
  }

  lemma WidthAsMade(desc: Desc, infos: seq<Info>, widths: seq<nat>, tail: seq<nat>, i: nat)
    requires MadeFrom(desc, infos, widths, tail) && i < |infos| && Before(infos, widths, i) <= SIZE_MAX
    ensures WordIndex(desc.info, i) == Before(infos, widths, i) && Width(Word(desc.info, WordIndex(desc.info, i))) == widths[i]
  {
    MadeFormat(desc, infos, widths, tail, i);
    ReadsAsMade(desc, infos, widths, tail, i);
    PackLength(infos[i], widths[i]);
    PackedReads(infos, widths, tail, i, desc.info, Before(infos, widths, i));
  }

  lemma NotPacked(desc: Desc, k: nat)
    requires DescOk(desc) && 0 < k < |desc.fields| && InfoOf(desc.info, k) == InfoOf(desc.info, 0)
    ensures !Packed(desc)
  {
    assert desc.fields[0].tag < desc.fields[k].tag;
  }

  // ---------- a descriptor that is too long ----------

  /** A message type of `n` required bools with tags 1 to `n`, packed in the 4-word format, as the
      generator does above tag 1023. */
  function BoolFields(n: nat): seq<Field> {
    seq(n, i requires 0 <= i < n => Field(i + 1, Required, Bool, i))
  }

  function BoolInfos(n: nat): seq<Info> {
    seq(n, i requires 0 <= i < n => Info(i + 1, 0, i, 1, 0, 1))
  }

  function ManyBools(n: nat): Desc {
    Desc(BoolFields(n), PackAll(BoolInfos(n), seq(n, _ => 4)) + [0])
  }

  lemma ManyBoolsOk(n: nat, fields: seq<Field>)
    requires n < SIZE_MAX && fields == BoolFields(n)
    ensures forall info: seq<nat> :: DescOk(Desc(fields, info))
  {
    forall i | 0 <= i < n
      ensures SlotOk(fields, i) && TyOk(fields[i].ty)
    {
    }
  }

  lemma ManyBoolsMade(n: nat)
    requires n < SIZE_MAX
    ensures DescOk(ManyBools(n)) && MadeFrom(ManyBools(n), BoolInfos(n), seq(n, _ => 4), [0])
  {
    var fields, infos, widths := BoolFields(n), BoolInfos(n), seq(n, _ => 4);
    ManyBoolsOk(n, fields);
    forall k | 0 <= k < n
      ensures Fits(infos[k], widths[k]) && Held(infos[k], widths[k]) == infos[k] && Describes(infos[k], fields[k])
    {
    }
  }

  /** It passes all assertions, and is read as it is up to 16384 fields and not beyond. */
  lemma ManyBoolsExact(n: nat)
    requires 0 < n < SIZE_MAX
    ensures DescOk(ManyBools(n)) && MadeFrom(ManyBools(n), BoolInfos(n), seq(n, _ => 4), [0])
    ensures Packed(ManyBools(n)) <==> n <= 16384
  {
    ManyBoolsMade(n);
    UniformExact(ManyBools(n), BoolInfos(n), 4, [0]);
  }

  /** With one field more, the last one is read as the first. */
  lemma LastIsFirst()
    ensures
      var words := ManyBools(16385).info;
      && (forall i | 0 <= i < 16384 :: InfoOf(words, i) == BoolInfos(16385)[i])
      && InfoOf(words, 16384) == BoolInfos(16385)[0]
  {
    var desc, infos, widths := ManyBools(16385), BoolInfos(16385), seq(16385, _ => 4);
    ManyBoolsMade(16385);
    forall i | 0 <= i < 16384
      ensures InfoOf(desc.info, i) == infos[i]
    {
      BeforeUniform(infos, widths, 4, i);
      ReadsAsMade(desc, infos, widths, [0], i);
    }
    Overflows(desc, infos, widths, 4, [0], 16384);
  }

  lemma LastTagMissing(words: seq<nat>)
    requires words == ManyBools(16385).info
    ensures NoExtensions(words, 16385) && !Exists(words, 16385, 16385)
  {
    LastIsFirst();
    forall i | 0 <= i < 16385
      ensures InfoOf(words, i).typ == 0 && InfoOf(words, i).tag != 16385
    {
      assert i == 16384 || InfoOf(words, i) == BoolInfos(16385)[i];
    }
  }

  lemma LastTagThere(desc: Desc)
    requires desc == ManyBools(16385)
    ensures DescOk(desc) && Lookup(desc, 16385) == 16384
  {
    ManyBoolsMade(16385);
    assert desc.fields[16384].tag == 16385;
    LookupOwnTag(desc, 16384);
  }

  /** pb_field_iter_find does not find the last tag of these 16385. */
  method FindLastTag(desc: Desc) returns (found: bool)
    requires desc == ManyBools(16385)
    ensures DescOk(desc) && Lookup(desc, 16385) == 16384 && !found
  {
    LastTagThere(desc);
    LastTagMissing(desc.info);
    var iter := new Iterator(desc.info, 16385, 16385);
    found := iter.Find(16385);
  }

  function LargestTag(desc: Desc): nat {
    if desc.fields == [] then 0 else desc.fields[|desc.fields| - 1].tag
  }

  /** Packed all the way down. */
  predicate FullyPacked(desc: Desc)
    decreases desc, 1
  {
    Packed(desc) && forall i | 0 <= i < |desc.fields| :: TyPacked(desc.fields[i].ty)
  }

  predicate TyPacked(ty: Ty)
    decreases ty, 0
  {
    ty.Sub? ==> FullyPacked(ty.desc)
  }

  /** An iterator at the first field of a message type. */
  method Begin(desc: Desc) returns (iter: Iterator)
    requires FullyPacked(desc)
    ensures fresh(iter) && iter.Valid() && iter.index == 0
    ensures iter.words == desc.info && iter.count == |desc.fields|
  {
    iter := new Iterator(desc.info, |desc.fields|, LargestTag(desc));
  }

  /** The masks of PB_HTYPE and PB_LTYPE recover the parts of a type byte. */
  lemma TypeParts(f: Field)
    ensures var t := LType(f.ty) + HType(f.rule);
            && (IsRequired(t) <==> f.rule.Required?)
            && (IsSubmsg(t) <==> f.ty.Sub?)
            && !IsExtension(t)
  {
  }

  /** On a packed descriptor, the iterator's indexes are those of the field list. */
  lemma {:induction false} RequiredIndexes(desc: Desc, i: nat)
    requires Packed(desc) && i <= |desc.fields|
    ensures RequiredIndex(desc.info, i) == RequiredBefore(desc, i)
  {
    if i > 0 {
      RequiredIndexes(desc, i - 1);
      TypeParts(desc.fields[i - 1]);
    }
  }

  /** Where the iterator finds a tag is where linear lookup finds it. */
  lemma FoundIsLookup(desc: Desc, tag: nat, i: nat)
    requires DescOk(desc) && Packed(desc)
    ensures Exists(desc.info, |desc.fields|, tag) <==> Lookup(desc, tag) < |desc.fields|
    ensures i < |desc.fields| && InfoOf(desc.info, i).tag == tag ==> Lookup(desc, tag) == i
  {
    var k := Lookup(desc, tag);
    if k < |desc.fields| {
      assert InfoOf(desc.info, k).tag == tag;
    }
    if i < |desc.fields| && InfoOf(desc.info, i).tag == tag {
      LookupOwnTag(desc, i);
    }
  }
}
