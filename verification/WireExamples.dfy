/** Known answers: encodings from the Protocol Buffers documentation, the descriptor formats of pb.h, and
    google.protobuf.Duration as its generated header has it. */
module WireExamples {
  import opened Wire
  import opened Message
  import opened Encoding
  import opened Wrappers
  import opened Omission
  import opened SizeBound
  import opened SizeAttained
  import FieldIter

  lemma Varint150()
    ensures VarintBytes(150) == [0x96, 1] && VarintBytes(270) == [0x8E, 2] && VarintBytes(86942) == [0x9E, 0xA7, 5]
  {
    assert VarintBytes(1) == [1] && VarintBytes(2) == [2] && VarintBytes(5) == [5];
    assert VarintBytes(679) == [0xA7] + [5] && 86942 / 128 == 679 && 86942 % 128 == 0x1E;
  }

  /** An int32 field with tag 1 and value 150. */
  function A150(): Cells { [Plain(Num(150))] }
  function OneInt(): Desc { Desc([Field(1, Required, VarInt(4), 0)], []) }

  lemma Int150()
    ensures EncCells(OneInt(), A150()) == Some([8, 0x96, 1])
  {
    Varint150();
    assert VarintOf(VarInt(4), 150) == 150;
    assert EncValue(VarInt(4), Num(150)) == Some([0x96, 1]);
    OneFieldEncodes(OneInt(), A150(), [0x96, 1]);
    assert TagBytes(WT_VARINT, 1) == [8] && [8] + [0x96, 1] == [8, 0x96, 1];
  }

  /** It, in a submessage with tag 3. */
  lemma Embedded150()
    ensures EncCells(Desc([Field(3, Required, Sub(OneInt()), 0)], []), [Plain(Struct(A150()))]) == Some([0x1A, 3, 8, 0x96, 1])
  {
    Int150();
    var desc := Desc([Field(3, Required, Sub(OneInt()), 0)], []);
    assert VarintBytes(3) == [3] && [3] + [8, 0x96, 1] == [3, 8, 0x96, 1];
    assert EncValue(Sub(OneInt()), Struct(A150())) == Some([3, 8, 0x96, 1]);
    OneFieldEncodes(desc, [Plain(Struct(A150()))], [3, 8, 0x96, 1]);
    assert TagBytes(WT_STRING, 3) == [0x1A] && [0x1A] + [3, 8, 0x96, 1] == [0x1A, 3, 8, 0x96, 1];
  }

  /** The packed array 3, 270, 86942 with tag 4. */
  lemma Packed()
    ensures
      EncArray(Field(4, Repeated(3), VarInt(4), 0), [Num(3), Num(270), Num(86942)], 3) ==
      Some([0x22, 6, 3, 0x8E, 2, 0x9E, 0xA7, 5])
  {
    ThreeItems(Field(4, Repeated(3), VarInt(4), 0));
    assert VarintBytes(6) == [6] && TagBytes(WT_STRING, 4) == [0x22];
    assert [0x22] + ([6] + [3, 0x8E, 2, 0x9E, 0xA7, 5]) == [0x22, 6, 3, 0x8E, 2, 0x9E, 0xA7, 5];
  }

  lemma ThreeItems(f: Field)
    requires f.ty == VarInt(4)
    ensures EncItems(f, [Num(3), Num(270), Num(86942)], false) == Some([3, 0x8E, 2, 0x9E, 0xA7, 5])
  {
    Varint150();
    assert VarintBytes(3) == [3];
    PackedItem(f, 86942, [0x9E, 0xA7, 5], [], [], [Num(86942)], [0x9E, 0xA7, 5]);
    PackedItem(f, 270, [0x8E, 2], [Num(86942)], [0x9E, 0xA7, 5], [Num(270), Num(86942)], [0x8E, 2, 0x9E, 0xA7, 5]);
    PackedItem(f, 3, [3], [Num(270), Num(86942)], [0x8E, 2, 0x9E, 0xA7, 5],
               [Num(3), Num(270), Num(86942)], [3, 0x8E, 2, 0x9E, 0xA7, 5]);
  }

  lemma PackedItem(f: Field, n: nat, a: Bytes, rest: seq<Value>, b: Bytes, all: seq<Value>, ab: Bytes)
    requires f.ty == VarInt(4) && n < 0x8000_0000 && VarintBytes(n) == a && EncItems(f, rest, false) == Some(b)
    requires all == [Num(n)] + rest && ab == a + b
    ensures EncItems(f, all, false) == Some(ab)
  {
    assert VarintOf(VarInt(4), n) == n;
    assert all[1..] == rest;
  }

  /** Two fields, in the order of their tags: a Duration of 5 seconds and 7 nanoseconds. */
  lemma TwoFields()
    ensures EncCells(Duration(), [Plain(Num(5)), Plain(Num(7))]) == Some([8, 5, 16, 7])
  {
    var desc, both := Duration(), [Plain(Num(5)), Plain(Num(7))];
    SecondsAndNanos();
    SevenNanos();
    assert EncFrom(desc, both, 2) == Some([]) && EncFrom(desc, both, 1) == Some([16, 7] + []);
    assert [16, 7] + [] == [16, 7] && [8, 5] + [16, 7] == [8, 5, 16, 7];
  }

  lemma SevenNanos()
    ensures EncField(Duration().fields[1], Plain(Num(7))) == Some([16, 7])
  {
    assert TagBytes(WT_VARINT, 2) == VarintBytes(16) == [16];
    assert VarintBytes(7) == [7] && [16] + [7] == [16, 7];
    assert EncValue(VarInt(4), Num(7)) == Some(VarintBytes(7));
  }

  /** Descriptor words, read by load_descriptor_values: the two fields of Duration in one word each, with the
      type byte of a singular varint. */
  lemma OneWord()
    ensures FieldIter.LType(VarInt(8)) + FieldIter.HType(Singular) == 0x11
    ensures FieldIter.Load([0x80001104, 0x40081108], 0) == FieldIter.Info(1, 0x11, 0, 8, 0, 1)
    ensures FieldIter.Load([0x80001104, 0x40081108], 1) == FieldIter.Info(2, 0x11, 8, 4, 0, 1)
  {
  }

  /** And tag 200, type 0x31, offset 12, size 40, size_offset 3 and array_size 5 in the wider formats. */
  lemma MoreWords()
    ensures FieldIter.Load([0x30053121, 0x3028000C], 0) == FieldIter.Info(200, 0x31, 12, 40, 3, 5)
    ensures FieldIter.Load([0x00053122, 0x303, 12, 40], 0) == FieldIter.Info(200, 0x31, 12, 40, 3, 5)
    ensures FieldIter.Load([0x00003123, 0x303, 12, 40, 5, 0, 0, 0], 0) == FieldIter.Info(200, 0x31, 12, 40, 3, 5)
  {
  }

  /** The size that the generated header of Duration declares, 22, is what a Duration can take. */
  lemma DurationSize(m: ProtoMessage)
    requires |m.fields| == 2 && m.fields[0] == ProtoField(1, Singular, ScalarType(TInt64, Default), 0)
    requires m.fields[1] == ProtoField(2, Singular, ScalarType(TInt32, Default), 1)
    ensures Describes(Duration(), m) && MessageSize(m) == Some(22)
    ensures exists cells :: Allowed(Duration(), m, cells) && |EncCells(Duration(), cells).value| == 22
  {
    TwoAndTwenty(m);
    FiveSeconds();
    DurationDescribed(m);
    DurationAttains(m);
    SizeIsAttained(Duration(), m);
  }

  lemma DurationDescribed(m: ProtoMessage)
    requires |m.fields| == 2 && m.fields[0] == ProtoField(1, Singular, ScalarType(TInt64, Default), 0)
    requires m.fields[1] == ProtoField(2, Singular, ScalarType(TInt32, Default), 1)
    ensures Describes(Duration(), m)
  {
    DurationField(Duration(), m, 0);
    DurationField(Duration(), m, 1);
  }

  lemma DurationField(desc: Desc, m: ProtoMessage, i: nat)
    requires |desc.fields| == |m.fields| == 2 && i < 2
    requires desc.fields[i] == (if i == 0 then Field(1, Singular, VarInt(8), 0) else Field(2, Singular, VarInt(4), 1))
    requires m.fields[i] == if i == 0 then ProtoField(1, Singular, ScalarType(TInt64, Default), 0)
                            else ProtoField(2, Singular, ScalarType(TInt32, Default), 1)
    ensures FieldMatches(desc, m, i)
  {
  }

  lemma DurationAttains(m: ProtoMessage)
    requires |m.fields| == 2 && m.fields[0] == ProtoField(1, Singular, ScalarType(TInt64, Default), 0)
    requires m.fields[1] == ProtoField(2, Singular, ScalarType(TInt32, Default), 1)
    ensures SimpleMessage(m) && MessageAttains(m)
  {
    forall i | 0 <= i < |m.fields|
      ensures !m.fields[i].rule.Oneof? && FieldAttains(m.fields[i])
    {
      assert m.fields[i] == m.fields[0] || m.fields[i] == m.fields[1];
    }
  }

  lemma TwoAndTwenty(m: ProtoMessage)
    requires |m.fields| == 2 && m.fields[0] == ProtoField(1, Singular, ScalarType(TInt64, Default), 0)
    requires m.fields[1] == ProtoField(2, Singular, ScalarType(TInt32, Default), 1)
    ensures MessageSize(m) == Some(22)
  {
    ShortVarint(8);
    ShortVarint(16);
    assert FieldSize(m.fields[0]) == Some(11) && FieldSize(m.fields[1]) == Some(11);
    assert EntrySize(m, 1) == Some(11) && EntrySize(m, 0) == Some(11);
    assert SizeFrom(m, 2) == Some(0) && SizeFrom(m, 1) == Some(11) && SizeFrom(m, 0) == Some(22);
  }
}
