/** The account behind encoded_size (nanopb_generator.py: OneOf.encoded_size, Message.encoded_size):
    what the bound leaves over is the sum of what each entry leaves over. */
module SizeGaps {
  import opened Wire
  import opened Message
  import opened Encoding
  import opened Wrappers
  import opened SizeBound
  import Validity

  // ---------- OneOf.encoded_size ----------

  predicate Member(m: ProtoMessage, slot: nat, i: nat) {
    i < |m.fields| && m.fields[i].rule.Oneof? && m.fields[i].slot == slot
  }

  /** The size of the largest member, and nothing else: it covers every member, and one of them has it;
      without members it is 0. */
  lemma LargestIsMaximum(m: ProtoMessage, slot: nat)
    requires Largest(m, slot, 0).Some?
    ensures forall i: nat | Member(m, slot, i) :: FieldSize(m.fields[i]).Some? && FieldSize(m.fields[i]).value <= Largest(m, slot, 0).value
    ensures (exists i: nat :: Member(m, slot, i) && FieldSize(m.fields[i]) == Largest(m, slot, 0)) ||
            (Largest(m, slot, 0) == Some(0) && forall i: nat :: !Member(m, slot, i))
  {
    forall i: nat | Member(m, slot, i)
      ensures FieldSize(m.fields[i]).Some? && FieldSize(m.fields[i]).value <= Largest(m, slot, 0).value
    {
      LargestCovers(m, slot, 0, i);
    }
    var k := LargestMember(m, slot, 0);
    assert k >= |m.fields| ==> NoMember(m, slot, 0);
  }

  ghost predicate NoMember(m: ProtoMessage, slot: nat, j: nat) {
    forall i: nat | j <= i :: !Member(m, slot, i)
  }

  lemma {:induction false} LargestMember(m: ProtoMessage, slot: nat, j: nat) returns (k: nat)
    requires j <= |m.fields| && Largest(m, slot, j).Some?
    ensures k < |m.fields| ==> j <= k && Member(m, slot, k) && FieldSize(m.fields[k]) == Largest(m, slot, j)
    ensures k >= |m.fields| ==> Largest(m, slot, j) == Some(0) && NoMember(m, slot, j)
    decreases |m.fields| - j
  {
    k := j;
    if j < |m.fields| {
      LargestTurn(m, slot, j);
      k := LargestMember(m, slot, j + 1);
      if Member(m, slot, j) && FieldSize(m.fields[j]).value >= Largest(m, slot, j + 1).value {
        k := j;
      }
    }
  }

  lemma LargestTurn(m: ProtoMessage, slot: nat, j: nat)
    requires j < |m.fields| && Largest(m, slot, j).Some?
    ensures Largest(m, slot, j + 1).Some?
    ensures Member(m, slot, j) ==> FieldSize(m.fields[j]).Some?
    ensures Member(m, slot, j) ==> Largest(m, slot, j) == Some(MaxOf(FieldSize(m.fields[j]).value, Largest(m, slot, j + 1).value))
    ensures !Member(m, slot, j) ==> Largest(m, slot, j) == Largest(m, slot, j + 1)
  {
  }

  /** Two int32 members with the tags 1 and 2 count once. */
  lemma TwoMembers(m: ProtoMessage)
    requires |m.fields| == 2 && m.fields[0] == ProtoField(1, Oneof, ScalarType(TInt32, Default), 0)
    requires m.fields[1] == ProtoField(2, Oneof, ScalarType(TInt32, Default), 0)
    ensures MessageSize(m) == Some(11)
  {
    ShortVarint(8);
    ShortVarint(16);
    TwoElevens(m, 0);
    assert SizeFrom(m, 2) == Some(0) && EntrySize(m, 1) == Some(0) && SizeFrom(m, 1) == Some(0);
  }

  lemma TwoElevens(m: ProtoMessage, i: nat)
    requires |m.fields| == 2 && i == 0 && Member(m, 0, 0) && Member(m, 0, 1)
    requires FieldSize(m.fields[0]) == Some(11) && FieldSize(m.fields[1]) == Some(11)
    ensures Largest(m, 0, i) == Some(11) && EntrySize(m, 0) == Some(11)
  {
    assert Largest(m, 0, 2) == Some(0);
    assert Largest(m, 0, 1) == Some(11);
    assert Largest(m, 0, 0) == Some(11);
  }

  // ---------- what an entry leaves over ----------

  /** The bytes of field `i`. */
  function Contribution(desc: Desc, cells: Cells, i: nat): nat
    requires i < |desc.fields|
  {
    match EncField(desc.fields[i], At(cells, desc.fields[i].slot))
    case None => 0
    case Some(bs) => |bs|
  }

  function Known(size: Option<nat>): nat { if size.Some? then size.value else 0 }

  /** Outside of oneofs, what the field's bound leaves over.  A oneof is counted at its largest member:
      what that leaves over is accounted to the member that is set, or to the first one if none is. */
  function Gap(desc: Desc, m: ProtoMessage, cells: Cells, i: nat): int
    requires i < |m.fields| == |desc.fields|
  {
    var f := m.fields[i];
    if !f.rule.Oneof? then Known(FieldSize(f)) - Contribution(desc, cells, i)
    else if Selected(desc, cells, f.slot) == i then Known(Largest(m, f.slot, 0)) - Contribution(desc, cells, i)
    else if f.slot == i && Selected(desc, cells, i) == |desc.fields| then Known(Largest(m, i, 0))
    else 0
  }

  function GapFrom(desc: Desc, m: ProtoMessage, cells: Cells, i: nat): int
    requires i <= |m.fields| == |desc.fields|
    decreases |m.fields| - i
  {
    if i == |m.fields| then 0 else Gap(desc, m, cells, i) + GapFrom(desc, m, cells, i + 1)
  }

  /** What has been counted before entry `i` for a oneof that starts at `l` and is written later. */
  function PendingAt(desc: Desc, m: ProtoMessage, cells: Cells, i: nat, l: nat): nat {
    if Member(m, l, l) && i <= Selected(desc, cells, l) < |desc.fields| then Known(Largest(m, l, 0)) else 0
  }

  function Pending(desc: Desc, m: ProtoMessage, cells: Cells, i: nat, n: nat): nat {
    if n == 0 then 0 else Pending(desc, m, cells, i, n - 1) + PendingAt(desc, m, cells, i, n - 1)
  }

  ghost predicate Accountable(desc: Desc, m: ProtoMessage, cells: Cells) {
    DescOk(desc) && Describes(desc, m) && CellsOk(desc, cells) && DeclaredCells(desc, m, cells) && MessageSize(m).Some?
  }

  /** A oneof is set to one of its own members. */
  lemma SelectedMember(desc: Desc, m: ProtoMessage, cells: Cells, l: nat)
    requires Accountable(desc, m, cells) && Member(m, l, l)
    ensures Selected(desc, cells, l) < |desc.fields| ==> Member(m, l, Selected(desc, cells, l)) && l <= Selected(desc, cells, l)
    ensures Selected(desc, cells, l) < |desc.fields| ==> Which(At(cells, l)) == desc.fields[Selected(desc, cells, l)].tag
  {
    assert FieldMatches(desc, m, l) && CellOk(desc, l, cells[l]);
    var k := Selected(desc, cells, l);
    if k < |desc.fields| {
      assert FieldMatches(desc, m, k) && SlotOk(desc.fields, k);
    }
  }

  /** Passing entry `i` settles the oneof that it is the set member of, and no other. */
  lemma {:induction false} PendingStep(desc: Desc, m: ProtoMessage, cells: Cells, i: nat, n: nat)
    requires Accountable(desc, m, cells) && i < |m.fields|
    ensures
      var slot := m.fields[i].slot;
      Pending(desc, m, cells, i, n) == Pending(desc, m, cells, i + 1, n) +
        if slot < n && m.fields[i].rule.Oneof? && Selected(desc, cells, slot) == i then Known(Largest(m, slot, 0)) else 0
    decreases n
  {
    if n > 0 {
      PendingStep(desc, m, cells, i, n - 1);
      PendingOf(desc, m, cells, i, n - 1);
    }
  }

  lemma PendingOf(desc: Desc, m: ProtoMessage, cells: Cells, i: nat, l: nat)
    requires Accountable(desc, m, cells) && i < |m.fields|
    ensures
      PendingAt(desc, m, cells, i, l) == PendingAt(desc, m, cells, i + 1, l) +
        if l == m.fields[i].slot && m.fields[i].rule.Oneof? && Selected(desc, cells, l) == i then Known(Largest(m, l, 0)) else 0
  {
    assert FieldMatches(desc, m, i) && SlotOk(desc.fields, i);
    if Member(m, l, l) {
      SelectedMember(desc, m, cells, l);
    } else if l < |m.fields| {
      assert FieldMatches(desc, m, l);
    }
  }

  /** Entry `i`: its bytes and its gap are what is counted for it, or has been before. */
  lemma EntryAccount(desc: Desc, m: ProtoMessage, cells: Cells, i: nat)
    requires Accountable(desc, m, cells) && i < |m.fields|
    ensures EntrySize(m, i).Some?
    ensures
      Contribution(desc, cells, i) + Gap(desc, m, cells, i) + Pending(desc, m, cells, i + 1, i + 1) ==
      EntrySize(m, i).value + Pending(desc, m, cells, i, i)
  {
    EntriesKnown(m, 0, i);
    assert FieldMatches(desc, m, i) && SlotOk(desc.fields, i);
    PendingStep(desc, m, cells, i, i);
    if m.fields[i].rule.Oneof? {
      OneofAccount(desc, m, cells, i);
    }
  }

  lemma OneofAccount(desc: Desc, m: ProtoMessage, cells: Cells, i: nat)
    requires Accountable(desc, m, cells) && i < |m.fields| && m.fields[i].rule.Oneof?
    ensures
      var slot := m.fields[i].slot;
      && slot <= i && Member(m, slot, slot) && Largest(m, slot, 0).Some?
      && (Selected(desc, cells, slot) != i ==> Contribution(desc, cells, i) == 0)
      && (slot == i ==> Selected(desc, cells, slot) >= i)
  {
    var slot := m.fields[i].slot;
    assert FieldMatches(desc, m, i) && SlotOk(desc.fields, i) && FieldMatches(desc, m, slot);
    EntriesKnown(m, 0, slot);
    SelectedMember(desc, m, cells, slot);
    LookupOwnTag(desc, i);
  }

  lemma {:induction false} FieldsAccount(desc: Desc, m: ProtoMessage, cells: Cells, i: nat)
    requires Accountable(desc, m, cells) && i <= |m.fields|
    ensures SizeFrom(m, i).Some? && EncFrom(desc, cells, i).Some?
    ensures |EncFrom(desc, cells, i).value| + GapFrom(desc, m, cells, i) == SizeFrom(m, i).value + Pending(desc, m, cells, i, i)
    decreases |m.fields| - i
  {
    Validity.FieldsEncode(desc, cells, i);
    if i < |m.fields| {
      FieldsAccount(desc, m, cells, i + 1);
      EntryAccount(desc, m, cells, i);
    } else {
      NonePending(desc, m, cells, i);
    }
  }

  lemma {:induction false} NonePending(desc: Desc, m: ProtoMessage, cells: Cells, n: nat)
    requires |desc.fields| == |m.fields|
    ensures Pending(desc, m, cells, |m.fields|, n) == 0
  {
    if n > 0 {
      NonePending(desc, m, cells, n - 1);
    }
  }

  /** For every message type and every well-formed struct: encoded_size is what pb_encode writes, and the
      gaps of the entries. */
  lemma SizeIsAccounted(desc: Desc, m: ProtoMessage, cells: Cells)
    requires Accountable(desc, m, cells)
    ensures EncCells(desc, cells).Some?
    ensures MessageSize(m).value == |EncCells(desc, cells).value| + GapFrom(desc, m, cells, 0)
  {
    FieldsAccount(desc, m, cells, 0);
  }

  /** None of the gaps is negative. */
  lemma GapsAreGaps(desc: Desc, m: ProtoMessage, cells: Cells, i: nat)
    requires Accountable(desc, m, cells) && i < |m.fields|
    ensures Gap(desc, m, cells, i) >= 0
  {
    assert FieldMatches(desc, m, i) && SlotOk(desc.fields, i) && DeclaredCell(desc, m, i, At(cells, m.fields[i].slot));
    EntriesKnown(m, 0, i);
    Validity.FieldEncodes(desc, cells, i);
    if m.fields[i].rule.Oneof? {
      OneofAccount(desc, m, cells, i);
      LargestCovers(m, m.fields[i].slot, 0, i);
    }
    FieldBound(desc, m, i, At(cells, m.fields[i].slot));
  }

  /** So the bound is met exactly if every entry leaves nothing over. */
  lemma {:induction false} NothingOver(desc: Desc, m: ProtoMessage, cells: Cells, i: nat)
    requires Accountable(desc, m, cells) && i <= |m.fields|
    ensures GapFrom(desc, m, cells, i) >= 0
    ensures GapFrom(desc, m, cells, i) == 0 <==> forall j | i <= j < |m.fields| :: Gap(desc, m, cells, j) == 0
    decreases |m.fields| - i
  {
    if i < |m.fields| {
      GapsAreGaps(desc, m, cells, i);
      NothingOver(desc, m, cells, i + 1);
    }
  }

  // ---------- embedded messages and enums ----------

  lemma {:induction false} LengthWithPrefix(a: nat, b: nat)
    requires a <= b
    ensures |VarintBytes(a)| + a == |VarintBytes(b)| + b <==> a == b
  {
    VarintLengthGrows(a, b);
  }

  /** An embedded message takes what its type is counted at exactly if it fills its own encoded_size: nothing
      is added but the prefix. */
  lemma EmbeddedFills(ty: Ty, m: ProtoMessage, v: Value)
    requires TyOk(ty) && TypeMatches(ty, MessageType(m)) && Declared(ty, MessageType(m), v)
    requires EncValue(ty, v).Some? && TypeSize(MessageType(m)).Some?
    ensures
      |EncValue(ty, v).value| == TypeSize(MessageType(m)).value <==>
      |EncCells(ty.desc, AsCells(v)).value| == MessageSize(m).value
  {
    var n := |EncCells(ty.desc, AsCells(v)).value|;
    EncodedSizeBound(ty.desc, m, AsCells(v));
    VarintMaxSizeExact(MessageSize(m).value);
    LengthWithPrefix(n, MessageSize(m).value);
  }

  /** An enum is counted at the longest of its values. */
  lemma {:induction false} EnumIsLongest(values: seq<int>) returns (k: nat)
    requires EnumSize(values).Some?
    ensures k < |values| && VarintMaxSize(values[k]) == EnumSize(values)
    ensures forall i | 0 <= i < |values| :: VarintMaxSize(values[i]).Some? && VarintMaxSize(values[i]).value <= EnumSize(values).value
    decreases |values|
  {
    forall i | 0 <= i < |values|
      ensures VarintMaxSize(values[i]).Some? && VarintMaxSize(values[i]).value <= EnumSize(values).value
    {
      EnumSizeCovers(values, values[i]);
    }
    k := 0;
    if |values| > 1 && EnumSize(values) != VarintMaxSize(values[0]) {
      var j := EnumIsLongest(values[1..]);
      k := j + 1;
    }
  }
}
