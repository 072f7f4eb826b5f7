/** A packet under construction: mdns_string_make and mdns_string_table_find over the buffer
    and the ring of offsets. */
module Packet {
  import opened Wire
  import opened Wrappers
  import opened Names
  import opened Mdns
  import opened Compression

  class Packet {
    const buf: array<byte>
    const capacity: nat
    const table: Table
    ghost var owned: set<nat>                   // the bytes of names
    ghost var ring: Ring                        // what the table stands for
    ghost var names: seq<(nat, seq<Bytes>)>     // the names written so far: where, and what they read as

    ghost predicate Shape()
      reads this, table
    {
      && capacity <= buf.Length && capacity <= 0x4000
      && table.Valid() && (buf as object) != (table.offset as object)
      && RingOk(ring) && |ring.tails| == table.count && ring.next == table.next
    }

    ghost function Now(): View
      reads this, buf, table, table.offset
      requires Shape()
    {
      View(buf[..capacity], owned, table.Offsets(), ring)
    }

    /** Every name written so far can be read, and so can every entry of the table. */
    ghost predicate Valid()
      reads this, buf, table, table.offset
    {
      Shape() && Intact(Now(), names)
    }

    /** An empty packet in a buffer of the caller's. */
    constructor (buf: array<byte>, capacity: nat)
      requires capacity <= buf.Length && capacity <= 0x4000
      ensures Valid() && this.buf == buf && this.capacity == capacity
      ensures names == [] && owned == {} && ring == EMPTY_RING && fresh(table) && fresh(table.offset)
    {
      this.buf, this.capacity := buf, capacity;
      table := new Table();
      owned, ring, names := {}, EMPTY_RING, [];
    }

    /** The rest of the packet: bytes outside of names, written at any time. */
    method WriteRaw(at: nat, data: Bytes)
      requires Valid() && at + |data| <= capacity && forall i | i in owned :: !(at <= i < at + |data|)
      modifies buf
      ensures Valid() && Patched(old(buf[..capacity]), buf[..capacity], at, data)
    {
      ghost var v := Now();
      StoreBytes(buf, capacity, at, data);
      PatchKeeps(v.s, buf[..capacity], v.owned, at, data);
      IntactStays(v, buf[..capacity], names);
    }

    // ---------- one label ----------

    /** One label of a name, and its entry in the table. */
    method WriteLabel(data: nat, text: Bytes, ghost start: nat, ghost labels: seq<Bytes>, ghost k: nat, ghost k': nat)
      requires Shape() && k < |labels| && k' == k + 1 && text == labels[k] && data == LabelStart(start, labels, k)
      requires Writing(Now(), start, labels, k) && data + 1 + |text| <= capacity
      requires NamesRead(buf[..capacity], owned, names)
      modifies this`owned, this`ring, buf, table, table.offset
      ensures Shape() && ring == Pushed(old(ring), labels[k..], k) && Writing(Now(), start, labels, k')
      ensures LabelStart(start, labels, k') == data + 1 + |text|
      ensures NamesRead(buf[..capacity], owned, names) && forall i | 0 <= i < data :: buf[i] == old(buf[i])
    {
      ghost var v := Now();
      StoreBytes(buf, capacity, data, LabelBytes(text));
      EnterLabel(data, labels[k..], k);
      owned := owned + Span(data, 1 + |text|);
      ghost var w := LabelEntered(v, buf[..capacity], start, labels, k, k', names);
      assert Now() == w;
    }

    method EnterLabel(data: nat, ghost tail: seq<Bytes>, ghost m: nat)
      requires Shape()
      modifies this`ring, table, table.offset
      ensures Shape() && table.Offsets() == Entered(old(table.Offsets()), old(ring).next, data)
      ensures ring == Pushed(old(ring), tail, m)
    {
      ring := Pushed(ring, tail, m);
      table.Add(data);
    }

    // ---------- the end of a name ----------

    /** What ends a name whose first `k` labels are stored leads to `tail`. */
    method WriteEnd(data: nat, bytes: Bytes, ghost start: nat, ghost labels: seq<Bytes>, ghost k: nat, ghost tail: seq<Bytes>)
      requires Shape() && k <= |labels| && data == LabelStart(start, labels, k) && data + |bytes| <= capacity
      requires Writing(Now(), start, labels, k) && NamesRead(buf[..capacity], owned, names)
      requires Leads(buf[..capacity], owned, data, bytes, tail)
      modifies this`owned, this`ring, this`names, buf
      ensures Valid() && ring == Settle(old(ring), labels[..k] + tail) && names == old(names) + [(start, labels[..k] + tail)]
      ensures EndOf(buf[..capacity], start, labels[..k] + tail) == data + |bytes|
      ensures owned == old(owned) + Span(data, |bytes|) && forall i | 0 <= i < data :: buf[i] == old(buf[i])
    {
      ghost var v, before := Now(), names;
      StoreBytes(buf, capacity, data, bytes);
      owned := owned + Span(data, |bytes|);
      names := names + [(start, labels[..k] + tail)];
      ring := Settle(ring, labels[..k] + tail);
      IntactAgain(v, buf[..capacity], owned, start, labels, k, bytes, tail, before);
    }

    /** mdns_string_make_ref behind the labels written so far. */
    method WritePointer(data: nat, ref: nat, ghost start: nat, ghost labels: seq<Bytes>, ghost k: nat, ghost tail: seq<Bytes>, ghost w: Written)
      returns (end: Option<nat>)
      requires Shape() && k < |labels| && data == LabelStart(start, labels, k) <= capacity && tail != [] && w == Written(k, tail, ring)
      requires Writing(Now(), start, labels, k) && NamesRead(buf[..capacity], owned, names)
      requires Reads(buf[..capacity], owned, ref, tail) && !AtRef(buf[..capacity], ref)
      modifies this`owned, this`ring, this`names, buf
      ensures Ended(old(names), start, labels, w, end)
      ensures forall i | 0 <= i < data :: buf[i] == old(buf[i])
    {
      if capacity - data < 2 {
        return None;
      }
      RefInRange(buf[..capacity], owned, ref, tail);
      PointerLeads(buf[..capacity], owned, data, ref, tail);
      WriteEnd(data, PointerBytes(ref), start, labels, k, tail);
      end := Some(data + 2);
    }

    /** The zero byte behind the last label. */
    method WriteZero(data: nat, ghost start: nat, ghost labels: seq<Bytes>) returns (end: Option<nat>)
      requires Shape() && data == LabelStart(start, labels, |labels|) <= capacity
      requires Writing(Now(), start, labels, |labels|) && NamesRead(buf[..capacity], owned, names)
      modifies this`owned, this`ring, this`names, buf
      ensures Ended(old(names), start, labels, Written(|labels|, [], old(ring)), end)
      ensures forall i | 0 <= i < data :: buf[i] == old(buf[i])
    {
      if data == capacity {
        return None;
      }
      ZeroLeads(buf[..capacity], owned, data);
      WriteEnd(data, [0], start, labels, |labels|, []);
      end := Some(data + 1);
    }

    /** The outcome of writing a name, as the writer on labels has it: it ends at EndPos exactly
        when that lies within the packet, and then it has joined the others and reads as ReadsAs says;
        otherwise the others can still be read. */
    ghost predicate Ended(before: seq<(nat, seq<Bytes>)>, start: nat, labels: seq<Bytes>, w: Written, end: Option<nat>)
      requires w.k <= |labels| && RingOk(w.ring)
      reads this, buf, table, table.offset
    {
      && (end.Some? <==> EndPos(w, start, labels) <= capacity)
      && (end.None? ==> Shape() && names == before && NamesRead(buf[..capacity], owned, names))
      && (end.Some? ==>
            && Valid() && end.value == EndPos(w, start, labels) == EndOf(buf[..capacity], start, ReadsAs(w, labels))
            && names == before + [(start, ReadsAs(w, labels))] && ring == Settle(w.ring, ReadsAs(w, labels))
            && forall i | i in owned :: i < end.value)
    }

    // ---------- the search ----------

    /** The search for the rest of a name, whose first `k` labels are written: the first entry
        that begins with it, which can be read. */
    method FindRest(stem: Bytes, lastPos: nat, subLength: nat, ghost start: nat, ghost labels: seq<Bytes>, ghost k: nat)
      returns (ref: Option<nat>)
      requires Shape() && k < |labels| && Writing(Now(), start, labels, k)
      requires Spells(stem, lastPos, labels[k..]) && subLength == |labels[k]|
      ensures ref.Some? <==> FirstHit(ring.tails, labels[k..], 0).Some?
      ensures ref.Some? ==>
                var j := FirstHit(ring.tails, labels[k..], 0).value;
                && ref.value == table.Offsets()[j] && ring.tails[j] != []
                && Reads(buf[..capacity], owned, ref.value, ring.tails[j]) && !AtRef(buf[..capacity], ref.value)
    {
      ghost var v, rest := Now(), labels[k..];
      forall j | 0 <= j < |ring.tails|
        ensures Comparable(buf[..capacity], owned, table.Offsets()[j], ring.tails[j], rest)
      {
        EntryComparable(v, start, labels, k, j);
      }
      ref := TableFind(table, buf, capacity, stem, lastPos, subLength, owned, rest, ring.tails);
      if ref.Some? {
        HitReads(v, start, labels, k, FirstHit(ring.tails, rest, 0).value);
      }
    }

    // ---------- a name ----------

    /** mdns_string_make: the labels of the name, until the table has an entry that begins with
        the remaining ones, and a pointer to it; or all of them and a zero byte.  What is written
        is what the writer on labels makes of the ring, and it fails only for lack of room. */
    method MakeName(start: nat, name: Bytes) returns (end: Option<nat>)
      requires Valid() && start <= capacity && name != [] && forall i | i in owned :: i < start
      requires Proper(LabelsOf(name))
      modifies this`owned, this`ring, this`names, buf, table, table.offset
      ensures Ended(old(names), start, LabelsOf(name), Write(old(ring), LabelsOf(name), 0), end)
      ensures end.Some? ==> names == old(names) + [(start, Add(old(ring), LabelsOf(name)).1)] && ring == Add(old(ring), LabelsOf(name)).0
      ensures forall i | 0 <= i < start :: buf[i] == old(buf[i])
    {
      var length := |name|;
      if name[length - 1] == DOT {
        length := length - 1;
      }
      assert name[..length] == Stem(name);
      StemSpells(name);
      end := MakeLabels(start, name[..length], LabelsOf(name));
    }

    /** `k` labels are written, up to `data`; the others are spelled from `lastPos` on. */
    ghost predicate Underway(start: nat, stem: Bytes, labels: seq<Bytes>, k: nat, data: nat, lastPos: nat, w: Written)
      reads this, buf, table, table.offset
    {
      && Shape() && k <= |labels| && start <= data == LabelStart(start, labels, k) <= capacity
      && Writing(Now(), start, labels, k) && NamesRead(buf[..capacity], owned, names)
      && Left(stem, lastPos, labels, k)
      && Write(ring, labels, k) == w
    }

    /** Its loop. */
    method MakeLabels(start: nat, stem: Bytes, ghost labels: seq<Bytes>) returns (end: Option<nat>)
      requires Valid() && start <= capacity && (forall i | i in owned :: i < start) && Proper(labels)
      requires if stem == [] then labels == [] else Spells(stem, 0, labels)
      modifies this`owned, this`ring, this`names, buf, table, table.offset
      ensures Ended(old(names), start, labels, Write(old(ring), labels, 0), end)
      ensures forall i | 0 <= i < start :: buf[i] == old(buf[i])
    {
      ghost var k: nat, w := 0, Write(ring, labels, 0);
      var data: nat, lastPos: nat, stop := start, 0, false;
      NotYetUnderway(start, stem, labels);
      while lastPos < |stem|
        invariant Underway(start, stem, labels, k, data, lastPos, w)
        invariant names == old(names) && forall i | 0 <= i < start :: buf[i] == old(buf[i])
        decreases |labels| - k
      {
        stop, end, data, lastPos, k := NameTurn(start, stem, labels, k, data, lastPos, w);
        if stop {
          return;
        }
      }
      end := NameEnd(start, stem, labels, k, data, lastPos, w);
    }

    lemma NotYetUnderway(start: nat, stem: Bytes, labels: seq<Bytes>)
      requires Valid() && start <= capacity && (forall i | i in owned :: i < start) && Proper(labels)
      requires if stem == [] then labels == [] else Spells(stem, 0, labels)
      ensures Underway(start, stem, labels, 0, start, 0, Write(ring, labels, 0))
    {
      IntactIsReady(Now(), names, start, labels);
      assert labels[0..] == labels;
    }

    /** Behind the last label. */
    method NameEnd(ghost start: nat, stem: Bytes, ghost labels: seq<Bytes>, ghost k: nat, data: nat, lastPos: nat, ghost w: Written)
      returns (end: Option<nat>)
      requires lastPos >= |stem| && Underway(start, stem, labels, k, data, lastPos, w)
      modifies this`owned, this`ring, this`names, buf
      ensures w.k <= |labels| && RingOk(w.ring) && Ended(old(names), start, labels, w, end)
      ensures forall i | 0 <= i < start :: buf[i] == old(buf[i])
    {
      end := WriteZero(data, start, labels);
    }

    /** One turn: a pointer to the rest, or one more label. */
    method NameTurn(ghost start: nat, stem: Bytes, ghost labels: seq<Bytes>, ghost k: nat, data: nat, lastPos: nat, ghost w: Written)
      returns (stop: bool, end: Option<nat>, data': nat, lastPos': nat, ghost k': nat)
      requires lastPos < |stem| && Underway(start, stem, labels, k, data, lastPos, w)
      modifies this`owned, this`ring, this`names, buf, table, table.offset
      ensures w.k <= |labels| && RingOk(w.ring)
      ensures stop ==> Ended(old(names), start, labels, w, end)
      ensures !stop ==> k < k' <= |labels| && Underway(start, stem, labels, k', data', lastPos', w) && names == old(names)
      ensures forall i | 0 <= i < start :: buf[i] == old(buf[i])
    {
      var subLength, next := NextLabel(stem, lastPos, labels, k);
      stop, end, data', lastPos', k' := false, None, data, next, k;
      var ref := FindRest(stem, lastPos, subLength, start, labels, k);
      WriteTurn(ring, labels, k, w);
      if ref.Some? {
        end := WritePointer(data, ref.value, start, labels, k, w.tail, w);
        stop := true;
      } else if capacity - data <= subLength + 1 {
        NoRoom(start, stem, labels, k, data, lastPos, w);
        stop := true;
      } else {
        data', k' := LabelTurn(start, stem, labels, k, data, lastPos, subLength, next, w);
      }
    }

    lemma NoRoom(start: nat, stem: Bytes, labels: seq<Bytes>, k: nat, data: nat, lastPos: nat, w: Written)
      requires Underway(start, stem, labels, k, data, lastPos, w) && k < w.k <= |labels| && RingOk(w.ring)
      requires capacity - data <= |labels[k]| + 1
      ensures Ended(names, start, labels, w, None)
    {
      LabelStartGrows(start, labels, k + 1, w.k);
    }

    /** One more label. */
    method LabelTurn(ghost start: nat, stem: Bytes, ghost labels: seq<Bytes>, ghost k: nat, data: nat, lastPos: nat, subLength: nat,
                     ghost next: nat, ghost w: Written) returns (data': nat, ghost k': nat)
      requires lastPos + subLength <= |stem| && Underway(start, stem, labels, k, data, lastPos, w)
      requires k < |labels| && Left(stem, next, labels, k + 1)
      requires stem[lastPos..lastPos + subLength] == labels[k] && data + subLength + 1 < capacity
      requires w == Write(Pushed(ring, labels[k..], k), labels, k + 1)
      modifies this`owned, this`ring, buf, table, table.offset
      ensures k < k' <= |labels| && Underway(start, stem, labels, k', data', next, w)
      ensures forall i | 0 <= i < start :: buf[i] == old(buf[i])
    {
      data', k' := data + subLength + 1, k + 1;
      WriteLabel(data, stem[lastPos..lastPos + subLength], start, labels, k, k');
    }

    /** What a reader of the packet gets, whatever its size, for a name written into it: what it
        reads as and the position behind it, and the same position when skipping it; nothing for
        a name that has come to more than 64 labels. */
    lemma Readable(size: nat, x: nat)
      requires Valid() && size <= capacity && x < |names| && forall i | i in owned :: i < size
      ensures
        var end := EndOf(buf[..capacity], names[x].0, names[x].1);
        && Extracted(buf[..size], names[x].0) == (if |names[x].1| <= MAX_SUBSTRINGS then Some((names[x].1, end)) else None)
        && (|names[x].1| <= MAX_SUBSTRINGS ==> Skipped(buf[..size], names[x].0) == Some(end))
    {
      var s, t := buf[..capacity], buf[..size];
      assert Keeps(s, t, owned);
      ReadsStays(s, t, owned, owned, names[x].0, names[x].1);
      ReadsIsExtracted(t, owned, names[x].0, names[x].1);
    }
  }

  /** Of a packet that holds what mdns_string_make has written: a name extracts to its labels if
      and only if it was not diverted to an entry that goes on. */
  lemma ExtractsExactly(p: Packet, ring0: Ring, labels: seq<Bytes>, x: nat)
    requires p.Valid() && x < |p.names| && RingOk(ring0) && p.names[x].1 == Add(ring0, labels).1 && |labels| <= MAX_SUBSTRINGS
    ensures
      (exists end :: Extracted(p.buf[..p.capacity], p.names[x].0) == Some((labels, end))) <==> !Diverted(ring0, labels)
  {
    p.Readable(p.capacity, x);
    ReadsAsExact(ring0, labels);
    if !Diverted(ring0, labels) {
      var end := EndOf(p.buf[..p.capacity], p.names[x].0, p.names[x].1);
      assert Extracted(p.buf[..p.capacity], p.names[x].0) == Some((labels, end));
    }
  }

  /** Names with a shared last label that occurs only last are written as they are, and the
      packet goes on like that. */
  method MakeSharedName(p: Packet, start: nat, name: Bytes, ghost last: Bytes) returns (end: Option<nat>)
    requires p.Valid() && start <= p.capacity && name != [] && forall i | i in p.owned :: i < start
    requires Proper(LabelsOf(name)) && AllEndIn(p.ring, last) && (LabelsOf(name) != [] ==> EndsIn(LabelsOf(name), last))
    modifies p`owned, p`ring, p`names, p.buf, p.table, p.table.offset
    ensures end.Some? ==> p.Valid() && AllEndIn(p.ring, last) && p.names == old(p.names) + [(start, LabelsOf(name))]
    ensures end.Some? ==> end.value == EndOf(p.buf[..p.capacity], start, LabelsOf(name))
  {
    SharedAdd(p.ring, LabelsOf(name), last);
    end := p.MakeName(start, name);
  }

  /** A name like "a.b" written after one like "a.b.c" into an empty packet: both extract as the
      longer one. */
  method WritePrefix(buf: array<byte>, abc: seq<Bytes>) returns (first: Option<nat>, second: Option<nat>)
    requires buf.Length >= 9 && ThreeLabels(abc) && OneByteLabels(abc)
    modifies buf
    ensures first == Some(7) && second == Some(9)
    ensures Extracted(buf[..9], 0).Some? && Extracted(buf[..9], 0).value.0 == abc
    ensures Extracted(buf[..9], 7) == Some((abc, 9))
  {
    var p := new Packet(buf, 9);
    ghost var r := Add(EMPTY_RING, abc).0;
    first := WriteFirst(p, abc, r);
    second := WriteSecond(p, abc, r);
    p.Readable(9, 0);
    p.Readable(9, 1);
  }

  /** mdns_string_make for "x.y.x" in an empty packet: the last label is found in the name's own
      first entry, and the pointer leads back to the beginning. */
  method WriteRepeated(buf: array<byte>) returns (ref: Option<nat>)
    requires buf.Length >= 6
    modifies buf
    ensures ref == Some(0) && buf[..6] == [1, 120, 1, 121, 0xC0, 0]
    ensures !Proper([[120], [121], [120]]) && Extracted(buf[..6], 0) == None
  {
    var table := new Table();
    ghost var labels: seq<Bytes> := [[120], [121], [120]];
    buf[0], buf[1] := 1, 120;
    table.Add(0);
    buf[2], buf[3] := 1, 121;
    table.Add(2);
    ref := FindRepeated(table, buf, labels);
    buf[4], buf[5] := 0xC0, 0;
    RepeatedLoops(buf[..6], labels);
  }

  method FindRepeated(table: Table, buf: array<byte>, ghost labels: seq<Bytes>) returns (ref: Option<nat>)
    requires table.Valid() && table.Offsets() == [0, 2] && buf.Length >= 6 && buf[..6][..4] == [1, 120, 1, 121]
    requires labels == [[120], [121], [120]]
    ensures ref == Some(0) && !Proper(labels)
  {
    var name: Bytes := [120, DOT, 121, DOT, 120];
    RepeatedSpells(name, labels);
    RepeatedComparable(buf[..6], labels);
    ref := TableFind(table, buf, 6, name, 4, 1, {0, 1, 2, 3}, labels[2..], [labels, labels[1..]]);
  }

  lemma RepeatedSpells(name: Bytes, labels: seq<Bytes>)
    requires name == [120, DOT, 121, DOT, 120] && labels == [[120], [121], [120]]
    ensures Spells(name, 4, labels[2..]) && !Proper(labels)
  {
    assert name[4..] == [120] && Dot(name[4..]) == 1;
    assert labels[2..][0] == [120] && labels[2..][1..] == [];
    assert labels[2..] <= labels[0..2] && !Apart(labels, 0, 2);
  }

  lemma RepeatedComparable(s: Bytes, labels: seq<Bytes>)
    requires |s| == 6 && s[..4] == [1, 120, 1, 121] && labels == [[120], [121], [120]]
    ensures Comparable(s, {0, 1, 2, 3}, 0, labels, labels[2..]) && Comparable(s, {0, 1, 2, 3}, 2, labels[1..], labels[2..])
  {
    assert s[1..2] == [120] && s[3..4] == [121];
  }

  lemma RepeatedLoops(s: Bytes, labels: seq<Bytes>)
    requires s == [1, 120, 1, 121, 0xC0, 0] && labels == [[120], [121], [120]]
    ensures Extracted(s, 0) == None
  {
    assert LabelStart(0, labels, 1) == 2 && LabelStart(0, labels, 2) == 4;
    assert s[1..2] == [120] && s[3..4] == [121];
    PointsBackUnreadable(s, {0, 1, 2, 3}, 0, labels, 2, 0);
  }

  method WriteSecond(p: Packet, abc: seq<Bytes>, ghost r: Ring) returns (end: Option<nat>)
    requires p.Valid() && p.ring == r && p.names == [(0, abc)] && p.capacity == 9 && forall i | i in p.owned :: i < 7
    requires ThreeLabels(abc) && OneByteLabels(abc) && r == Add(EMPTY_RING, abc).0
    modifies p`owned, p`ring, p`names, p.buf, p.table, p.table.offset
    ensures end == Some(9) && p.Valid() && p.names == [(0, abc), (7, abc)] && forall i | i in p.owned :: i < 9
    ensures EndOf(p.buf[..9], 7, abc) == 9
  {
    PrefixText(abc);
    PrefixProper(abc);
    SecondEnd(abc, r);
    end := p.MakeName(7, abc[0] + [DOT] + abc[1]);
  }

  method WriteFirst(p: Packet, abc: seq<Bytes>, ghost r: Ring) returns (end: Option<nat>)
    requires p.Valid() && p.ring == EMPTY_RING && p.names == [] && p.owned == {} && p.capacity == 9
    requires ThreeLabels(abc) && OneByteLabels(abc) && r == Add(EMPTY_RING, abc).0
    modifies p`owned, p`ring, p`names, p.buf, p.table, p.table.offset
    ensures end == Some(7) && p.Valid() && p.ring == r && p.names == [(0, abc)] && forall i | i in p.owned :: i < 7
  {
    PrefixText(abc);
    PrefixProper(abc);
    FirstEnd(abc);
    end := p.MakeName(0, abc[0] + [DOT] + abc[1] + [DOT] + abc[2]);
  }

  /** From `pos` on, the text spells the labels from the `k`-th on. */
  predicate Left(stem: Bytes, pos: nat, labels: seq<Bytes>, k: nat)
    requires k <= |labels|
  {
    (pos < |stem| ==> k < |labels| && Spells(stem, pos, labels[k..])) && (pos >= |stem| ==> k == |labels|)
  }

  lemma StemSpells(name: Bytes)
    requires Proper(LabelsOf(name))
    ensures if Stem(name) == [] then LabelsOf(name) == [] else Spells(Stem(name), 0, LabelsOf(name))
  {
    assert Stem(name)[0..] == Stem(name);
    if Stem(name) != [] {
      SplitSpells(Stem(name), 0, LabelsOf(name));
    }
  }

  /** The length of the next label, and where the one after it starts. */
  method NextLabel(stem: Bytes, lastPos: nat, ghost labels: seq<Bytes>, ghost k: nat) returns (subLength: nat, next: nat)
    requires lastPos < |stem| && k < |labels| && Spells(stem, lastPos, labels[k..])
    ensures lastPos + subLength <= |stem| && stem[lastPos..lastPos + subLength] == labels[k]
    ensures Left(stem, next, labels, k + 1)
  {
    var pos := StringFind(stem, |stem|, lastPos);
    subLength := (if pos.Some? then pos.value else |stem|) - lastPos;
    next := if pos.Some? then pos.value + 1 else |stem|;
    assert stem[lastPos..|stem|] == stem[lastPos..];
    assert labels[k..][0] == labels[k] && labels[k..][1..] == labels[k + 1..];
  }

  lemma RefInRange(s: Bytes, owned: set<nat>, ref: nat, labels: seq<Bytes>)
    requires labels != [] && Reads(s, owned, ref, labels) && !AtRef(s, ref)
    ensures ref < |s|
  {
  }

  /** `htons(0xC000 | ref)`. */
  function PointerBytes(ref: nat): (r: Bytes)
    requires ref < 0x4000
    ensures |r| == 2
  {
    [0xC0 + ref / 0x100, ref % 0x100]
  }

  /** Whatever the packet looks like once `bytes` are written at `at`, `tail` is read there. */
  ghost predicate Leads(s: Bytes, owned: set<nat>, at: nat, bytes: Bytes, tail: seq<Bytes>) {
    forall t | Patched(s, t, at, bytes) :: Reads(t, owned + Span(at, |bytes|), at, tail) && EndOf(t, at, tail) == at + |bytes|
  }

  lemma ZeroLeads(s: Bytes, owned: set<nat>, at: nat)
    requires at < |s|
    ensures Leads(s, owned, at, [0], [])
  {
  }

  lemma PointerLeads(s: Bytes, owned: set<nat>, at: nat, ref: nat, labels: seq<Bytes>)
    requires labels != [] && Reads(s, owned, ref, labels) && !AtRef(s, ref) && ref < 0x4000
    requires forall i | i in owned :: i < at && i < |s|
    ensures Leads(s, owned, at, PointerBytes(ref), labels)
  {
    forall t | Patched(s, t, at, PointerBytes(ref))
      ensures Reads(t, owned + Span(at, 2), at, labels) && EndOf(t, at, labels) == at + 2
    {
      PointerReads(s, t, owned, at, ref, labels);
    }
  }

  /** A pointer to a stored label reads as what is stored there. */
  lemma PointerReads(s: Bytes, t: Bytes, owned: set<nat>, at: nat, ref: nat, labels: seq<Bytes>)
    requires labels != [] && Reads(s, owned, ref, labels) && !AtRef(s, ref) && ref < 0x4000
    requires Patched(s, t, at, PointerBytes(ref)) && forall i | i in owned :: i < at && i < |s|
    ensures Reads(t, owned + Span(at, 2), at, labels) && EndOf(t, at, labels) == at + 2
  {
    var bytes := PointerBytes(ref);
    PatchKeeps(s, t, owned, at, bytes);
    ReadsStays(s, t, owned, owned + Span(at, 2), ref, labels);
    assert t[at] == bytes[0] && t[at + 1] == bytes[1];
    assert Hop(s, ref) == ref && ref in owned && s[ref] == t[ref];
    ThroughPointer(t, owned + Span(at, 2), at, ref, labels);
  }

  /** memcpy into the first `capacity` bytes of a buffer. */
  method StoreBytes(buf: array<byte>, capacity: nat, at: nat, data: Bytes)
    requires at + |data| <= capacity <= buf.Length
    modifies buf
    ensures Patched(old(buf[..capacity]), buf[..capacity], at, data)
    ensures forall i | 0 <= i < at :: buf[i] == old(buf[i])
  {
    ghost var s := buf[..capacity];
    forall i | 0 <= i < |data| {
      buf[at + i] := data[i];
    }
    assert buf[..capacity] == s[..at] + data + s[at + |data|..];
  }

  // ---------- the two names of the counterexample ----------

  /** Labels of one byte. */
  predicate OneByteLabels(labels: seq<Bytes>) {
    forall i | 0 <= i < |labels| :: |labels[i]| == 1 && labels[i][0] != DOT
  }

  /** Their text. */
  lemma PrefixText(abc: seq<Bytes>)
    requires |abc| == 3 && OneByteLabels(abc)
    ensures LabelsOf(abc[0] + [DOT] + abc[1] + [DOT] + abc[2]) == abc && LabelsOf(abc[0] + [DOT] + abc[1]) == abc[..2]
  {
    var a, b, c := abc[0], abc[1], abc[2];
    ThreeText(a, b, c);
    TwoText(a, b);
    assert [a] + ([b] + [c]) == abc && [a] + [b] == abc[..2];
  }

  lemma ThreeText(a: Bytes, b: Bytes, c: Bytes)
    requires |a| == |b| == |c| == 1 && a[0] != DOT && b[0] != DOT && c[0] != DOT
    ensures LabelsOf(a + [DOT] + b + [DOT] + c) == [a] + ([b] + [c])
  {
    var bc := b + [DOT] + c;
    assert a + [DOT] + b + [DOT] + c == a + [DOT] + bc;
    StemOfLetters(a + [DOT], bc);
    SplitOne(a + [DOT] + bc, a, bc);
    SplitOne(bc, b, c);
    SplitLast(c);
  }

  lemma TwoText(a: Bytes, b: Bytes)
    requires |a| == |b| == 1 && a[0] != DOT && b[0] != DOT
    ensures LabelsOf(a + [DOT] + b) == [a] + [b]
  {
    StemOfLetters(a + [DOT], b);
    SplitOne(a + [DOT] + b, a, b);
    SplitLast(b);
  }

  lemma StemOfLetters(s: Bytes, t: Bytes)
    requires t != [] && t[|t| - 1] != DOT
    ensures LabelsOf(s + t) == Split(s + t)
  {
    assert (s + t)[|s + t| - 1] == t[|t| - 1];
  }

  lemma SplitOne(s: Bytes, a: Bytes, rest: Bytes)
    requires |a| == 1 && a[0] != DOT && s == a + [DOT] + rest
    ensures Split(s) == [a] + Split(rest)
  {
    assert s[1..][0] == DOT && Dot(s) == 1;
    assert s[..1] == a && s[2..] == rest;
  }

  lemma SplitLast(s: Bytes)
    requires |s| == 1 && s[0] != DOT
    ensures Split(s) == [s]
  {
    assert Dot(s) == 1;
  }

  lemma PrefixProper(abc: seq<Bytes>)
    requires ThreeLabels(abc) && OneByteLabels(abc)
    ensures Proper(abc) && Proper(abc[..2])
  {
    DistinctIsProper(abc);
    DistinctIsProper(abc[..2]);
  }

  /** What the writer on labels makes of them. */
  lemma FirstEnd(abc: seq<Bytes>)
    requires ThreeLabels(abc) && OneByteLabels(abc)
    ensures EndPos(Write(EMPTY_RING, abc, 0), 0, abc) == 7 && Add(EMPTY_RING, abc).1 == abc
  {
    FirstName(abc);
    SixBytes(abc);
    assert abc[..3] + [] == abc;
  }

  lemma SecondEnd(abc: seq<Bytes>, r: Ring)
    requires ThreeLabels(abc) && r == Add(EMPTY_RING, abc).0
    ensures EndPos(Write(r, abc[..2], 0), 7, abc[..2]) == 9 && Add(r, abc[..2]).1 == abc
  {
    PrefixDiverted(abc, r);
  }

  lemma SixBytes(labels: seq<Bytes>)
    requires |labels| == 3 && |labels[0]| == |labels[1]| == |labels[2]| == 1
    ensures LabelStart(0, labels, 3) == 6
  {
    assert LabelStart(0, labels, 1) == 2 && LabelStart(0, labels, 2) == 4;
  }
}
