/** The name readers and the name writer of mdns.h as they run over a packet buffer. */
module Mdns {
  import opened Wire
  import opened Wrappers
  import opened Names

  // ---------- readers ----------

  /** mdns_get_next_substring. */
  method GetNextSubstring(buf: array<byte>, size: nat, start: nat) returns (pair: Pair)
    requires size <= buf.Length
    ensures pair == NextSub(buf[..size], start)
  {
    if start >= size {
      return Invalid;
    }
    if buf[start] == 0 {
      return Sub(start, 0, false);
    }
    var offset: nat, recursion: nat, ref := start, 0, false;
    while IsRef(buf[offset])
      invariant offset < size <= buf.Length && recursion <= MAX_HOPS && (ref <==> recursion > 0)
      invariant Follow(buf[..size], offset, recursion) == Follow(buf[..size], start, 0)
      decreases MAX_HOPS - recursion
    {
      if size < offset + 2 {
        return Invalid;
      }
      PointerMask(buf[..size], offset);
      var high: nat, low: nat := buf[offset], buf[offset + 1];
      offset := (high * 0x100 + low) % 0x4000;
      if offset >= size {
        return Invalid;
      }
      ref := true;
      recursion := recursion + 1;
      if recursion > MAX_HOPS {
        return Invalid;
      }
    }
    var length: nat := buf[offset];
    offset := offset + 1;
    if size < offset + length {
      return Invalid;
    }
    pair := Sub(offset, length, ref);
  }

  /** `next` is what the reader finds in the buffer, kept abstract in the loops below. */
  ghost predicate IsReader(next: nat -> Pair, s: Bytes) {
    forall o: nat {:trigger NextSub(s, o)} :: next(o) == NextSub(s, o)
  }

  method GetNext(buf: array<byte>, size: nat, start: nat, ghost next: nat -> Pair) returns (pair: Pair)
    requires size <= buf.Length && IsReader(next, buf[..size])
    ensures pair == next(start) && (pair.Sub? ==> pair.offset + pair.length <= size)
  {
    pair := GetNextSubstring(buf, size, start);
  }

  method GetText(buf: array<byte>, size: nat, offset: nat, length: nat) returns (text: Bytes)
    requires offset + length <= size <= buf.Length
    ensures text == Text(buf[..size], offset, length) && |text| == length
  {
    text := buf[offset..offset + length];
    assert text == buf[..size][offset..offset + length];
  }

  /** mdns_string_skip. */
  method StringSkip(buf: array<byte>, size: nat, offset: nat) returns (ok: bool, cursor: nat)
    requires size <= buf.Length
    ensures match Skipped(buf[..size], offset) case None => !ok && cursor == offset case Some(end) => ok && cursor == end
  {
    ok, cursor := SkipLoop(buf, size, offset, Reader(buf[..size]));
  }

  method SkipLoop(buf: array<byte>, size: nat, offset: nat, ghost next: nat -> Pair) returns (ok: bool, cursor: nat)
    requires size <= buf.Length && IsReader(next, buf[..size])
    ensures match SkipName(next, offset, 0) case None => !ok && cursor == offset case Some(end) => ok && cursor == end
  {
    var cur: nat, counter: nat := offset, 0;
    while true
      invariant counter <= MAX_SUBSTRINGS + 1
      invariant SkipName(next, offset, 0) == SkipName(next, cur, counter)
      decreases MAX_SUBSTRINGS + 1 - counter
    {
      var substr := GetNext(buf, size, cur, next);
      if substr.Invalid? || counter > MAX_SUBSTRINGS {
        return false, offset;
      }
      counter := counter + 1;
      if substr.ref {
        return true, cur + 2;
      }
      cur := substr.offset + substr.length;
      if substr.length == 0 {
        return true, cur + 1;
      }
    }
  }

  /** What fits into `capacity` bytes. */
  function Clipped(s: Bytes, capacity: nat): (r: Bytes)
    ensures |r| <= capacity
  {
    if |s| <= capacity then s else s[..capacity]
  }

  /** Labels already read, and where the name ends if a pointer was met. */
  function Ahead(done: seq<Bytes>, end: Option<nat>, r: Option<(seq<Bytes>, nat)>): Option<(seq<Bytes>, nat)> {
    match r
    case None => None
    case Some((labels, e)) => Some((done + labels, if end.Some? then end.value else e))
  }

  lemma AheadNone(r: Option<(seq<Bytes>, nat)>)
    ensures Ahead([], None, r) == r
  {
    if r.Some? {
      assert [] + r.value.0 == r.value.0;
    }
  }

  /** The position behind the name is fixed by the first pointer. */
  function EndAfter(end: Option<nat>, ref: bool, cur: nat): Option<nat> {
    if end.None? && ref then Some(cur + 2) else end
  }

  /** One more label has been read. */
  lemma AheadStep(next: nat -> Pair, s: Bytes, cur: nat, n: nat, done: seq<Bytes>, end: Option<nat>, substr: Pair)
    requires substr == next(cur) && substr.Sub? && substr.length > 0 && n <= MAX_SUBSTRINGS
    ensures
      Ahead(done, end, Walk(next, s, cur, n)) ==
      Ahead(done + [Text(s, substr.offset, substr.length)], EndAfter(end, substr.ref, cur),
            Walk(next, s, substr.offset + substr.length, n + 1))
  {
    var text, r := Text(s, substr.offset, substr.length), Walk(next, s, substr.offset + substr.length, n + 1);
    if r.Some? {
      assert done + ([text] + r.value.0) == done + [text] + r.value.0;
    }
  }

  lemma {:induction false} DottedAppend(labels: seq<Bytes>, text: Bytes)
    ensures Dotted(labels + [text]) == Dotted(labels) + (text + [DOT])
    decreases |labels|
  {
    if labels == [] {
      assert Dotted([text]) == text + [DOT] + Dotted([]);
    } else {
      assert (labels + [text])[1..] == labels[1..] + [text];
      DottedAppend(labels[1..], text);
    }
  }

  /** Copying a label and its dot, each as far as it fits. */
  method CopyLabel(str: array<byte>, dst: nat, capacity: nat, text: Bytes, ghost done: seq<Bytes>) returns (dst': nat)
    requires capacity <= str.Length && dst <= capacity && str[..dst] == Clipped(Dotted(done), capacity)
    requires text != []
    modifies str
    ensures dst <= dst' <= capacity && str[..dst'] == Clipped(Dotted(done + [text]), capacity)
  {
    DottedAppend(done, text);
    var remain := capacity - dst;
    var count := if |text| < remain then |text| else remain;
    forall i | 0 <= i < count {
      str[dst + i] := text[i];
    }
    dst' := dst + count;
    assert str[..dst'] == str[..dst] + text[..count];
    if dst' < capacity {
      str[dst'] := DOT;
      assert str[..dst' + 1] == Dotted(done) + (text + [DOT]);
      dst' := dst' + 1;
    }
  }

  /** mdns_string_extract: the text of the name, clipped to the capacity, and the position
      behind it; nothing is returned for a name that cannot be read. */
  method StringExtract(buf: array<byte>, size: nat, offset: nat, str: array<byte>, capacity: nat)
    returns (length: nat, cursor: nat)
    requires size <= buf.Length && capacity <= str.Length && buf != str
    modifies str
    ensures Outcome(Extracted(buf[..size], offset), str, capacity, offset, length, cursor)
  {
    length, cursor := ExtractLoop(buf, size, offset, str, capacity, buf[..size], Reader(buf[..size]));
  }

  /** What has become of extracting a name that is, or is not, readable. */
  ghost predicate Outcome(whole: Option<(seq<Bytes>, nat)>, str: array<byte>, capacity: nat, offset: nat, length: nat, cursor: nat)
    reads str
  {
    match whole
    case None => length == 0 && cursor == offset
    case Some((labels, end)) => cursor == end && length <= str.Length && str[..length] == Clipped(Dotted(labels), capacity)
  }

  /** `done` is copied, up to `dst`; the rest of the name is at `cur`. */
  ghost predicate Extracting(buf: array<byte>, size: nat, str: array<byte>, capacity: nat, s: Bytes, next: nat -> Pair,
                             whole: Option<(seq<Bytes>, nat)>, cur: nat, counter: nat, dst: nat, end: Option<nat>, done: seq<Bytes>)
    reads buf, str
  {
    && size <= buf.Length && capacity <= str.Length && buf[..size] == s && IsReader(next, s)
    && counter <= MAX_SUBSTRINGS + 1 && whole == Ahead(done, end, Walk(next, s, cur, counter))
    && dst <= capacity && str[..dst] == Clipped(Dotted(done), capacity)
  }

  method ExtractLoop(buf: array<byte>, size: nat, offset: nat, str: array<byte>, capacity: nat, ghost s: Bytes, ghost next: nat -> Pair)
    returns (length: nat, cursor: nat)
    requires size <= buf.Length && capacity <= str.Length && buf != str && s == buf[..size] && IsReader(next, s)
    modifies str
    ensures Outcome(Walk(next, s, offset, 0), str, capacity, offset, length, cursor)
  {
    var cur: nat, counter: nat, dst: nat := offset, 0, 0;
    var end: Option<nat> := None;
    ghost var done: seq<Bytes> := [];
    ghost var whole := Walk(next, s, offset, 0);
    AheadNone(whole);
    while true
      invariant Extracting(buf, size, str, capacity, s, next, whole, cur, counter, dst, end, done)
      decreases MAX_SUBSTRINGS + 1 - counter
    {
      var stop;
      stop, length, cursor, cur, dst, end, done :=
        ExtractTurn(buf, size, offset, str, capacity, cur, counter, dst, end, s, next, whole, done);
      if stop {
        return;
      }
      counter := counter + 1;
    }
  }

  /** One turn: the end of the name, or one more label. */
  method ExtractTurn(buf: array<byte>, size: nat, offset: nat, str: array<byte>, capacity: nat, cur: nat, counter: nat, dst: nat, end: Option<nat>,
                     ghost s: Bytes, ghost next: nat -> Pair, ghost whole: Option<(seq<Bytes>, nat)>, ghost done: seq<Bytes>)
    returns (stop: bool, length: nat, cursor: nat, cur': nat, dst': nat, end': Option<nat>, ghost done': seq<Bytes>)
    requires buf != str && Extracting(buf, size, str, capacity, s, next, whole, cur, counter, dst, end, done)
    modifies str
    ensures stop ==> Outcome(whole, str, capacity, offset, length, cursor)
    ensures !stop ==> counter <= MAX_SUBSTRINGS &&
                      Extracting(buf, size, str, capacity, s, next, whole, cur', counter + 1, dst', end', done')
  {
    cur', dst', end', done' := cur, dst, end, done;
    var substr;
    stop, length, cursor, substr := ExtractEnd(buf, size, offset, cur, counter, dst, end, s, next, done);
    if !stop {
      end', dst', done' := ExtractLabel(buf, size, str, capacity, cur, counter, dst, end, substr, s, next, done);
      cur' := substr.offset + substr.length;
    }
  }

  /** The position behind a name whose last hop ends in an empty label. */
  method CursorAt(cur: nat, end: Option<nat>, substr: Pair, ghost done: seq<Bytes>) returns (cursor: nat)
    requires substr.Sub?
    ensures Ahead(done, end, Some(([], if substr.ref then cur + 2 else substr.offset + 1))) == Some((done, cursor))
  {
    AheadLast(done, end, cur, substr);
    var last := EndAfter(end, substr.ref, cur);
    cursor := if last.Some? then last.value else substr.offset + 1;
  }

  /** Whether the loop ends here, and then with what: a failure, or the end of the name. */
  method ExtractEnd(buf: array<byte>, size: nat, offset: nat, cur: nat, counter: nat, dst: nat, end: Option<nat>,
                    ghost s: Bytes, ghost next: nat -> Pair, ghost done: seq<Bytes>)
    returns (stop: bool, length: nat, cursor: nat, substr: Pair)
    requires size <= buf.Length && s == buf[..size] && IsReader(next, s)
    ensures stop ==> match Ahead(done, end, Walk(next, s, cur, counter))
                     case None => length == 0 && cursor == offset
                     case Some((labels, e)) => labels == done && length == dst && cursor == e
    ensures !stop ==> counter <= MAX_SUBSTRINGS && substr == next(cur) && substr.Sub? && substr.length > 0 &&
                      substr.offset + substr.length <= size
  {
    length, cursor := 0, offset;
    substr := GetNext(buf, size, cur, next);
    if substr.Invalid? || counter > MAX_SUBSTRINGS {
      stop := true;
    } else if substr.length == 0 {
      cursor := CursorAt(cur, end, substr, done);
      stop, length := true, dst;
    } else {
      stop := false;
    }
  }

  /** One label of the loop. */
  method ExtractLabel(buf: array<byte>, size: nat, str: array<byte>, capacity: nat, cur: nat, n: nat, dst: nat, end: Option<nat>,
                      substr: Pair, ghost s: Bytes, ghost next: nat -> Pair, ghost done: seq<Bytes>)
    returns (end': Option<nat>, dst': nat, ghost done': seq<Bytes>)
    requires size <= buf.Length && capacity <= str.Length && buf != str && s == buf[..size] && n <= MAX_SUBSTRINGS
    requires substr == next(cur) && substr.Sub? && substr.length > 0 && substr.offset + substr.length <= size
    requires dst <= capacity && str[..dst] == Clipped(Dotted(done), capacity)
    modifies str
    ensures buf[..size] == s && dst' <= capacity && str[..dst'] == Clipped(Dotted(done'), capacity)
    ensures Ahead(done, end, Walk(next, s, cur, n)) == Ahead(done', end', Walk(next, s, substr.offset + substr.length, n + 1))
  {
    AheadStep(next, s, cur, n, done, end, substr);
    var text := GetText(buf, size, substr.offset, substr.length);
    dst' := CopyLabel(str, dst, capacity, text, done);
    done' := done + [text];
    end' := EndAfter(end, substr.ref, cur);
  }

  lemma AheadLast(done: seq<Bytes>, end: Option<nat>, cur: nat, substr: Pair)
    requires substr.Sub?
    ensures
      var last := EndAfter(end, substr.ref, cur);
      Ahead(done, end, Some(([], if substr.ref then cur + 2 else substr.offset + 1))) ==
      Some((done, if last.Some? then last.value else substr.offset + 1))
  {
    assert done + [] == done;
  }

  /** mdns_string_find for a dot: memchr from `offset` on. */
  method StringFind(str: Bytes, length: nat, offset: nat) returns (pos: Option<nat>)
    requires length <= |str|
    ensures pos == if offset < length && offset + Dot(str[offset..length]) < length then Some(offset + Dot(str[offset..length])) else None
  {
    if offset >= length {
      return None;
    }
    var i := offset;
    while i < length
      invariant offset <= i <= length
      invariant offset + Dot(str[offset..length]) == i + Dot(str[i..length])
    {
      if str[i] == DOT {
        return Some(i);
      }
      assert str[i..length][1..] == str[i + 1..length];
      i := i + 1;
    }
    pos := None;
  }

  // ---------- the offset table ----------

  const TABLE_SIZE: nat := 16

  /** Appending an entry, or replacing one. */
  function Entered<T>(s: seq<T>, slot: nat, x: T): (r: seq<T>)
    requires slot <= |s|
    ensures |r| == (if slot == |s| then |s| + 1 else |s|) && r[slot] == x
    ensures forall j | 0 <= j < |r| && j != slot :: j < |s| && r[j] == s[j]
  {
    if slot == |s| then s + [x] else s[slot := x]
  }

  /** mdns_string_table_t: the latest label offsets, in a ring. */
  class Table {
    const offset: array<nat>
    var count: nat
    var next: nat

    ghost predicate Valid()
      reads this
    {
      offset.Length == TABLE_SIZE && count <= TABLE_SIZE && next < TABLE_SIZE && (count < TABLE_SIZE ==> next == count)
    }

    /** The offsets in the table. */
    ghost function Offsets(): (s: seq<nat>)
      reads this, offset
      requires Valid()
      ensures |s| == count
    {
      offset[..count]
    }

    /** `{{0}, 0, 0}`. */
    constructor ()
      ensures Valid() && fresh(offset) && count == 0 && next == 0
    {
      offset := new nat[TABLE_SIZE](_ => 0);
      count, next := 0, 0;
    }

    /** mdns_string_table_add: a new entry, in the place of the oldest one once the table is
        full. */
    method Add(at: nat)
      requires Valid()
      modifies this, offset
      ensures Valid()
      ensures Offsets() == Entered(old(Offsets()), old(next), at)
      ensures next == if old(next) + 1 < TABLE_SIZE then old(next) + 1 else 0
    {
      offset[next] := at;
      count := count + 1;
      if count > TABLE_SIZE {
        count := TABLE_SIZE;
      }
      next := next + 1;
      if next >= TABLE_SIZE {
        next := 0;
      }
    }
  }

  // ---------- finding a stored name ----------

  /** The labels of `str` from `offset` on, none of them empty. */
  predicate Spells(str: Bytes, offset: nat, labels: seq<Bytes>)
    decreases |labels|
  {
    if labels == [] then offset > |str|
    else
      && offset < |str|
      && labels[0] == str[offset..offset + Dot(str[offset..])] && labels[0] != []
      && Spells(str, offset + Dot(str[offset..]) + 1, labels[1..])
  }

  lemma {:induction false} SplitSpells(str: Bytes, offset: nat, labels: seq<Bytes>)
    requires offset <= |str| && labels == Split(str[offset..]) && forall i | 0 <= i < |labels| :: labels[i] != []
    ensures Spells(str, offset, labels)
    decreases |str| - offset
  {
    var d := Dot(str[offset..]);
    SplitAt(str, offset, labels, d);
    if offset + d < |str| {
      assert forall i | 0 <= i < |labels[1..]| :: labels[1..][i] == labels[i + 1];
      SplitSpells(str, offset + d + 1, labels[1..]);
    }
    SpellsStep(str, offset, labels, d, labels[1..]);
  }

  lemma SplitAt(str: Bytes, offset: nat, labels: seq<Bytes>, d: nat)
    requires offset <= |str| && labels == Split(str[offset..]) && d == Dot(str[offset..])
    ensures labels != [] && offset + d <= |str| && labels[0] == str[offset..offset + d]
    ensures if offset + d < |str| then labels[1..] == Split(str[offset + d + 1..]) else labels[1..] == []
  {
    var rest := str[offset..];
    SplitHead(rest);
    assert rest[..d] == str[offset..offset + d];
    if offset + d < |str| {
      assert rest[d + 1..] == str[offset + d + 1..];
    }
  }

  lemma SpellsStep(str: Bytes, offset: nat, labels: seq<Bytes>, d: nat, rest: seq<Bytes>)
    requires labels != [] && rest == labels[1..] && offset < |str| && d == Dot(str[offset..])
    requires labels[0] == str[offset..offset + d] && labels[0] != [] && Spells(str, offset + d + 1, rest)
    ensures Spells(str, offset, labels)
  {
  }

  lemma SplitHead(s: Bytes)
    ensures Split(s)[0] == s[..Dot(s)]
    ensures if Dot(s) < |s| then Split(s)[1..] == Split(s[Dot(s) + 1..]) else |Split(s)| == 1
  {
  }

  /** Reading from `at` on decides whether `tail` begins with `labels`: it can be read to its end,
      or as far as the first label that differs, or as long as there are labels. */
  ghost predicate Decides(s: Bytes, owned: set<nat>, at: nat, tail: seq<Bytes>, labels: seq<Bytes>)
    decreases |tail|
  {
    || labels == []
    || Reads(s, owned, at, tail)
    || (tail != [] && Direct(s, owned, Hop(s, at), tail[0]) &&
        (tail[0] == labels[0] ==> Decides(s, owned, Hop(s, at) + 1 + |tail[0]|, tail[1..], labels[1..])))
  }

  /** What the reader then finds: the first label of `tail`, or its end. */
  lemma DecidesNext(s: Bytes, owned: set<nat>, off: nat, tail: seq<Bytes>, labels: seq<Bytes>)
    requires Decides(s, owned, off, tail, labels) && labels != []
    ensures
      var p := NextSub(s, off);
      && p.Sub?
      && (tail == [] ==> p.length == 0)
      && (tail != [] ==> p.length == |tail[0]| > 0 && Text(s, p.offset, p.length) == tail[0])
      && (tail != [] && tail[0] == labels[0] ==> Decides(s, owned, p.offset + p.length, tail[1..], labels[1..]))
  {
    if Reads(s, owned, off, tail) {
      ReadingNext(s, owned, off, tail);
    } else {
      NextOfLabel(s, owned, off, tail[0]);
    }
  }

  /** What the reader finds where `tail` can be read: its first label, or the end. */
  lemma ReadingNext(s: Bytes, owned: set<nat>, off: nat, tail: seq<Bytes>)
    requires Reads(s, owned, off, tail)
    ensures
      var p := NextSub(s, off);
      && p.Sub?
      && (tail == [] ==> p.length == 0)
      && (tail != [] ==> p.length == |tail[0]| > 0 && Text(s, p.offset, p.length) == tail[0] &&
                         Reads(s, owned, p.offset + p.length, tail[1..]))
  {
    if tail != [] {
      NextOfLabel(s, owned, off, tail[0]);
    }
  }

  lemma HeadPrefix(a: seq<Bytes>, b: seq<Bytes>)
    requires a != [] && b != [] && a[0] == b[0]
    ensures a <= b <==> a[1..] <= b[1..]
  {
    assert a == [a[0]] + a[1..] && b == [b[0]] + b[1..];
  }

  /** The next label of a stored name; none at its end. */
  method LabelAt(buf: array<byte>, capacity: nat, cur: nat, ghost owned: set<nat>, ghost tail: seq<Bytes>, ghost labels: seq<Bytes>)
    returns (text: Bytes, cur': nat)
    requires capacity <= buf.Length && labels != [] && Decides(buf[..capacity], owned, cur, tail, labels)
    ensures text == [] <==> tail == []
    ensures tail != [] ==> text == tail[0]
    ensures tail != [] && text == labels[0] ==> Decides(buf[..capacity], owned, cur', tail[1..], labels[1..])
  {
    DecidesNext(buf[..capacity], owned, cur, tail, labels);
    var substr := GetNextSubstring(buf, capacity, cur);
    text := GetText(buf, capacity, substr.offset, substr.length);
    cur' := substr.offset + substr.length;
  }

  /** Where the label of `str` at `offset` ends. */
  method NextDot(str: Bytes, offset: nat) returns (dotPos: nat)
    requires offset < |str|
    ensures dotPos == offset + Dot(str[offset..]) <= |str|
  {
    var pos := StringFind(str, |str|, offset);
    dotPos := if pos.Some? then pos.value else |str|;
    assert str[offset..|str|] == str[offset..];
  }

  /** The label of `str` at `offset` against the stored name that goes on at `cur`. */
  method MatchesLabel(buf: array<byte>, capacity: nat, cur: nat, str: Bytes, offset: nat,
                      ghost owned: set<nat>, ghost labels: seq<Bytes>, ghost tail: seq<Bytes>)
    returns (found: bool, cur': nat, offset': nat)
    requires capacity <= buf.Length && labels != [] && Spells(str, offset, labels)
    requires Decides(buf[..capacity], owned, cur, tail, labels)
    ensures found ==> tail != [] && Decides(buf[..capacity], owned, cur', tail[1..], labels[1..])
    ensures found ==> Spells(str, offset', labels[1..]) && (labels <= tail <==> labels[1..] <= tail[1..])
    ensures !found ==> !(labels <= tail)
  {
    var dotPos := NextDot(str, offset);
    var text;
    text, cur' := LabelAt(buf, capacity, cur, owned, tail, labels);
    offset' := dotPos + 1;
    found := text != [] && |text| == dotPos - offset && str[offset..dotPos] == text;
    if found {
      HeadPrefix(labels, tail);
    }
  }

  /** The remaining labels of `str` against those of a stored name. */
  method MatchesRest(buf: array<byte>, capacity: nat, at: nat, str: Bytes, offset0: nat,
                     ghost owned: set<nat>, ghost labels0: seq<Bytes>, ghost tail0: seq<Bytes>) returns (found: bool)
    requires capacity <= buf.Length && Spells(str, offset0, labels0)
    requires Decides(buf[..capacity], owned, at, tail0, labels0)
    ensures found <==> labels0 <= tail0
  {
    var offset: nat, cur: nat := offset0, at;
    ghost var labels, tail := labels0, tail0;
    while offset < |str|
      invariant Spells(str, offset, labels) && Decides(buf[..capacity], owned, cur, tail, labels)
      invariant labels0 <= tail0 <==> labels <= tail
      decreases |labels|
    {
      found, cur, offset := MatchesLabel(buf, capacity, cur, str, offset, owned, labels, tail);
      if !found {
        return;
      }
      labels, tail := labels[1..], tail[1..];
    }
    found := true;
  }

  /** One entry of the table in mdns_string_table_find: every label of `str` from `from` on must
      be there, but the stored name may go on.  An entry of the name being written is not read
      beyond the labels that are there. */
  method MatchesEntry(buf: array<byte>, capacity: nat, entry: nat, str: Bytes, from: nat, firstLength: nat,
                      ghost owned: set<nat>, ghost labels: seq<Bytes>, ghost tail: seq<Bytes>) returns (found: bool)
    requires capacity <= buf.Length && labels != [] && Spells(str, from, labels) && firstLength == |labels[0]|
    requires Comparable(buf[..capacity], owned, entry, tail, labels)
    ensures found <==> labels <= tail
  {
    if entry >= capacity {
      return false;
    }
    var text, cur := HeadAt(buf, capacity, entry, owned, tail, labels);
    if text == [] || |text| != firstLength || str[from..from + firstLength] != text {
      return false;
    }
    HeadPrefix(labels, tail);
    found := MatchesRest(buf, capacity, cur, str, from + firstLength + 1, owned, labels[1..], tail[1..]);
  }

  /** The label stored at an entry. */
  method HeadAt(buf: array<byte>, capacity: nat, entry: nat, ghost owned: set<nat>, ghost tail: seq<Bytes>, ghost labels: seq<Bytes>)
    returns (text: Bytes, cur: nat)
    requires capacity <= buf.Length && labels != [] && Comparable(buf[..capacity], owned, entry, tail, labels)
    ensures text == tail[0] && (text == labels[0] ==> Decides(buf[..capacity], owned, cur, tail[1..], labels[1..]))
  {
    assert Hop(buf[..capacity], entry) == entry;
    NextOfLabel(buf[..capacity], owned, entry, tail[0]);
    var substr := GetNextSubstring(buf, capacity, entry);
    text := GetText(buf, capacity, substr.offset, substr.length);
    cur := substr.offset + substr.length;
  }

  /** A stored label is at `at`, and from there on it can be decided whether `tail` begins with
      `labels`. */
  ghost predicate Comparable(s: Bytes, owned: set<nat>, at: nat, tail: seq<Bytes>, labels: seq<Bytes>) {
    tail != [] && Direct(s, owned, at, tail[0]) && Decides(s, owned, at, tail, labels)
  }

  /** The first of these names, from the `i`-th on, that begins with the labels `rest`. */
  function FirstHit(tails: seq<seq<Bytes>>, rest: seq<Bytes>, i: nat): (r: Option<nat>)
    requires i <= |tails|
    ensures r.Some? ==> i <= r.value < |tails| && rest <= tails[r.value] && forall j | i <= j < r.value :: !(rest <= tails[j])
    ensures r.None? ==> forall j | i <= j < |tails| :: !(rest <= tails[j])
    decreases |tails| - i
  {
    if i == |tails| then None else if rest <= tails[i] then Some(i) else FirstHit(tails, rest, i + 1)
  }

  /** mdns_string_table_find: the first entry that begins with these labels. */
  method TableFind(table: Table, buf: array<byte>, capacity: nat, str: Bytes, from: nat, firstLength: nat,
                   ghost owned: set<nat>, ghost labels: seq<Bytes>, ghost tails: seq<seq<Bytes>>) returns (ref: Option<nat>)
    requires table.Valid() && |tails| == table.count && capacity <= buf.Length
    requires labels != [] && Spells(str, from, labels) && firstLength == |labels[0]|
    requires forall i | 0 <= i < |tails| :: Comparable(buf[..capacity], owned, table.Offsets()[i], tails[i], labels)
    ensures ref == match FirstHit(tails, labels, 0) case None => None case Some(j) => Some(table.Offsets()[j])
  {
    var istr := 0;
    while istr < table.count
      invariant istr <= table.count
      invariant FirstHit(tails, labels, 0) == FirstHit(tails, labels, istr)
    {
      assert table.offset[istr] == table.Offsets()[istr];
      var found := MatchesEntry(buf, capacity, table.offset[istr], str, from, firstLength, owned, labels, tails[istr]);
      if found {
        return Some(table.offset[istr]);
      }
      istr := istr + 1;
    }
    ref := None;
  }
}
