/** pb_validate_utf8 against section 4 of RFC 3629. */
module Utf8 {
  import opened Wire

  // ---------- section 4 of RFC 3629 ----------

  /** UTF8-tail. */
  predicate Tail(b: byte) { 0x80 <= b <= 0xBF }

  /** UTF8-1 to UTF8-4, with the ranges of the grammar; no NUL inside a string, and U+FFFE and
      U+FFFF left out, as pb_validate_utf8 does. */
  predicate Sequence(c: Bytes) {
    match |c|
    case 1 => 0x01 <= c[0] <= 0x7F
    case 2 => 0xC2 <= c[0] <= 0xDF && Tail(c[1])
    case 3 =>
      && Tail(c[2])
      && (|| (c[0] == 0xE0 && 0xA0 <= c[1] <= 0xBF)
          || (0xE1 <= c[0] <= 0xEC && Tail(c[1]))
          || (c[0] == 0xED && 0x80 <= c[1] <= 0x9F)
          || (0xEE <= c[0] <= 0xEF && Tail(c[1])))
      && !(c[0] == 0xEF && c[1] == 0xBF && c[2] >= 0xBE)
    case 4 =>
      && Tail(c[2]) && Tail(c[3])
      && (|| (c[0] == 0xF0 && 0x90 <= c[1] <= 0xBF)
          || (0xF1 <= c[0] <= 0xF3 && Tail(c[1]))
          || (c[0] == 0xF4 && 0x80 <= c[1] <= 0x8F))
    case _ => false
  }

  /** `parts` are well-formed sequences that make up `s`. */
  predicate Splits(s: Bytes, parts: seq<Bytes>)
    decreases |parts|
  {
    if parts == [] then s == []
    else Sequence(parts[0]) && parts[0] <= s && Splits(s[|parts[0]|..], parts[1..])
  }

  ghost predicate WellFormed(s: Bytes) {
    exists parts :: Splits(s, parts)
  }

  // ---------- the decision by the first byte ----------

  /** The length that the first byte announces, if what follows is well-formed. */
  function First(s: Bytes): nat {
    if s == [] then 0
    else if s[0] < 0x80 then 1
    else if s[0] < 0xE0 then if |s| >= 2 && Sequence(s[..2]) then 2 else 0
    else if s[0] < 0xF0 then if |s| >= 3 && Sequence(s[..3]) then 3 else 0
    else if |s| >= 4 && Sequence(s[..4]) then 4 else 0
  }

  predicate Accepts(s: Bytes)
    decreases |s|
  {
    s == [] || (First(s) > 0 && Accepts(s[First(s)..]))
  }

  /** Only one sequence can start at a byte. */
  lemma SequenceIsFirst(s: Bytes, c: Bytes)
    requires Sequence(c) && c <= s
    ensures First(s) == |c|
  {
    assert s[..|c|] == c && s[0] == c[0];
  }

  lemma {:induction false} AcceptsSplits(s: Bytes, parts: seq<Bytes>)
    requires Splits(s, parts)
    ensures Accepts(s)
    decreases |parts|
  {
    if parts != [] {
      SequenceIsFirst(s, parts[0]);
      AcceptsSplits(s[|parts[0]|..], parts[1..]);
    }
  }

  lemma {:induction false} SplitsAccepted(s: Bytes) returns (parts: seq<Bytes>)
    requires Accepts(s) && 0 !in s
    ensures Splits(s, parts)
    decreases |s|
  {
    if s == [] {
      parts := [];
    } else {
      var n := First(s);
      var rest := SplitsAccepted(s[n..]);
      assert s[0] in s;
      parts := [s[..n]] + rest;
      assert parts[1..] == rest;
    }
  }

  /** Deciding by the first byte is deciding by the grammar. */
  lemma AcceptsIsWellFormed(s: Bytes)
    requires 0 !in s
    ensures Accepts(s) <==> WellFormed(s)
  {
    if Accepts(s) {
      var parts := SplitsAccepted(s);
    }
    if WellFormed(s) {
      var parts :| Splits(s, parts);
      AcceptsSplits(s, parts);
    }
  }

  // ---------- pb_validate_utf8 ----------

  /** A C string of length `n`; nothing behind its NUL may be read. */
  ghost predicate CString(str: array<byte>, n: nat)
    reads str
  {
    n < str.Length && str[n] == 0 && forall i | 0 <= i < n :: str[i] != 0
  }

  method Peek(str: array<byte>, i: nat, ghost n: nat) returns (b: byte)
    requires CString(str, n) && i <= n
    ensures b == str[i] && (b == 0 <==> i == n)
  {
    b := str[i];
  }

  /** `(b & 0xc0) == 0x80`. */
  predicate Continues(b: byte) { b / 0x40 == 2 }

  /** `110XXXXx 10xxxxxx`, not overlong. */
  method Two(str: array<byte>, i: nat, ghost n: nat) returns (ok: bool)
    requires CString(str, n) && i < n && 0xC0 <= str[i] < 0xE0
    ensures ok <==> First(str[i..n]) == 2
    ensures !ok ==> First(str[i..n]) == 0
  {
    ghost var s := str[i..n];
    var b0 := str[i];
    var b1 := Peek(str, i + 1, n);
    ok := Continues(b1) && b0 / 2 != 0x60;
    assert |s| >= 2 ==> s[..2] == [b0, b1];
  }

  /** `1110XXXX 10Xxxxxx 10xxxxxx`: not overlong, no surrogate, not U+FFFE or U+FFFF. */
  method Three(str: array<byte>, i: nat, ghost n: nat) returns (ok: bool)
    requires CString(str, n) && i < n && 0xE0 <= str[i] < 0xF0
    ensures ok <==> First(str[i..n]) == 3
    ensures !ok ==> First(str[i..n]) == 0
  {
    ghost var s := str[i..n];
    var b0 := str[i];
    var b1 := Peek(str, i + 1, n);
    if !Continues(b1) {
      assert |s| >= 3 ==> s[..3][1] == b1;
      return false;
    }
    var b2 := Peek(str, i + 2, n);
    ok := Continues(b2) && !(b0 == 0xE0 && b1 / 0x20 == 4) && !(b0 == 0xED && b1 / 0x20 == 5)
          && !(b0 == 0xEF && b1 == 0xBF && b2 / 2 == 0x5F);
    assert |s| >= 3 ==> s[..3] == [b0, b1, b2];
  }

  /** `11110XXX 10XXxxxx 10xxxxxx 10xxxxxx`: not overlong, not above U+10FFFF. */
  method Four(str: array<byte>, i: nat, ghost n: nat) returns (ok: bool)
    requires CString(str, n) && i < n && 0xF0 <= str[i] < 0xF8
    ensures ok <==> First(str[i..n]) == 4
    ensures !ok ==> First(str[i..n]) == 0
  {
    ghost var s := str[i..n];
    var b0 := str[i];
    var b1 := Peek(str, i + 1, n);
    if !Continues(b1) {
      assert |s| >= 4 ==> s[..4][1] == b1;
      return false;
    }
    var b2 := Peek(str, i + 2, n);
    if !Continues(b2) {
      assert |s| >= 4 ==> s[..4][2] == b2;
      return false;
    }
    var b3 := Peek(str, i + 3, n);
    ok := Continues(b3) && !(b0 == 0xF0 && b1 / 0x10 == 8) && !(b0 == 0xF4 && b1 > 0x8F) && b0 <= 0xF4;
    assert |s| >= 4 ==> s[..4] == [b0, b1, b2, b3];
  }

  /** pb_validate_utf8. */
  method ValidateUtf8(str: array<byte>, ghost n: nat) returns (ok: bool)
    requires CString(str, n)
    ensures ok <==> WellFormed(str[..n])
  {
    AcceptsIsWellFormed(str[..n]);
    var i := 0;
    assert str[0..n] == str[..n];
    while true
      invariant i <= n && (Accepts(str[..n]) <==> Accepts(str[i..n]))
      decreases n - i
    {
      var b0 := Peek(str, i, n);
      if b0 == 0 {
        return true;
      }
      ghost var s := str[i..n];
      var k := 1;
      ok := true;
      if b0 >= 0x80 {
        if b0 / 0x20 == 6 {
          k := 2;
          ok := Two(str, i, n);
        } else if b0 / 0x10 == 0xE {
          k := 3;
          ok := Three(str, i, n);
        } else if b0 / 8 == 0x1E {
          k := 4;
          ok := Four(str, i, n);
        } else {
          NoFirst(s);
          ok := false;
        }
      }
      if !ok {
        return;
      }
      assert s[k..] == str[i + k..n];
      i := i + k;
    }
  }

  /** A continuation byte or one above 0xF7 starts no sequence. */
  lemma NoFirst(s: Bytes)
    requires s != [] && (0x80 <= s[0] < 0xC0 || s[0] >= 0xF8)
    ensures First(s) == 0
  {
    assert |s| >= 2 ==> s[..2][0] == s[0];
    assert |s| >= 4 ==> s[..4][0] == s[0];
  }
}
