/** pb_ostream_t and pb_istream_t over memory buffers, with the primitive readers and writers
    of pb_encode.c and pb_decode.c.  Every method computes a function of Wire. */
module Streams {
  import opened Wire
  import opened Wrappers

  /** 2^(7k), the weight of digit `k` of a varint. */
  function Pow128(k: nat): (p: nat)
    ensures p >= 1
  {
    if k == 0 then 1 else 128 * Pow128(k - 1)
  }

  lemma DigitStep(p: nat, d: nat, v: nat)
    ensures p * (d + 128 * v) == p * d + (128 * p) * v
  {
    assert p * (d + 128 * v) == p * d + p * (128 * v);
  }

  /** An output stream.  A null buffer is PB_OSTREAM_SIZING: it only counts. */
  class OStream {
    const buf: array?<byte>
    const maxSize: nat
    var pos: nat      // state
    var written: nat  // bytes_written

    ghost predicate Valid()
      reads this
    {
      buf != null ==> written <= maxSize && pos + (maxSize - written) <= buf.Length
    }

    /** pb_ostream_from_buffer, or a window of one. */
    constructor (buf: array?<byte>, pos: nat, maxSize: nat)
      requires buf != null ==> pos + maxSize <= buf.Length
      ensures Valid() && this.buf == buf && this.pos == pos && this.maxSize == maxSize && written == 0
    {
      this.buf, this.pos, this.maxSize, written := buf, pos, maxSize, 0;
    }

    /** Outside the window that was still free, the buffer is untouched. */
    twostate predicate Framed()
      reads this, buf
    {
      buf != null && old(Valid()) ==>
        forall j | 0 <= j < buf.Length && !(old(pos) <= j < old(pos) + (maxSize - old(written))) :: buf[j] == old(buf[j])
    }

    /** Emitting `r`: it succeeds exactly when `r` is defined and fits into the stream; then the
        stream has advanced over those bytes and no others. */
    twostate predicate Emitted(ok: bool, new r: Option<Bytes>)
      reads this, buf
    {
      && old(Valid()) && Valid() && Framed()
      && (ok <==> r.Some? && (buf == null || old(written) + |r.value| <= maxSize))
      && (ok ==>
            && written == old(written) + |r.value|
            && (buf != null ==> pos == old(pos) + |r.value| && buf[old(pos)..pos] == r.value))
    }

    /** The same, told by the position, count and buffer contents at which it began. */
    ghost predicate EmittedSince(start: nat, count: nat, before: Bytes, ok: bool, r: Option<Bytes>)
      reads this, buf
    {
      && Valid()
      && (buf != null ==>
            |before| == buf.Length &&
            forall j | 0 <= j < buf.Length && !(start <= j < start + (maxSize - count)) :: buf[j] == before[j])
      && (ok <==> r.Some? && (buf == null || count + |r.value| <= maxSize))
      && (ok ==>
            && written == count + |r.value|
            && (buf != null ==> pos == start + |r.value| && buf[start..pos] == r.value))
    }

    /** pb_write. */
    method Write(data: Bytes) returns (ok: bool)
      requires Valid()
      modifies this, buf
      ensures Emitted(ok, Some(data))
    {
      if |data| > 0 && buf != null {
        if written + |data| > maxSize {
          return false;
        }
        forall j | 0 <= j < |data| {
          buf[pos + j] := data[j];
        }
        pos := pos + |data|;
      }
      written := written + |data|;
      ok := true;
    }

    /** pb_write with a NULL source, used on sizing streams only. */
    method Count(n: nat)
      requires Valid() && buf == null
      modifies this
      ensures Valid() && written == old(written) + n
    {
      written := written + n;
    }

    /** pb_encode_varint_32: the 64-bit value `low + 2^32 * high` without 64-bit shifts. */
    method EncodeVarint32(low: nat, high: nat) returns (ok: bool)
      requires Valid() && low < TWO32 && high < TWO32
      modifies this, buf
      ensures Emitted(ok, Some(VarintBytes(low + TWO32 * high)))
    {
      var buffer, n := VarintDigits(low, high);
      ok := Write(buffer[..n]);
    }

    /** Its digit loops, filling a ten-byte buffer. */
    static method VarintDigits(low: nat, high: nat) returns (buffer: array<byte>, n: nat)
      requires low < TWO32 && high < TWO32
      ensures fresh(buffer) && n <= buffer.Length == 10
      ensures buffer[..n] == VarintBytes(low + TWO32 * high)
    {
      ghost var value := low + TWO32 * high;
      buffer := new byte[10](_ => 0);
      var i, b := LowDigits(buffer, low, high, value);
      if high != 0 {
        HighTop(b, high);
        i, b := HighDigits(buffer, i, b + 16 * (high % 8), high / 8, value);
      }
      ghost var before := buffer[..i];
      buffer[i] := b;
      n := i + 1;
      assert buffer[..n] == before + VarintBytes(b);
    }

    /** The loop over the low word: at most four digits, and the next one left in `b`. */
    static method LowDigits(buffer: array<byte>, low0: nat, high: nat, ghost value: nat) returns (i: nat, b: byte)
      requires buffer.Length == 10 && low0 < TWO32 && high < TWO32 && value == low0 + TWO32 * high
      modifies buffer
      ensures i <= 4 && b < 128 && (high != 0 ==> i == 4 && b < 16)
      ensures buffer[..i] + VarintBytes(b + 16 * high) == VarintBytes(value)
    {
      LowStart(low0, high);
      i, b := 0, low0 % 128;
      var low: nat := low0 / 128;
      ghost var pending := value;
      assert buffer[..0] == [];
      while i < 4 && (low != 0 || high != 0)
        invariant i <= 4 && b < 128 && low < LowRoom(i) && (i == 4 ==> b < 16)
        invariant pending == Pending(b, low, high, i)
        invariant buffer[..i] + VarintBytes(pending) == VarintBytes(value)
        decreases 4 - i
      {
        PendingStep(b, low, high, i);
        pending := PutDigit(buffer, i, b, pending, value);
        i := i + 1;
        b := low % 128;
        low := low / 128;
      }
      PendingEnd(b, low, high, i);
    }

    /** The loop over the high word, once its lowest three bits have joined the fifth byte. */
    static method HighDigits(buffer: array<byte>, i0: nat, b0: byte, high0: nat, ghost value: nat)
      returns (i: nat, b: byte)
      requires buffer.Length == 10 && i0 == 4 && b0 < 128 && high0 < HighRoom(4)
      requires buffer[..i0] + VarintBytes(b0 + 128 * high0) == VarintBytes(value)
      modifies buffer
      ensures i <= 9 && b < 128
      ensures buffer[..i] + VarintBytes(b) == VarintBytes(value)
    {
      var high := high0;
      i, b := i0, b0;
      ghost var pending: nat := b + 128 * high;
      while high != 0
        invariant 4 <= i <= 9 && b < 128 && high < HighRoom(i)
        invariant pending == b + 128 * high
        invariant buffer[..i] + VarintBytes(pending) == VarintBytes(value)
        decreases high
      {
        HighStep(b, high, i);
        pending := OStream.PutDigit(buffer, i, b, pending, value);
        i := i + 1;
        b := high % 128;
        high := high / 128;
      }
    }

    /** `byte |= 0x80; buffer[i] = byte`: one digit that is not the last. */
    static method PutDigit(buffer: array<byte>, i: nat, b: byte, ghost pending: nat, ghost value: nat)
      returns (ghost rest: nat)
      requires i < buffer.Length && b < 128 && pending >= 128 && pending % 128 == b
      requires buffer[..i] + VarintBytes(pending) == VarintBytes(value)
      modifies buffer
      ensures rest == pending / 128 && buffer[..i + 1] + VarintBytes(rest) == VarintBytes(value)
    {
      ghost var before := buffer[..i];
      buffer[i] := b + 128;
      rest := pending / 128;
      assert buffer[..i + 1] == before + [b + 128];
      assert VarintBytes(pending) == [b + 128] + VarintBytes(rest);
    }

    /** pb_encode_varint, with its one-byte fast path. */
    method EncodeVarint(value: nat) returns (ok: bool)
      requires Valid() && value < TWO64
      modifies this, buf
      ensures Emitted(ok, Some(VarintBytes(value)))
    {
      if value <= 0x7F {
        ok := Write([value]);
      } else {
        ok := EncodeVarint32(value % TWO32, value / TWO32);
      }
    }

    /** pb_encode_svarint: `~((value & mask) << 1)` or `value << 1` in 64 bits. */
    method EncodeSVarint(value: int) returns (ok: bool)
      requires Valid() && -(TWO64 / 2) <= value < TWO64 / 2
      modifies this, buf
      ensures Emitted(ok, Some(VarintBytes(ZigZag(value))))
    {
      var u := value % TWO64;
      var zigzagged: nat;
      if value < 0 {
        zigzagged := TWO64 - 1 - ((u % (TWO64 / 2)) * 2) % TWO64;
      } else {
        zigzagged := (u * 2) % TWO64;
      }
      ZigZagBits(value);
      ok := EncodeVarint(zigzagged);
    }

    /** pb_encode_fixed32. */
    method EncodeFixed32(val: nat) returns (ok: bool)
      requires Valid() && val < TWO32
      modifies this, buf
      ensures Emitted(ok, Some(LittleEndian(val, 4)))
    {
      var bytes: Bytes := [val % 256, (val / 0x100) % 256, (val / 0x1_0000) % 256, (val / 0x100_0000) % 256];
      LittleEndian32(val);
      ok := Write(bytes);
    }

    /** pb_encode_fixed64. */
    method EncodeFixed64(val: nat) returns (ok: bool)
      requires Valid() && val < TWO64
      modifies this, buf
      ensures Emitted(ok, Some(LittleEndian(val, 8)))
    {
      var bytes: Bytes := [val % 256, (val / 0x100) % 256, (val / 0x1_0000) % 256, (val / 0x100_0000) % 256,
                           (val / 0x1_0000_0000) % 256, (val / 0x100_0000_0000) % 256,
                           (val / 0x1_0000_0000_0000) % 256, (val / 0x100_0000_0000_0000) % 256];
      LittleEndian64(val);
      ok := Write(bytes);
    }

    /** pb_encode_string. */
    method EncodeString(data: Bytes) returns (ok: bool)
      requires Valid() && |data| < TWO64
      modifies this, buf
      ensures Emitted(ok, Some(Delimited(data)))
    {
      ok := EncodeVarint(|data|);
      if ok {
        ok := Write(data);
      }
    }

    /** pb_encode_tag. */
    method EncodeTag(wt: nat, tag: nat) returns (ok: bool)
      requires Valid() && wt < 8 && tag < TWO32
      modifies this, buf
      ensures Emitted(ok, Some(TagBytes(wt, tag)))
    {
      ok := EncodeVarint(tag * 8 + wt);
    }
  }

  /** An input stream over a constant buffer: `left` bytes from `pos` on may still be read. */
  class IStream {
    const buf: Bytes
    var pos: nat   // state
    var left: nat  // bytes_left

    ghost predicate Valid()
      reads this
    {
      pos + left <= |buf|
    }

    ghost function Rest(): Bytes
      reads this
      requires Valid()
    {
      buf[pos..pos + left]
    }

    /** pb_istream_from_buffer, or a window of one. */
    constructor (buf: Bytes, pos: nat, left: nat)
      requires pos + left <= |buf|
      ensures Valid() && this.buf == buf && this.pos == pos && this.left == left
    {
      this.buf, this.pos, this.left := buf, pos, left;
    }

    /** Reading what `r` describes: on success the stream has moved over exactly its bytes, and
        the end of the stream has not moved; a failed read never moves the end outwards. */
    twostate predicate Took<T>(ok: bool, new out: T, new r: Parsed<T>)
      reads this
    {
      && old(Valid()) && Valid()
      && old(pos) <= pos && pos + left <= old(pos) + old(left)
      && (ok <==> r.Got?)
      && (ok ==> out == r.value && pos == old(pos) + r.size && pos + left == old(pos) + old(left))
      && (ok ==> r.size <= |old(Rest())| && Rest() == old(Rest())[r.size..])
    }

    /** pb_readbyte. */
    method ReadByte() returns (ok: bool, b: byte)
      requires Valid()
      modifies this
      ensures Valid() && (ok <==> old(left) > 0)
      ensures !ok ==> pos == old(pos) && left == old(left)
      ensures ok ==> b == old(Rest())[0] && Rest() == old(Rest())[1..] && pos == old(pos) + 1 && left == old(left) - 1
    {
      if left == 0 {
        return false, 0;
      }
      b := buf[pos];
      pos, left := pos + 1, left - 1;
      ok := true;
    }

    /** pb_read into memory. */
    method Read(count: nat) returns (ok: bool, data: Bytes)
      requires Valid()
      modifies this
      ensures Took(ok, data, if count <= |old(Rest())| then Got(old(Rest())[..count], count) else Bad)
    {
      if count == 0 {
        assert Rest()[..0] == [];
        return true, [];
      }
      if left < count {
        return false, [];
      }
      assert Rest()[..count] == buf[pos..pos + count];
      data := buf[pos..pos + count];
      pos, left := pos + count, left - count;
      ok := true;
    }

    /** pb_read with a NULL destination. */
    method SkipBytes(count: nat) returns (ok: bool)
      requires Valid()
      modifies this
      ensures Took(ok, (), if count <= old(left) then Got((), count) else Bad)
    {
      if count == 0 {
        return true;
      }
      if left < count {
        return false;
      }
      pos, left := pos + count, left - count;
      ok := true;
    }

    /** Its treatment of one continuation byte: overflow checks, then `result |= ...`. */
    static method AddByte32(b: byte, bitpos: nat, acc: nat, ghost k: nat) returns (ok: bool, result: nat)
      requires k >= 1 && bitpos == 7 * k
      ensures ok <==> Accepts32(b, k, acc)
      ensures ok ==> result == Collect32(b, k, acc)
    {
      Masks(b);
      assert bitpos / 7 == k;
      result := acc;
      if bitpos >= 32 {
        var signExtension := if bitpos < 63 then 0xFF else 0x01;
        var validExtension := b % 128 == 0 || (acc / 0x8000_0000 != 0 && b == signExtension);
        if bitpos >= 64 || !validExtension {
          return false, 0;
        }
      } else if bitpos == 28 {
        // byte & 0x70, byte & 0x78, byte & 0x0F
        if (b / 16) % 8 != 0 && (b / 8) % 16 != 15 {
          return false, 0;
        }
        result := acc + Place(b % 16, 4);
      } else {
        result := acc + Place(b % 128, bitpos / 7);
      }
      ok := true;
    }

    /** Its loop over the bytes after the first. */
    method ContinueVarint32(first: nat) returns (ok: bool, result: nat)
      requires Valid()
      modifies this
      ensures Took(ok, result, Varint32At(old(Rest()), 1, first))
    {
      ghost var s0 := Rest();
      var bitpos := 7;
      result := first;
      ghost var k := 1;
      while true
        invariant Valid()
        invariant k >= 1 && bitpos == 7 * k
        invariant pos == old(pos) + k - 1 && pos + left == old(pos) + old(left)
        invariant Varint32At(s0, 1, first) == Longer(Varint32At(Rest(), k, result), k - 1)
        decreases left
      {
        ghost var s, before := Rest(), result;
        var b: byte;
        ok, b := ReadByte();
        if !ok {
          return;
        }
        ok, result := AddByte32(b, bitpos, result, k);
        if !ok {
          return;
        }
        Varint32Step(s, k, before);
        bitpos := bitpos + 7;
        k := k + 1;
        if b / 128 == 0 {
          return;
        }
      }
    }

    /** pb_decode_varint32. */
    method DecodeVarint32() returns (ok: bool, dest: nat)
      requires Valid()
      modifies this
      ensures Took(ok, dest, Varint32(old(Rest())))
      ensures ok ==> dest < TWO32
    {
      ghost var s0 := Rest();
      var b: byte;
      dest := 0;
      ok, b := ReadByte();
      if !ok {
        return;
      }
      Varint32Step(s0, 0, 0);
      if b / 128 == 0 {
        dest := b;
      } else {
        ok, dest := ContinueVarint32(b % 128);
      }
      if ok {
        Varint32FitsAt(s0, 0, 0);
      }
    }

    /** pb_decode_varint. */
    method DecodeVarint() returns (ok: bool, dest: nat)
      requires Valid()
      modifies this
      ensures Took(ok, dest, Varint(old(Rest())))
      ensures ok ==> dest < TWO64
    {
      ghost var s0 := Rest();
      var bitpos := 0;
      var result: nat := 0;
      ghost var k := 0;
      dest := 0;
      ScaledStart(VarintAt(s0, 0));
      while true
        invariant Valid()
        invariant k <= 9 && bitpos == 7 * k
        invariant pos == old(pos) + k && pos + left == old(pos) + old(left)
        invariant VarintAt(s0, 0) == Scaled(VarintAt(Rest(), k), k, result)
        decreases left
      {
        ghost var s := Rest();
        var b: byte;
        ok, b := ReadByte();
        if !ok {
          return;
        }
        if bitpos >= 63 && b / 2 != 0 {
          return false, 0;
        }
        ScaledStep(s, k, result);
        result := result + ShiftedLeft(b % 128, bitpos);
        bitpos := bitpos + 7;
        k := k + 1;
        if b / 128 == 0 {
          break;
        }
      }
      VarintFits(s0, 0);
      return true, result;
    }

    /** pb_decode_svarint. */
    method DecodeSVarint() returns (ok: bool, dest: int)
      requires Valid()
      modifies this
      ensures Took(ok, dest, match Varint(old(Rest())) case Bad => Bad case Got(v, n) => Got(UnZigZag(v), n))
    {
      var value: nat;
      ok, value := DecodeVarint();
      dest := if value % 2 == 1 then -1 - value / 2 else value / 2;
    }

    /** pb_decode_fixed32 and pb_decode_fixed64. */
    method DecodeFixed32() returns (ok: bool, dest: nat)
      requires Valid()
      modifies this
      ensures Took(ok, dest, Fixed(old(Rest()), 4))
    {
      var u: Bytes;
      ok, u := Read(4);
      dest := 0;
      if ok {
        dest := Word32(u[0], u[1], u[2], u[3]);
        FromLittleEndianFour(u);
        assert u[4..] == [];
      }
    }

    method DecodeFixed64() returns (ok: bool, dest: nat)
      requires Valid()
      modifies this
      ensures Took(ok, dest, Fixed(old(Rest()), 8))
    {
      var u: Bytes;
      ok, u := Read(8);
      dest := 0;
      if ok {
        dest := Word32(u[0], u[1], u[2], u[3]) + TWO32 * Word32(u[4], u[5], u[6], u[7]);
        FromLittleEndianFour(u);
        FromLittleEndianFour(u[4..]);
        assert u[4..][4..] == [];
      }
    }

    /** pb_skip_varint. */
    method SkipVarint() returns (ok: bool)
      requires Valid()
      modifies this
      ensures Took(ok, (), Wire.SkipVarint(old(Rest())))
    {
      ghost var s0 := Rest();
      ghost var k := 0;
      while true
        invariant Valid()
        invariant pos == old(pos) + k && pos + left == old(pos) + old(left)
        invariant Wire.SkipVarint(s0) == Longer(Wire.SkipVarint(Rest()), k)
        decreases left
      {
        var b: byte;
        ok, b := ReadByte();
        if !ok {
          return;
        }
        k := k + 1;
        if b / 128 == 0 {
          return true;
        }
      }
    }

    /** pb_skip_string. */
    method SkipString() returns (ok: bool)
      requires Valid()
      modifies this
      ensures Took(ok, (), Skip(WT_STRING, old(Rest())))
    {
      var length: nat;
      ok, length := DecodeVarint32();
      if ok {
        ok := SkipBytes(length);
      }
    }

    /** pb_skip_field. */
    method SkipField(wt: nat) returns (ok: bool)
      requires Valid()
      modifies this
      ensures Took(ok, (), Skip(wt, old(Rest())))
    {
      if wt == WT_VARINT {
        ok := SkipVarint();
      } else if wt == WT_64BIT {
        ok := SkipBytes(8);
      } else if wt == WT_STRING {
        ok := SkipString();
      } else if wt == WT_32BIT {
        ok := SkipBytes(4);
      } else {
        ok := false;
      }
    }

    /** pb_decode_tag. */
    method DecodeTag() returns (ok: bool, wt: nat, tag: nat, eof: bool)
      requires Valid()
      modifies this
      ensures eof <==> old(left) == 0
      ensures eof ==> !ok && pos == old(pos) && left == old(left)
      ensures Took(ok, tag * 8 + wt, Varint32(old(Rest()))) && wt < 8
    {
      eof, wt, tag := false, 0, 0;
      if left == 0 {
        return false, 0, 0, true;
      }
      var temp: nat;
      ok, temp := DecodeVarint32();
      if ok {
        tag, wt := temp / 8, temp % 8;
      }
    }

    /** pb_make_string_substream: the substream covers exactly the delimited bytes and the
        parent keeps what follows them.  The parent moves over them when it is closed. */
    method MakeSubstream() returns (ok: bool, sub: IStream)
      requires Valid()
      modifies this
      ensures Valid() && fresh(sub) && sub.Valid() && sub.buf == buf
      ensures ok <==> Prefixed(old(Rest())).Got?
      ensures ok ==> sub.Rest() == Prefixed(old(Rest())).value
      ensures ok ==> pos == sub.pos && sub.pos + sub.left == old(pos) + Prefixed(old(Rest())).size
      ensures ok ==> pos + sub.left + left == old(pos) + old(left)
      ensures old(pos) <= pos && pos + left <= old(pos) + old(left)
    {
      var size: nat;
      ghost var s0 := Rest();
      ghost var p0 := pos;
      ok, size := DecodeVarint32();
      sub := new IStream(buf, pos, left);
      if !ok {
        return;
      }
      if sub.left < size {
        return false, sub;
      }
      sub.left := size;
      left := left - size;
      Subslice(buf, p0, |s0|, pos - p0, size);
    }

    /** pb_close_string_substream: whatever is left in the substream is skipped. */
    method CloseSubstream(sub: IStream) returns (ok: bool)
      requires Valid() && sub.Valid() && sub != this && sub.buf == buf
      requires sub.pos + sub.left + left <= |buf|
      modifies this, sub
      ensures ok && Valid() && pos == old(sub.pos) + old(sub.left) && left == old(left)
    {
      if sub.left > 0 {
        ok := sub.SkipBytes(sub.left);
        if !ok {
          return;
        }
      }
      pos := sub.pos;
      ok := true;
    }
  }

  lemma Subslice<T>(a: seq<T>, p: nat, l: nat, i: nat, n: nat)
    requires p + l <= |a| && i + n <= l
    ensures a[p..p + l][i..i + n] == a[p + i..p + i + n]
  {
    var x, y := a[p..p + l][i..i + n], a[p + i..p + i + n];
    assert forall j | 0 <= j < |x| :: x[j] == y[j];
  }

  lemma SuffixSlice<T>(a: seq<T>, p: nat, l: nat, n: nat)
    requires p + l <= |a| && n <= l
    ensures a[p..p + l][n..] == a[p + n..p + l]
  {
  }

  /** The result of a read that follows `k` bytes already consumed. */
  function Longer<T>(r: Parsed<T>, k: nat): Parsed<T> {
    match r case Bad => Bad case Got(v, n) => Got(v, k + n)
  }

  function Scaled(r: Parsed<nat>, k: nat, low: nat): Parsed<nat> {
    match r case Bad => Bad case Got(v, n) => Got(low + Pow128(k) * v, k + n)
  }

  /** The byte masks of pb_decode_varint32. */
  lemma Masks(b: byte)
    ensures b % 128 == Low7(b)
    ensures (b / 16) % 8 == 0 <==> Low7(b) < 16
    ensures (b / 8) % 16 == 15 <==> Low7(b) >= 120
    ensures Low7(b) < 16 ==> b % 16 == Low7(b)
    ensures Low7(b) >= 112 ==> b % 16 == Low7(b) - 112
  {
  }

  lemma Varint32Step(s: Bytes, k: nat, acc: nat)
    requires s != [] && Accepts32(s[0], k, acc)
    ensures Varint32At(s, k, acc) ==
            if s[0] < 128 then Got(Collect32(s[0], k, acc), 1)
            else Longer(Varint32At(s[1..], k + 1, Collect32(s[0], k, acc)), 1)
  {
  }

  lemma ScaledStart(r: Parsed<nat>)
    ensures Scaled(r, 0, 0) == r
  {
  }

  lemma ScaledStep(s: Bytes, k: nat, low: nat)
    requires s != [] && k <= 9 && (k == 9 ==> s[0] < 2)
    ensures s[0] < 128 ==> Scaled(VarintAt(s, k), k, low) == Got(low + ShiftedLeft(s[0] % 128, 7 * k), k + 1)
    ensures s[0] >= 128 ==> Scaled(VarintAt(s, k), k, low) ==
                            Scaled(VarintAt(s[1..], k + 1), k + 1, low + ShiftedLeft(s[0] % 128, 7 * k))
  {
    ShiftedIs(s[0] % 128, k);
    if s[0] >= 128 && VarintAt(s[1..], k + 1).Got? {
      ScaledDigit(k, s[0] % 128, VarintAt(s[1..], k + 1).value);
    }
  }

  lemma ShiftedIs(d: nat, k: nat)
    ensures ShiftedLeft(d, 7 * k) == Pow128(k) * d
  {
    assert (7 * k) / 7 == k;
  }

  lemma ScaledDigit(k: nat, d: nat, v: nat)
    ensures Pow128(k) * (d + 128 * v) == Pow128(k) * d + Pow128(k + 1) * v
  {
    DigitStep(Pow128(k), d, v);
    assert Pow128(k + 1) == 128 * Pow128(k);
  }

  /** `(uint64_t)d << bitpos`; no bit is lost, since the 64th is the last one accepted. */
  function ShiftedLeft(d: nat, bitpos: nat): nat {
    Pow128(bitpos / 7) * d
  }

  function Word32(a: nat, b: nat, c: nat, d: nat): nat {
    a + b * 0x100 + c * 0x1_0000 + d * 0x100_0000
  }

  lemma FromLittleEndianFour(u: Bytes)
    requires |u| >= 4
    ensures FromLittleEndian(u) == Word32(u[0], u[1], u[2], u[3]) + TWO32 * FromLittleEndian(u[4..])
  {
    var a, b, c := u[1..], u[2..], u[3..];
    assert a[1..] == b && b[1..] == c && c[1..] == u[4..];
    assert FromLittleEndian(c) == u[3] + 256 * FromLittleEndian(u[4..]);
    assert FromLittleEndian(b) == u[2] + 256 * FromLittleEndian(c);
    assert FromLittleEndian(a) == u[1] + 256 * FromLittleEndian(b);
  }

  /** Bounds on what is left of the two words when byte `i` is about to be written. */
  function LowRoom(i: nat): nat {
    if i == 0 then 0x200_0000 else if i == 1 then 0x4_0000 else if i == 2 then 0x800 else if i == 3 then 0x10 else 1
  }

  function HighRoom(i: nat): nat {
    if i <= 4 then 0x2000_0000 else if i == 5 then 0x40_0000 else if i == 6 then 0x8000
    else if i == 7 then 0x100 else if i == 8 then 2 else 1
  }

  /** The part of the value not yet written when `b` is its next digit. */
  function Pending(b: nat, low: nat, high: nat, i: nat): nat {
    if i == 0 then b + 128 * (low + 0x200_0000 * high)
    else if i == 1 then b + 128 * (low + 0x4_0000 * high)
    else if i == 2 then b + 128 * (low + 0x800 * high)
    else if i == 3 then b + 128 * (low + 0x10 * high)
    else b + 16 * high
  }

  lemma LowStart(low: nat, high: nat)
    requires low < TWO32
    ensures low / 128 < LowRoom(0) && Pending(low % 128, low / 128, high, 0) == low + TWO32 * high
  {
  }

  lemma PendingEnd(b: nat, low: nat, high: nat, i: nat)
    requires i <= 4 && low < LowRoom(i) && (i == 4 || (low == 0 && high == 0))
    ensures Pending(b, low, high, i) == b + 16 * high
  {
  }

  lemma HighTop(b: nat, high: nat)
    requires b < 16 && high < TWO32
    ensures b + 16 * (high % 8) < 128 && high / 8 < HighRoom(4)
    ensures b + 16 * high == b + 16 * (high % 8) + 128 * (high / 8)
  {
  }

  lemma HighStep(b: nat, high: nat, i: nat)
    requires b < 128 && 4 <= i <= 9 && 0 < high < HighRoom(i)
    ensures i <= 8 && high / 128 < HighRoom(i + 1)
    ensures (b + 128 * high) % 128 == b && (b + 128 * high) / 128 == high == high % 128 + 128 * (high / 128)
  {
  }

  lemma PendingStep(b: byte, low: nat, high: nat, i: nat)
    requires i < 4 && b < 128 && low < LowRoom(i) && (low != 0 || high != 0)
    ensures low / 128 < LowRoom(i + 1) && (i == 3 ==> low % 128 < 16)
    ensures Pending(b, low, high, i) >= 128 && Pending(b, low, high, i) % 128 == b
    ensures Pending(low % 128, low / 128, high, i + 1) == Pending(b, low, high, i) / 128
  {
    var rest := Pending(low % 128, low / 128, high, i + 1);
    assert Pending(b, low, high, i) == b + 128 * rest;
    assert rest > 0;
  }

  lemma Mod64(a: int, q: int, r: nat)
    requires a == q * 0x1_0000_0000_0000_0000 + r && r < 0x1_0000_0000_0000_0000
    ensures a % 0x1_0000_0000_0000_0000 == r
  {
  }

  lemma Mod63(a: int, q: int, r: nat)
    requires a == q * 0x8000_0000_0000_0000 + r && r < 0x8000_0000_0000_0000
    ensures a % 0x8000_0000_0000_0000 == r
  {
  }

  /** The 64-bit computation of pb_encode_svarint is zigzag coding. */
  lemma ZigZagBits(value: int)
    requires -(TWO64 / 2) <= value < TWO64 / 2
    ensures ZigZag(value) ==
            if value < 0 then TWO64 - 1 - (((value % TWO64) % (TWO64 / 2)) * 2) % TWO64 else ((value % TWO64) * 2) % TWO64
  {
    if value < 0 {
      Mod64(value, -1, value + TWO64);
      Mod63(value + TWO64, 1, value + TWO64 / 2);
      Mod64((value + TWO64 / 2) * 2, 0, (value + TWO64 / 2) * 2);
    } else {
      Mod64(value, 0, value);
      Mod64(value * 2, 0, value * 2);
    }
  }

  lemma LittleEndian32(v: nat)
    requires v < TWO32
    ensures LittleEndian(v, 4) == [v % 256, (v / 0x100) % 256, (v / 0x1_0000) % 256, (v / 0x100_0000) % 256]
  {
    LittleEndianFour(v, 4);
    assert LittleEndian(v / 0x1_0000_0000, 0) == [];
  }

  lemma LittleEndianFour(v: nat, w: nat)
    requires w >= 4
    ensures LittleEndian(v, w) ==
            [v % 256, (v / 0x100) % 256, (v / 0x1_0000) % 256, (v / 0x100_0000) % 256] + LittleEndian(v / 0x1_0000_0000, w - 4)
  {
    var a, b, c := v / 0x100, v / 0x1_0000, v / 0x100_0000;
    assert b == a / 256 && c == b / 256 && v / 0x1_0000_0000 == c / 256;
    assert LittleEndian(c, w - 3) == [c % 256] + LittleEndian(c / 256, w - 4);
    assert LittleEndian(b, w - 2) == [b % 256] + LittleEndian(c, w - 3);
    assert LittleEndian(a, w - 1) == [a % 256] + LittleEndian(b, w - 2);
    assert LittleEndian(v, w) == [v % 256] + LittleEndian(a, w - 1);
  }

  lemma LittleEndian64(v: nat)
    requires v < TWO64
    ensures LittleEndian(v, 8) ==
            [v % 256, (v / 0x100) % 256, (v / 0x1_0000) % 256, (v / 0x100_0000) % 256, (v / 0x1_0000_0000) % 256,
             (v / 0x100_0000_0000) % 256, (v / 0x1_0000_0000_0000) % 256, (v / 0x100_0000_0000_0000) % 256]
  {
    var h := v / 0x1_0000_0000;
    LittleEndianFour(v, 8);
    LittleEndian32(h);
    assert h / 0x100 == v / 0x100_0000_0000 && h / 0x1_0000 == v / 0x1_0000_0000_0000 && h / 0x100_0000 == v / 0x100_0000_0000_0000;
  }
}
