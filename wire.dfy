/** Fixed-width little-endian integers, NUL-terminated string fields and the
    ASCII text model shared by the query responder's encoders and decoders. */
module Wire {

  /** One octet on the wire. */
  type byte = b: int | 0 <= b < 256

  /** A datagram, a payload or a slice of one. */
  type Bytes = seq<byte>

  /** A value of C#'s 32-bit `int`. */
  type Int32 = x: int | -0x8000_0000 <= x < 0x8000_0000

  /** Host text is modelled as ASCII only: for such text the UTF-8 encoding
      has exactly one byte per character. */
  type AsciiChar = c: char | c as int < 128 witness 'a'

  type Text = seq<AsciiChar>

  datatype Option<+T> = None | Some(value: T) {
    predicate IsFailure() { None? }
    function PropagateFailure<U>(): Option<U> requires None? { None }
    function Extract(): T requires Some? { value }
  }

  const TWO32: int := 0x1_0000_0000

  /** -1 as a little-endian `int`: the request header, the challenge-request
      value and the single-packet response header. */
  const ALL_ONES: Bytes := [0xFF, 0xFF, 0xFF, 0xFF]

  /** The unsigned reading of a signed 32-bit value's bit pattern. */
  function Unsigned32(x: Int32): nat
  {
    if x < 0 then x + TWO32 else x
  }

  /** `BitConverter.ToInt32(buffer, offset)` on a little-endian host, given
      the four bytes at that offset. */
  function ToInt32(w: Bytes): Int32
    requires |w| == 4
  {
    var u := w[0] as int + 0x100 * (w[1] as int + 0x100 * (w[2] as int + 0x100 * w[3] as int));
    if u < 0x8000_0000 then u else u - TWO32
  }

  /** `BitConverter.GetBytes(int)` on a little-endian host: the bit pattern,
      least significant byte first. Reading the bytes back gives the value. */
  function Int32Bytes(x: Int32): (w: Bytes)
    ensures |w| == 4
    ensures ToInt32(w) == x
  {
    var u := Unsigned32(x);
    var q1 := u / 0x100;
    var q2 := q1 / 0x100;
    var q3 := q2 / 0x100;
    [u % 0x100, q1 % 0x100, q2 % 0x100, q3]
  }

  /** Every 4-byte word is the encoding of the value it reads as, so reading
      is a bijection between words and 32-bit values. */
  lemma Int32BytesOfToInt32(w: Bytes)
    requires |w| == 4
    ensures Int32Bytes(ToInt32(w)) == w
  {
    var u := w[0] as int + 0x100 * (w[1] as int + 0x100 * (w[2] as int + 0x100 * w[3] as int));
    assert Unsigned32(ToInt32(w)) == u;
    var q1 := w[1] as int + 0x100 * (w[2] as int + 0x100 * w[3] as int);
    var q2 := w[2] as int + 0x100 * w[3] as int;
    assert u / 0x100 == q1 && u % 0x100 == w[0];
    assert q1 / 0x100 == q2 && q1 % 0x100 == w[1];
    assert q2 / 0x100 == w[3] && q2 % 0x100 == w[2];
  }

  /** Two words read as the same 32-bit value exactly when they are equal. */
  lemma ToInt32Injective(a: Bytes, b: Bytes)
    requires |a| == 4 && |b| == 4
    ensures ToInt32(a) == ToInt32(b) <==> a == b
  {
    if ToInt32(a) == ToInt32(b) {
      Int32BytesOfToInt32(a);
      Int32BytesOfToInt32(b);
    }
  }

  /** An unchecked `x++` on a C# `int`: it wraps from the largest value to the
      smallest. */
  function Inc32(x: Int32): (y: Int32)
    ensures Unsigned32(y) == (Unsigned32(x) + 1) % TWO32
  {
    if x == 0x7FFF_FFFF then -0x8000_0000 else x + 1
  }

  /** The counter after `k` unchecked increments. */
  function IncN(x: Int32, k: nat): Int32
  {
    if k == 0 then x else Inc32(IncN(x, k - 1))
  }

  /** `k` increments add `k` to the bit pattern, modulo 2^32. */
  lemma {:induction false} IncNUnsigned(x: Int32, k: nat)
    ensures Unsigned32(IncN(x, k)) == (Unsigned32(x) + k) % TWO32
  {
    if k > 0 {
      IncNUnsigned(x, k - 1);
      var u := Unsigned32(x);
      assert Unsigned32(IncN(x, k)) == ((u + k - 1) % TWO32 + 1) % TWO32;
    }
  }

  /** Fewer than 2^32 increments apart, two counter values have different bit
      patterns, so they encode to different words. */
  lemma IncNDistinct(x: Int32, j: nat, k: nat)
    requires j < k < j + TWO32
    ensures Int32Bytes(IncN(x, j)) != Int32Bytes(IncN(x, k))
  {
    IncNUnsigned(x, j);
    IncNUnsigned(x, k);
    var u := Unsigned32(x);
    assert (u + j) % TWO32 != (u + k) % TWO32 by {
      ModDistinct(u + j, u + k);
    }
  }

  lemma ModDistinct(a: int, b: int)
    requires a < b < a + TWO32
    ensures a % TWO32 != b % TWO32
  {
    var qa, qb := a / 0x1_0000_0000, b / 0x1_0000_0000;
    assert a == qa * 0x1_0000_0000 + a % 0x1_0000_0000;
    assert b == qb * 0x1_0000_0000 + b % 0x1_0000_0000;
  }

  /** `BitConverter.GetBytes(short)` for a non-negative `short`. */
  function Int16Bytes(x: nat): Bytes
    requires x < 0x8000
  {
    [x % 0x100, x / 0x100]
  }

  /** `BitConverter.ToInt16`, for words whose top bit is clear. */
  function ToUInt16(w: Bytes): nat
    requires |w| == 2
  {
    w[0] as int + 0x100 * w[1] as int
  }

  /** The ASCII bytes of a text (its UTF-8 encoding). */
  function Ascii(t: Text): Bytes
  {
    seq(|t|, i requires 0 <= i < |t| => t[i] as int)
  }

  /** Bytes followed by a NUL. */
  function Terminated(s: Bytes): Bytes
  {
    s + [0]
  }

  /** A NUL-terminated string field, as the responder writes it with
      `encoding.GetBytes(s + '\0')` limited to `s.Length + 1` bytes. */
  function CString(t: Text): Bytes
  {
    Terminated(Ascii(t))
  }

  /** Text without an embedded NUL reads back from a string field. */
  predicate NulFree(t: Text)
  {
    '\0' !in t
  }

  lemma AsciiNulFree(t: Text)
    requires NulFree(t)
    ensures 0 !in Ascii(t)
  {
    assert forall i :: 0 <= i < |t| ==> Ascii(t)[i] == t[i] as int;
  }

  /** A string field read off the front of a byte sequence, and what follows it. */
  datatype Field = Field(text: Bytes, rest: Bytes)

  /** Reads bytes up to the first NUL; None when there is none. */
  function ReadCString(b: Bytes): Option<Field>
  {
    if |b| == 0 then None
    else if b[0] == 0 then Some(Field([], b[1..]))
    else
      match ReadCString(b[1..])
      case None => None
      case Some(f) => Some(Field([b[0]] + f.text, f.rest))
  }

  /** Reading a field written from NUL-free bytes gives back those bytes and
      leaves whatever followed. */
  lemma {:induction false} ReadCStringOf(s: Bytes, rest: Bytes)
    requires 0 !in s
    ensures ReadCString(s + [0] + rest) == Some(Field(s, rest))
  {
    var b := s + [0] + rest;
    if s == [] {
      assert b == [0] + rest;
    } else {
      assert b[0] == s[0] != 0;
      assert b[1..] == s[1..] + [0] + rest;
      assert 0 !in s[1..];
      ReadCStringOf(s[1..], rest);
      assert [s[0]] + s[1..] == s;
    }
  }

  /** Without a NUL there is no field to read. */
  lemma {:induction false} ReadCStringNone(b: Bytes)
    requires 0 !in b
    ensures ReadCString(b) == None
  {
    if b != [] {
      assert 0 !in b[1..];
      ReadCStringNone(b[1..]);
    }
  }

  /** Reading a text's string field gives back its ASCII bytes. */
  lemma ReadCStringText(t: Text, rest: Bytes)
    requires NulFree(t)
    ensures ReadCString(CString(t) + rest) == Some(Field(Ascii(t), rest))
  {
    AsciiNulFree(t);
    ReadCStringOf(Ascii(t), rest);
    assert CString(t) + rest == Ascii(t) + [0] + rest;
  }
}
