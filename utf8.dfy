/**
 * UTF-8 as Python's `bytes.decode("utf-8")` (strict errors) reads it, with
 * the matching encoder. A byte string decodes only when it is the
 * shortest-form encoding of a sequence of Unicode scalar values.
 */
module Utf8 {
  import opened Wrappers

  type Byte = b: int | 0 <= b < 0x100

  predicate IsContinuation(b: Byte)
  {
    0x80 <= b <= 0xBF
  }

  /** The bytes of one character, shortest form. */
  function EncodeChar(c: char): (r: seq<Byte>)
    ensures 1 <= |r| <= 4
  {
    var n := c as int;
    if n < 0x80 then [n]
    else if n < 0x800 then [0xC0 + n / 0x40, 0x80 + n % 0x40]
    else if n < 0x1_0000 then [0xE0 + n / 0x1000, 0x80 + (n / 0x40) % 0x40, 0x80 + n % 0x40]
    else [0xF0 + n / 0x4_0000, 0x80 + (n / 0x1000) % 0x40, 0x80 + (n / 0x40) % 0x40, 0x80 + n % 0x40]
  }

  function Encode(s: string): (r: seq<Byte>)
    ensures |s| <= |r| <= 4 * |s|
  {
    if s == [] then [] else EncodeChar(s[0]) + Encode(s[1..])
  }

  /**
   * The first character of `b` and the number of bytes it takes, or None
   * when `b` does not start with a well-formed sequence (a stray
   * continuation byte, C0, C1 or F5..FF, a truncated sequence, an overlong
   * form, a surrogate, or a value above U+10FFFF).
   */
  function DecodeFirst(b: seq<Byte>): (r: Option<(char, nat)>)
    requires |b| > 0
    ensures r.Some? ==> 1 <= r.value.1 <= |b|
  {
    var b0: int := b[0];
    if b0 < 0x80 then Some((b0 as char, 1))
    else if 0xC2 <= b0 <= 0xDF then
      if |b| < 2 || !IsContinuation(b[1]) then None
      else Some((Value2(b0, b[1]) as char, 2))
    else if 0xE0 <= b0 <= 0xEF then
      if |b| < 3 || !IsContinuation(b[1]) || !IsContinuation(b[2]) then None
      else
        var n := Value3(b0, b[1], b[2]);
        if n < 0x800 || 0xD800 <= n <= 0xDFFF then None else Some((n as char, 3))
    else if 0xF0 <= b0 <= 0xF4 then
      if |b| < 4 || !IsContinuation(b[1]) || !IsContinuation(b[2]) || !IsContinuation(b[3]) then None
      else
        var n := Value4(b0, b[1], b[2], b[3]);
        if n < 0x1_0000 || n > 0x10_FFFF then None else Some((n as char, 4))
    else None
  }

  /** The code point carried by a lead byte and its continuation bytes. */
  function Value2(b0: int, b1: int): (n: int)
    requires 0xC2 <= b0 <= 0xDF && 0x80 <= b1 <= 0xBF
    ensures 0x80 <= n < 0x800
  {
    (b0 - 0xC0) * 0x40 + (b1 - 0x80)
  }

  function Value3(b0: int, b1: int, b2: int): (n: int)
    requires 0xE0 <= b0 <= 0xEF && 0x80 <= b1 <= 0xBF && 0x80 <= b2 <= 0xBF
    ensures 0 <= n < 0x1_0000
  {
    (b0 - 0xE0) * 0x1000 + (b1 - 0x80) * 0x40 + (b2 - 0x80)
  }

  function Value4(b0: int, b1: int, b2: int, b3: int): (n: int)
    requires 0xF0 <= b0 <= 0xF4 && 0x80 <= b1 <= 0xBF && 0x80 <= b2 <= 0xBF && 0x80 <= b3 <= 0xBF
    ensures 0 <= n < 0x20_0000
  {
    (b0 - 0xF0) * 0x4_0000 + (b1 - 0x80) * 0x1000 + (b2 - 0x80) * 0x40 + (b3 - 0x80)
  }

  /** `bytes.decode("utf-8")`: None stands for the UnicodeDecodeError it raises. */
  function Decode(b: seq<Byte>): (r: Option<string>)
    ensures r.Some? ==> |r.value| <= |b|
    decreases |b|
  {
    if b == [] then Some("")
    else match DecodeFirst(b)
      case None => None
      case Some((c, n)) =>
        match Decode(b[n..])
        case None => None
        case Some(rest) => Some([c] + rest)
  }

  lemma DivMod64(q: int, r: int)
    requires 0 <= r < 0x40
    ensures (q * 0x40 + r) / 0x40 == q && (q * 0x40 + r) % 0x40 == r
  {
  }

  /** Decoding the encoding of a character reads back that character and its length. */
  lemma DecodeFirstEncodeChar(c: char, rest: seq<Byte>)
    ensures DecodeFirst(EncodeChar(c) + rest) == Some((c, |EncodeChar(c)|))
  {
    var n := c as int;
    var b := EncodeChar(c) + rest;
    if n < 0x80 {
    } else if n < 0x800 {
      var q, r := n / 0x40, n % 0x40;
      assert b[0] == 0xC0 + q && b[1] == 0x80 + r;
      assert Value2(b[0], b[1]) == n;
    } else if n < 0x1_0000 {
      var q, r := n / 0x40, n % 0x40;
      var q2, r2 := q / 0x40, q % 0x40;
      assert n / 0x1000 == q2;
      assert b[0] == 0xE0 + q2 && b[1] == 0x80 + r2 && b[2] == 0x80 + r;
      assert Value3(b[0], b[1], b[2]) == (q2 * 0x40 + r2) * 0x40 + r;
    } else {
      var q, r := n / 0x40, n % 0x40;
      var q2, r2 := q / 0x40, q % 0x40;
      var q3, r3 := q2 / 0x40, q2 % 0x40;
      assert n / 0x1000 == q2;
      assert n / 0x4_0000 == q3;
      assert b[0] == 0xF0 + q3 && b[1] == 0x80 + r3 && b[2] == 0x80 + r2 && b[3] == 0x80 + r;
      assert Value4(b[0], b[1], b[2], b[3]) == ((q3 * 0x40 + r3) * 0x40 + r2) * 0x40 + r;
    }
  }

  /** What DecodeFirst accepts is exactly the encoding of the character it returns. */
  lemma EncodeCharDecodeFirst(b: seq<Byte>)
    requires |b| > 0 && DecodeFirst(b).Some?
    ensures EncodeChar(DecodeFirst(b).value.0) == b[..DecodeFirst(b).value.1]
  {
    var b0: int := b[0];
    var c := DecodeFirst(b).value.0;
    var n := c as int;
    if b0 < 0x80 {
    } else if 0xC2 <= b0 <= 0xDF {
      DivMod64(b0 - 0xC0, b[1] - 0x80);
      assert EncodeChar(c) == [b[0], b[1]];
    } else if 0xE0 <= b0 <= 0xEF {
      var x := (b0 - 0xE0) * 0x40 + (b[1] - 0x80);
      assert n == x * 0x40 + (b[2] - 0x80);
      DivMod64(x, b[2] - 0x80);
      DivMod64(b0 - 0xE0, b[1] - 0x80);
      assert n / 0x1000 == (n / 0x40) / 0x40;
      assert EncodeChar(c) == [b[0], b[1], b[2]];
    } else {
      var x := (b0 - 0xF0) * 0x40 + (b[1] - 0x80);
      var y := x * 0x40 + (b[2] - 0x80);
      assert n == y * 0x40 + (b[3] - 0x80);
      DivMod64(y, b[3] - 0x80);
      DivMod64(x, b[2] - 0x80);
      DivMod64(b0 - 0xF0, b[1] - 0x80);
      assert n / 0x1000 == (n / 0x40) / 0x40;
      assert n / 0x4_0000 == (n / 0x1000) / 0x40;
      assert EncodeChar(c) == [b[0], b[1], b[2], b[3]];
    }
  }

  /** Decoding inverts encoding. */
  lemma {:induction false} DecodeEncode(s: string)
    ensures Decode(Encode(s)) == Some(s)
  {
    if s != [] {
      var e := EncodeChar(s[0]);
      var rest := Encode(s[1..]);
      DecodeFirstEncodeChar(s[0], rest);
      assert (e + rest)[|e|..] == rest;
      DecodeEncode(s[1..]);
      assert [s[0]] + s[1..] == s;
    }
  }

  /** A byte string decodes only to the string whose encoding it is. */
  lemma {:induction false} EncodeDecode(b: seq<Byte>)
    requires Decode(b).Some?
    ensures Encode(Decode(b).value) == b
    decreases |b|
  {
    if b != [] {
      DecodeCons(b);
      var n := DecodeFirst(b).value.1;
      EncodeDecode(b[n..]);
      EncodeCharDecodeFirst(b);
      EncodeGlue(DecodeFirst(b).value.0, Decode(b[n..]).value, b, n);
    }
  }

  /** Bytes that split into a character's encoding and a string's encoding encode their concatenation. */
  lemma EncodeGlue(c: char, t: string, b: seq<Byte>, n: nat)
    requires n <= |b| && EncodeChar(c) == b[..n] && Encode(t) == b[n..]
    ensures Encode([c] + t) == b
  {
    EncodeCons(c, t);
    assert b == b[..n] + b[n..];
  }

  /** One step of Decode: the first character, then the decoding of the rest. */
  lemma DecodeCons(b: seq<Byte>)
    requires b != [] && Decode(b).Some?
    ensures DecodeFirst(b).Some? && Decode(b[DecodeFirst(b).value.1..]).Some?
    ensures Decode(b).value == [DecodeFirst(b).value.0] + Decode(b[DecodeFirst(b).value.1..]).value
  {
  }

  /** One step of Encode: the first character's bytes, then the encoding of the rest. */
  lemma EncodeCons(c: char, t: string)
    ensures Encode([c] + t) == EncodeChar(c) + Encode(t)
  {
    assert ([c] + t)[1..] == t;
  }

  /** Decoding succeeds with `s` exactly when the bytes are the encoding of `s`. */
  lemma DecodeIff(b: seq<Byte>, s: string)
    ensures Decode(b) == Some(s) <==> b == Encode(s)
  {
    if Decode(b) == Some(s) { EncodeDecode(b); }
    if b == Encode(s) { DecodeEncode(s); }
  }
}
