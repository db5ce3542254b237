/**
 * UTF-8 as defined in section 4 of RFC 3629: the encoder Rust's `String::into_bytes`
 * applies to a string of Unicode scalar values, and the validating decoder behind
 * `std::str::from_utf8`. Dafny's `char` is a Unicode scalar value (a code point outside
 * the surrogate range D800..DFFF), which is exactly what a Rust `char` is.
 */
module Utf8 {
  import opened Wrappers

  type byte = b: int | 0 <= b < 256

  /** A continuation byte `UTF8-tail = %x80-BF`. */
  predicate IsTail(b: byte) { 0x80 <= b <= 0xBF }

  /** The well-formed encoding of one scalar value: one to four bytes, shortest form. */
  function EncodeChar(c: char): (bs: seq<byte>)
    ensures 1 <= |bs| <= 4
    ensures |bs| == 1 <==> c as int < 0x80
    ensures forall i :: 1 <= i < |bs| ==> IsTail(bs[i])
  {
    var cp := c as int;
    if cp < 0x80 then
      [cp]
    else if cp < 0x800 then
      [0xC0 + cp / 64, 0x80 + cp % 64]
    else if cp < 0x1_0000 then
      [0xE0 + cp / 4096, 0x80 + (cp / 64) % 64, 0x80 + cp % 64]
    else
      [0xF0 + cp / 262144, 0x80 + (cp / 4096) % 64, 0x80 + (cp / 64) % 64, 0x80 + cp % 64]
  }

  /** The UTF-8 encoding of a whole string: the concatenation of its characters' encodings. */
  function Encode(s: string): (bs: seq<byte>)
    ensures |bs| >= |s|
    ensures |s| == 0 <==> |bs| == 0
  {
    if |s| == 0 then [] else EncodeChar(s[0]) + Encode(s[1..])
  }

  /** Payload bits of a continuation byte. */
  function Low6(b: byte): int requires IsTail(b) { b - 0x80 }

  /**
   * Decodes the first character of `bs` following the `UTF8-char` rule of RFC 3629:
   * overlong forms, surrogates and values above U+10FFFF are rejected. On success
   * returns the character and the number of bytes it occupies.
   */
  function DecodeFirst(bs: seq<byte>): (r: Option<(char, nat)>)
    ensures r.Some? ==> 1 <= r.value.1 <= |bs|
  {
    if |bs| == 0 then None
    else
      var b0 := bs[0];
      if b0 < 0x80 then
        Some((b0 as char, 1))
      else if 0xC2 <= b0 <= 0xDF then
        if |bs| < 2 || !IsTail(bs[1]) then None
        else Some((((b0 - 0xC0) * 64 + Low6(bs[1])) as char, 2))
      else if 0xE0 <= b0 <= 0xEF then
        if |bs| < 3 || !IsTail(bs[1]) || !IsTail(bs[2]) then None
        else if b0 == 0xE0 && bs[1] < 0xA0 then None      // overlong
        else if b0 == 0xED && bs[1] > 0x9F then None      // surrogate
        else
          var cp := ((b0 - 0xE0) * 64 + Low6(bs[1])) * 64 + Low6(bs[2]);
          assert 0x800 <= cp < 0x1_0000 && !(0xD800 <= cp < 0xE000) by { Decode3Range(b0, bs[1], bs[2]); }
          Some((cp as char, 3))
      else if 0xF0 <= b0 <= 0xF4 then
        if |bs| < 4 || !IsTail(bs[1]) || !IsTail(bs[2]) || !IsTail(bs[3]) then None
        else if b0 == 0xF0 && bs[1] < 0x90 then None      // overlong
        else if b0 == 0xF4 && bs[1] > 0x8F then None      // above U+10FFFF
        else
          var cp := (((b0 - 0xF0) * 64 + Low6(bs[1])) * 64 + Low6(bs[2])) * 64 + Low6(bs[3]);
          assert 0x1_0000 <= cp < 0x11_0000 by { Decode4Range(b0, bs[1], bs[2], bs[3]); }
          Some((cp as char, 4))
      else
        None
  }

  lemma Decode3Range(b0: byte, b1: byte, b2: byte)
    requires 0xE0 <= b0 <= 0xEF && IsTail(b1) && IsTail(b2)
    requires b0 == 0xE0 ==> b1 >= 0xA0
    requires b0 == 0xED ==> b1 <= 0x9F
    ensures var cp := ((b0 - 0xE0) * 64 + Low6(b1)) * 64 + Low6(b2);
            0x800 <= cp < 0x1_0000 && !(0xD800 <= cp < 0xE000)
  {
  }

  lemma Decode4Range(b0: byte, b1: byte, b2: byte, b3: byte)
    requires 0xF0 <= b0 <= 0xF4 && IsTail(b1) && IsTail(b2) && IsTail(b3)
    requires b0 == 0xF0 ==> b1 >= 0x90
    requires b0 == 0xF4 ==> b1 <= 0x8F
    ensures var cp := (((b0 - 0xF0) * 64 + Low6(b1)) * 64 + Low6(b2)) * 64 + Low6(b3);
            0x1_0000 <= cp < 0x11_0000
  {
  }

  /** Decoding the encoding of one character gives that character back, whatever follows it. */
  lemma DecodeFirstEncodeChar(c: char, rest: seq<byte>)
    ensures DecodeFirst(EncodeChar(c) + rest) == Some((c, |EncodeChar(c)|))
  {
    var cp := c as int;
    var bs := EncodeChar(c) + rest;
    if cp < 0x80 {
    } else if cp < 0x800 {
      assert bs[0] == 0xC0 + cp / 64 && bs[1] == 0x80 + cp % 64;
    } else if cp < 0x1_0000 {
      var q1 := cp / 64;
      assert cp / 4096 == q1 / 64;
      assert bs[0] == 0xE0 + q1 / 64 && bs[1] == 0x80 + q1 % 64 && bs[2] == 0x80 + cp % 64;
      assert cp == (q1 / 64 * 64 + q1 % 64) * 64 + cp % 64;
    } else {
      var q1 := cp / 64;
      var q2 := q1 / 64;
      assert cp / 4096 == q2 && cp / 262144 == q2 / 64;
      assert bs[0] == 0xF0 + q2 / 64 && bs[1] == 0x80 + q2 % 64;
      assert bs[2] == 0x80 + q1 % 64 && bs[3] == 0x80 + cp % 64;
      assert cp == ((q2 / 64 * 64 + q2 % 64) * 64 + q1 % 64) * 64 + cp % 64;
    }
  }

  lemma DivMod64(q: int, r: int)
    requires 0 <= r < 64
    ensures (q * 64 + r) / 64 == q && (q * 64 + r) % 64 == r
  {
  }

  lemma DivNested(x: nat)
    ensures x / 4096 == (x / 64) / 64
    ensures x / 262144 == ((x / 64) / 64) / 64
  {
  }

  lemma Sound2(bs: seq<byte>, c: char)
    requires |bs| >= 2 && 0xC2 <= bs[0] <= 0xDF && IsTail(bs[1])
    requires c as int == (bs[0] as int - 0xC0) * 64 + Low6(bs[1])
    ensures bs[..2] == EncodeChar(c)
  {
    DivMod64(bs[0] as int - 0xC0, Low6(bs[1]));
  }

  lemma Sound3(bs: seq<byte>, c: char)
    requires |bs| >= 3 && 0xE0 <= bs[0] <= 0xEF && IsTail(bs[1]) && IsTail(bs[2])
    requires bs[0] == 0xE0 ==> bs[1] >= 0xA0
    requires bs[0] == 0xED ==> bs[1] <= 0x9F
    requires c as int == ((bs[0] as int - 0xE0) * 64 + Low6(bs[1])) * 64 + Low6(bs[2])
    ensures bs[..3] == EncodeChar(c)
  {
    var hi := (bs[0] as int - 0xE0) * 64 + Low6(bs[1]);
    DivMod64(hi, Low6(bs[2]));
    DivMod64(bs[0] as int - 0xE0, Low6(bs[1]));
    DivNested(c as int);
    Decode3Range(bs[0], bs[1], bs[2]);
  }

  lemma Sound4(bs: seq<byte>, c: char)
    requires |bs| >= 4 && 0xF0 <= bs[0] <= 0xF4 && IsTail(bs[1]) && IsTail(bs[2]) && IsTail(bs[3])
    requires bs[0] == 0xF0 ==> bs[1] >= 0x90
    requires bs[0] == 0xF4 ==> bs[1] <= 0x8F
    requires c as int == (((bs[0] as int - 0xF0) * 64 + Low6(bs[1])) * 64 + Low6(bs[2])) * 64 + Low6(bs[3])
    ensures bs[..4] == EncodeChar(c)
  {
    var top := (bs[0] as int - 0xF0) * 64 + Low6(bs[1]);
    var hi := top * 64 + Low6(bs[2]);
    DivMod64(hi, Low6(bs[3]));
    DivMod64(top, Low6(bs[2]));
    DivMod64(bs[0] as int - 0xF0, Low6(bs[1]));
    DivNested(c as int);
    Decode4Range(bs[0], bs[1], bs[2], bs[3]);
  }

  /** Whatever `DecodeFirst` accepts is exactly the encoding of the character it returns. */
  lemma DecodeFirstSound(bs: seq<byte>)
    requires DecodeFirst(bs).Some?
    ensures var (c, n) := DecodeFirst(bs).value; bs[..n] == EncodeChar(c)
  {
    var (c, n) := DecodeFirst(bs).value;
    if n == 1 {
    } else if n == 2 {
      Sound2(bs, c);
    } else if n == 3 {
      Sound3(bs, c);
    } else {
      Sound4(bs, c);
    }
  }

  /**
   * `std::str::from_utf8`: the string whose encoding `bs` is, or `None` when `bs` is
   * not well-formed UTF-8.
   */
  function Decode(bs: seq<byte>): (r: Option<string>)
    decreases |bs|
  {
    if |bs| == 0 then Some([])
    else
      match DecodeFirst(bs)
      case None => None
      case Some((c, n)) =>
        match Decode(bs[n..])
        case None => None
        case Some(s) => Some([c] + s)
  }

  /** Decoding inverts encoding. */
  lemma {:induction false} DecodeEncode(s: string)
    ensures Decode(Encode(s)) == Some(s)
  {
    if |s| > 0 {
      var head := EncodeChar(s[0]);
      var tail := Encode(s[1..]);
      DecodeFirstEncodeChar(s[0], tail);
      assert (head + tail)[|head|..] == tail;
      DecodeEncode(s[1..]);
      assert [s[0]] + s[1..] == s;
    }
  }

  /** Encoding inverts decoding: a decoded string re-encodes to exactly the bytes read. */
  lemma {:induction false} EncodeDecode(bs: seq<byte>)
    requires Decode(bs).Some?
    ensures Encode(Decode(bs).value) == bs
    decreases |bs|
  {
    if |bs| > 0 {
      var (c, n) := DecodeFirst(bs).value;
      DecodeFirstSound(bs);
      EncodeDecode(bs[n..]);
      var s := Decode(bs).value;
      assert s[0] == c && s[1..] == Decode(bs[n..]).value;
      assert bs == bs[..n] + bs[n..];
    }
  }

  /** `from_utf8(bs)` yields `s` exactly when `s` encodes to `bs`; it fails exactly when no string does. */
  lemma DecodeIff(bs: seq<byte>, s: string)
    ensures Decode(bs) == Some(s) <==> Encode(s) == bs
  {
    if Decode(bs) == Some(s) {
      EncodeDecode(bs);
    }
    if Encode(s) == bs {
      DecodeEncode(s);
    }
  }
}
