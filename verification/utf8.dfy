/** UTF-8 decoding as Rust's `String::from_utf8` performs it on the standard
    output of `go version` (src/utils.rs:107): a byte sequence is accepted
    only when it is a concatenation of well-formed UTF-8 sequences, as listed
    in table 3-7 of the Unicode Standard (no overlong forms, no surrogates,
    nothing above U+10FFFF). */
module Utf8 {
  import opened Results

  type Byte = b: int | 0 <= b < 256

  /** The code points a Dafny `char` (and a Rust `char`) can hold. */
  predicate IsScalar(cp: int) {
    (0 <= cp <= 0xD7FF) || (0xE000 <= cp <= 0x10FFFF)
  }

  predicate IsContinuation(b: Byte) {
    0x80 <= b <= 0xBF
  }

  /** The range table 3-7 allows for the second byte of a three-byte sequence
      led by `b0`. */
  predicate SecondOfThree(b0: Byte, b1: Byte) {
    && (if b0 == 0xE0 then 0xA0 else 0x80) <= b1
    && b1 <= (if b0 == 0xED then 0x9F else 0xBF)
  }

  /** The range table 3-7 allows for the second byte of a four-byte sequence
      led by `b0`. */
  predicate SecondOfFour(b0: Byte, b1: Byte) {
    && (if b0 == 0xF0 then 0x90 else 0x80) <= b1
    && b1 <= (if b0 == 0xF4 then 0x8F else 0xBF)
  }

  /** The code points carried by two-, three- and four-byte sequences: six
      payload bits per continuation byte after those of the lead byte. */
  function Value2(b0: int, b1: int): int {
    (b0 - 0xC0) * 64 + (b1 - 0x80)
  }

  function Value3(b0: int, b1: int, b2: int): int {
    ((b0 - 0xE0) * 64 + (b1 - 0x80)) * 64 + (b2 - 0x80)
  }

  function Value4(b0: int, b1: int, b2: int, b3: int): int {
    (((b0 - 0xF0) * 64 + (b1 - 0x80)) * 64 + (b2 - 0x80)) * 64 + (b3 - 0x80)
  }

  /** Decodes the well-formed sequence at the front of `bs`, if there is one:
      its code point and its length in bytes. */
  function DecodeScalar(bs: seq<Byte>): (r: Option<(int, nat)>)
    requires |bs| > 0
    ensures r.Some? ==> IsScalar(r.value.0) && 1 <= r.value.1 <= 4 && r.value.1 <= |bs|
    ensures r.Some? && r.value.1 == 1 <==> bs[0] < 0x80
  {
    var b0 := bs[0];
    if b0 < 0x80 then Some((b0 as int, 1))
    else if 0xC2 <= b0 <= 0xDF then
      if |bs| >= 2 && IsContinuation(bs[1])
      then Some((Value2(b0, bs[1]), 2))
      else None
    else if 0xE0 <= b0 <= 0xEF then
      if |bs| >= 3 && SecondOfThree(b0, bs[1]) && IsContinuation(bs[2])
      then Some((Value3(b0, bs[1], bs[2]), 3))
      else None
    else if 0xF0 <= b0 <= 0xF4 then
      if |bs| >= 4 && SecondOfFour(b0, bs[1]) && IsContinuation(bs[2]) && IsContinuation(bs[3])
      then Some((Value4(b0, bs[1], bs[2], bs[3]), 4))
      else None
    else None
  }

  /** `String::from_utf8`: the text the bytes encode, or `None` when they are
      not well-formed UTF-8. */
  function Decode(bs: seq<Byte>): (r: Option<string>)
    ensures r.Some? ==> |r.value| <= |bs| <= 4 * |r.value|
    decreases |bs|
  {
    if |bs| == 0 then Some("")
    else
      match DecodeScalar(bs)
      case None => None
      case Some((cp, n)) =>
        match Decode(bs[n..])
        case None => None
        case Some(rest) => Some([cp as char] + rest)
  }

  /** The UTF-8 encoding of one character: the code point cut into six-bit
      groups behind the lead byte's marker. */
  function EncodeChar(c: char): (r: seq<Byte>)
    ensures 1 <= |r| <= 4
  {
    var cp := c as int;
    var q1 := cp / 64;
    var q2 := q1 / 64;
    var q3 := q2 / 64;
    if cp < 0x80 then [cp]
    else if cp < 0x800 then [0xC0 + q1, 0x80 + cp % 64]
    else if cp < 0x10000 then [0xE0 + q2, 0x80 + q1 % 64, 0x80 + cp % 64]
    else [0xF0 + q3, 0x80 + q2 % 64, 0x80 + q1 % 64, 0x80 + cp % 64]
  }

  /** The UTF-8 encoding of a text. */
  function Encode(s: string): seq<Byte> {
    if |s| == 0 then [] else EncodeChar(s[0]) + Encode(s[1..])
  }

  /** Six-bit groups: `q * 64 + r` splits back into `q` and `r`. */
  lemma DivMod64(q: int, r: int)
    requires 0 <= r < 64
    ensures (q * 64 + r) / 64 == q && (q * 64 + r) % 64 == r
  {
  }

  /** The encoding of a character is the well-formed sequence that decodes to
      it, whatever follows. */
  lemma DecodeEncodeChar(c: char, rest: seq<Byte>)
    ensures DecodeScalar(EncodeChar(c) + rest) == Some((c as int, |EncodeChar(c)|))
  {
    var cp := c as int;
    var e := EncodeChar(c);
    var bs := e + rest;
    assert bs[0] == e[0];
    var q1 := cp / 64;
    var q2 := q1 / 64;
    var q3 := q2 / 64;
    assert cp == q1 * 64 + cp % 64;
    assert q1 == q2 * 64 + q1 % 64;
    assert q2 == q3 * 64 + q2 % 64;
    if cp < 0x80 {
    } else if cp < 0x800 {
      assert bs[1] == e[1];
      assert Value2(bs[0], bs[1]) == cp;
    } else if cp < 0x10000 {
      assert bs[1] == e[1] && bs[2] == e[2];
      assert Value3(bs[0], bs[1], bs[2]) == cp;
    } else {
      assert bs[1] == e[1] && bs[2] == e[2] && bs[3] == e[3];
      assert Value4(bs[0], bs[1], bs[2], bs[3]) == cp;
    }
  }

  /** Every text survives encoding and decoding. */
  lemma {:induction false} DecodeEncode(s: string)
    ensures Decode(Encode(s)) == Some(s)
    decreases |s|
  {
    if |s| > 0 {
      var e := EncodeChar(s[0]);
      var bs := Encode(s);
      assert bs == e + Encode(s[1..]);
      DecodeEncodeChar(s[0], Encode(s[1..]));
      assert bs[|e|..] == Encode(s[1..]);
      DecodeEncode(s[1..]);
      assert (s[0] as int) as char == s[0];
      assert s == [s[0]] + s[1..];
    }
  }

  /** A decoded sequence is the encoding of the character it decodes to: the
      decoder accepts only the shortest form. */
  lemma EncodeDecodeScalar(bs: seq<Byte>)
    requires |bs| > 0 && DecodeScalar(bs).Some?
    ensures EncodeChar(DecodeScalar(bs).value.0 as char) == bs[..DecodeScalar(bs).value.1]
  {
    var (cp, n) := DecodeScalar(bs).value;
    if n == 2 {
      DivMod64(bs[0] as int - 0xC0, bs[1] - 0x80);
    } else if n == 3 {
      var hi: int := (bs[0] as int - 0xE0) * 64 + (bs[1] as int - 0x80);
      DivMod64(hi, bs[2] - 0x80);
      DivMod64(bs[0] as int - 0xE0, bs[1] - 0x80);
    } else if n == 4 {
      var hi: int := (bs[0] as int - 0xF0) * 64 + (bs[1] as int - 0x80);
      var mid: int := hi * 64 + (bs[2] as int - 0x80);
      DivMod64(mid, bs[3] - 0x80);
      DivMod64(hi, bs[2] - 0x80);
      DivMod64(bs[0] as int - 0xF0, bs[1] - 0x80);
    }
  }

  /** Whatever decodes re-encodes to the same bytes: no two byte sequences
      decode to the same text. */
  lemma {:induction false} EncodeDecode(bs: seq<Byte>)
    requires Decode(bs).Some?
    ensures Encode(Decode(bs).value) == bs
    decreases |bs|
  {
    if |bs| > 0 {
      var (cp, n) := DecodeScalar(bs).value;
      var rest := Decode(bs[n..]);
      assert rest.Some?;
      var s := Decode(bs).value;
      assert s == [cp as char] + rest.value;
      EncodeDecode(bs[n..]);
      assert Encode(rest.value) == bs[n..];
      assert s[0] == cp as char && s[1..] == rest.value;
      assert Encode(s) == EncodeChar(cp as char) + bs[n..];
      EncodeDecodeScalar(bs);
      assert bs == bs[..n] + bs[n..];
    }
  }

  /** Text made of ASCII characters is encoded one byte per character. */
  lemma {:induction false} EncodeAscii(s: string)
    requires forall i :: 0 <= i < |s| ==> s[i] as int < 0x80
    ensures |Encode(s)| == |s|
    ensures forall i :: 0 <= i < |s| ==> Encode(s)[i] == s[i] as int
    decreases |s|
  {
    if |s| > 0 {
      EncodeAscii(s[1..]);
    }
  }
}
