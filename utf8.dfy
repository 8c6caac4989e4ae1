/** The UTF-8 codec the Huffman codec relies on, following section 3 of
    RFC 3629 with the conventions of Go's unicode/utf8 package: DecodeRune
    answers (RuneError, 1) for any ill-formed or truncated sequence and
    (RuneError, 0) for the empty input, and EncodeRune writes U+FFFD for an
    integer that is not a Unicode scalar value. */
module Utf8 {
  import opened Types

  /** U+FFFD, Go's utf8.RuneError. */
  const RuneError: Rune := 0xFFFD

  /** Unicode scalar values: code points outside the surrogate range. */
  predicate IsScalar(c: Rune) {
    0 <= c <= 0x10FFFF && !(0xD800 <= c <= 0xDFFF)
  }

  predicate IsContinuation(b: byte) { 0x80 <= b <= 0xBF }

  /** The number of bytes EncodeRune writes for `c` (Go: utf8.RuneLen, which
      answers -1 where EncodeRune writes the three bytes of U+FFFD). */
  function RuneLen(c: Rune): (n: nat)
    ensures 1 <= n <= 4
  {
    if !IsScalar(c) then 3
    else if c <= 0x7F then 1
    else if c <= 0x7FF then 2
    else if c <= 0xFFFF then 3
    else 4
  }

  /** The UTF-8 bytes of `c` (Go: utf8.AppendRune, bytes.Buffer.WriteRune). */
  function EncodeRune(c: Rune): (r: seq<byte>)
    ensures |r| == RuneLen(c)
  {
    if !IsScalar(c) then [0xEF, 0xBF, 0xBD]
    else if c <= 0x7F then [c as byte]
    else if c <= 0x7FF then [(0xC0 + c / 64) as byte, (0x80 + c % 64) as byte]
    else if c <= 0xFFFF then
      [(0xE0 + c / 4096) as byte, (0x80 + (c / 64) % 64) as byte, (0x80 + c % 64) as byte]
    else
      [(0xF0 + c / 262144) as byte, (0x80 + (c / 4096) % 64) as byte,
       (0x80 + (c / 64) % 64) as byte, (0x80 + c % 64) as byte]
  }

  /** Go's utf8.DecodeRune: the first code point of `s` and its width. */
  function DecodeRune(s: seq<byte>): (r: (Rune, nat))
    ensures s == [] ==> r == (RuneError, 0)
    ensures s != [] ==> 1 <= r.1 <= |s| && r.1 <= 4
  {
    if |s| == 0 then (RuneError, 0)
    else
      var b0 := s[0];
      if b0 < 0x80 then (b0 as Rune, 1)
      else if b0 < 0xC2 || b0 > 0xF4 then (RuneError, 1)
      else
        var size := if b0 < 0xE0 then 2 else if b0 < 0xF0 then 3 else 4;
        var lo: byte := if b0 == 0xE0 then 0xA0 else if b0 == 0xF0 then 0x90 else 0x80;
        var hi: byte := if b0 == 0xED then 0x9F else if b0 == 0xF4 then 0x8F else 0xBF;
        if |s| < size then (RuneError, 1)
        else if s[1] < lo || hi < s[1] then (RuneError, 1)
        else if size == 2 then (((b0 - 0xC0) as Rune) * 64 + (s[1] - 0x80) as Rune, 2)
        else if !IsContinuation(s[2]) then (RuneError, 1)
        else if size == 3 then
          (((b0 - 0xE0) as Rune) * 4096 + ((s[1] - 0x80) as Rune) * 64 + (s[2] - 0x80) as Rune, 3)
        else if !IsContinuation(s[3]) then (RuneError, 1)
        else
          (((b0 - 0xF0) as Rune) * 262144 + ((s[1] - 0x80) as Rune) * 4096
           + ((s[2] - 0x80) as Rune) * 64 + (s[3] - 0x80) as Rune, 4)
  }

  /** Decoding the encoding of a scalar value gives it back, whatever follows. */
  lemma DecodeEncode(c: Rune, rest: seq<byte>)
    requires IsScalar(c)
    ensures DecodeRune(EncodeRune(c) + rest) == (c, |EncodeRune(c)|)
  {
    if c <= 0x7F {
      assert (EncodeRune(c) + rest)[0] == c as byte;
    } else if c <= 0x7FF {
      DecodeEncode2(c, rest);
    } else if c <= 0xFFFF {
      DecodeEncode3(c, rest);
    } else {
      DecodeEncode4(c, rest);
    }
  }

  lemma DecodeEncode2(c: Rune, rest: seq<byte>)
    requires 0x80 <= c <= 0x7FF
    ensures DecodeRune(EncodeRune(c) + rest) == (c, 2)
  {
    var x, y := c / 64, c % 64;
    assert c == x * 64 + y;
    var s := EncodeRune(c) + rest;
    assert s[0] == (0xC0 + x) as byte && s[1] == (0x80 + y) as byte;
  }

  lemma DecodeEncode3(c: Rune, rest: seq<byte>)
    requires 0x800 <= c <= 0xFFFF && !(0xD800 <= c <= 0xDFFF)
    ensures DecodeRune(EncodeRune(c) + rest) == (c, 3)
  {
    var x, y, z := c / 4096, (c / 64) % 64, c % 64;
    assert c == x * 4096 + y * 64 + z;
    assert x == 0 ==> y >= 32;
    assert x == 13 ==> y < 32;
    var s := EncodeRune(c) + rest;
    assert s[0] == (0xE0 + x) as byte && s[1] == (0x80 + y) as byte && s[2] == (0x80 + z) as byte;
  }

  lemma DecodeEncode4(c: Rune, rest: seq<byte>)
    requires 0x10000 <= c <= 0x10FFFF
    ensures DecodeRune(EncodeRune(c) + rest) == (c, 4)
  {
    var w, x, y, z := c / 262144, (c / 4096) % 64, (c / 64) % 64, c % 64;
    Recompose4(c);
    var s := EncodeRune(c) + rest;
    assert s[0] == (0xF0 + w) as byte && s[1] == (0x80 + x) as byte;
    assert s[2] == (0x80 + y) as byte && s[3] == (0x80 + z) as byte;
  }

  lemma Recompose4(c: Rune)
    requires 0x10000 <= c <= 0x10FFFF
    ensures var w, x, y, z := c / 262144, (c / 4096) % 64, (c / 64) % 64, c % 64;
      && c == w * 262144 + x * 4096 + y * 64 + z
      && 0 <= w <= 4 && (w == 0 ==> x >= 16) && (w == 4 ==> x < 16)
  {
    var w, x, y, z := c / 262144, (c / 4096) % 64, (c / 64) % 64, c % 64;
    assert c / 64 == (c / 4096) * 64 + y;
    assert c / 4096 == w * 64 + x;
  }

  /** DecodeRune accepts only the shortest form: a successfully decoded
      prefix is exactly the encoding of the scalar value it yields. */
  lemma DecodeCanonical(s: seq<byte>)
    requires DecodeRune(s).0 != RuneError
    ensures IsScalar(DecodeRune(s).0)
    ensures s[..DecodeRune(s).1] == EncodeRune(DecodeRune(s).0)
  {
    var n := DecodeRune(s).1;
    if n == 2 {
      Canonical2(s);
    } else if n == 3 {
      Canonical3(s);
    } else if n == 4 {
      Canonical4(s);
    }
  }

  lemma Canonical2(s: seq<byte>)
    requires DecodeRune(s).0 != RuneError && DecodeRune(s).1 == 2
    ensures IsScalar(DecodeRune(s).0) && s[..2] == EncodeRune(DecodeRune(s).0)
  {
    var x, y := (s[0] - 0xC0) as int, (s[1] - 0x80) as int;
    var c := DecodeRune(s).0;
    assert c == x * 64 + y;
    assert c / 64 == x && c % 64 == y;
    assert s[..2] == [s[0], s[1]];
  }

  lemma Canonical3(s: seq<byte>)
    requires DecodeRune(s).0 != RuneError && DecodeRune(s).1 == 3
    ensures IsScalar(DecodeRune(s).0) && s[..3] == EncodeRune(DecodeRune(s).0)
  {
    var x, y, z := (s[0] - 0xE0) as int, (s[1] - 0x80) as int, (s[2] - 0x80) as int;
    var c := DecodeRune(s).0;
    assert c == x * 4096 + y * 64 + z;
    assert c / 4096 == x && (c / 64) % 64 == y && c % 64 == z;
    assert s[..3] == [s[0], s[1], s[2]];
  }

  lemma Canonical4(s: seq<byte>)
    requires DecodeRune(s).0 != RuneError && DecodeRune(s).1 == 4
    ensures IsScalar(DecodeRune(s).0) && s[..4] == EncodeRune(DecodeRune(s).0)
  {
    var w, x := (s[0] - 0xF0) as int, (s[1] - 0x80) as int;
    var y, z := (s[2] - 0x80) as int, (s[3] - 0x80) as int;
    var c := DecodeRune(s).0;
    assert c == w * 262144 + x * 4096 + y * 64 + z;
    Digits4(w, x, y, z);
    assert s[..4] == [s[0], s[1], s[2], s[3]];
  }

  lemma Digits4(w: int, x: int, y: int, z: int)
    requires 0 <= w < 8 && 0 <= x < 64 && 0 <= y < 64 && 0 <= z < 64
    ensures var c := w * 262144 + x * 4096 + y * 64 + z;
      c / 262144 == w && (c / 4096) % 64 == x && (c / 64) % 64 == y && c % 64 == z
  {
    var c := w * 262144 + x * 4096 + y * 64 + z;
    assert c / 64 == w * 4096 + x * 64 + y;
    assert c / 4096 == w * 64 + x;
  }

  /** A one-byte encoding is the ASCII byte itself; the bytes of a longer
      encoding are all at least 0x80, so none of them is an ASCII delimiter. */
  lemma EncodeRuneBytes(c: Rune)
    ensures |EncodeRune(c)| == 1 <==> 0 <= c <= 0x7F
    ensures |EncodeRune(c)| == 1 ==> EncodeRune(c)[0] as Rune == c
    ensures |EncodeRune(c)| > 1 ==> forall i :: 0 <= i < |EncodeRune(c)| ==> EncodeRune(c)[i] >= 0x80
  {
  }
}
