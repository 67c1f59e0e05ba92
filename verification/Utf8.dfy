/** UTF-8 as RFC 3629 defines it: widths, encoding, strict decoding. */
module Utf8 {
  import opened Seqs
  import opened Wrappers

  type byte = b: int | 0 <= b < 256

  /** `char::len_utf8` and `char::len_utf16`. */
  function Len8(c: char): nat {
    var u := c as int;
    if u < 0x80 then 1 else if u < 0x800 then 2 else if u < 0x10000 then 3 else 4
  }

  function Len16(c: char): nat {
    if c as int < 0x10000 then 1 else 2
  }

  /** `str::len`, in bytes. */
  function ByteLen(s: string): nat {
    if s == [] then 0 else Len8(s[0]) + ByteLen(s[1..])
  }

  function Utf16Len(s: string): nat {
    if s == [] then 0 else Len16(s[0]) + Utf16Len(s[1..])
  }

  function EncodeChar(c: char): (r: seq<byte>)
    ensures |r| == Len8(c)
  {
    var u := c as int;
    if u < 0x80 then [u]
    else if u < 0x800 then [0xC0 + u / 64, 0x80 + u % 64]
    else if u < 0x10000 then [0xE0 + u / 4096, 0x80 + u / 64 % 64, 0x80 + u % 64]
    else [0xF0 + u / 262144, 0x80 + u / 4096 % 64, 0x80 + u / 64 % 64, 0x80 + u % 64]
  }

  function Encode(s: string): seq<byte> {
    if s == [] then [] else EncodeChar(s[0]) + Encode(s[1..])
  }

  predicate Continuation(b: byte) { 0x80 <= b < 0xC0 }

  /** `str::is_char_boundary`. */
  predicate Boundary(bs: seq<byte>, k: nat) {
    k == |bs| || (k < |bs| && !Continuation(bs[k]))
  }

  /** A scalar value: what a `char` may be. */
  predicate Scalar(u: int) {
    0 <= u < 0xD800 || 0xE000 <= u < 0x110000
  }

  /** The code point at the front of `bs`, with its width. */
  function DecodeFirst(bs: seq<byte>): (r: Option<(char, nat)>)
    ensures r.Some? ==> 0 < r.value.1 <= |bs|
  {
    if bs == [] then None
    else if bs[0] < 0x80 then Some((bs[0] as char, 1))
    else if bs[0] < 0xE0 then
      var u := if |bs| > 1 && Continuation(bs[1]) then (bs[0] as int - 0xC0) * 64 + (bs[1] as int - 0x80) else 0;
      if 0x80 <= u < 0x800 then Some((u as char, 2)) else None
    else if bs[0] < 0xF0 then
      var u := if |bs| > 2 && Continuation(bs[1]) && Continuation(bs[2])
               then (bs[0] as int - 0xE0) * 4096 + (bs[1] as int - 0x80) * 64 + (bs[2] as int - 0x80) else 0;
      if u >= 0x800 && Scalar(u) then Some((u as char, 3)) else None
    else
      var u := if |bs| > 3 && Continuation(bs[1]) && Continuation(bs[2]) && Continuation(bs[3])
               then (bs[0] as int - 0xF0) * 262144 + (bs[1] as int - 0x80) * 4096
                    + (bs[2] as int - 0x80) * 64 + (bs[3] as int - 0x80)
               else 0;
      if u >= 0x10000 && Scalar(u) then Some((u as char, 4)) else None
  }

  /** `String::from_utf8`: every byte must belong to a valid sequence. */
  function Decode(bs: seq<byte>): Option<string> {
    if bs == [] then Some([])
    else
      match DecodeFirst(bs)
      case None => None
      case Some((c, n)) =>
        match Decode(bs[n..])
        case None => None
        case Some(rest) => Some([c] + rest)
  }

  /** The six bits of a continuation byte. */
  function Low(b: byte): int { b as int - 0x80 }

  /** Table 3-6 of the Unicode standard: the bits of a code point behind the marks of
      its bytes, and no more bytes than it needs. */
  lemma EncodedBits(c: char)
    ensures forall i :: 0 < i < |EncodeChar(c)| ==> 0x80 <= EncodeChar(c)[i] < 0xC0
    ensures var u, bs := c as int, EncodeChar(c);
      if u <= 0x7F then bs == [u]
      else if u <= 0x7FF then |bs| == 2 && 0xC0 <= bs[0] < 0xE0 && u == (bs[0] - 0xC0) * 64 + Low(bs[1])
      else if u <= 0xFFFF then
        |bs| == 3 && 0xE0 <= bs[0] < 0xF0 && u == (bs[0] - 0xE0) * 4096 + Low(bs[1]) * 64 + Low(bs[2])
      else
        && |bs| == 4 && 0xF0 <= bs[0] < 0xF8
        && u == (bs[0] - 0xF0) * 262144 + Low(bs[1]) * 4096 + Low(bs[2]) * 64 + Low(bs[3])
  {
    Digits(c as int);
  }

  /** How many characters lie outside the basic plane. */
  function Supplementary(s: string): nat {
    if s == [] then 0 else (if s[0] as int > 0xFFFF then 1 else 0) + Supplementary(s[1..])
  }

  /** The UTF-16 length is one a character and one more for each of those. */
  lemma {:induction false} Utf16LenCounts(s: string)
    ensures Utf16Len(s) == |s| + Supplementary(s)
  {
    if s == [] {
    } else {
      Utf16LenCounts(s[1..]);
    }
  }

  lemma Digits(u: int)
    requires 0 <= u
    ensures u / 64 * 64 + u % 64 == u
    ensures u / 4096 * 4096 + u / 64 % 64 * 64 + u % 64 == u
    ensures u / 262144 * 262144 + u / 4096 % 64 * 4096 + u / 64 % 64 * 64 + u % 64 == u
  {
    assert u / 64 / 64 == u / 4096;
    assert u / 4096 / 64 == u / 262144;
  }

  lemma DecodeEncodedChar(c: char, rest: seq<byte>)
    ensures DecodeFirst(EncodeChar(c) + rest) == Some((c, Len8(c)))
  {
    var u := c as int;
    if u < 0x80 {
    } else if u < 0x800 {
      DecodeTwo(c, rest);
    } else if u < 0x10000 {
      DecodeThree(c, rest);
    } else {
      DecodeFour(c, rest);
    }
  }

  lemma DecodeTwo(c: char, rest: seq<byte>)
    requires 0x80 <= c as int < 0x800
    ensures DecodeFirst(EncodeChar(c) + rest) == Some((c, 2))
  {
    Digits(c as int);
  }

  lemma DecodeThree(c: char, rest: seq<byte>)
    requires 0x800 <= c as int < 0x10000
    ensures DecodeFirst(EncodeChar(c) + rest) == Some((c, 3))
  {
    var bs, u := EncodeChar(c) + rest, c as int;
    Digits(u);
    assert bs[0] == 0xE0 + u / 4096 && bs[1] == 0x80 + u / 64 % 64 && bs[2] == 0x80 + u % 64;
  }

  lemma DecodeFour(c: char, rest: seq<byte>)
    requires 0x10000 <= c as int
    ensures DecodeFirst(EncodeChar(c) + rest) == Some((c, 4))
  {
    var bs, u := EncodeChar(c) + rest, c as int;
    Digits(u);
    assert bs[0] == 0xF0 + u / 262144 && bs[1] == 0x80 + u / 4096 % 64;
    assert bs[2] == 0x80 + u / 64 % 64 && bs[3] == 0x80 + u % 64;
  }

  /** Decoding inverts encoding on every string. */
  lemma {:induction false} DecodeEncode(s: string)
    ensures Decode(Encode(s)) == Some(s)
  {
    if s == [] {
    } else {
      var c, rest := s[0], Encode(s[1..]);
      DecodeEncode(s[1..]);
      DecodeEncodedChar(c, rest);
      assert (EncodeChar(c) + rest)[Len8(c)..] == rest;
      assert s == [c] + s[1..];
    }
  }

  /** A decoded front is the encoding of its character: no overlong form, no
      stray continuation byte and no surrogate is let through. */
  lemma DecodedFront(bs: seq<byte>)
    ensures DecodeFirst(bs).Some? ==>
      var (c, n) := DecodeFirst(bs).value;
      n == Len8(c) && bs == EncodeChar(c) + bs[n..]
  {
    if DecodeFirst(bs).Some? {
      var (c, n) := DecodeFirst(bs).value;
      if n == 2 { FrontOfTwo(bs); }
      if n == 3 { FrontOfThree(bs); }
      if n == 4 { FrontOfFour(bs); }
    }
  }

  lemma FrontOfTwo(bs: seq<byte>)
    requires DecodeFirst(bs).Some? && DecodeFirst(bs).value.1 == 2
    ensures Len8(DecodeFirst(bs).value.0) == 2 && bs == EncodeChar(DecodeFirst(bs).value.0) + bs[2..]
  {
    var u := DecodeFirst(bs).value.0 as int;
    Place(u, bs[0] - 0xC0, bs[1] - 0x80);
    assert bs == [bs[0], bs[1]] + bs[2..];
  }

  lemma FrontOfThree(bs: seq<byte>)
    requires DecodeFirst(bs).Some? && DecodeFirst(bs).value.1 == 3
    ensures Len8(DecodeFirst(bs).value.0) == 3 && bs == EncodeChar(DecodeFirst(bs).value.0) + bs[3..]
  {
    var u := DecodeFirst(bs).value.0 as int;
    Place(u, (bs[0] as int - 0xE0) * 64 + (bs[1] as int - 0x80), bs[2] as int - 0x80);
    Place(u / 64, bs[0] - 0xE0, bs[1] - 0x80);
    assert u / 64 / 64 == u / 4096;
    assert bs == [bs[0], bs[1], bs[2]] + bs[3..];
  }

  lemma FrontOfFour(bs: seq<byte>)
    requires DecodeFirst(bs).Some? && DecodeFirst(bs).value.1 == 4
    ensures Len8(DecodeFirst(bs).value.0) == 4 && bs == EncodeChar(DecodeFirst(bs).value.0) + bs[4..]
  {
    var u := DecodeFirst(bs).value.0 as int;
    var high := (bs[0] as int - 0xF0) * 64 + (bs[1] as int - 0x80);
    Place(u, high * 64 + (bs[2] as int - 0x80), bs[3] as int - 0x80);
    Place(u / 64, high, bs[2] - 0x80);
    Place(high, bs[0] - 0xF0, bs[1] - 0x80);
    assert u / 64 / 64 == u / 4096 == high && high / 64 == u / 262144;
    assert bs == [bs[0], bs[1], bs[2], bs[3]] + bs[4..];
  }

  lemma Place(u: int, high: int, low: int)
    requires u == high * 64 + low && 0 <= low < 64
    ensures u / 64 == high && u % 64 == low
  {}

  /** Encoding inverts decoding on every byte sequence that decodes. */
  lemma {:induction false} EncodeDecode(bs: seq<byte>)
    ensures Decode(bs).Some? ==> Encode(Decode(bs).value) == bs
  {
    if bs != [] && Decode(bs).Some? {
      var (c, n) := DecodeFirst(bs).value;
      DecodedFront(bs);
      EncodeDecode(bs[n..]);
      assert ([c] + Decode(bs[n..]).value)[1..] == Decode(bs[n..]).value;
    }
  }

  lemma {:induction false} EncodeConcat(a: string, b: string)
    ensures Encode(a + b) == Encode(a) + Encode(b)
  {
    if a == [] {
      NothingBeside(b);
    } else {
      EncodeConcat(a[1..], b);
      ConcatTail(a, b);
      Assoc(EncodeChar(a[0]), Encode(a[1..]), Encode(b));
    }
  }

  lemma {:induction false} EncodedLength(s: string)
    ensures |Encode(s)| == ByteLen(s)
  {
    if s == [] {
    } else {
      EncodedLength(s[1..]);
    }
  }

  lemma {:induction false} ByteLenConcat(a: string, b: string)
    ensures ByteLen(a + b) == ByteLen(a) + ByteLen(b)
  {
    if a == [] {
      NothingBeside(b);
    } else {
      ByteLenConcat(a[1..], b);
      ConcatTail(a, b);
    }
  }

  lemma {:induction false} Utf16LenConcat(a: string, b: string)
    ensures Utf16Len(a + b) == Utf16Len(a) + Utf16Len(b)
  {
    if a == [] {
      NothingBeside(b);
    } else {
      Utf16LenConcat(a[1..], b);
      ConcatTail(a, b);
    }
  }

  predicate Ascii(s: string) {
    forall i :: 0 <= i < |s| ==> s[i] as int < 0x80
  }

  /** ASCII text, and only that, takes one byte a character. */
  lemma {:induction false} AsciiIff(s: string)
    ensures ByteLen(s) == |s| <==> Ascii(s)
    ensures ByteLen(s) >= |s|
  {
    if s == [] {
    } else {
      AsciiIff(s[1..]);
      assert s == [s[0]] + s[1..];
    }
  }

  lemma {:induction false} EncodeAscii(s: string)
    requires Ascii(s)
    ensures |Encode(s)| == |s| && forall i :: 0 <= i < |s| ==> Encode(s)[i] == s[i] as int
  {
    if s == [] {
    } else {
      EncodeAscii(s[1..]);
    }
  }

  /** Encoded text starts on a boundary. */
  lemma EncodedStartsClean(s: string)
    ensures Boundary(Encode(s), 0)
  {}

  /** A boundary of encoded text is the byte offset of a character, or the end. */
  lemma BoundaryIff(s: string, k: nat)
    ensures k <= |Encode(s)| && Boundary(Encode(s), k) <==> exists j :: 0 <= j <= |s| && k == ByteLen(s[..j])
  {
    if k <= |Encode(s)| && Boundary(Encode(s), k) { CharAtBoundary(s, k); }
    if j :| 0 <= j <= |s| && k == ByteLen(s[..j]) { PrefixIsBoundary(s, j); }
  }

  lemma ContinuesInside(c: char, tail: seq<byte>)
    ensures forall k :: 0 < k < Len8(c) ==> Continuation((EncodeChar(c) + tail)[k])
  {
    EncodedBits(c);
  }

  lemma {:induction false} CharAtBoundary(s: string, k: nat)
    requires k <= |Encode(s)| && Boundary(Encode(s), k)
    ensures exists j :: 0 <= j <= |s| && k == ByteLen(s[..j])
  {
    if k == 0 {
      assert ByteLen(s[..0]) == 0;
    } else {
      var c, tail := s[0], Encode(s[1..]);
      ContinuesInside(c, tail);
      var m := k - Len8(c);
      assert m < |tail| ==> Encode(s)[k] == tail[m];
      CharAtBoundary(s[1..], m);
      var j :| 0 <= j <= |s[1..]| && m == ByteLen(s[1..][..j]);
      assert s[..j + 1][1..] == s[1..][..j];
      assert k == ByteLen(s[..j + 1]);
    }
  }

  /** The byte offset of every character is a boundary. */
  lemma PrefixIsBoundary(s: string, k: nat)
    requires k <= |s|
    ensures ByteLen(s[..k]) <= |Encode(s)|
    ensures Boundary(Encode(s), ByteLen(s[..k]))
    ensures Encode(s)[..ByteLen(s[..k])] == Encode(s[..k])
  {
    assert s == s[..k] + s[k..];
    EncodeConcat(s[..k], s[k..]);
    EncodedLength(s[..k]);
    EncodedStartsClean(s[k..]);
  }
}
