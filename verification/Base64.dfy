/**
 Base64 (section 4 of RFC 4648): the index-based encoder and the decoder of
 fs_ops.rs:390-417 and 643-684, and the chunk-based encoder of
 browser_ops.rs:2124-2148, with their shifts and masks.  Text is given by its
 ASCII bytes; a 6-bit group is a byte below 64.
 */
module Base64 {
  import opened Seqs
  import opened Wrappers

  const PAD: bv8 := 61

  // ---------------------------------------------------------------- alphabet

  /** Table 1 of RFC 4648: A-Z, a-z, 0-9, '+', '/'. */
  function Digit(v: bv8): bv8 {
    if v < 26 then v + 65 else if v < 52 then v + 71 else if v < 62 then v - 4 else if v == 62 then 43 else 47
  }

  /** The decoder's table; None is its 255. */
  function Lookup(c: bv8): (r: Option<bv8>)
    ensures r.Some? ==> r.value < 64 && Digit(r.value) == c
  {
    if 65 <= c < 91 then Some(c - 65) else if 97 <= c < 123 then Some(c - 71)
    else if 48 <= c < 58 then Some(c + 4) else if c == 43 then Some(62) else if c == 47 then Some(63) else None
  }

  lemma LookupOfDigit(v: bv8)
    requires v < 64
    ensures Lookup(Digit(v)) == Some(v) && Digit(v) != PAD && !Blank(Digit(v))
  {}

  // ---------------------------------------------------------------- encoding

  // The four 6-bit groups of three bytes.
  function Q0(a: bv8): bv8 { a >> 2 }
  function Q1(a: bv8, b: bv8): bv8 { ((a & 3) << 4) | (b >> 4) }
  function Q2(b: bv8, c: bv8): bv8 { ((b & 15) << 2) | (c >> 6) }
  function Q3(c: bv8): bv8 { c & 63 }

  /** The input as 6-bit groups, zero bits completing the last one. */
  function Sextets(bs: seq<bv8>): seq<bv8> {
    if bs == [] then []
    else if |bs| == 1 then [Q0(bs[0]), Q1(bs[0], 0)]
    else if |bs| == 2 then [Q0(bs[0]), Q1(bs[0], bs[1]), Q2(bs[1], 0)]
    else Groups4(bs[0], bs[1], bs[2]) + Sextets(bs[3..])
  }

  function Letters(vs: seq<bv8>): (r: seq<bv8>)
    ensures |r| == |vs| && forall i :: 0 <= i < |vs| ==> r[i] == Digit(vs[i])
  {
    if vs == [] then [] else [Digit(vs[0])] + Letters(vs[1..])
  }

  function Padding(n: nat): seq<bv8> {
    if n % 3 == 1 then [PAD, PAD] else if n % 3 == 2 then [PAD] else []
  }

  /** The letters of the groups, padded to a multiple of four. */
  function Encoded(bs: seq<bv8>): seq<bv8> {
    Letters(Sextets(bs)) + Padding(|bs|)
  }

  function Word(a: bv8, b: bv8, c: bv8): bv32 {
    ((a as bv32) << 16) | ((b as bv32) << 8) | (c as bv32)
  }

  /** Shifting and masking the 24-bit word picks out the groups. */
  lemma Groups(a: bv8, b: bv8, c: bv8)
    ensures var n := Word(a, b, c);
      && ((n >> 18) & 0x3f) == Q0(a) as bv32 && ((n >> 12) & 0x3f) == Q1(a, b) as bv32
      && ((n >> 6) & 0x3f) == Q2(b, c) as bv32 && (n & 0x3f) == Q3(c) as bv32
  {}

  /** So the letters picked by them are those of the groups. */
  lemma Picks(a: bv8, b: bv8, c: bv8)
    ensures var n := Word(a, b, c);
      && Pick((n >> 18) & 0x3f) == Digit(Q0(a)) && Pick((n >> 12) & 0x3f) == Digit(Q1(a, b))
      && Pick((n >> 6) & 0x3f) == Digit(Q2(b, c)) && Pick(n & 0x3f) == Digit(Q3(c))
  {
    Groups(a, b, c);
  }

  lemma EncodedStep(bs: seq<bv8>)
    requires |bs| >= 3
    ensures Encoded(bs)
         == [Digit(Q0(bs[0])), Digit(Q1(bs[0], bs[1])), Digit(Q2(bs[1], bs[2])), Digit(Q3(bs[2]))] + Encoded(bs[3..])
  {
    var vs := Groups4(bs[0], bs[1], bs[2]);
    LettersOfFour(vs);
    EncodedBehind(vs, Sextets(bs[3..]), |bs|);
  }

  /** The groups of three bytes. */
  function Groups4(a: bv8, b: bv8, c: bv8): (vs: seq<bv8>)
    ensures |vs| == 4
  {
    [Q0(a), Q1(a, b), Q2(b, c), Q3(c)]
  }

  lemma EncodedBehind(vs: seq<bv8>, more: seq<bv8>, n: nat)
    requires n >= 3
    ensures Letters(vs + more) + Padding(n) == Letters(vs) + (Letters(more) + Padding(n - 3))
  {
    LettersConcat(vs, more);
    Assoc(Letters(vs), Letters(more), Padding(n));
  }

  lemma LettersConcat(a: seq<bv8>, b: seq<bv8>)
    ensures Letters(a + b) == Letters(a) + Letters(b)
  {}

  lemma LettersOfFour(vs: seq<bv8>)
    requires |vs| == 4
    ensures Letters(vs) == [Digit(vs[0]), Digit(vs[1]), Digit(vs[2]), Digit(vs[3])]
  {}

  lemma EncodedTail(bs: seq<bv8>)
    ensures |bs| == 1 ==> Encoded(bs) == [Digit(Q0(bs[0])), Digit(Q1(bs[0], 0)), PAD, PAD]
    ensures |bs| == 2 ==> Encoded(bs) == [Digit(Q0(bs[0])), Digit(Q1(bs[0], bs[1])), Digit(Q2(bs[1], 0)), PAD]
    ensures |bs| == 0 ==> Encoded(bs) == []
  {}

  /** The letter for six bits of the word. */
  function Pick(n: bv32): bv8
    requires n < 64
  {
    Digit(n as bv8)
  }

  method EncodeByIndex(bytes: seq<bv8>) returns (out: seq<bv8>)
    ensures out == Encoded(bytes)
  {
    out := [];
    var i := 0;
    assert bytes[0..] == bytes && [] + Encoded(bytes) == Encoded(bytes);
    while i + 3 <= |bytes|
      invariant i <= |bytes| && out + Encoded(bytes[i..]) == Encoded(bytes)
      decreases |bytes| - i
    {
      ghost var rest := bytes[i..];
      var n := Word(bytes[i], bytes[i + 1], bytes[i + 2]);
      Picks(bytes[i], bytes[i + 1], bytes[i + 2]);
      EncodedStep(rest);
      assert rest[3..] == bytes[i + 3..];
      var quad := [Pick((n >> 18) & 0x3f), Pick((n >> 12) & 0x3f), Pick((n >> 6) & 0x3f), Pick(n & 0x3f)];
      Assoc(out, quad, Encoded(bytes[i + 3..]));
      out := out + quad;
      i := i + 3;
    }
    EncodedTail(bytes[i..]);
    if i < |bytes| {
      var n := Word(bytes[i], 0, 0);
      Picks(bytes[i], 0, 0);
      if i + 1 < |bytes| {
        var m := Word(bytes[i], bytes[i + 1], 0);
        Picks(bytes[i], bytes[i + 1], 0);
        out := out + [Pick((n >> 18) & 0x3f), Pick((m >> 12) & 0x3f), Pick((m >> 6) & 0x3f), PAD];
      } else {
        out := out + [Pick((n >> 18) & 0x3f), Pick((n >> 12) & 0x3f), PAD, PAD];
      }
    } else {
      assert out + [] == out;
    }
  }

  method EncodeByChunk(data: seq<bv8>) returns (out: seq<bv8>)
    ensures out == Encoded(data)
  {
    out := [];
    var rest := data;
    assert [] + Encoded(data) == Encoded(data);
    while rest != []
      invariant out + Encoded(rest) == Encoded(data)
      decreases |rest|
    {
      var chunk := if |rest| < 3 then rest else rest[..3];
      var quad := EncodeChunk(chunk);
      ChunkStep(rest, quad);
      Assoc(out, quad, Encoded(rest[|chunk|..]));
      out := out + quad;
      rest := rest[|chunk|..];
    }
    EncodedTail(rest);
    assert out + [] == out;
  }

  /** The four characters of one to three bytes. */
  function Quad(chunk: seq<bv8>): (quad: seq<bv8>)
    requires 0 < |chunk| <= 3
    ensures |quad| == 4
  {
    var b1, b2 := if |chunk| > 1 then chunk[1] else 0, if |chunk| > 2 then chunk[2] else 0;
    [Digit(Q0(chunk[0])), Digit(Q1(chunk[0], b1)), if |chunk| > 1 then Digit(Q2(b1, b2)) else PAD,
     if |chunk| > 2 then Digit(Q3(b2)) else PAD]
  }

  method EncodeChunk(chunk: seq<bv8>) returns (quad: seq<bv8>)
    requires 0 < |chunk| <= 3
    ensures quad == Quad(chunk)
  {
    var b1, b2 := if |chunk| > 1 then chunk[1] else 0, if |chunk| > 2 then chunk[2] else 0;
    var n := Word(chunk[0], b1, b2);
    Picks(chunk[0], b1, b2);
    quad := [Pick((n >> 18) & 0x3f), Pick((n >> 12) & 0x3f), if |chunk| > 1 then Pick((n >> 6) & 0x3f) else PAD,
             if |chunk| > 2 then Pick(n & 0x3f) else PAD];
  }

  /** One chunk is one quad of the encoding. */
  lemma ChunkStep(rest: seq<bv8>, quad: seq<bv8>)
    requires rest != [] && quad == Quad(if |rest| < 3 then rest else rest[..3])
    ensures Encoded(rest) == quad + Encoded(rest[if |rest| < 3 then |rest| else 3..])
  {
    if |rest| < 3 {
      EncodedTail(rest);
      EncodedTail(rest[|rest|..]);
      assert quad + [] == quad;
    } else {
      EncodedStep(rest);
    }
  }

  // ---------------------------------------------------------------- decoding

  predicate Blank(b: bv8) { b == 32 || b == 9 || b == 13 || b == 10 }

  function WithoutBlanks(s: seq<bv8>): seq<bv8> {
    if s == [] then [] else if Blank(s[0]) then WithoutBlanks(s[1..]) else [s[0]] + WithoutBlanks(s[1..])
  }

  /** The text up to the first padding character. */
  function Payload(s: seq<bv8>): seq<bv8> {
    if s == [] || s[0] == PAD then [] else [s[0]] + Payload(s[1..])
  }

  /** The groups a text of letters stands for. */
  function Values(s: seq<bv8>): Option<seq<bv8>> {
    if s == [] then Some([])
    else
      match (Lookup(s[0]), Values(s[1..]))
      case (Some(v), Some(vs)) => Some([v] + vs)
      case _ => None
  }

  // The three bytes of four groups, as the decoder's 8-bit shifts compute them.
  function B0(a: bv8, b: bv8): bv8 { (a << 2) | (b >> 4) }
  function B1(b: bv8, c: bv8): bv8 { (b << 4) | (c >> 2) }
  function B2(c: bv8, d: bv8): bv8 { (c << 6) | d }

  /** Groups to bytes, four at a time; bits past the last whole byte are
      dropped. */
  function Bytes(vs: seq<bv8>): seq<bv8> {
    if |vs| < 2 then []
    else if |vs| == 2 then [B0(vs[0], vs[1])]
    else if |vs| == 3 then [B0(vs[0], vs[1]), B1(vs[1], vs[2])]
    else [B0(vs[0], vs[1]), B1(vs[1], vs[2]), B2(vs[2], vs[3])] + Bytes(vs[4..])
  }

  /** Blanks are skipped and everything from the first '=' on is ignored; what
      remains must be letters, and not one more than a multiple of four. */
  function Decoded(input: seq<bv8>): Option<seq<bv8>> {
    match Values(Payload(WithoutBlanks(input)))
    case None => None
    case Some(vs) => if |vs| % 4 == 1 then None else Some(Bytes(vs))
  }

  /** The letters read so far, in front of what is still to read. */
  function Then(vs: seq<bv8>, rest: Option<seq<bv8>>): Option<seq<bv8>> {
    match rest
    case None => None
    case Some(more) => Some(vs + more)
  }

  lemma ThenStep(vs: seq<bv8>, rest: seq<bv8>)
    requires rest != [] && rest[0] != PAD
    ensures Lookup(rest[0]).None? ==> Values(Payload(rest)).None?
    ensures Lookup(rest[0]).Some? ==>
      Then(vs, Values(Payload(rest))) == Then(vs + [Lookup(rest[0]).value], Values(Payload(rest[1..])))
  {
    var p := Payload(rest[1..]);
    assert Payload(rest)[1..] == p;
    if Lookup(rest[0]).Some? && Values(p).Some? {
      Assoc(vs, [Lookup(rest[0]).value], Values(p).value);
    }
  }

  lemma ThenNothing(rest: Option<seq<bv8>>)
    ensures Then([], rest) == rest
  {
    if rest.Some? { assert [] + rest.value == rest.value; }
  }

  lemma BytesOfFour(vs: seq<bv8>)
    requires |vs| == 4
    ensures Bytes(vs) == [B0(vs[0], vs[1]), B1(vs[1], vs[2]), B2(vs[2], vs[3])]
  {
    assert vs[4..] == [];
  }

  method DecodeText(input: seq<bv8>) returns (r: Option<seq<bv8>>)
    ensures r == Decoded(input)
  {
    var rest := WithoutBlanks(input);
    ghost var goal := Values(Payload(rest));
    var out: seq<bv8>, chunk: seq<bv8> := [], [];
    ghost var done: seq<bv8> := [];
    ThenNothing(goal);
    assert done + chunk == [];
    while rest != [] && rest[0] != PAD
      invariant |chunk| < 4 && |done| % 4 == 0 && out == Bytes(done)
      invariant Then(done + chunk, Values(Payload(rest))) == goal
      decreases |rest|
    {
      var found := Lookup(rest[0]);
      ThenStep(done + chunk, rest);
      if found.None? { return None; }
      var v := found.value;
      Assoc(done, chunk, [v]);
      chunk := chunk + [v];
      if |chunk| == 4 {
        AppendFour(done, chunk);
        out := out + [B0(chunk[0], chunk[1]), B1(chunk[1], chunk[2]), B2(chunk[2], chunk[3])];
        done := done + chunk;
        chunk := [];
      }
      rest := rest[1..];
    }
    AppendChunk(done, chunk);
    r := FinishChunk(out, chunk);
  }

  /** What the letters left over at the end add; one letter alone is refused. */
  method FinishChunk(out: seq<bv8>, chunk: seq<bv8>) returns (r: Option<seq<bv8>>)
    requires |chunk| < 4
    ensures r == if |chunk| == 1 then None else Some(out + Bytes(chunk))
  {
    BytesOfFew(chunk);
    match |chunk| {
      case 0 =>
        NothingBeside(out);
        return Some(out);
      case 2 => return Some(out + [B0(chunk[0], chunk[1])]);
      case 3 => return Some(out + [B0(chunk[0], chunk[1]), B1(chunk[1], chunk[2])]);
      case _ => return None;
    }
  }

  /** A chunk of letters behind full ones. */
  lemma AppendChunk(done: seq<bv8>, chunk: seq<bv8>)
    requires |done| % 4 == 0
    ensures Bytes(done + chunk) == Bytes(done) + Bytes(chunk)
    ensures |done + chunk| % 4 == |chunk| % 4 && (done + chunk) + [] == done + chunk
  {
    BytesAppend(done, chunk);
    NothingBeside(done + chunk);
    WholeFours(|done|, |chunk|);
  }

  lemma WholeFours(a: nat, b: nat)
    requires a % 4 == 0
    ensures (a + b) % 4 == b % 4
  {}

  lemma AppendFour(done: seq<bv8>, chunk: seq<bv8>)
    requires |done| % 4 == 0 && |chunk| == 4
    ensures Bytes(done + chunk)
         == Bytes(done) + [B0(chunk[0], chunk[1]), B1(chunk[1], chunk[2]), B2(chunk[2], chunk[3])]
    ensures |done + chunk| % 4 == 0 && (done + chunk) + [] == done + chunk
  {
    AppendChunk(done, chunk);
    BytesOfFour(chunk);
  }

  /** The bytes of less than four letters. */
  lemma BytesOfFew(chunk: seq<bv8>)
    ensures |chunk| == 0 ==> Bytes(chunk) == []
    ensures |chunk| == 2 ==> Bytes(chunk) == [B0(chunk[0], chunk[1])]
    ensures |chunk| == 3 ==> Bytes(chunk) == [B0(chunk[0], chunk[1]), B1(chunk[1], chunk[2])]
  {}

  lemma {:induction false} BytesAppend(s: seq<bv8>, t: seq<bv8>)
    requires |s| % 4 == 0
    ensures Bytes(s + t) == Bytes(s) + Bytes(t)
  {
    if s == [] {
      NothingBeside(t);
    } else {
      BytesAppend(s[4..], t);
      assert (s + t)[4..] == s[4..] + t;
      Assoc([B0(s[0], s[1]), B1(s[1], s[2]), B2(s[2], s[3])], Bytes(s[4..]), Bytes(t));
    }
  }

  // --------------------------------------------------------------- round trip

  lemma GroupsBack(a: bv8, b: bv8, c: bv8)
    ensures B0(Q0(a), Q1(a, b)) == a && B1(Q1(a, b), Q2(b, c)) == b && B2(Q2(b, c), Q3(c)) == c
    ensures Q0(a) < 64 && Q1(a, b) < 64 && Q2(b, c) < 64 && Q3(c) < 64
  {}

  lemma BytesCons(a: bv8, b: bv8, c: bv8, d: bv8, more: seq<bv8>)
    ensures Bytes([a, b, c, d] + more) == [B0(a, b), B1(b, c), B2(c, d)] + Bytes(more)
  {
    assert ([a, b, c, d] + more)[4..] == more;
  }

  lemma BytesOfTail(bs: seq<bv8>)
    requires |bs| < 3
    ensures Bytes(Sextets(bs)) == bs && |Sextets(bs)| % 4 != 1
  {
    if |bs| == 1 {
      GroupsBack(bs[0], 0, 0);
    } else if |bs| == 2 {
      GroupsBack(bs[0], bs[1], 0);
    }
  }

  /** Regrouping the bits is lossless. */
  lemma {:induction false} BytesOfSextets(bs: seq<bv8>)
    ensures Bytes(Sextets(bs)) == bs && |Sextets(bs)| % 4 != 1
  {
    if |bs| < 3 {
      BytesOfTail(bs);
    } else {
      BytesOfSextets(bs[3..]);
      ThreeMore(bs[0], bs[1], bs[2], Sextets(bs[3..]));
      assert bs == [bs[0], bs[1], bs[2]] + bs[3..];
    }
  }

  lemma ThreeMore(a: bv8, b: bv8, c: bv8, more: seq<bv8>)
    ensures Bytes([Q0(a), Q1(a, b), Q2(b, c), Q3(c)] + more) == [a, b, c] + Bytes(more)
  {
    GroupsBack(a, b, c);
    BytesCons(Q0(a), Q1(a, b), Q2(b, c), Q3(c), more);
  }

  lemma {:induction false} LettersRead(vs: seq<bv8>, pad: seq<bv8>)
    requires forall i :: 0 <= i < |vs| ==> vs[i] < 64
    requires pad == [] || pad[0] == PAD
    ensures Payload(Letters(vs) + pad) == Letters(vs)
    ensures WithoutBlanks(Letters(vs) + pad) == Letters(vs) + WithoutBlanks(pad)
    ensures Values(Letters(vs)) == Some(vs)
  {
    if vs == [] {
      assert [] + pad == pad && [] + WithoutBlanks(pad) == WithoutBlanks(pad);
    } else {
      var rest := Letters(vs[1..]);
      LettersRead(vs[1..], pad);
      LookupOfDigit(vs[0]);
      LetterRead(Digit(vs[0]), rest, rest + pad, WithoutBlanks(pad));
      Assoc([Digit(vs[0])], rest, pad);
      assert vs == [vs[0]] + vs[1..];
    }
  }

  /** One letter in front of text already understood. */
  lemma LetterRead(d: bv8, letters: seq<bv8>, s: seq<bv8>, pad: seq<bv8>)
    requires d != PAD && !Blank(d)
    requires Payload(s) == letters && WithoutBlanks(s) == letters + pad
    ensures Payload([d] + s) == [d] + letters && WithoutBlanks([d] + s) == ([d] + letters) + pad
    ensures Values([d] + letters) ==
      match (Lookup(d), Values(letters))
      case (Some(v), Some(vs)) => Some([v] + vs)
      case _ => None
  {
    assert ([d] + s)[1..] == s && ([d] + letters)[1..] == letters;
    Assoc([d], letters, pad);
  }

  lemma PaddingIsNotBlank(n: nat)
    ensures WithoutBlanks(Padding(n)) == Padding(n)
  {
    var one: seq<bv8> := [PAD];
    assert one[1..] == [] && WithoutBlanks(one) == one;
    assert (one + one)[1..] == one && one + one == [PAD, PAD];
  }

  lemma {:induction false} SextetsAreSmall(bs: seq<bv8>)
    ensures forall i :: 0 <= i < |Sextets(bs)| ==> Sextets(bs)[i] < 64
  {
    if |bs| >= 3 {
      GroupsBack(bs[0], bs[1], bs[2]);
      SextetsAreSmall(bs[3..]);
    } else if |bs| == 2 {
      GroupsBack(bs[0], bs[1], 0);
    } else if |bs| == 1 {
      GroupsBack(bs[0], 0, 0);
    }
  }

  /** Decoding inverts encoding on every byte string. */
  lemma DecodeInvertsEncode(bs: seq<bv8>)
    ensures Decoded(Encoded(bs)) == Some(bs)
  {
    SextetsAreSmall(bs);
    LettersRead(Sextets(bs), Padding(|bs|));
    PaddingIsNotBlank(|bs|);
    BytesOfSextets(bs);
  }

  /** An encoding is four characters for every three bytes begun. */
  lemma {:induction false} EncodedSize(bs: seq<bv8>)
    ensures |Encoded(bs)| == (|bs| + 2) / 3 * 4
  {
    if |bs| >= 3 {
      EncodedSize(bs[3..]);
      EncodedStep(bs);
    } else {
      EncodedTail(bs);
    }
  }
}
