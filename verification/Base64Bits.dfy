/**
 Base64 by its definition (section 4 of RFC 4648): the alphabet letter by letter,
 the groups as numbers, and what the decoder makes of any character.
 */
module Base64Bits {
  import opened Seqs
  import opened Wrappers
  import opened Strings
  import opened Base64

  /** `c` is the code of letter number `v` of the alphabet. */
  predicate IsLetter(v: bv8, c: bv8) {
    var n := v as int;
    c as int == if n < 26 then UPPER[n] as int else if n < 52 then LOWER[n - 26] as int
                else if n < 62 then FIGURES[n - 52] as int else if n == 62 then '+' as int else '/' as int
  }

  lemma Shifted(v: bv8)
    requires v < 64
    ensures (v < 26 <==> v as int < 26) && (v < 52 <==> v as int < 52) && (v < 62 <==> v as int < 62)
    ensures v == 62 <==> v as int == 62
    ensures (v + 65) as int == v as int + 65 && (v + 71) as int == v as int + 71
    ensures v >= 52 ==> (v - 4) as int == v as int - 4
  {}

  /** The encoder's letters are the alphabet's. */
  lemma DigitIsLetter(v: bv8, c: bv8)
    requires v < 64
    ensures IsLetter(v, c) <==> c == Digit(v)
  {
    var n := v as int;
    Shifted(v);
    RunOf(n);
    if n >= 26 { RunOf(n - 26); }
    if n >= 52 { RunOf(n - 52); }
  }

  // ---------------------------------------------------------------- encoding

  /** Byte `i`, or zero past the end. */
  function Or0(s: seq<bv8>, i: nat): bv8 {
    if i < |s| then s[i] else 0
  }

  /** Three digits to the base 256. */
  function InBase256(a: bv8, b: bv8, c: bv8): bv32 {
    (a as bv32) * 65536 + (b as bv32) * 256 + (c as bv32)
  }

  /** Bytes `3k` to `3k + 2` as one number. */
  function Triple(bs: seq<bv8>, k: nat): bv32 {
    InBase256(Or0(bs, 3 * k), Or0(bs, 3 * k + 1), Or0(bs, 3 * k + 2))
  }

  lemma WordIsSum(a: bv8, b: bv8, c: bv8)
    ensures Word(a, b, c) == InBase256(a, b, c)
  {}

  /** The `shift`-th sextet of a number. */
  function Sextet(n: bv32, shift: bv6): bv8
    requires shift <= 18
  {
    ((n >> shift) & 0x3f) as bv8
  }

  lemma PickIsLetter(n: bv32)
    ensures IsLetter(Sextet(n, 18), Pick((n >> 18) & 0x3f)) && IsLetter(Sextet(n, 12), Pick((n >> 12) & 0x3f))
    ensures IsLetter(Sextet(n, 6), Pick((n >> 6) & 0x3f)) && IsLetter(Sextet(n, 0), Pick(n & 0x3f))
  {
    SextetsAreShort(n);
    DigitIsLetter(Sextet(n, 18), Pick((n >> 18) & 0x3f));
    DigitIsLetter(Sextet(n, 12), Pick((n >> 12) & 0x3f));
    DigitIsLetter(Sextet(n, 6), Pick((n >> 6) & 0x3f));
    DigitIsLetter(Sextet(n, 0), Pick(n & 0x3f));
  }

  lemma SextetsAreShort(n: bv32)
    ensures Sextet(n, 18) < 64 && Sextet(n, 12) < 64 && Sextet(n, 6) < 64 && Sextet(n, 0) < 64
    ensures n >> 0 == n
  {}

  /** The four letters of a number. */
  predicate Spells(n: bv32, a: bv8, b: bv8, c: bv8, d: bv8) {
    && IsLetter(Sextet(n, 18), a) && IsLetter(Sextet(n, 12), b)
    && IsLetter(Sextet(n, 6), c) && IsLetter(Sextet(n, 0), d)
  }

  lemma GroupsSpell(a: bv8, b: bv8, c: bv8)
    ensures Spells(InBase256(a, b, c), Digit(Q0(a)), Digit(Q1(a, b)), Digit(Q2(b, c)), Digit(Q3(c)))
  {
    WordIsSum(a, b, c);
    Picks(a, b, c);
    PickIsLetter(Word(a, b, c));
  }

  /** Bytes `3k` to `3k + 2`, as far as there are any. */
  function Chunk(bs: seq<bv8>, k: nat): (chunk: seq<bv8>)
    requires 3 * k < |bs|
    ensures 0 < |chunk| <= 3
  {
    if 3 * k + 3 <= |bs| then bs[3 * k..3 * k + 3] else bs[3 * k..]
  }

  lemma OneChunkLess(bs: seq<bv8>)
    requires |bs| >= 3
    ensures |Encoded(bs)| >= 4 && Encoded(bs)[4..] == Encoded(bs[3..])
  {
    EncodedStep(bs);
  }

  /** Behind `k` chunks comes the encoding of the rest. */
  lemma {:induction false} ChunksLess(bs: seq<bv8>, k: nat)
    requires 3 * k <= |bs|
    ensures 4 * k <= |Encoded(bs)| && Encoded(bs)[4 * k..] == Encoded(bs[3 * k..])
    decreases k
  {
    if k == 0 {
      assert bs[0..] == bs;
    } else {
      OneChunkLess(bs);
      ChunksLess(bs[3..], k - 1);
      assert bs[3..][3 * (k - 1)..] == bs[3 * k..];
      SkipTwice(Encoded(bs), 4, 4 * (k - 1));
    }
  }

  lemma SkipTwice(s: seq<bv8>, i: nat, j: nat)
    requires i + j <= |s|
    ensures s[i..][j..] == s[i + j..]
  {}

  lemma QuadAt(bs: seq<bv8>, k: nat)
    requires 3 * k < |bs|
    ensures 4 * k + 4 <= |Encoded(bs)| && Encoded(bs)[4 * k..4 * k + 4] == Quad(Chunk(bs, k))
  {
    ChunksLess(bs, k);
    QuadFirst(bs[3 * k..]);
    assert Chunk(bs[3 * k..], 0) == Chunk(bs, k);
    FrontOfRest(Encoded(bs), 4 * k);
  }

  lemma FrontOfRest(s: seq<bv8>, i: nat)
    requires i + 4 <= |s|
    ensures s[i..][..4] == s[i..i + 4]
  {}

  lemma QuadFirst(bs: seq<bv8>)
    requires bs != []
    ensures |Encoded(bs)| >= 4 && Encoded(bs)[..4] == Quad(Chunk(bs, 0))
  {
    var first := Chunk(bs, 0);
    assert first == if |bs| < 3 then bs else bs[..3];
    var n := if |bs| < 3 then |bs| else 3;
    ChunkStep(bs, Quad(first));
    FrontIs(Encoded(bs), Quad(first), Encoded(bs[n..]));
  }

  lemma FrontIs(s: seq<bv8>, front: seq<bv8>, rest: seq<bv8>)
    requires s == front + rest && |front| == 4
    ensures |s| >= 4 && s[..4] == front
  {}

  /** What the quad of a chunk of `count` bytes that make the number `n` looks like. */
  predicate QuadOf(n: bv32, count: nat, quad: seq<bv8>) {
    && |quad| == 4
    && IsLetter(Sextet(n, 18), quad[0]) && IsLetter(Sextet(n, 12), quad[1])
    && (if count > 1 then IsLetter(Sextet(n, 6), quad[2]) else quad[2] as int == '=' as int)
    && (if count > 2 then IsLetter(Sextet(n, 0), quad[3]) else quad[3] as int == '=' as int)
  }

  lemma QuadSpells(chunk: seq<bv8>)
    requires 0 < |chunk| <= 3
    ensures QuadOf(Triple(chunk, 0), |chunk|, Quad(chunk))
  {
    var a, b, c, quad := Or0(chunk, 0), Or0(chunk, 1), Or0(chunk, 2), Quad(chunk);
    GroupsSpell(a, b, c);
    LettersOfQuad(InBase256(a, b, c), |chunk|, quad, Digit(Q0(a)), Digit(Q1(a, b)), Digit(Q2(b, c)), Digit(Q3(c)));
  }

  lemma LettersOfQuad(n: bv32, count: nat, quad: seq<bv8>, a: bv8, b: bv8, c: bv8, d: bv8)
    requires Spells(n, a, b, c, d)
    requires quad == [a, b, if count > 1 then c else PAD, if count > 2 then d else PAD]
    ensures QuadOf(n, count, quad)
  {}

  lemma TripleOfChunk(bs: seq<bv8>, k: nat)
    requires 3 * k < |bs|
    ensures Triple(Chunk(bs, k), 0) == Triple(bs, k)
  {}

  /** Three bytes begun give four characters: the letters of the number the bytes
      make, zeros for missing ones, with '=' in place of a letter that no byte
      reaches. */
  lemma EncodedAt(bs: seq<bv8>, k: nat)
    requires 3 * k < |bs|
    ensures 4 * k + 4 <= |Encoded(bs)|
    ensures QuadOf(Triple(bs, k), |bs| - 3 * k, Encoded(bs)[4 * k..4 * k + 4])
  {
    QuadAt(bs, k);
    QuadSpells(Chunk(bs, k));
    TripleOfChunk(bs, k);
  }

  // ---------------------------------------------------------------- decoding

  ghost predicate NoLetter(c: bv8) {
    forall v: bv8 :: v < 64 ==> !IsLetter(v, c)
  }

  lemma LookupIs(c: bv8)
    ensures Lookup(c).Some? ==> IsLetter(Lookup(c).value, c)
    ensures Lookup(c).None? <==> NoLetter(c)
  {
    if Lookup(c).Some? {
      DigitIsLetter(Lookup(c).value, c);
    } else {
      forall v: bv8 | v < 64 ensures !IsLetter(v, c) {
        DigitIsLetter(v, c);
        LookupOfDigit(v);
      }
    }
  }

  lemma {:induction false} WithoutBlanksConcat(a: seq<bv8>, b: seq<bv8>)
    ensures WithoutBlanks(a + b) == WithoutBlanks(a) + WithoutBlanks(b)
  {
    if a == [] {
      NothingBeside(b);
      NothingBeside(WithoutBlanks(b));
    } else {
      WithoutBlanksConcat(a[1..], b);
      ConcatTail(a, b);
      Assoc([a[0]], WithoutBlanks(a[1..]), WithoutBlanks(b));
    }
  }

  lemma {:induction false} PayloadStops(a: seq<bv8>, b: seq<bv8>)
    requires PAD !in a
    ensures Payload(a + b) == a + Payload(b)
  {
    if a == [] {
      NothingBeside(b);
      NothingBeside(Payload(b));
    } else {
      PayloadStops(a[1..], b);
      ConcatTail(a, b);
      Assoc([a[0]], a[1..], Payload(b));
      HeadAndTail(a);
    }
  }

  lemma {:induction false} NoPadWithin(a: seq<bv8>)
    requires PAD !in a
    ensures PAD !in WithoutBlanks(a)
  {
    if a == [] {
    } else {
      NoPadWithin(a[1..]);
    }
  }

  lemma {:induction false} ValuesRefuse(a: seq<bv8>, b: bv8, c: seq<bv8>)
    requires Lookup(b).None?
    ensures Values(a + ([b] + c)) == None
  {
    var s := a + ([b] + c);
    if a == [] {
      assert s == [b] + c;
    } else {
      ValuesRefuse(a[1..], b, c);
      ConcatTail(a, [b] + c);
    }
  }

  lemma BlanksAre(b: bv8)
    ensures Blank(b) <==> b == 0x20 || b == 0x09 || b == 0x0D || b == 0x0A
  {}

  /** A character that is no letter: a space, tab, CR or LF is skipped, a padding
      character ends the text, and any other in front of that refuses it. */
  lemma OtherCharacters(a: seq<bv8>, b: bv8, c: seq<bv8>)
    ensures b == 0x20 || b == 0x09 || b == 0x0D || b == 0x0A ==> Decoded(a + ([b] + c)) == Decoded(a + c)
    ensures b as int == '=' as int ==> Decoded(a + ([b] + c)) == Decoded(a + [b]) && Decoded(a + [b]) == Decoded(a)
    ensures PAD !in a && NoLetter(b) && b != 0x20 && b != 0x09 && b != 0x0D && b != 0x0A && b as int != '=' as int ==>
      Decoded(a + ([b] + c)) == None
  {
    BlanksAre(b);
    if Blank(b) { BlankIsSkipped(a, b, c); }
    if b == PAD {
      PadEnds(a, c);
      PadEnds(a, []);
      assert [PAD] + [] == [b];
    }
    if PAD !in a && NoLetter(b) && !Blank(b) && b != PAD { StrayRefuses(a, b, c); }
  }

  lemma BlankIsSkipped(a: seq<bv8>, b: bv8, c: seq<bv8>)
    requires Blank(b)
    ensures Decoded(a + ([b] + c)) == Decoded(a + c)
  {
    WithoutBlanksConcat(a, [b] + c);
    WithoutBlanksConcat(a, c);
    assert ([b] + c)[1..] == c;
  }

  lemma {:induction false} PayloadOfPad(a: seq<bv8>, c: seq<bv8>)
    ensures Payload(a + ([PAD] + c)) == Payload(a)
  {
    var s := a + ([PAD] + c);
    if a == [] {
      assert s[0] == PAD;
    } else {
      ConcatTail(a, [PAD] + c);
      PayloadOfPad(a[1..], c);
    }
  }

  lemma PadEnds(a: seq<bv8>, c: seq<bv8>)
    ensures Decoded(a + ([PAD] + c)) == Decoded(a)
  {
    WithoutBlanksConcat(a, [PAD] + c);
    assert ([PAD] + c)[1..] == c && WithoutBlanks([PAD] + c) == [PAD] + WithoutBlanks(c);
    PayloadOfPad(WithoutBlanks(a), WithoutBlanks(c));
  }

  lemma StrayRefuses(a: seq<bv8>, b: bv8, c: seq<bv8>)
    requires PAD !in a && NoLetter(b) && !Blank(b) && b != PAD
    ensures Decoded(a + ([b] + c)) == None
  {
    LookupIs(b);
    WithoutBlanksConcat(a, [b] + c);
    assert ([b] + c)[1..] == c && WithoutBlanks([b] + c) == [b] + WithoutBlanks(c);
    NoPadWithin(a);
    PayloadStops(WithoutBlanks(a), [b] + WithoutBlanks(c));
    assert ([b] + WithoutBlanks(c))[1..] == WithoutBlanks(c);
    ValuesRefuse(WithoutBlanks(a), b, Payload(WithoutBlanks(c)));
  }

  /** A text of letters with these values. */
  predicate HasValues(text: seq<bv8>, vs: seq<bv8>) {
    |text| == |vs| && forall i :: 0 <= i < |vs| ==> vs[i] < 64 && IsLetter(vs[i], text[i])
  }

  lemma {:induction false} LettersAre(text: seq<bv8>, vs: seq<bv8>)
    requires HasValues(text, vs)
    ensures text == Letters(vs)
  {
    forall i | 0 <= i < |vs| ensures text[i] == Digit(vs[i]) { DigitIsLetter(vs[i], text[i]); }
  }

  /** Values `4k` to `4k + 3` as one number. */
  function Quadruple(vs: seq<bv8>, k: nat): bv32 {
    InBase64(Or0(vs, 4 * k), Or0(vs, 4 * k + 1), Or0(vs, 4 * k + 2), Or0(vs, 4 * k + 3))
  }

  /** Four digits to the base 64. */
  function InBase64(a: bv8, b: bv8, c: bv8, d: bv8): bv32 {
    (a as bv32) * 262144 + (b as bv32) * 4096 + (c as bv32) * 64 + (d as bv32)
  }

  lemma BytesOfNumber(a: bv8, b: bv8, c: bv8, d: bv8)
    requires a < 64 && b < 64 && c < 64 && d < 64
    ensures OctetsOf(InBase64(a, b, c, d), [B0(a, b), B1(b, c), B2(c, d)])
  {}

  lemma FewerOctets(n: bv32, out: seq<bv8>, fewer: seq<bv8>)
    requires OctetsOf(n, out) && fewer <= out
    ensures OctetsOf(n, fewer)
  {}

  /** How many bytes so many letters give. */
  lemma {:induction false} BytesCount(vs: seq<bv8>)
    requires |vs| % 4 != 1
    ensures |Bytes(vs)| == |vs| * 3 / 4
  {
    if |vs| >= 4 { BytesCount(vs[4..]); }
  }

  /** Values `4k` to `4k + 3`, as far as there are any. */
  function Four(vs: seq<bv8>, k: nat): seq<bv8> {
    if 4 * k + 4 <= |vs| then vs[4 * k..4 * k + 4] else if 4 * k <= |vs| then vs[4 * k..] else []
  }

  /** Bytes `3k` to `3k + 2` of some bytes, as far as there are any. */
  function Three(bs: seq<bv8>, k: nat): seq<bv8> {
    if 3 * k + 3 <= |bs| then bs[3 * k..3 * k + 3] else if 3 * k <= |bs| then bs[3 * k..] else []
  }

  lemma {:induction false} BytesInThrees(vs: seq<bv8>, k: nat)
    ensures Three(Bytes(vs), k) == Bytes(Four(vs, k))
    decreases k
  {
    if |vs| < 4 {
      FewInThrees(vs, k);
    } else {
      BytesSplit(vs);
      FourOfTail(vs, k);
      ThreeOfMore(Bytes(vs[..4]), Bytes(vs[4..]), k);
      if k > 0 { BytesInThrees(vs[4..], k - 1); }
    }
  }

  lemma FewInThrees(vs: seq<bv8>, k: nat)
    requires |vs| < 4
    ensures Three(Bytes(vs), k) == Bytes(Four(vs, k))
  {
    BytesOfFew(vs);
    assert k == 0 ==> Four(vs, k) == vs;
  }

  lemma BytesSplit(vs: seq<bv8>)
    requires |vs| >= 4
    ensures |Bytes(vs[..4])| == 3 && Bytes(vs) == Bytes(vs[..4]) + Bytes(vs[4..])
  {
    BytesOfFour(vs[..4]);
    BytesAppend(vs[..4], vs[4..]);
    Rejoin(vs, 4);
  }

  lemma FourOfTail(vs: seq<bv8>, k: nat)
    requires |vs| >= 4
    ensures Four(vs, k) == if k == 0 then vs[..4] else Four(vs[4..], k - 1)
  {}

  lemma ThreeOfMore(head: seq<bv8>, rest: seq<bv8>, k: nat)
    requires |head| == 3
    ensures Three(head + rest, k) == if k == 0 then head else Three(rest, k - 1)
  {}

  /** The bytes are the octets of the number, as many as there are. */
  predicate OctetsOf(n: bv32, out: seq<bv8>) {
    && |out| <= 3
    && (|out| > 0 ==> out[0] as bv32 == (n >> 16) & 0xff)
    && (|out| > 1 ==> out[1] as bv32 == (n >> 8) & 0xff)
    && (|out| > 2 ==> out[2] as bv32 == n & 0xff)
  }

  lemma OctetsOfFew(vs: seq<bv8>, n: bv32, out: seq<bv8>)
    requires |vs| <= 4 && forall i :: 0 <= i < |vs| ==> vs[i] < 64
    requires n == Quadruple(vs, 0) && out == Bytes(vs)
    ensures OctetsOf(n, out)
  {
    var a, b, c, d := Or0(vs, 0), Or0(vs, 1), Or0(vs, 2), Or0(vs, 3);
    BytesOfNumber(a, b, c, d);
    FirstBytes(vs, [B0(a, b), B1(b, c), B2(c, d)]);
    FewerOctets(n, [B0(a, b), B1(b, c), B2(c, d)], out);
  }

  lemma FirstBytes(vs: seq<bv8>, out: seq<bv8>)
    requires |vs| <= 4
    requires out == [B0(Or0(vs, 0), Or0(vs, 1)), B1(Or0(vs, 1), Or0(vs, 2)), B2(Or0(vs, 2), Or0(vs, 3))]
    ensures Bytes(vs) <= out
  {
    BytesOfFew(vs);
    if |vs| == 4 { BytesOfFour(vs); }
  }

  lemma QuadrupleOfFour(vs: seq<bv8>, k: nat)
    ensures Quadruple(Four(vs, k), 0) == Quadruple(vs, k)
  {
    var four := Four(vs, k);
    assert Or0(four, 0) == Or0(vs, 4 * k) && Or0(four, 1) == Or0(vs, 4 * k + 1);
    assert Or0(four, 2) == Or0(vs, 4 * k + 2) && Or0(four, 3) == Or0(vs, 4 * k + 3);
  }

  /** A text of letters decodes unless one letter is left over, three bytes for four
      letters, whatever the bits past the last byte are. */
  lemma DecodedAt(text: seq<bv8>, vs: seq<bv8>, k: nat)
    requires HasValues(text, vs)
    ensures Decoded(text).None? <==> |text| % 4 == 1
    ensures Decoded(text).Some? ==>
      |Decoded(text).value| == |text| * 3 / 4 && OctetsOf(Quadruple(vs, k), Three(Decoded(text).value, k))
  {
    DecodedIs(text, vs);
    BytesAreOctets(vs, k);
    if |vs| % 4 != 1 { BytesCount(vs); }
  }

  lemma DecodedIs(text: seq<bv8>, vs: seq<bv8>)
    requires HasValues(text, vs)
    ensures Decoded(text) == if |text| % 4 == 1 then None else Some(Bytes(vs))
  {
    LettersAre(text, vs);
    LettersRead(vs, []);
    NothingBeside(text);
  }

  lemma BytesAreOctets(vs: seq<bv8>, k: nat)
    requires forall i :: 0 <= i < |vs| ==> vs[i] < 64
    ensures OctetsOf(Quadruple(vs, k), Three(Bytes(vs), k))
  {
    BytesInThrees(vs, k);
    QuadrupleOfFour(vs, k);
    OctetsOfFew(Four(vs, k), Quadruple(vs, k), Three(Bytes(vs), k));
  }
}
