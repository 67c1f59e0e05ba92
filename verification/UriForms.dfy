/**
 The two sides of a `file://` URI character by character, lsp_ops.rs:172-214: what
 the encoder writes for each character and what the decoder reads for each byte.
 */
module UriForms {
  import opened Seqs
  import opened Wrappers
  import opened Utf8
  import opened Strings
  import opened FileUri

  const MARKS := "-_.!~*'()"

  // ---------------------------------------------------------------- encoding

  /** Letters, digits and nine marks stand for themselves, and so do slashes. */
  predicate Stays(c: char) {
    c in UPPER || c in LOWER || c in FIGURES || c in MARKS || c == '/'
  }

  /** Each byte as a percent sign and two upper-case hexadecimal digits. */
  function Percent(bs: seq<byte>): string {
    if bs == [] then []
    else ['%', "0123456789ABCDEF"[bs[0] / 16], "0123456789ABCDEF"[bs[0] % 16]] + Percent(bs[1..])
  }

  function Written(text: string): string {
    if text == [] then []
    else (if Stays(text[0]) then [text[0]] else Percent(Encode([text[0]]))) + Written(text[1..])
  }

  lemma InRun(run: string, first: char, c: char)
    requires |run| > 0 && first as int + |run| < 0x80
    requires forall n :: 0 <= n < |run| ==> run[n] as int == first as int + n
    ensures c in run <==> first as int <= c as int < first as int + |run|
  {
    if first as int <= c as int < first as int + |run| { assert run[c as int - first as int] == c; }
  }

  lemma StaysIff(c: char)
    ensures Stays(c) <==> Unreserved(c) || c == '/'
  {
    forall n | 0 <= n < 26 ensures UPPER[n] as int == 65 + n && LOWER[n] as int == 97 + n { RunOf(n); }
    forall n | 0 <= n < 10 ensures FIGURES[n] as int == 48 + n { RunOf(n); }
    InRun(UPPER, 'A', c);
    InRun(LOWER, 'a', c);
    InRun(FIGURES, '0', c);
  }

  lemma {:induction false} PercentIs(bs: seq<byte>)
    ensures Percent(bs) == EscapeBytes(bs)
  {
    if bs == [] {
    } else {
      PercentIs(bs[1..]);
    }
  }

  lemma {:induction false} WrittenConcat(a: string, b: string)
    ensures Written(a + b) == Written(a) + Written(b)
  {
    if a == [] {
      NothingBeside(b);
      NothingBeside(Written(b));
    } else {
      WrittenConcat(a[1..], b);
      ConcatTail(a, b);
      Assoc(if Stays(a[0]) then [a[0]] else Percent(Encode([a[0]])), Written(a[1..]), Written(b));
    }
  }

  lemma EncodeOne(c: char)
    ensures Encode([c]) == EncodeChar(c)
  {
    assert [c][1..] == [];
    NothingBeside(EncodeChar(c));
  }

  lemma {:induction false} ComponentIsWritten(comp: string)
    requires Free(SEPARATORS, comp)
    ensures Escape(comp) == Written(comp)
  {
    if comp == [] {
    } else {
      assert comp[0] !in SEPARATORS;
      assert Free(SEPARATORS, comp[1..]);
      ComponentIsWritten(comp[1..]);
      StaysIff(comp[0]);
      EncodeOne(comp[0]);
      PercentIs(EncodeChar(comp[0]));
    }
  }

  lemma SlashIsWritten(tail: string)
    ensures Written(['/'] + tail) == ['/'] + Written(tail)
  {
    assert (['/'] + tail)[1..] == tail;
  }

  lemma {:induction false} JoinIsWritten(comps: seq<string>)
    requires forall c :: c in comps ==> Free(SEPARATORS, c)
    ensures Join(comps, true) == Written(Join(comps, false))
  {
    if comps == [] {
    } else {
      var later := Join(comps[1..], false);
      JoinIsWritten(comps[1..]);
      WrittenConcat(One(comps[0], false), later);
      if comps[0] != [] {
        ComponentIsWritten(comps[0]);
        SlashIsWritten(comps[0]);
      }
    }
  }

  /** The URI of any path is the prefix and its normal form character by character. */
  lemma UriIsWritten(path: string)
    ensures PathToUriSpec(path) == "file://" + Written(Normal(path))
    ensures Canonical(path) ==> PathToUriSpec(path) == "file://" + Written(path)
  {
    var joined := Join(Split(path), false);
    PartsAreFree(SEPARATORS, path);
    JoinIsWritten(Split(path));
    WrittenConcat(joined, TrailingSlash(path));
    SlashIsWritten([]);
    NothingBeside(['/']);
    if Canonical(path) { CanonicalIsNormal(path); }
  }

  // ---------------------------------------------------------------- decoding

  /** `c` is the code of a hexadecimal digit of either case, of value `n`. */
  predicate IsHex(c: byte, n: nat) {
    n < 16 && (c == "0123456789ABCDEF"[n] as int || c == "0123456789abcdef"[n] as int)
  }

  lemma HexRun(n: nat)
    requires n < 16
    ensures var u, l := "0123456789ABCDEF"[n] as int, "0123456789abcdef"[n] as int;
      if n < 10 then u == l == 48 + n else u == 55 + n && l == 87 + n
  {}

  lemma HexIff(c: byte, n: nat)
    ensures IsHex(c, n) <==> HexOf(c) == Some(n)
    ensures HexOf(c).Some? ==> HexOf(c).value < 16
  {
    if n < 16 { HexRun(n); }
  }

  /** What a pair of bytes behind a percent sign stands for: two hexadecimal digits,
      or a plus sign and one. */
  predicate Pair(hi: byte, lo: byte, b: byte) {
    exists l :: 0 <= l < 16 && IsHex(lo, l) && PairWith(hi, l, b)
  }

  predicate PairWith(hi: byte, l: nat, b: byte) {
    (hi == '+' as int && b == l) || exists h :: 0 <= h < 16 && IsHex(hi, h) && b == 16 * h + l
  }

  lemma PairIff(hi: byte, lo: byte, b: byte)
    ensures Pair(hi, lo, b) <==> HexPair(hi, lo) == Some(b)
  {
    forall n: nat ensures IsHex(hi, n) <==> HexOf(hi) == Some(n) { HexIff(hi, n); }
    forall n: nat ensures IsHex(lo, n) <==> HexOf(lo) == Some(n) { HexIff(lo, n); }
    HexIff(hi, 0);
    HexIff(lo, 0);
    if HexPair(hi, lo) == Some(b) {
      assert IsHex(lo, HexOf(lo).value);
      if HexOf(hi).Some? { assert IsHex(hi, HexOf(hi).value); }
    }
  }

  /** The decoder's reading of the front of its bytes: a pair behind a percent sign is
      a byte, any other pair refuses the URI, a percent sign with less than two bytes
      behind it stands for itself, and so does every other byte. */
  lemma DecoderReads(hi: byte, lo: byte, b: byte, c: byte, rest: seq<byte>)
    ensures PercentDecode([]) == Some([])
    ensures Pair(hi, lo, b) ==> Yields(['%' as int, hi, lo] + rest, b, rest)
    ensures (forall x :: 0 <= x < 256 ==> !Pair(hi, lo, x)) ==> PercentDecode(['%' as int, hi, lo] + rest) == None
    ensures |rest| < 2 ==> Yields(['%' as int] + rest, '%' as int, rest)
    ensures c != '%' as int ==> Yields([c] + rest, c, rest)
  {
    var raw := ['%' as int, hi, lo] + rest;
    assert raw[3..] == rest && raw[1] == hi && raw[2] == lo;
    assert ([c] + rest)[1..] == rest && (['%' as int] + rest)[1..] == rest;
    PairIff(hi, lo, b);
    if HexPair(hi, lo).Some? { PairIff(hi, lo, HexPair(hi, lo).value); }
  }

  /** The bytes decode to `b` and then whatever the rest decodes to, if it does. */
  predicate Yields(raw: seq<byte>, b: byte, rest: seq<byte>) {
    && (PercentDecode(rest) == None ==> PercentDecode(raw) == None)
    && (PercentDecode(rest).Some? ==> PercentDecode(raw) == Some([b] + PercentDecode(rest).value))
  }

  lemma {:induction false} SlashAfter(authority: string, path: string)
    requires '/' !in authority && (path != [] ==> path[0] == '/')
    ensures FirstSlash(authority + path) == |authority|
  {
    if authority == [] {
      NothingBeside(path);
    } else {
      ConcatTail(authority, path);
      SlashAfter(authority[1..], path);
    }
  }

  /** Whatever stands before the first slash is dropped, and the rest is decoded. */
  lemma AuthorityIsDropped(authority: string, path: string)
    requires '/' !in authority && (path != [] ==> path[0] == '/')
    ensures UriToBytesSpec("file://" + (authority + path)) == PercentDecode(Encode(path))
  {
    var uri := "file://" + (authority + path);
    assert uri[7..] == authority + path && "file://" <= uri;
    SlashAfter(authority, path);
    DropHead(authority, path);
  }
}
