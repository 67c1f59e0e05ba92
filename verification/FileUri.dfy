/**
 `file://` URIs, lsp_ops.rs:172-214: percent-encoding of path components
 (section 2.1 of RFC 3986) and the byte-faithful decoder.
 */
module FileUri {
  import opened Seqs
  import opened Wrappers
  import opened Utf8
  import opened Strings

  // ------------------------------------------------------------ path to URI

  const SEPARATORS: set<char> := {'/', '\\'}

  /** `text.split(['/', '\\'])`. */
  function Split(path: string): seq<string> { SplitOn(SEPARATORS, path) }

  predicate Unreserved(c: char) {
    '0' <= c <= '9' || 'A' <= c <= 'Z' || 'a' <= c <= 'z' || c in "-_.!~*'()"
  }

  function HexDigit(n: int): (c: char)
    requires 0 <= n < 16
    ensures '0' <= c <= '9' || 'A' <= c <= 'F'
  {
    "0123456789ABCDEF"[n]
  }

  function EscapeBytes(bs: seq<byte>): string {
    if bs == [] then [] else ['%', HexDigit(bs[0] / 16), HexDigit(bs[0] % 16)] + EscapeBytes(bs[1..])
  }

  function EscapeChar(c: char): string {
    if Unreserved(c) then [c] else EscapeBytes(EncodeChar(c))
  }

  function Escape(comp: string): string {
    if comp == [] then [] else EscapeChar(comp[0]) + Escape(comp[1..])
  }

  /** One component behind a slash, percent-escaped if `escape`; an empty one
      leaves nothing. */
  function One(comp: string, escape: bool): string {
    if comp == [] then [] else ['/'] + (if escape then Escape(comp) else comp)
  }

  function Join(comps: seq<string>, escape: bool): string {
    if comps == [] then [] else One(comps[0], escape) + Join(comps[1..], escape)
  }

  function TrailingSlash(path: string): string {
    if path != [] && path[|path| - 1] == '/' then "/" else []
  }

  function PathToUriSpec(path: string): string {
    "file://" + (Join(Split(path), true) + TrailingSlash(path))
  }

  /** The first component of `rest`, up to a separator or the end. */
  method FirstComponent(rest: string) returns (comp: string)
    ensures comp <= rest && (comp == rest || rest[|comp|] in SEPARATORS)
    ensures Split(rest) == [comp] + (if comp == rest then [] else Split(rest[|comp| + 1..]))
  {
    var k := 0;
    while k < |rest| && rest[k] !in SEPARATORS
      invariant k <= |rest| && Free(SEPARATORS, rest[..k])
    {
      k := k + 1;
    }
    SplitAt(rest, k);
    comp := rest[..k];
  }

  lemma SplitAt(rest: string, k: nat)
    requires k <= |rest| && Free(SEPARATORS, rest[..k]) && (k < |rest| ==> rest[k] in SEPARATORS)
    ensures Split(rest) == [rest[..k]] + (if rest[..k] == rest then [] else Split(rest[k + 1..]))
  {
    SplitFirst(SEPARATORS, rest, k);
    assert k == |rest| ==> rest[..k] == rest;
    assert k < |rest| ==> |rest[..k]| != |rest|;
  }

  method PushComponent(before: string, comp: string) returns (s: string)
    ensures s == before + One(comp, true)
  {
    s := before;
    if comp == [] {
      assert before + [] == before;
      return;
    }
    s := s + ['/'];
    var j := 0;
    while j < |comp|
      invariant j <= |comp| && s + Escape(comp[j..]) == before + (['/'] + Escape(comp))
    {
      assert comp[j..][1..] == comp[j + 1..];
      Assoc(s, EscapeChar(comp[j]), Escape(comp[j + 1..]));
      s := s + EscapeChar(comp[j]);
      j := j + 1;
    }
    assert comp[j..] == [] && s + [] == s;
  }

  method PathToUri(path: string) returns (s: string)
    ensures s == PathToUriSpec(path)
  {
    s := "file://";
    var rest, more := path, true;
    while more
      invariant s + (if more then Join(Split(rest), true) else []) == "file://" + Join(Split(path), true)
      decreases |rest|, more
    {
      var comp := FirstComponent(rest);
      more := |comp| < |rest|;
      ghost var later := if more then Split(rest[|comp| + 1..]) else [];
      assert Split(rest) == [comp] + later && Split(rest)[1..] == later;
      Assoc(s, One(comp, true), Join(later, true));
      s := PushComponent(s, comp);
      if more {
        rest := rest[|comp| + 1..];
      }
    }
    assert s + [] == s;
    Assoc("file://", Join(Split(path), true), TrailingSlash(path));
    s := s + TrailingSlash(path);
  }

  // ------------------------------------------------------------ URI to path

  function HexOf(b: byte): Option<byte> {
    if '0' as int <= b <= '9' as int then Some(b - '0' as int)
    else if 'A' as int <= b <= 'F' as int then Some(b - 'A' as int + 10)
    else if 'a' as int <= b <= 'f' as int then Some(b - 'a' as int + 10)
    else None
  }

  /** `u8::from_str_radix` on two bytes; the library also takes a leading '+'. */
  function HexPair(hi: byte, lo: byte): Option<byte> {
    match (HexOf(hi), HexOf(lo))
    case (Some(h), Some(l)) => if h < 16 && l < 16 then Some(h * 16 + l) else None
    case (None, Some(l)) => if hi == '+' as int then Some(l) else None
    case _ => None
  }

  function PercentDecode(raw: seq<byte>): Option<seq<byte>> {
    if raw == [] then Some([])
    else if raw[0] == '%' as int && |raw| > 2 then
      match HexPair(raw[1], raw[2])
      case None => None
      case Some(b) => Prepend([b], PercentDecode(raw[3..]))
    else Prepend([raw[0]], PercentDecode(raw[1..]))
  }

  function Prepend(head: seq<byte>, tail: Option<seq<byte>>): Option<seq<byte>> {
    match tail
    case None => None
    case Some(t) => Some(head + t)
  }

  /** First '/' of `s`, or its length. */
  function FirstSlash(s: string): (k: nat)
    ensures k <= |s|
  {
    if s == [] || s[0] == '/' then 0 else 1 + FirstSlash(s[1..])
  }

  /** The bytes the decoder hands to the path: the authority is dropped. */
  function UriToBytesSpec(uri: string): Option<seq<byte>> {
    if "file://" <= uri then
      var rest := uri[7..];
      PercentDecode(Encode(rest[FirstSlash(rest)..]))
    else None
  }

  method UriToBytes(uri: string) returns (r: Option<seq<byte>>)
    ensures r == UriToBytesSpec(uri)
  {
    if !("file://" <= uri) {
      return None;
    }
    var rest := uri[7..];
    var raw := Encode(rest[FirstSlash(rest)..]);
    var out: seq<byte> := [];
    var i := 0;
    PrependNothing(PercentDecode(raw));
    assert raw[0..] == raw;
    while i < |raw|
      invariant i <= |raw|
      invariant PercentDecode(raw) == Prepend(out, PercentDecode(raw[i..]))
      decreases |raw| - i
    {
      if raw[i] == '%' as int && i + 2 < |raw| {
        assert raw[i..][3..] == raw[i + 3..];
        match HexPair(raw[i + 1], raw[i + 2]) {
          case None => return None;
          case Some(b) =>
            PrependTwice(out, [b], PercentDecode(raw[i + 3..]));
            out, i := out + [b], i + 3;
        }
      } else {
        assert raw[i..][1..] == raw[i + 1..];
        PrependTwice(out, [raw[i]], PercentDecode(raw[i + 1..]));
        out, i := out + [raw[i]], i + 1;
      }
    }
    assert raw[i..] == [] && out + [] == out;
    r := Some(out);
  }

  lemma PrependNothing(t: Option<seq<byte>>)
    ensures Prepend([], t) == t
  {
    if t.Some? { assert [] + t.value == t.value; }
  }

  lemma PrependTwice(a: seq<byte>, b: seq<byte>, t: Option<seq<byte>>)
    ensures Prepend(a, Prepend(b, t)) == Prepend(a + b, t)
  {
    if t.Some? { Assoc(a, b, t.value); }
  }

  // ------------------------------------------------------------- round trip

  /** The path the URI stands for: separators turned into single slashes, one
      slash in front. */
  function Normal(path: string): string {
    Join(Split(path), false) + TrailingSlash(path)
  }

  lemma HexPairOfDigits(b: byte)
    ensures HexPair(HexDigit(b / 16) as int, HexDigit(b % 16) as int) == Some(b)
  {
    HexDigitOf(b / 16);
    HexDigitOf(b % 16);
  }

  lemma HexDigitOf(n: int)
    requires 0 <= n < 16
    ensures HexOf(HexDigit(n) as int) == Some(n)
  {}

  lemma {:induction false} DecodeEscapedBytes(bs: seq<byte>, rest: seq<byte>)
    ensures PercentDecode(Encode(EscapeBytes(bs)) + rest) == Prepend(bs, PercentDecode(rest))
  {
    if bs == [] {
      assert Encode(EscapeBytes(bs)) + rest == rest;
      PrependNothing(PercentDecode(rest));
    } else {
      var tail := EscapeBytes(bs[1..]);
      var h, l := HexDigit(bs[0] / 16), HexDigit(bs[0] % 16);
      EncodeTriple(h, l, tail);
      var raw := Encode(EscapeBytes(bs)) + rest;
      assert raw[3..] == Encode(tail) + rest;
      HexPairOfDigits(bs[0]);
      DecodeEscapedBytes(bs[1..], rest);
      PrependTwice([bs[0]], bs[1..], PercentDecode(rest));
      assert bs == [bs[0]] + bs[1..];
    }
  }

  lemma EncodeTriple(h: char, l: char, tail: string)
    requires h as int < 0x80 && l as int < 0x80
    ensures Encode(['%', h, l] + tail) == ['%' as int, h as int, l as int] + Encode(tail)
  {
    var s := ['%', h, l] + tail;
    EncodeConcat(['%', h, l], tail);
    assert ['%', h, l][1..] == [h, l] && [h, l][1..] == [l] && [l][1..] == [];
    assert Encode([l]) == [l as int] && Encode([h, l]) == [h as int, l as int];
  }

  lemma DecodeEscapedChar(c: char, rest: seq<byte>)
    ensures PercentDecode(Encode(EscapeChar(c)) + rest) == Prepend(EncodeChar(c), PercentDecode(rest))
  {
    if Unreserved(c) {
      DecodePlain(c, rest);
    } else {
      DecodeEscapedBytes(EncodeChar(c), rest);
    }
  }

  lemma DecodePlain(c: char, rest: seq<byte>)
    requires c as int < 0x80 && c != '%'
    ensures PercentDecode(Encode([c]) + rest) == Prepend(EncodeChar(c), PercentDecode(rest))
  {
    assert [c][1..] == [] && Encode([c]) == [c as int];
    assert ([c as int] + rest)[1..] == rest;
  }

  lemma {:induction false} DecodeEscaped(comp: string, rest: seq<byte>)
    ensures PercentDecode(Encode(Escape(comp)) + rest) == Prepend(Encode(comp), PercentDecode(rest))
  {
    if comp == [] {
      assert Encode(Escape(comp)) + rest == rest;
      PrependNothing(PercentDecode(rest));
    } else {
      var c, tail := comp[0], comp[1..];
      EncodeConcat(EscapeChar(c), Escape(tail));
      Assoc(Encode(EscapeChar(c)), Encode(Escape(tail)), rest);
      DecodeEscapedChar(c, Encode(Escape(tail)) + rest);
      DecodeEscaped(tail, rest);
      PrependTwice(EncodeChar(c), Encode(tail), PercentDecode(rest));
    }
  }

  lemma {:induction false} DecodeComponents(comps: seq<string>, rest: seq<byte>)
    ensures PercentDecode(Encode(Join(comps, true)) + rest) == Prepend(Encode(Join(comps, false)), PercentDecode(rest))
  {
    if comps == [] {
      assert Encode([]) + rest == rest;
      PrependNothing(PercentDecode(rest));
    } else {
      var later := comps[1..];
      DecodeComponents(later, rest);
      DecodeOne(comps[0], Encode(Join(later, true)) + rest);
      DecodeJoin(One(comps[0], true), Join(later, true), One(comps[0], false), Join(later, false), rest);
    }
  }

  /** Gluing two decoded pieces. */
  lemma DecodeJoin(esc: string, escTail: string, plain: string, plainTail: string, rest: seq<byte>)
    requires PercentDecode(Encode(escTail) + rest) == Prepend(Encode(plainTail), PercentDecode(rest))
    requires PercentDecode(Encode(esc) + (Encode(escTail) + rest))
          == Prepend(Encode(plain), PercentDecode(Encode(escTail) + rest))
    ensures PercentDecode(Encode(esc + escTail) + rest) == Prepend(Encode(plain + plainTail), PercentDecode(rest))
  {
    EncodeConcat(esc, escTail);
    EncodeConcat(plain, plainTail);
    Assoc(Encode(esc), Encode(escTail), rest);
    PrependTwice(Encode(plain), Encode(plainTail), PercentDecode(rest));
  }

  lemma DecodeOne(comp: string, rest: seq<byte>)
    ensures PercentDecode(Encode(One(comp, true)) + rest) == Prepend(Encode(One(comp, false)), PercentDecode(rest))
  {
    if comp == [] {
      assert Encode([]) + rest == rest;
      PrependNothing(PercentDecode(rest));
    } else {
      EncodeConcat(['/'], Escape(comp));
      EncodeConcat(['/'], comp);
      Assoc(Encode(['/']), Encode(Escape(comp)), rest);
      DecodePlain('/', Encode(Escape(comp)) + rest);
      DecodeEscaped(comp, rest);
      assert [ '/' ][1..] == [] && Encode(['/']) == EncodeChar('/');
      PrependTwice(EncodeChar('/'), Encode(comp), PercentDecode(rest));
    }
  }

  lemma {:induction false} StartsWithSlash(comps: seq<string>)
    ensures Join(comps, true) == [] || Join(comps, true)[0] == '/'
  {
    if comps == [] {
    } else {
      var head, rest := One(comps[0], true), Join(comps[1..], true);
      StartsWithSlash(comps[1..]);
      assert head == [] || head[0] == '/';
      assert Join(comps, true) == head + rest && [] + rest == rest;
    }
  }

  /** Decoding an encoded path yields the UTF-8 bytes of its normal form, for
      every path. */
  lemma UriRoundTrip(path: string)
    ensures UriToBytesSpec(PathToUriSpec(path)) == Some(Encode(Normal(path)))
    ensures Decode(UriToBytesSpec(PathToUriSpec(path)).value) == Some(Normal(path))
  {
    var comps, slash := Split(path), TrailingSlash(path);
    var uri := PathToUriSpec(path);
    var rest := uri[7..];
    assert rest == Join(comps, true) + slash;
    StartsWithSlash(comps);
    assert rest[FirstSlash(rest)..] == rest;
    EncodeConcat(Join(comps, true), slash);
    EncodeConcat(Join(comps, false), slash);
    DecodeComponents(comps, Encode(slash));
    if slash == "/" {
      DecodePlain('/', []);
      assert Encode(slash) + [] == Encode(slash);
      assert "/"[1..] == [] && Encode(slash) == EncodeChar('/');
      assert EncodeChar('/') + [] == EncodeChar('/');
    }
    DecodeEncode(Normal(path));
  }

  /** Absolute, slashes only, no empty inner component (or the empty path). */
  predicate Canonical(path: string) {
    && (path != [] ==> path[0] == '/')
    && (forall i :: 0 <= i < |path| ==> path[i] != '\\')
    && (forall i :: 0 < i < |path| ==> !(path[i - 1] == '/' && path[i] == '/'))
  }

  /** A canonical path behind its leading slash, component by component. */
  lemma {:induction false} NormalTail(q: string)
    requires Canonical(['/'] + q)
    ensures ['/'] + q == Join(Split(q), false) + TrailingSlash(['/'] + q)
    decreases |q|
  {
    var k := FirstSeparator(q);
    SplitFirst(SEPARATORS, q, k);
    if k == |q| {
      assert q[..k] == q && [q] + [] == [q];
      LastComponent(q);
    } else {
      CanonicalSplit(q, k);
      CanonicalTail(q, k);
      NormalTail(q[k + 1..]);
      TrailingOfTail(q, k);
      JoinCons(q[..k], Split(q[k + 1..]), false);
      GlueMiddle(q, k, Join(Split(q[k + 1..]), false), TrailingSlash(['/'] + q));
    }
  }

  lemma CanonicalSplit(q: string, k: nat)
    requires Canonical(['/'] + q) && k < |q| && q[k] in SEPARATORS
    ensures k > 0 && q[k] == '/'
  {
    var path := ['/'] + q;
    assert path[k + 1] == q[k] && path[0] == '/';
  }

  lemma GlueMiddle(q: string, k: nat, joined: string, slash: string)
    requires 0 < k < |q| && q[k] == '/' && ['/'] + q[k + 1..] == joined + slash
    ensures ['/'] + q == One(q[..k], false) + joined + slash
  {
    Assoc(One(q[..k], false), joined, slash);
    Assoc(['/'], q[..k], ['/'] + q[k + 1..]);
    assert q == q[..k] + (['/'] + q[k + 1..]);
  }

  lemma JoinCons(comp: string, later: seq<string>, escape: bool)
    ensures Join([comp] + later, escape) == One(comp, escape) + Join(later, escape)
  {
    assert ([comp] + later)[1..] == later;
  }

  lemma LastComponent(q: string)
    requires Split(q) == [q] && Free(SEPARATORS, q)
    ensures ['/'] + q == Join(Split(q), false) + TrailingSlash(['/'] + q)
  {
    JoinCons(q, [], false);
    assert [q] + [] == [q];
    assert One(q, false) + [] == One(q, false);
    if q == [] {
      assert [] + "/" == "/" && ['/'] + q == "/";
    } else {
      assert (['/'] + q)[|q|] == q[|q| - 1];
      assert ['/'] + q + [] == ['/'] + q;
    }
  }

  function FirstSeparator(q: string): (k: nat)
    ensures k <= |q| && (k < |q| ==> q[k] in SEPARATORS)
    ensures Free(SEPARATORS, q[..k])
  {
    if q == [] || q[0] in SEPARATORS then 0
    else
      var k := 1 + FirstSeparator(q[1..]);
      assert forall j :: 0 < j < k ==> q[j] == q[1..][..k - 1][j - 1];
      k
  }

  lemma CanonicalTail(q: string, k: nat)
    requires Canonical(['/'] + q) && k < |q| && q[k] == '/'
    ensures Canonical(['/'] + q[k + 1..])
  {
    var path, tail := ['/'] + q, ['/'] + q[k + 1..];
    assert forall j :: 0 <= j < |tail| ==> tail[j] == path[k + 1 + j];
  }

  lemma TrailingOfTail(q: string, k: nat)
    requires k < |q| && q[k] == '/'
    ensures TrailingSlash(['/'] + q) == TrailingSlash(['/'] + q[k + 1..])
  {}

  predicate Clean(s: string) {
    Canonical(s) && (s != [] ==> s[|s| - 1] != '/')
  }

  lemma CleanJoin(comp: string, tail: string)
    requires Clean(tail) && Free(SEPARATORS, comp)
    ensures Clean(One(comp, false) + tail)
  {
    if comp == [] {
      assert [] + tail == tail;
    } else {
      var s := One(comp, false) + tail;
      assert forall j :: 0 < j <= |comp| ==> s[j] == comp[j - 1];
      assert forall j :: 0 <= j < |tail| ==> s[|comp| + 1 + j] == tail[j];
    }
  }

  lemma {:induction false} JoinIsClean(comps: seq<string>)
    requires forall c :: c in comps ==> Free(SEPARATORS, c)
    ensures Clean(Join(comps, false))
  {
    if comps == [] {
    } else {
      JoinIsClean(comps[1..]);
      CleanJoin(comps[0], Join(comps[1..], false));
    }
  }

  lemma NormalIsCanonical(path: string)
    ensures Canonical(Normal(path))
  {
    PartsAreFree(SEPARATORS, path);
    JoinIsClean(Split(path));
    CleanSlash(Join(Split(path), false), TrailingSlash(path));
  }

  lemma CleanSlash(s: string, slash: string)
    requires Clean(s) && (slash == [] || slash == "/")
    ensures Canonical(s + slash)
  {
    var t := s + slash;
    forall i | 0 < i < |t| ensures !(t[i - 1] == '/' && t[i] == '/') {
      if i < |s| { assert t[i] == s[i] && t[i - 1] == s[i - 1]; } else { assert t[i - 1] == s[|s| - 1]; }
    }
  }

  lemma CanonicalIsNormal(path: string)
    requires Canonical(path)
    ensures Normal(path) == path
  {
    if path == [] {
      var one: seq<string> := [[]];
      assert one[1..] == [] && Join(one, false) == [];
    } else {
      assert path == ['/'] + path[1..];
      NormalTail(path[1..]);
      var later := Split(path[1..]);
      assert ([[]] + later)[1..] == later;
      assert [] + Join(later, false) == Join(later, false);
    }
  }

  /** The round trip is exact precisely on canonical paths. */
  lemma UriRoundTripIsExact(path: string)
    ensures UriToBytesSpec(PathToUriSpec(path)) == Some(Encode(path)) <==> Canonical(path)
  {
    UriRoundTrip(path);
    NormalIsCanonical(path);
    if Canonical(path) { CanonicalIsNormal(path); }
    if Encode(Normal(path)) == Encode(path) {
      DecodeEncode(path);
    }
  }
}
