/**
 A patch from outside, fs_ops.rs:508-621: which lines an edit names, when it goes
 through, what it writes and what it reports, in line numbers counted from 1.
 */
module PatchByLines {
  import opened Seqs
  import opened Wrappers
  import opened Strings
  import opened TextEdits
  import opened EditAlgorithms
  import opened Lines
  import opened Utf8
  import opened HashlinePatch

  /** An edit names the lines `first` to `last`: from its start, or 1 for 0, to its
      end, or its first line when it has no end or an earlier one. */
  predicate Names(e: HashlineEdit, first: nat, last: nat) {
    && (e.startLine == 0 ==> first == 1)
    && (e.startLine > 0 ==> first == e.startLine)
    && (e.endLine == None ==> last == first)
    && (e.endLine.Some? && e.endLine.value < first ==> last == first)
    && (e.endLine.Some? && e.endLine.value >= first ==> last == e.endLine.value)
  }

  lemma NamedRange(e: HashlineEdit, first: nat, last: nat)
    requires Names(e, first, last)
    ensures RangeOf(e) == Edit(first - 1, last, e.replacement)
  {}

  // --------------------------------------------------------------- acceptance

  /** The edit anchors its lines by the comma-separated `tokens`, or not at all. */
  predicate AnchoredBy(e: HashlineEdit, tokens: seq<string>) {
    && (forall t :: t in tokens ==> ',' !in t)
    && e.hashes == if tokens == [] then None else Some(JoinWith(',', tokens))
  }

  /** Some line from `first` to `last` has the hash `t`, a final carriage return
      not being part of it. */
  predicate Bears(h: string -> string, lines: seq<string>, first: nat, last: nat, t: string) {
    exists i :: first <= i + 1 <= last && 0 <= i < |lines| && HashIs(h, lines[i], t)
  }

  predicate HashIs(h: string -> string, line: string, t: string) {
    if |line| > 0 && line[|line| - 1] == '\r' then h(line[..|line| - 1]) == t else h(line) == t
  }

  /** The lines exist, and each non-blank token is, trimmed, the hash of one of them. */
  predicate Fresh(h: string -> string, lines: seq<string>, first: nat, last: nat, tokens: seq<string>) {
    last <= |lines| && forall t :: t in tokens && Trim(t) != [] ==> Bears(h, lines, first, last, Trim(t))
  }

  lemma BearsIff(h: string -> string, lines: seq<string>, first: nat, last: nat, t: string)
    requires 1 <= first <= last <= |lines|
    ensures t in HashesOf(h, lines[first - 1..last]) <==> Bears(h, lines, first, last, t)
  {
    var some := lines[first - 1..last];
    var actual := HashesOf(h, some);
    if t in actual {
      var k :| 0 <= k < |actual| && actual[k] == t;
      assert some[k] == lines[first - 1 + k] && HashIs(h, lines[first - 1 + k], t);
    }
    if Bears(h, lines, first, last, t) {
      var i :| first <= i + 1 <= last && 0 <= i < |lines| && HashIs(h, lines[i], t);
      assert some[i - (first - 1)] == lines[i] && actual[i - (first - 1)] == t;
    }
  }

  lemma AnchoredIff(h: string -> string, lines: seq<string>, e: HashlineEdit, first: nat, last: nat,
                    tokens: seq<string>)
    requires Names(e, first, last) && AnchoredBy(e, tokens)
    ensures Anchored(h, lines, e) <==> Fresh(h, lines, first, last, tokens)
  {
    NamedRange(e, first, last);
    if last <= |lines| {
      var actual := HashesOf(h, lines[first - 1..last]);
      forall t ensures t in actual <==> Bears(h, lines, first, last, t) { BearsIff(h, lines, first, last, t); }
      AnchorMatchesIff(actual, e, tokens);
    }
  }

  lemma AnchorMatchesIff(actual: seq<string>, e: HashlineEdit, tokens: seq<string>)
    requires AnchoredBy(e, tokens)
    ensures AnchorMatches(actual, e.hashes) <==> forall t :: t in tokens && Trim(t) != [] ==> Trim(t) in actual
  {
    if tokens != [] {
      SplitJoined(',', tokens);
      TokensPresentIff(tokens, actual);
    }
  }

  lemma TokensPresentIff(tokens: seq<string>, actual: seq<string>)
    ensures TokensPresent(tokens, actual) <==> forall t :: t in tokens && Trim(t) != [] ==> Trim(t) in actual
  {
    if TokensPresent(tokens, actual) {
      forall t | t in tokens && Trim(t) != [] ensures Trim(t) in actual {
        var i :| 0 <= i < |tokens| && tokens[i] == t;
        assert Trim(tokens[i]) in actual;
      }
    }
  }

  /** One edit is accepted exactly when its lines exist and its tokens are hashes of
      them, and is otherwise refused for the first of the two that fails. */
  lemma OneEditGoesThrough(h: string -> string, lines: seq<string>, e: HashlineEdit, first: nat, last: nat,
                           tokens: seq<string>, why: PatchError)
    requires Names(e, first, last) && AnchoredBy(e, tokens)
    ensures Accepts(h, lines, [e]) <==> Fresh(h, lines, first, last, tokens)
    ensures RefusedFor(h, lines, [e], why) <==>
      (!Fresh(h, lines, first, last, tokens) && why == if last > |lines| then BeyondEof else StaleAnchor)
  {
    AnchoredIff(h, lines, e, first, last, tokens);
    NamedRange(e, first, last);
    var flags := Fits(h, lines, [e]);
    assert flags == [Anchored(h, lines, e)] && flags[1..] == [];
    assert [e][0] == e;
  }

  /** A batch is accepted exactly when it has an edit, every edit's lines exist with
      its hashes among theirs, and no line is named twice. */
  lemma BatchGoesThrough(h: string -> string, lines: seq<string>, edits: seq<HashlineEdit>, first: seq<nat>,
                         last: seq<nat>, tokens: seq<seq<string>>)
    requires AllNamed(edits, first, last) && |tokens| == |edits|
    requires forall k :: 0 <= k < |edits| ==> AnchoredBy(edits[k], tokens[k])
    ensures Accepts(h, lines, edits) <==>
      && edits != []
      && (forall k :: 0 <= k < |edits| ==> Fresh(h, lines, first[k], last[k], tokens[k]))
      && forall j, k :: 0 <= j < k < |edits| ==> last[j] < first[k] || last[k] < first[j]
  {
    forall k | 0 <= k < |edits|
      ensures Anchored(h, lines, edits[k]) <==> Fresh(h, lines, first[k], last[k], tokens[k])
    {
      AnchoredIff(h, lines, edits[k], first[k], last[k], tokens[k]);
    }
    ApartIff(edits, first, last);
  }

  predicate AllNamed(edits: seq<HashlineEdit>, first: seq<nat>, last: seq<nat>) {
    |first| == |last| == |edits| && forall k :: 0 <= k < |edits| ==> Names(edits[k], first[k], last[k])
  }

  lemma ApartIff(edits: seq<HashlineEdit>, first: seq<nat>, last: seq<nat>)
    requires AllNamed(edits, first, last)
    ensures PairwiseApart(RangesOf(edits)) <==>
      forall j, k :: 0 <= j < k < |edits| ==> last[j] < first[k] || last[k] < first[j]
  {
    var rs := RangesOf(edits);
    forall k | 0 <= k < |edits| ensures rs[k] == Edit(first[k] - 1, last[k], edits[k].replacement) {
      NamedRange(edits[k], first[k], last[k]);
    }
    if PairwiseApart(rs) {
      forall j, k | 0 <= j < k < |edits| ensures last[j] < first[k] || last[k] < first[j] {
        assert Apart(rs[j], rs[k]);
      }
    }
  }

  // ------------------------------------------------------------ what is written

  /** One edit writes its replacement for the lines it names and reports just that;
      the file keeps its final newline, or its lack of one. */
  lemma OneEditWrites(content: seq<byte>, text: string, e: HashlineEdit, first: nat, last: nat)
    requires Names(e, first, last) && last <= |LinesOf(text)|
    ensures var lines := LinesOf(text);
      var all := JoinWith('\n', lines[..first - 1] + e.replacement + lines[last..]);
      && (content != [] && content[|content| - 1] == 10 ==> Patched(content, text, [e]) == Encode(all + "\n"))
      && (content == [] || content[|content| - 1] != 10 ==> Patched(content, text, [e]) == Encode(all))
    ensures Report([e]) == [Applied(first, last, |e.replacement|)]
  {
    NamedRange(e, first, last);
    assert RangesOf([e]) == [RangeOf(e)];
    SimOfOne(LinesOf(text), RangeOf(e));
    NothingBeside(JoinWith('\n', LinesOf(text)[..first - 1] + e.replacement + LinesOf(text)[last..]));
    OneReport(e);
  }

  lemma OneReport(e: HashlineEdit)
    ensures Report([e]) == [AppliedOf(RangeOf(e))]
  {
    assert RangesOf([e]) == [RangeOf(e)];
    var down := Descending([RangeOf(e)]);
    assert [RangeOf(e)][1..] == [] && down == [RangeOf(e)];
    assert AppliedAll(down) == [AppliedOf(RangeOf(e))];
    assert Reverse(AppliedAll(down)) == AppliedAll(down);
  }

  /** For one: without an end only the start line goes. */
  lemma NoEndMeansOneLine(content: seq<byte>, text: string, a: nat, hashes: Option<string>, replacement: seq<string>)
    requires 1 <= a <= |LinesOf(text)|
    ensures var lines := LinesOf(text);
      Patched(content, text, [HashlineEdit(a, None, hashes, replacement)])
        == Encode(Render(lines[..a - 1] + replacement + lines[a..], EndsWithLf(content)))
  {
    OneEditWrites(content, text, HashlineEdit(a, None, hashes, replacement), a, a);
    NothingBeside(JoinWith('\n', LinesOf(text)[..a - 1] + replacement + LinesOf(text)[a..]));
  }

  /** The lines after line `from`, with the named ones replaced, read off in order. */
  function Woven(lines: seq<string>, from: nat, edits: seq<HashlineEdit>, first: seq<nat>, last: seq<nat>): seq<string>
    requires Listed(lines, from, edits, first, last)
    decreases |edits|
  {
    if edits == [] then lines[from..]
    else
      lines[from..first[0] - 1] + edits[0].replacement + Woven(lines, last[0], edits[1..], first[1..], last[1..])
  }

  /** Edits listed in file order, each after line `from` and after the one before. */
  predicate Listed(lines: seq<string>, from: nat, edits: seq<HashlineEdit>, first: seq<nat>, last: seq<nat>)
    decreases |edits|
  {
    && |first| == |last| == |edits| && from <= |lines|
    && (edits != [] ==>
          && from < first[0] <= last[0] <= |lines|
          && Listed(lines, last[0], edits[1..], first[1..], last[1..]))
  }

  lemma {:induction false} WovenIsTopDown(lines: seq<string>, from: nat, edits: seq<HashlineEdit>, first: seq<nat>,
                                          last: seq<nat>)
    requires AllNamed(edits, first, last) && Listed(lines, from, edits, first, last)
    ensures TopDown(lines, RangesOf(edits), from) == Some(Woven(lines, from, edits, first, last))
    decreases |edits|
  {
    if edits == [] {
    } else {
      NamedRange(edits[0], first[0], last[0]);
      assert RangesOf(edits)[1..] == RangesOf(edits[1..]);
      WovenIsTopDown(lines, last[0], edits[1..], first[1..], last[1..]);
    }
  }

  /** A batch writes the file read top to bottom, each replacement in the place of
      the lines its edit names, whatever the order the edits are listed in. */
  lemma BatchWrites(content: seq<byte>, text: string, edits: seq<HashlineEdit>, first: seq<nat>, last: seq<nat>,
                    listed: seq<HashlineEdit>)
    requires AllNamed(edits, first, last) && Listed(LinesOf(text), 0, edits, first, last)
    requires multiset(listed) == multiset(edits)
    ensures Patched(content, text, listed)
         == Encode(Render(Woven(LinesOf(text), 0, edits, first, last), EndsWithLf(content)))
  {
    var lines, rs := LinesOf(text), RangesOf(edits);
    WovenIsTopDown(lines, 0, edits, first, last);
    TopDownIsSimultaneous(lines, rs, 0);
    NamedAreNonempty(edits);
    ChainedIsApart(rs);
    RangesPermute(edits, listed);
    ApartPermutes(rs, RangesOf(listed));
    SimPermutes(lines, rs, RangesOf(listed));
  }

  lemma NamedAreNonempty(edits: seq<HashlineEdit>)
    ensures Nonempty(RangesOf(edits))
  {}

  lemma ChainedIsApart<T>(s: seq<Edit<T>>)
    requires Chained(s)
    ensures PairwiseApart(s)
  {}

  /** The report tells of every edit, its lines and how many replaced them, in file order. */
  lemma ReportIsComplete(edits: seq<HashlineEdit>, first: seq<nat>, last: seq<nat>)
    requires AllNamed(edits, first, last)
    ensures multiset(Report(edits))
         == multiset(seq(|edits|, k requires 0 <= k < |edits| => Applied(first[k], last[k], |edits[k].replacement|)))
    ensures forall i, j :: 0 <= i < j < |Report(edits)| ==> Report(edits)[i].startLine <= Report(edits)[j].startLine
  {
    var rs := RangesOf(edits);
    var down := Descending(rs);
    forall k | 0 <= k < |edits| ensures AppliedAll(rs)[k] == Applied(first[k], last[k], |edits[k].replacement|) {
      NamedRange(edits[k], first[k], last[k]);
    }
    assert AppliedAll(rs)
        == seq(|edits|, k requires 0 <= k < |edits| => Applied(first[k], last[k], |edits[k].replacement|));
    ReverseKeepsMembers(AppliedAll(down));
    AppliedPermutes(down, rs);
    DescendingDescends(rs);
    ReportAscends(down);
  }

  lemma ReportAscends(down: seq<Edit<string>>)
    requires forall i, j :: 0 <= i < j < |down| ==> down[i].start >= down[j].start
    ensures var up := Reverse(AppliedAll(down)); forall i, j :: 0 <= i < j < |up| ==> up[i].startLine <= up[j].startLine
  {}

  lemma {:induction false} AppliedPermutes(a: seq<Edit<string>>, b: seq<Edit<string>>)
    requires multiset(a) == multiset(b)
    ensures multiset(AppliedAll(a)) == multiset(AppliedAll(b))
  {
    assert |multiset(a)| == |a| == |multiset(b)| == |b|;
    if a == [] {
    } else {
      var k := MatchingMember(a, b);
      AppliedPermutes(a[..0] + a[1..], b[..k] + b[k + 1..]);
      AppliedRemove(a, 0);
      AppliedRemove(b, k);
    }
  }

  lemma AppliedRemove(a: seq<Edit<string>>, k: nat)
    requires k < |a|
    ensures multiset(AppliedAll(a)) == multiset{AppliedOf(a[k])} + multiset(AppliedAll(a[..k] + a[k + 1..]))
  {
    var r := AppliedAll(a);
    RemoveMember(r, k);
    assert r[..k] + r[k + 1..] == AppliedAll(a[..k] + a[k + 1..]);
  }

  // --------------------------------------------------------- an annotated read

  /** Line `k` of an annotated read is its number, its hash and its content, the two
      separators between them; a carriage return at the end of the content is lost. */
  lemma AnnotatedFormat(h: string -> string, content: string, k: nat, t: string, body: string)
    requires HexDigest(h) && k < |LinesOf(content)| && HashIs(h, LinesOf(content)[k], t)
    requires var line := LinesOf(content)[k];
      line == body + ['\r'] || (line == body && (body == [] || body[|body| - 1] != '\r'))
    ensures var read := LinesOf(Terminated(AnnotatedLines(h, LinesOf(content))));
      |read| == |LinesOf(content)| && read[k] == Print(k + 1) + " | " + t + " | " + body
  {
    LinesHaveNoNewline(content);
    LineOfAnnotated(h, LinesOf(content), k);
    AnnotatedBody(h, k + 1, LinesOf(content)[k], body);
    var n, hash := Print(k + 1), ShortHash(h, LinesOf(content)[k]);
    Assoc(n, BAR, hash);
    Assoc(n, BAR + hash, BAR);
    Assoc(BAR, hash, BAR);
  }

  lemma AnnotatedBody(h: string -> string, n: nat, line: string, body: string)
    requires line == body + ['\r'] || (line == body && (body == [] || body[|body| - 1] != '\r'))
    ensures Body(AnnotatedLine(h, n, line) + ['\n']) == Print(n) + (BAR + (ShortHash(h, line) + BAR)) + body
  {
    var head := Print(n) + (BAR + (ShortHash(h, line) + BAR));
    SplitAnnotated(h, n, line, line);
    assert head[|head| - 1] == ' ';
    if line == body + ['\r'] { BodyWithCr(head, body, line); } else { BodyWithoutCr(head, line); }
  }
}
