/**
 Hashline patching, fs_ops.rs:445-621: line ranges anchored by short content
 hashes, checked against the file before anything is written, then spliced
 bottom-up.
 */
module HashlinePatch {
  import opened Seqs
  import opened Wrappers
  import opened Strings
  import opened TextEdits
  import opened EditAlgorithms
  import opened Lines
  import opened Utf8
  import Positions

  // ----------------------------------------------------------------- anchors

  predicate HexChar(c: char) { '0' <= c <= '9' || 'a' <= c <= 'f' }

  predicate IsHash(s: string) {
    |s| == 6 && forall i :: 0 <= i < 6 ==> HexChar(s[i])
  }

  /** First six hex digits of a digest; the digest itself is a parameter. */
  ghost predicate HexDigest(h: string -> string) {
    forall s :: IsHash(h(s))
  }

  /** A trailing carriage return is a terminator, not content. */
  function ShortHash(h: string -> string, line: string): string {
    h(if line != [] && line[|line| - 1] == '\r' then line[..|line| - 1] else line)
  }

  function HashesOf(h: string -> string, lines: seq<string>): (r: seq<string>)
    ensures |r| == |lines| && forall i :: 0 <= i < |lines| ==> r[i] == ShortHash(h, lines[i])
  {
    if lines == [] then [] else [ShortHash(h, lines[0])] + HashesOf(h, lines[1..])
  }

  /** Every non-empty trimmed token of the comma-separated list is a hash of the
      range. */
  predicate TokensPresent(tokens: seq<string>, actual: seq<string>) {
    forall i :: 0 <= i < |tokens| && Trim(tokens[i]) != [] ==> Trim(tokens[i]) in actual
  }

  predicate AnchorMatches(actual: seq<string>, expected: Option<string>) {
    expected.Some? ==> TokensPresent(SplitOn({','}, expected.value), actual)
  }

  // ----------------------------------------------------------------- planning

  datatype HashlineEdit =
    HashlineEdit(startLine: nat, endLine: Option<nat>, hashes: Option<string>, replacement: seq<string>)

  datatype PatchError = NoEdits | BeyondEof | StaleAnchor | OverlappingRanges

  function Max(a: nat, b: nat): nat { if a < b then b else a }

  function FirstOf(e: HashlineEdit): nat { Max(e.startLine, 1) }

  function LastOf(e: HashlineEdit): nat {
    Max(if e.endLine.Some? then e.endLine.value else e.startLine, FirstOf(e))
  }

  /** The lines an edit replaces, 0-based and half-open. */
  function RangeOf(e: HashlineEdit): (r: Edit<string>)
    ensures r.start < r.end
  {
    Edit(FirstOf(e) - 1, LastOf(e), e.replacement)
  }

  function RangesOf(edits: seq<HashlineEdit>): seq<Edit<string>> {
    seq(|edits|, i requires 0 <= i < |edits| => RangeOf(edits[i]))
  }

  predicate Anchored(h: string -> string, lines: seq<string>, e: HashlineEdit) {
    && LastOf(e) <= |lines|
    && AnchorMatches(HashesOf(h, lines[FirstOf(e) - 1..LastOf(e)]), e.hashes)
  }

  predicate AllAnchored(h: string -> string, lines: seq<string>, edits: seq<HashlineEdit>) {
    forall i :: 0 <= i < |edits| ==> Anchored(h, lines, edits[i])
  }

  /** Something to do, every range in bounds with a fresh anchor, and no two
      ranges overlapping. */
  predicate Accepts(h: string -> string, lines: seq<string>, edits: seq<HashlineEdit>) {
    edits != [] && AllAnchored(h, lines, edits) && PairwiseApart(RangesOf(edits))
  }

  function Reason(lines: seq<string>, e: HashlineEdit): PatchError {
    if LastOf(e) > |lines| then BeyondEof else StaleAnchor
  }

  /** Which edits fit the file: in bounds, with a fresh anchor. */
  function Fits(h: string -> string, lines: seq<string>, edits: seq<HashlineEdit>): (flags: seq<bool>)
    ensures |flags| == |edits| && forall k :: 0 <= k < |edits| ==> flags[k] == Anchored(h, lines, edits[k])
  {
    seq(|edits|, k requires 0 <= k < |edits| => Anchored(h, lines, edits[k]))
  }

  /** How many edits fit before the first that does not. */
  function Fitting(h: string -> string, lines: seq<string>, edits: seq<HashlineEdit>): nat {
    Leading(Fits(h, lines, edits))
  }

  /** The first edit that does not fit the file gives the reason. */
  predicate RefusedFor(h: string -> string, lines: seq<string>, edits: seq<HashlineEdit>, e: PatchError) {
    var k := Fitting(h, lines, edits);
    k < |edits| && e == Reason(lines, edits[k])
  }

  method CheckEdit(h: string -> string, lines: seq<string>, e: HashlineEdit) returns (refused: Option<PatchError>)
    ensures refused.None? <==> Anchored(h, lines, e)
    ensures refused.Some? ==> refused.value == Reason(lines, e)
  {
    var start, end := FirstOf(e), LastOf(e);
    if end > |lines| { return Some(BeyondEof); }
    if !AnchorMatches(HashesOf(h, lines[start - 1..end]), e.hashes) { return Some(StaleAnchor); }
    return None;
  }

  method PlanEdits(h: string -> string, lines: seq<string>, edits: seq<HashlineEdit>)
    returns (r: Result<seq<Edit<string>>, PatchError>)
    ensures r.Ok? <==> AllAnchored(h, lines, edits)
    ensures r.Ok? ==> r.value == RangesOf(edits)
    ensures r.Err? ==> RefusedFor(h, lines, edits, r.error)
  {
    AllFit(h, lines, edits);
    var planned: seq<Edit<string>> := [];
    for i := 0 to |edits|
      invariant i <= Fitting(h, lines, edits)
      invariant planned == RangesOf(edits[..i])
    {
      RangesSnoc(edits, i);
      PlanStep(h, lines, edits, i);
      var refused := CheckEdit(h, lines, edits[i]);
      if refused.Some? { return Err(refused.value); }
      planned := planned + [RangeOf(edits[i])];
    }
    assert edits[..|edits|] == edits;
    return Ok(planned);
  }

  lemma PlanStep(h: string -> string, lines: seq<string>, edits: seq<HashlineEdit>, i: nat)
    requires i < |edits| && i <= Fitting(h, lines, edits)
    ensures Anchored(h, lines, edits[i]) <==> i < Fitting(h, lines, edits)
  {
    assert Fits(h, lines, edits)[i] == Anchored(h, lines, edits[i]);
  }

  lemma AllFit(h: string -> string, lines: seq<string>, edits: seq<HashlineEdit>)
    ensures AllAnchored(h, lines, edits) <==> Fitting(h, lines, edits) == |edits|
  {
    var flags := Fits(h, lines, edits);
    assert forall k :: 0 <= k < |edits| ==> flags[k] == Anchored(h, lines, edits[k]);
  }

  lemma RangesSnoc(edits: seq<HashlineEdit>, i: nat)
    requires i < |edits|
    ensures RangesOf(edits[..i + 1]) == RangesOf(edits[..i]) + [RangeOf(edits[i])]
  {
    TakeSnoc(edits, i);
  }

  // ----------------------------------------------------------------- splicing

  datatype Applied = Applied(startLine: nat, endLine: nat, linesAdded: nat)

  function AppliedOf(e: Edit<string>): Applied {
    Applied(e.start + 1, e.end, |e.text|)
  }

  function AppliedAll(edits: seq<Edit<string>>): seq<Applied> {
    seq(|edits|, i requires 0 <= i < |edits| => AppliedOf(edits[i]))
  }

  function Descending(planned: seq<Edit<string>>): seq<Edit<string>> {
    StableSort(ByStartDown, planned)
  }

  /** Each range ends before the one spliced just before it. */
  predicate StepsApart(down: seq<Edit<string>>) {
    forall i :: 0 < i < |down| ==> down[i].end <= down[i - 1].start
  }

  method SpliceLoop(lines: seq<string>, down: seq<Edit<string>>)
    returns (r: Option<(seq<string>, seq<Applied>)>)
    ensures r.Some? <==> StepsApart(down)
    ensures r.Some? ==> r.value == (BottomUp(lines, Reverse(down)), AppliedAll(down))
  {
    var out, applied: seq<Applied>, lastStart: Option<nat> := lines, [], None;
    for k := 0 to |down|
      invariant out == BottomUp(lines, Reverse(down[..k]))
      invariant lastStart == if k == 0 then None else Some(down[k - 1].start)
      invariant StepsApart(down[..k])
      invariant applied == AppliedAll(down[..k])
    {
      var e := down[k];
      StepsApartSnoc(down, k);
      if lastStart.Some? && e.end > lastStart.value {
        return None;
      }
      lastStart := Some(e.start);
      SpliceStep(lines, down, k);
      out := ReplaceRange(out, e);
      applied := applied + [AppliedOf(e)];
    }
    assert down[..|down|] == down;
    return Some((out, applied));
  }

  lemma StepsApartSnoc(down: seq<Edit<string>>, k: nat)
    requires k < |down| && StepsApart(down[..k])
    ensures StepsApart(down[..k + 1]) <==> k == 0 || down[k].end <= down[k - 1].start
    ensures StepsApart(down) ==> StepsApart(down[..k + 1])
  {
    var longer := down[..k + 1];
    forall i | 0 < i < k ensures longer[i].end <= longer[i - 1].start {
      assert down[..k][i].end <= down[..k][i - 1].start;
    }
    if StepsApart(down) {
      forall i | 0 < i <= k ensures longer[i].end <= longer[i - 1].start { assert down[i].end <= down[i - 1].start; }
    }
  }

  lemma SpliceStep(lines: seq<string>, down: seq<Edit<string>>, k: nat)
    requires k < |down|
    ensures BottomUp(lines, Reverse(down[..k + 1])) == ReplaceRange(BottomUp(lines, Reverse(down[..k])), down[k])
    ensures AppliedAll(down[..k + 1]) == AppliedAll(down[..k]) + [AppliedOf(down[k])]
  {
    ReverseSnoc(down[..k], down[k]);
    assert down[..k + 1] == down[..k] + [down[k]];
    var up := Reverse(down[..k]);
    assert ([down[k]] + up)[1..] == up;
  }

  /** Splice from the last range to the first, refusing a range that reaches
      into the one spliced before it; reported in file order. */
  method SpliceAll(lines: seq<string>, planned: seq<Edit<string>>)
    returns (r: Result<(seq<string>, seq<Applied>), PatchError>)
    requires InBounds(|lines|, planned) && Nonempty(planned)
    ensures r.Ok? <==> PairwiseApart(planned)
    ensures r.Err? ==> r.error == OverlappingRanges
    ensures r.Ok? ==> r.value == (Simultaneous(lines, planned), Reverse(AppliedAll(Descending(planned))))
  {
    SpliceIsRight(lines, planned);
    var spliced := SpliceLoop(lines, Descending(planned));
    match spliced {
      case None => return Err(OverlappingRanges);
      case Some((out, applied)) => return Ok((out, Reverse(applied)));
    }
  }

  lemma SpliceIsRight(lines: seq<string>, planned: seq<Edit<string>>)
    requires InBounds(|lines|, planned) && Nonempty(planned)
    ensures StepsApart(Descending(planned)) <==> PairwiseApart(planned)
    ensures PairwiseApart(planned) ==> BottomUp(lines, Reverse(Descending(planned))) == Simultaneous(lines, planned)
  {
    UpwardOrder(|lines|, planned);
    StepsAreNeighbours(Descending(planned));
    if PairwiseApart(planned) { SplicedIsSimultaneous(lines, planned); }
  }

  lemma StepsAreNeighbours(down: seq<Edit<string>>)
    ensures StepsApart(down) <==> NeighboursApart(Reverse(down))
  {
    var up, n := Reverse(down), |down|;
    if StepsApart(down) {
      forall k | 0 <= k < n - 1 ensures up[k].end <= up[k + 1].start {
        assert down[n - 1 - k].end <= down[n - 1 - k - 1].start;
      }
    }
    if NeighboursApart(up) {
      forall i | 0 < i < n ensures down[i].end <= down[i - 1].start {
        assert up[n - 1 - i].end <= up[n - 1 - i + 1].start;
      }
    }
  }

  lemma DescendingDescends(planned: seq<Edit<string>>)
    ensures var down := Descending(planned);
      forall i, j :: 0 <= i < j < |down| ==> down[i].start >= down[j].start
  {
    var down := Descending(planned);
    StableSortSorts(ByStartDown, planned);
    forall i, j | 0 <= i < j < |down| ensures down[i].start >= down[j].start {
      assert NotAfter(ByStartDown, down[i], down[j]);
    }
  }

  /** The reversed plan is an ascending permutation of it, and its neighbours
      are apart exactly when all ranges are. */
  lemma UpwardOrder(n: nat, planned: seq<Edit<string>>)
    requires InBounds(n, planned) && Nonempty(planned)
    ensures var up := Reverse(Descending(planned));
      && multiset(up) == multiset(planned)
      && InBounds(n, up) && Nonempty(up)
      && (NeighboursApart(up) <==> PairwiseApart(planned))
      && (NeighboursApart(up) <==> Chained(up))
  {
    var down := Descending(planned);
    var up := Reverse(down);
    ReverseKeepsMembers(down);
    BoundsFollowMembers(n, planned, up);
    NonemptyFollowsMembers(planned, up);
    DescendingDescends(planned);
    ReversedAscends(down);
    NeighboursChain(n, up);
    ChainedWhenAscending(n, up);
    if PairwiseApart(up) {
      ApartPermutes(up, planned);
      NoTies(up);
    }
    if PairwiseApart(planned) { ApartPermutes(planned, up); }
  }

  lemma NonemptyFollowsMembers(a: seq<Edit<string>>, b: seq<Edit<string>>)
    requires multiset(a) == multiset(b) && Nonempty(a)
    ensures Nonempty(b)
  {
    forall i | 0 <= i < |b| ensures b[i].start < b[i].end { assert b[i] in multiset(a); }
  }

  lemma ReversedAscends(down: seq<Edit<string>>)
    requires forall i, j :: 0 <= i < j < |down| ==> down[i].start >= down[j].start
    ensures Ascending(Reverse(down))
  {}

  /** Disjoint replacements never share a start. */
  lemma NoTies(s: seq<Edit<string>>)
    requires PairwiseApart(s) && Nonempty(s)
    ensures InsertionsFirst(s)
  {
    forall i, j | 0 <= i < j < |s| ensures s[i].start != s[j].start { assert Apart(s[i], s[j]); }
  }

  lemma SplicedIsSimultaneous(lines: seq<string>, planned: seq<Edit<string>>)
    requires InBounds(|lines|, planned) && Nonempty(planned) && PairwiseApart(planned)
    ensures BottomUp(lines, Reverse(Descending(planned))) == Simultaneous(lines, planned)
  {
    var up := Reverse(Descending(planned));
    UpwardOrder(|lines|, planned);
    BottomUpIsSimultaneous(lines, up);
    SimPermutes(lines, planned, up);
  }

  // --------------------------------------------------------------- the patch

  predicate EndsWithLf(content: seq<byte>) {
    content != [] && content[|content| - 1] == 10
  }

  /** The bytes a batch writes over `content`, whose text reads as `text`. */
  function Patched(content: seq<byte>, text: string, edits: seq<HashlineEdit>): seq<byte> {
    Encode(Render(Simultaneous(LinesOf(text), RangesOf(edits)), EndsWithLf(content)))
  }

  /** What the caller is told of an accepted batch, in file order. */
  function Report(edits: seq<HashlineEdit>): seq<Applied> {
    Reverse(AppliedAll(Descending(RangesOf(edits))))
  }

  /** A file of bytes, read as text by `from_utf8_lossy`. */
  class TextFile {
    var content: seq<byte>
    const lossy: seq<byte> -> string

    constructor (content: seq<byte>, lossy: seq<byte> -> string)
      ensures this.content == content && this.lossy == lossy
    {
      this.content, this.lossy := content, lossy;
    }

    /** A batch reaches the write exactly when `Accepts`; the written lines are
        the simultaneous replacement; a rejection leaves the file unchanged. */
    method Patch(h: string -> string, edits: seq<HashlineEdit>) returns (r: Result<seq<Applied>, PatchError>)
      modifies this
      ensures r.Ok? <==> Accepts(h, LinesOf(lossy(old(content))), edits)
      ensures r.Err? ==> content == old(content) && match r.error
        case NoEdits => edits == []
        case OverlappingRanges => edits != [] && AllAnchored(h, LinesOf(lossy(content)), edits)
        case _ => edits != [] && RefusedFor(h, LinesOf(lossy(content)), edits, r.error)
      ensures r.Ok? ==> content == Patched(old(content), lossy(old(content)), edits)
      ensures r.Ok? ==> r.value == Report(edits)
    {
      if edits == [] { return Err(NoEdits); }
      var lines := LinesOf(lossy(content));
      var planned := PlanEdits(h, lines, edits);
      if planned.Err? { return Err(planned.error); }
      AnchoredIsInBounds(h, lines, edits);
      var spliced := SpliceAll(lines, planned.value);
      if spliced.Err? { return Err(spliced.error); }
      content := Encode(Render(spliced.value.0, EndsWithLf(content)));
      return Ok(spliced.value.1);
    }
  }

  lemma AnchoredIsInBounds(h: string -> string, lines: seq<string>, edits: seq<HashlineEdit>)
    requires AllAnchored(h, lines, edits)
    ensures InBounds(|lines|, RangesOf(edits)) && Nonempty(RangesOf(edits))
  {
    forall i | 0 <= i < |edits| ensures RangesOf(edits)[i].start < RangesOf(edits)[i].end <= |lines| {
      assert Anchored(h, lines, edits[i]);
    }
  }

  /** Any order of the same edits is accepted alike and writes the same lines;
      the line count is conserved. */
  lemma PatchPermutes(h: string -> string, lines: seq<string>, a: seq<HashlineEdit>, b: seq<HashlineEdit>)
    requires multiset(a) == multiset(b) && Accepts(h, lines, a)
    ensures Accepts(h, lines, b)
    ensures Simultaneous(lines, RangesOf(a)) == Simultaneous(lines, RangesOf(b))
    ensures |Simultaneous(lines, RangesOf(a))| == |lines| + Growth(RangesOf(a))
  {
    forall i | 0 <= i < |b| ensures Anchored(h, lines, b[i]) { assert b[i] in multiset(a); }
    assert |multiset(a)| == |a| == |multiset(b)| == |b|;
    RangesPermute(a, b);
    AnchoredIsInBounds(h, lines, a);
    var ra := RangesOf(a);
    ApartPermutes(ra, RangesOf(b));
    SimPermutes(lines, ra, RangesOf(b));
    NoTies(ra);
    SimultaneousLength(lines, ra);
  }

  lemma {:induction false} RangesPermute(a: seq<HashlineEdit>, b: seq<HashlineEdit>)
    requires multiset(a) == multiset(b)
    ensures multiset(RangesOf(a)) == multiset(RangesOf(b))
  {
    assert |multiset(a)| == |a| == |multiset(b)| == |b|;
    if a == [] {
    } else {
      var k := MatchingMember(a, b);
      var restA, restB := a[..0] + a[1..], b[..k] + b[k + 1..];
      RangesPermute(restA, restB);
      RangesRemove(a, 0);
      RangesRemove(b, k);
    }
  }

  lemma RangesRemove(a: seq<HashlineEdit>, k: nat)
    requires k < |a|
    ensures multiset(RangesOf(a)) == multiset{RangeOf(a[k])} + multiset(RangesOf(a[..k] + a[k + 1..]))
  {
    var r := RangesOf(a);
    RemoveMember(r, k);
    assert r[..k] + r[k + 1..] == RangesOf(a[..k] + a[k + 1..]);
  }

  // ----------------------------------------------- anchors from an annotated read

  const BAR := " | "

  function AnnotatedLine(h: string -> string, n: nat, line: string): string {
    Print(n) + (BAR + (ShortHash(h, line) + (BAR + line)))
  }

  function AnnotatedLines(h: string -> string, lines: seq<string>): seq<string> {
    seq(|lines|, i requires 0 <= i < |lines| => AnnotatedLine(h, i + 1, lines[i]))
  }

  method Annotate(h: string -> string, content: string) returns (out: string)
    ensures out == Terminated(AnnotatedLines(h, LinesOf(content)))
  {
    var lines := LinesOf(content);
    ghost var all := AnnotatedLines(h, lines);
    out := [];
    assert all[0..] == all;
    assert [] + Terminated(all) == Terminated(all);
    for i := 0 to |lines|
      invariant out + Terminated(all[i..]) == Terminated(all)
    {
      assert all[i..][1..] == all[i + 1..];
      Assoc(out, all[i], ['\n'] + Terminated(all[i + 1..]));
      Assoc(out + all[i], ['\n'], Terminated(all[i + 1..]));
      out := out + AnnotatedLine(h, i + 1, lines[i]) + ['\n'];
    }
    assert all[|lines|..] == [];
    assert out + [] == out;
  }

  /** Where the first separator of an annotated line stands. */
  function Bar(l: string): (k: nat)
    ensures k <= |l|
  {
    if |l| < 3 then |l| else if l[..3] == BAR then 0 else 1 + Bar(l[1..])
  }

  /** The text between the first two separators: what the reader copies. */
  function HashField(l: string): string {
    var rest := if Bar(l) + 3 <= |l| then l[Bar(l) + 3..] else [];
    rest[..Bar(rest)]
  }

  lemma {:induction false} BarAfter(x: string, y: string)
    requires ' ' !in x
    ensures Bar(x + (BAR + y)) == |x|
  {
    var l := x + (BAR + y);
    if x == [] {
      assert l[..3] == BAR;
    } else {
      assert l[0] == x[0] != ' ' && l[..3] != BAR by { assert l[..3][0] == l[0]; }
      assert l[1..] == x[1..] + (BAR + y);
      BarAfter(x[1..], y);
    }
  }

  lemma FieldOfAnnotated(h: string -> string, n: nat, line: string, tail: string)
    requires HexDigest(h)
    ensures HashField(Print(n) + (BAR + (ShortHash(h, line) + (BAR + tail)))) == ShortHash(h, line)
  {
    var hash := ShortHash(h, line);
    var inner := hash + (BAR + tail);
    var l := Print(n) + (BAR + inner);
    assert ' ' !in Print(n) && ' ' !in hash;
    BarAfter(Print(n), inner);
    BarAfter(hash, tail);
    assert l[|Print(n)| + 3..] == inner;
    assert inner[..|hash|] == hash;
  }

  /** Line `k` of the annotated text carries the hash of line `k` of the file. */
  lemma AnnotatedHash(h: string -> string, content: string, k: nat)
    requires HexDigest(h) && k < |LinesOf(content)|
    ensures var read := LinesOf(Terminated(AnnotatedLines(h, LinesOf(content))));
      |read| == |LinesOf(content)| && HashField(read[k]) == ShortHash(h, LinesOf(content)[k])
  {
    LinesHaveNoNewline(content);
    AnnotatedHashOf(h, LinesOf(content), k);
  }

  lemma AnnotatedHashOf(h: string -> string, lines: seq<string>, k: nat)
    requires HexDigest(h) && k < |lines| && forall l :: l in lines ==> '\n' !in l
    ensures var read := LinesOf(Terminated(AnnotatedLines(h, lines)));
      |read| == |lines| && HashField(read[k]) == ShortHash(h, lines[k])
  {
    LineOfAnnotated(h, lines, k);
    BodyOfAnnotated(h, k + 1, lines[k]);
  }

  lemma LineOfAnnotated(h: string -> string, lines: seq<string>, k: nat)
    requires HexDigest(h) && k < |lines| && forall l :: l in lines ==> '\n' !in l
    ensures var read := LinesOf(Terminated(AnnotatedLines(h, lines)));
      |read| == |lines| && read[k] == Body(AnnotatedLine(h, k + 1, lines[k]) + ['\n'])
  {
    var all := AnnotatedLines(h, lines);
    AllWithoutNewline(h, lines);
    LinesOfTerminatedAt(all, k);
    assert all[k] == AnnotatedLine(h, k + 1, lines[k]);
  }

  lemma AllWithoutNewline(h: string -> string, lines: seq<string>)
    requires HexDigest(h) && forall l :: l in lines ==> '\n' !in l
    ensures forall i :: 0 <= i < |lines| ==> '\n' !in AnnotatedLines(h, lines)[i]
  {
    forall i | 0 <= i < |lines| ensures '\n' !in AnnotatedLines(h, lines)[i] {
      NoNewlineInAnnotated(h, i + 1, lines[i]);
    }
  }

  lemma NoNewlineInAnnotated(h: string -> string, n: nat, line: string)
    requires HexDigest(h) && '\n' !in line
    ensures '\n' !in AnnotatedLine(h, n, line)
  {
    assert '\n' !in ShortHash(h, line) && '\n' !in Print(n) && '\n' !in BAR;
  }

  lemma BodyOfAnnotated(h: string -> string, n: nat, line: string)
    requires HexDigest(h)
    ensures HashField(Body(AnnotatedLine(h, n, line) + ['\n'])) == ShortHash(h, line)
  {
    var head := Print(n) + (BAR + (ShortHash(h, line) + BAR));
    SplitAnnotated(h, n, line, line);
    assert head[|head| - 1] == ' ';
    if line != [] && line[|line| - 1] == '\r' {
      var tail := line[..|line| - 1];
      FieldOfAnnotated(h, n, line, tail);
      SplitAnnotated(h, n, line, tail);
      BodyWithCr(head, tail, line);
    } else {
      FieldOfAnnotated(h, n, line, line);
      BodyWithoutCr(head, line);
    }
  }

  /** An annotated line is what stands before its content, and the content. */
  lemma SplitAnnotated(h: string -> string, n: nat, line: string, tail: string)
    ensures Print(n) + (BAR + (ShortHash(h, line) + (BAR + tail)))
         == Print(n) + (BAR + (ShortHash(h, line) + BAR)) + tail
  {
    Assoc(ShortHash(h, line), BAR, tail);
    Assoc(BAR, ShortHash(h, line) + BAR, tail);
    Assoc(Print(n), BAR + (ShortHash(h, line) + BAR), tail);
  }

  lemma BodyWithCr(head: string, tail: string, line: string)
    requires line != [] && line[|line| - 1] == '\r' && tail == line[..|line| - 1]
    ensures Body(head + line + ['\n']) == head + tail
  {
    var s := head + line + ['\n'];
    assert s[|s| - 2] == '\r' && s[..|s| - 2] == head + tail;
  }

  lemma BodyWithoutCr(head: string, line: string)
    requires head != [] && head[|head| - 1] != '\r' && (line == [] || line[|line| - 1] != '\r')
    ensures Body(head + line + ['\n']) == head + line
  {
    var s := head + line + ['\n'];
    assert s[|s| - 2] == if line == [] then head[|head| - 1] else line[|line| - 1];
    assert s[..|s| - 1] == head + line;
  }

  lemma HexIsTrimmed(s: string)
    requires IsHash(s)
    ensures Trim(s) == s && Free({','}, s)
  {}

  /** Copying the hashes of any line range from a full annotated read never
      yields a stale anchor on the unchanged file. */
  lemma CopiedAnchorsAreFresh(h: string -> string, content: string, a: nat, b: nat, copied: seq<string>,
                              replacement: seq<string>)
    requires HexDigest(h) && a < b <= |LinesOf(content)| && |copied| == b - a
    requires var read := LinesOf(Terminated(AnnotatedLines(h, LinesOf(content))));
      forall i :: 0 <= i < b - a && a + i < |read| ==> copied[i] == HashField(read[a + i])
    ensures Anchored(h, LinesOf(content), HashlineEdit(a + 1, Some(b), Some(JoinWith(',', copied)), replacement))
  {
    var lines := LinesOf(content);
    var actual := HashesOf(h, lines[a..b]);
    forall i | 0 <= i < b - a ensures copied[i] == actual[i] {
      AnnotatedHash(h, content, a + i);
    }
    assert copied == actual;
    OwnHashesMatch(h, lines[a..b]);
  }

  /** The comma-separated hashes of some lines match those lines. */
  lemma OwnHashesMatch(h: string -> string, lines: seq<string>)
    requires HexDigest(h) && lines != []
    ensures AnchorMatches(HashesOf(h, lines), Some(JoinWith(',', HashesOf(h, lines))))
  {
    var hashes := HashesOf(h, lines);
    forall p | p in hashes ensures Free({','}, p) && Trim(p) == p { HexIsTrimmed(p); }
    SplitJoined(',', hashes);
  }

  // ------------------------------------------------------- anchors gone stale

  /** Anchors copied for lines `a` to `b` of one text go through on another if and
      only if it still has those lines' numbers and each copied hash occurs
      somewhere in that range: which lines changed places is not looked at. */
  lemma AnchorsOnChangedFile(h: string -> string, before: seq<string>, now: seq<string>, a: nat, b: nat,
                             replacement: seq<string>)
    requires HexDigest(h) && a < b <= |before|
    ensures var copied := HashesOf(h, before[a..b]);
      Anchored(h, now, HashlineEdit(a + 1, Some(b), Some(JoinWith(',', copied)), replacement)) <==>
        b <= |now| && forall i :: a <= i < b ==> ShortHash(h, before[i]) in HashesOf(h, now[a..b])
  {
    var copied := HashesOf(h, before[a..b]);
    forall p | p in copied ensures Free({','}, p) && Trim(p) == p && p != [] { HexIsTrimmed(p); }
    SplitJoined(',', copied);
    if b <= |now| {
      var actual := HashesOf(h, now[a..b]);
      assert forall i :: a <= i < b ==> copied[i - a] == ShortHash(h, before[i]);
      if TokensPresent(copied, actual) {
        forall i | a <= i < b ensures ShortHash(h, before[i]) in actual {
          assert Trim(copied[i - a]) == copied[i - a];
        }
      }
    }
  }

  /** A single anchored line is safe: its hash must still be that of the line. */
  lemma OneLineAnchor(h: string -> string, before: seq<string>, now: seq<string>, a: nat, replacement: seq<string>)
    requires HexDigest(h) && a < |before|
    ensures var copied := HashesOf(h, before[a..a + 1]);
      Anchored(h, now, HashlineEdit(a + 1, Some(a + 1), Some(JoinWith(',', copied)), replacement)) <==>
        a < |now| && ShortHash(h, before[a]) == ShortHash(h, now[a])
  {
    AnchorsOnChangedFile(h, before, now, a, a + 1, replacement);
    if a < |now| { assert now[a..a + 1] == [now[a]]; }
  }

  lemma HashOfMember(h: string -> string, lines: seq<string>, line: string)
    requires line in lines
    ensures ShortHash(h, line) in HashesOf(h, lines)
  {
    var i :| 0 <= i < |lines| && lines[i] == line;
    assert HashesOf(h, lines)[i] == ShortHash(h, line);
  }

  /** Lines that have changed places within the range since the read, however many,
      are patched all the same. */
  lemma ReorderedLinesGoThrough(h: string -> string, before: seq<string>, now: seq<string>, a: nat, b: nat,
                                replacement: seq<string>)
    requires HexDigest(h) && a < b <= |before| && b <= |now| && multiset(before[a..b]) == multiset(now[a..b])
    ensures var copied := HashesOf(h, before[a..b]);
      Anchored(h, now, HashlineEdit(a + 1, Some(b), Some(JoinWith(',', copied)), replacement))
  {
    forall i | a <= i < b ensures ShortHash(h, before[i]) in HashesOf(h, now[a..b]) {
      assert before[a..b][i - a] == before[i] && before[i] in multiset(now[a..b]);
      HashOfMember(h, now[a..b], before[i]);
    }
    AnchorsOnChangedFile(h, before, now, a, b, replacement);
  }

  /** For one: two swapped lines. */
  lemma SwappedLinesGoThrough(h: string -> string, x: string, y: string, replacement: seq<string>)
    requires HexDigest(h)
    ensures var copied := HashesOf(h, [x, y][0..2]);
      Anchored(h, [y, x], HashlineEdit(1, Some(2), Some(JoinWith(',', copied)), replacement))
  {
    assert [x, y][0..2] == [x, y] && [y, x][0..2] == [y, x];
    ReorderedLinesGoThrough(h, [x, y], [y, x], 0, 2, replacement);
  }

  // ----------------------------------------------------------- the no-op patch

  /** Replacing a range by its own lines changes no line. */
  lemma OwnLines(lines: seq<string>, a: nat, b: nat)
    requires a < b <= |lines|
    ensures Simultaneous(lines, [Edit(a, b, lines[a..b])]) == lines
  {
    var batch := [Edit(a, b, lines[a..b])];
    BottomUpIsSimultaneous(lines, batch);
    assert batch[1..] == [];
    assert lines[..a] + lines[a..b] + lines[b..] == lines;
  }

  lemma {:induction false} LastByte(text: string)
    ensures EndsWithLf(Encode(text)) <==> EndsWithNewline(text)
  {
    if text == [] {
    } else {
      var init, c := text[..|text| - 1], text[|text| - 1];
      assert text == init + [c];
      EncodeConcat(init, [c]);
      assert [c][1..] == [] && Encode([c]) == EncodeChar(c) + [];
      LastOfChar(c);
    }
  }

  lemma LastOfChar(c: char)
    ensures EncodeChar(c)[Len8(c) - 1] == 10 <==> c == '\n'
  {}

  /** The text such a patch writes. */
  lemma NoOpText(text: string, a: nat, b: nat)
    requires a < b <= |LinesOf(text)|
    ensures var lines := LinesOf(text);
      Render(Simultaneous(lines, [Edit(a, b, lines[a..b])]), EndsWithNewline(text)) == DropCr(text)
  {
    OwnLines(LinesOf(text), a, b);
    RenderLines(text);
  }

  /** Replacing a range by its own lines rewrites the identical bytes if and only
      if the file is UTF-8 without CRLF terminators; in a UTF-8 file every CRLF
      becomes a bare newline. */
  lemma NoOpPatchIsExact(content: seq<byte>, lossy: seq<byte> -> string, a: nat, b: nat, hashes: Option<string>)
    requires Decode(content).Some? ==> lossy(content) == Decode(content).value
    requires a < b <= |LinesOf(lossy(content))|
    ensures var text := lossy(content);
      var written := Patched(content, text, [HashlineEdit(a + 1, Some(b), hashes, LinesOf(text)[a..b])]);
      && (Decode(content).Some? ==> written == Encode(DropCr(text)))
      && (written == content <==> Decode(content).Some? && !HasCrLf(text))
  {
    var text := lossy(content);
    var e := HashlineEdit(a + 1, Some(b), hashes, LinesOf(text)[a..b]);
    assert RangesOf([e]) == [Edit(a, b, LinesOf(text)[a..b])];
    var body := Render(Simultaneous(LinesOf(text), RangesOf([e])), EndsWithLf(content));
    DecodeEncode(body);
    if Decode(content).Some? {
      EncodeDecode(content);
      LastByte(text);
      NoOpText(text, a, b);
      DropCrLength(text);
      DecodeEncode(text);
    }
  }
}
