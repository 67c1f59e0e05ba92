/**
 What an accepted rename leaves behind, lsp_ops.rs:670-747: where it panics, which
 targets land, and exactly when all of them do.
 */
module RenameOutcome {
  import opened Seqs
  import opened Wrappers
  import opened Utf8
  import opened TextEdits
  import opened EditAlgorithms
  import opened TextReplace
  import opened CharEdits
  import opened WorkspaceEdit
  import P = Positions

  // ------------------------------------------------------------ who decides

  /** The plan writes `file`, or uses it for its temporary file. */
  predicate Touches(p: Plan, file: File) {
    p.file == file || p.temp == file
  }

  lemma {:induction false} NameStartOf(dir: string, name: string)
    requires '/' !in name
    ensures NameStart(dir + ['/'] + name) == |dir| + 1
  {
    var path := dir + ['/'] + name;
    if name == [] {
    } else {
      NameStartOf(dir, name[..|name| - 1]);
      assert path[..|path| - 1] == dir + ['/'] + name[..|name| - 1];
    }
  }

  lemma {:induction false} StemLengthOf(stem: string, ext: string, k: nat)
    requires stem != [] && '.' !in ext && |stem| < k <= |stem| + 1 + |ext|
    ensures StemLength(stem + ['.'] + ext, k) == |stem|
    decreases k
  {
    var name := stem + ['.'] + ext;
    if k > |stem| + 1 {
      assert name[k - 1] == ext[k - 1 - |stem| - 1];
      StemLengthOf(stem, ext, k - 1);
    }
  }

  /** The temporary file of `dir/stem.ext` is `dir/stem.synthhires-tmp`. */
  lemma TempBeside(dir: string, stem: string, ext: string)
    requires stem != [] && '/' !in stem && '/' !in ext && '.' !in ext
    ensures TempOf(dir + ['/'] + (stem + ['.'] + ext)) == dir + ['/'] + stem + ".synthhires-tmp"
  {
    var name := stem + ['.'] + ext;
    var path := dir + ['/'] + name;
    NameStartOf(dir, name);
    StemLengthOf(stem, ext, |name|);
    assert path[..|dir| + 1] == dir + ['/'] && path[|dir| + 1..] == name && name[..|stem|] == stem;
  }

  lemma {:induction false} NoDotNoStem(name: string, k: nat)
    requires k <= |name| && forall i :: 0 < i < k ==> name[i] != '.'
    ensures StemLength(name, k) == |name|
    decreases k
  {
    if k > 1 { NoDotNoStem(name, k - 1); }
  }

  /** A name without a dot behind its first character keeps all of itself. */
  lemma TempOfPlain(dir: string, name: string)
    requires '/' !in name && forall i :: 0 < i < |name| ==> name[i] != '.'
    ensures TempOf(dir + ['/'] + name) == dir + ['/'] + name + ".synthhires-tmp"
  {
    var path := dir + ['/'] + name;
    NameStartOf(dir, name);
    NoDotNoStem(name, |name|);
    assert path[..|dir| + 1] == dir + ['/'] && path[|dir| + 1..] == name && name[..|name|] == name;
  }

  lemma {:induction false} OthersUntouched(files: Files, plans: seq<Plan>, file: File)
    requires forall i :: 0 <= i < |plans| ==> !Touches(plans[i], file)
    ensures file in WriteAll(files, plans) <==> file in files
    ensures file in files ==> WriteAll(files, plans)[file] == files[file]
  {
    if plans == [] {
    } else {
      assert !Touches(plans[|plans| - 1], file);
      OthersUntouched(files, plans[..|plans| - 1], file);
    }
  }

  /** The last plan that touches a target's path decides it. */
  lemma {:induction false} LastPlanWins(files: Files, plans: seq<Plan>, k: nat)
    requires k < |plans| && forall j :: k < j < |plans| ==> !Touches(plans[j], plans[k].file)
    ensures plans[k].file in WriteAll(files, plans) && WriteAll(files, plans)[plans[k].file] == Rewritten(plans[k])
  {
    var init, last := plans[..|plans| - 1], plans[|plans| - 1];
    WriteLast(files, plans);
    if k < |plans| - 1 {
      assert !Touches(last, plans[k].file);
      LastPlanWins(files, init, k);
      PlacedKeeps(WriteAll(files, init), last, Rewritten(last), plans[k].file);
    }
  }

  lemma WriteLast(files: Files, plans: seq<Plan>)
    requires plans != []
    ensures var last := plans[|plans| - 1];
      WriteAll(files, plans) == Placed(WriteAll(files, plans[..|plans| - 1]), last, Rewritten(last))
  {}

  lemma PlacedKeeps(files: Files, p: Plan, out: seq<byte>, file: File)
    requires !Touches(p, file)
    ensures file in Placed(files, p, out) <==> file in files
    ensures file in files ==> Placed(files, p, out)[file] == files[file]
  {}

  /** A file where a later target puts its temporary file is renamed away. */
  lemma {:induction false} TempRemoves(files: Files, plans: seq<Plan>, j: nat, file: File)
    requires j < |plans| && plans[j].temp == file && plans[j].file != file
    requires forall l :: j < l < |plans| ==> plans[l].file != file
    ensures file !in WriteAll(files, plans)
  {
    if j < |plans| - 1 { TempRemoves(files, plans[..|plans| - 1], j, file); }
  }

  // ------------------------------------------------------- the text of one file

  /** Ordered LSP ranges are never refused, whatever the text. */
  lemma OrderedRangesAreInBounds(source: string, edits: seq<LspEdit>)
    requires forall e :: e in edits ==> P.NotAfter(e.startLine, e.startChar, e.endLine, e.endChar)
    ensures InBounds(|Encode(source)|, RangesOf(source, edits))
  {
    EncodedLength(source);
    forall i | 0 <= i < |edits|
      ensures RangeOf(source, edits[i]).start <= RangeOf(source, edits[i]).end <= ByteLen(source)
    {
      var e := edits[i];
      P.ByteAtMonotone(source, e.startLine, e.startChar, e.endLine, e.endChar);
    }
  }

  lemma RangesCutCleanly(source: string, edits: seq<LspEdit>)
    ensures CleanCuts(Encode(source), RangesOf(source, edits))
  {
    forall i | 0 <= i < |edits|
      ensures var r := RangeOf(source, edits[i]);
        Boundary(Encode(source), r.start) && Boundary(Encode(source), r.end) && Boundary(r.text, 0)
    {
      P.ByteAtIsBoundary(source, edits[i].startLine, edits[i].startChar);
      P.ByteAtIsBoundary(source, edits[i].endLine, edits[i].endChar);
      EncodedStartsClean(edits[i].newText);
    }
  }

  /** Listing insertions first is exactly what makes the rewrite right for
      every choice of replacement texts. */
  lemma InsertionsFirstIsExact(source: seq<byte>, ranges: seq<Edit<byte>>)
    requires InBounds(|source|, ranges) && PairwiseApart(ranges)
    ensures InsertionsFirst(ranges) <==>
      forall b :: SameShape(ranges, b) ==> SortThenBottomUp(source, b) == Simultaneous(source, b)
  {
    TieOrderIsExact(source, ranges, 0, 1);
  }

  /** The edits as ranges of characters. */
  function CharRangeOf(source: string, e: LspEdit): Edit<char> {
    Edit(P.CharAt(source, e.startLine, e.startChar), P.CharAt(source, e.endLine, e.endChar), e.newText)
  }

  function CharRangesOf(source: string, edits: seq<LspEdit>): seq<Edit<char>> {
    seq(|edits|, i requires 0 <= i < |edits| => CharRangeOf(source, edits[i]))
  }

  lemma RangesAreCharRanges(source: string, edits: seq<LspEdit>)
    requires InBounds(|Encode(source)|, RangesOf(source, edits))
    ensures InBounds(|source|, CharRangesOf(source, edits))
    ensures OnBytes(source, CharRangesOf(source, edits)) == RangesOf(source, edits)
  {
    var cs := CharRangesOf(source, edits);
    forall i | 0 <= i < |cs| ensures cs[i].start <= cs[i].end <= |source| {
      assert RangesOf(source, edits)[i] == RangeOf(source, edits[i]);
      AtOrder(source, cs[i].start, cs[i].end);
    }
  }

  /** The simultaneous edit of the bytes is, as a text, that of the characters. */
  lemma EditedText(source: string, edits: seq<LspEdit>)
    requires InBounds(|Encode(source)|, RangesOf(source, edits))
    ensures Simultaneous(Encode(source), RangesOf(source, edits))
         == Encode(Simultaneous(source, CharRangesOf(source, edits)))
  {
    RangesAreCharRanges(source, edits);
    EncodingCommutes(source, CharRangesOf(source, edits), 0);
  }

  // -------------------------------------------------------------------- panics

  /** What acceptance guarantees of a plan: ranges of whole characters, in bounds
      and apart. */
  ghost predicate PlanSound(p: Plan) {
    && InBounds(|Encode(p.source)|, p.ranges) && PairwiseApart(p.ranges)
    && CleanCuts(Encode(p.source), p.ranges)
  }

  /** A plan panics exactly when its sorted ranges cut a character. */
  lemma PlanPanicsIff(p: Plan)
    requires PlanSound(p)
    ensures !Rebuilds(p) <==> CutsCharacter(Encode(p.source), StableSort(ByStart, p.ranges))
  {
    var s := StableSort(ByStart, p.ranges);
    SortAscends(p.ranges);
    BoundsFollowMembers(|Encode(p.source)|, p.ranges, s);
    ApartOfSort(ByStart, p.ranges);
    CleanFollowsMembers(Encode(p.source), p.ranges, s);
    PanicsIff(Encode(p.source), s);
  }

  function Wanted(p: Plan): seq<byte> {
    Simultaneous(Encode(p.source), p.ranges)
  }

  lemma OrderedPlan(p: Plan)
    requires PlanSound(p) && InsertionsFirst(p.ranges)
    ensures Rebuilds(p) && Rewritten(p) == Wanted(p)
  {
    OrderedTiesNeverPanic(Encode(p.source), p.ranges);
  }

  /** With insertions listed first in every target no rename panics. */
  lemma {:induction false} OrderedRenameNeverPanics(plans: seq<Plan>)
    requires forall i :: 0 <= i < |plans| ==> PlanSound(plans[i]) && InsertionsFirst(plans[i].ranges)
    ensures Survived(plans) == |plans| && Ending(plans) == Done(|plans|, EditCount(plans))
  {
    forall i | 0 <= i < |plans| ensures Rebuilding(plans)[i] { OrderedPlan(plans[i]); }
  }

  /** The rename is stopped, with exactly the targets before `k` written, if and
      only if `k` is the first whose sorted ranges cut a character. */
  lemma RenamePanicsIff(plans: seq<Plan>, k: nat)
    requires k < |plans| && forall i :: 0 <= i < |plans| ==> PlanSound(plans[i])
    ensures Ending(plans) == Panicked(k) <==>
      && CutsCharacter(Encode(plans[k].source), StableSort(ByStart, plans[k].ranges))
      && forall i :: 0 <= i < k ==> !CutsCharacter(Encode(plans[i].source), StableSort(ByStart, plans[i].ranges))
  {
    var flags := Rebuilding(plans);
    forall i | 0 <= i < |plans|
      ensures flags[i] <==> !CutsCharacter(Encode(plans[i].source), StableSort(ByStart, plans[i].ranges))
    {
      PlanPanicsIff(plans[i]);
    }
    FirstUnset(flags, k);
  }

  lemma FirstUnset(flags: seq<bool>, k: nat)
    requires k < |flags|
    ensures Leading(flags) == k <==> !flags[k] && forall i :: 0 <= i < k ==> flags[i]
  {
    if !flags[k] && forall i :: 0 <= i < k ==> flags[i] { LeadingIs(flags, k); }
  }

  // ----------------------------------------------------- accepted edits, end to end

  lemma AcceptedPlans(host: Host, writable: set<Path>, files: Files, targets: seq<Target>)
    requires Accepts(host, writable, files, targets)
    ensures var plans := PlansOf(host, writable, files, targets);
      && Ready(plans)
      && forall i :: 0 <= i < |plans| ==> plans[i].file in files && files[plans[i].file] == Encode(plans[i].source)
  {
    var plans := PlansOf(host, writable, files, targets);
    forall i | 0 <= i < |plans|
      ensures PlanSound(plans[i]) && Readable(plans[i])
      ensures plans[i].file in files && Decode(files[plans[i].file]) == Some(plans[i].source)
      ensures files[plans[i].file] == Encode(plans[i].source)
    {
      assert Applicable(host, writable, files, targets[i]) && plans[i] == PlanOf(host, files, targets[i]);
      RangesCutCleanly(plans[i].source, targets[i].edits);
      EncodeDecode(files[plans[i].file]);
      RangesAreReadable(plans[i].source, targets[i].edits);
    }
  }

  lemma RangesAreReadable(source: string, edits: seq<LspEdit>)
    ensures forall j :: 0 <= j < |edits| ==> Decode(RangesOf(source, edits)[j].text).Some?
  {
    forall j | 0 <= j < |edits| ensures Decode(RangesOf(source, edits)[j].text).Some? {
      DecodeEncode(edits[j].newText);
    }
  }

  /** The texts of a plan are UTF-8. */
  predicate Readable(p: Plan) {
    forall j :: 0 <= j < |p.ranges| ==> Decode(p.ranges[j].text).Some?
  }

  /** The plans of an accepted edit: sound, and read before any of them is written. */
  ghost predicate Ready(plans: seq<Plan>) {
    && (forall i :: 0 <= i < |plans| ==> PlanSound(plans[i]) && Readable(plans[i]))
    && (forall i, j :: 0 <= i < |plans| && 0 <= j < |plans| && plans[i].file == plans[j].file ==>
          plans[i].source == plans[j].source)
  }

  /** End to end: an accepted edit that lists insertions first runs to its end, and
      every target whose path no later target touches holds the simultaneous edit
      of the text it held before. */
  lemma AcceptedTargetsLand(host: Host, writable: set<Path>, files: Files, targets: seq<Target>, k: nat)
    requires Accepts(host, writable, files, targets) && k < |targets|
    requires var plans := PlansOf(host, writable, files, targets);
      && (forall i :: 0 <= i < |plans| ==> InsertionsFirst(plans[i].ranges))
      && forall j :: k < j < |plans| ==> !Touches(plans[j], plans[k].file)
    ensures var plans := PlansOf(host, writable, files, targets);
      var p, after := plans[k], WriteAll(files, plans);
      var text := Simultaneous(p.source, CharRangesOf(p.source, targets[k].edits));
      && Ending(plans) == Done(|plans|, EditCount(plans)) && p.file in files && p.file in after
      && files[p.file] == Encode(p.source) && after[p.file] == Encode(text) && Decode(after[p.file]) == Some(text)
  {
    var plans := PlansOf(host, writable, files, targets);
    AcceptedPlans(host, writable, files, targets);
    assert Applicable(host, writable, files, targets[k]) && plans[k] == PlanOf(host, files, targets[k]);
    OrderedRenameNeverPanics(plans);
    LastPlanWins(files, plans, k);
    OrderedPlan(plans[k]);
    EditedText(plans[k].source, targets[k].edits);
    DecodeEncode(Simultaneous(plans[k].source, CharRangesOf(plans[k].source, targets[k].edits)));
  }

  // ------------------------------------------------- when does every target land?

  /** The rename finishes and every target holds its own simultaneous edit. */
  predicate Lands(files: Files, plans: seq<Plan>) {
    && Survived(plans) == |plans|
    && var after := WriteAll(files, plans);
       forall k :: 0 <= k < |plans| ==> plans[k].file in after && after[plans[k].file] == Wanted(plans[k])
  }

  /** The same plans with other replacement texts. */
  predicate Retexted(a: seq<Plan>, b: seq<Plan>) {
    && |a| == |b|
    && forall i :: 0 <= i < |a| ==>
         && a[i].file == b[i].file && a[i].temp == b[i].temp && a[i].source == b[i].source
         && SameShape(a[i].ranges, b[i].ranges) && Readable(b[i])
  }

  /** Targets that share a file edit nothing. */
  predicate Sole(plans: seq<Plan>) {
    forall k, l :: 0 <= k < l < |plans| && plans[k].file == plans[l].file ==> plans[k].ranges == plans[l].ranges == []
  }

  /** A target whose path is a later target's temporary file comes again after it. */
  predicate Unspoiled(plans: seq<Plan>) {
    forall k, j :: 0 <= k < j < |plans| && plans[j].temp == plans[k].file != plans[j].file ==>
      ComesAgain(plans, j, plans[k].file)
  }

  predicate ComesAgain(plans: seq<Plan>, j: nat, file: File) {
    exists l :: j < l < |plans| && plans[l].file == file
  }

  predicate AllOrdered(plans: seq<Plan>) {
    forall i :: 0 <= i < |plans| ==> InsertionsFirst(plans[i].ranges)
  }

  lemma RetextedIsReady(a: seq<Plan>, b: seq<Plan>)
    requires Ready(a) && Retexted(a, b)
    ensures Ready(b)
    ensures AllOrdered(a) ==> AllOrdered(b)
    ensures Sole(a) ==> Sole(b)
    ensures Unspoiled(a) ==> Unspoiled(b)
  {
    forall i | 0 <= i < |b| ensures PlanSound(b[i]) && (InsertionsFirst(a[i].ranges) ==> InsertionsFirst(b[i].ranges)) {
      ShapeDecides(|Encode(a[i].source)|, a[i].ranges, b[i].ranges);
      CleanRetexted(a[i], b[i]);
    }
    if Unspoiled(a) {
      forall k, j | 0 <= k < j < |b| && b[j].temp == b[k].file != b[j].file
        ensures ComesAgain(b, j, b[k].file)
      {
        assert ComesAgain(a, j, a[k].file);
        var l :| j < l < |a| && a[l].file == a[k].file;
        assert b[l].file == b[k].file;
      }
    }
  }

  lemma CleanRetexted(p: Plan, q: Plan)
    requires PlanSound(p) && p.source == q.source && SameShape(p.ranges, q.ranges) && Readable(q)
    ensures CleanCuts(Encode(q.source), q.ranges)
  {
    forall i | 0 <= i < |q.ranges| ensures Boundary(q.ranges[i].text, 0) {
      EncodeDecode(q.ranges[i].text);
      EncodedStartsClean(Decode(q.ranges[i].text).value);
    }
  }

  /** The last plan for a path. */
  lemma {:induction false} LastFor(plans: seq<Plan>, k: nat) returns (l: nat)
    requires k < |plans|
    ensures k <= l < |plans| && plans[l].file == plans[k].file
    ensures forall j :: l < j < |plans| ==> plans[j].file != plans[k].file
    decreases |plans| - k
  {
    if j :| k < j < |plans| && plans[j].file == plans[k].file {
      l := LastFor(plans, j);
    } else {
      l := k;
    }
  }

  lemma NothingToDo(p: Plan)
    requires p.ranges == []
    ensures Wanted(p) == Encode(p.source)
  {
    BottomUpIsSimultaneous(Encode(p.source), p.ranges);
  }

  lemma LastForIsUntouched(plans: seq<Plan>, l: nat)
    requires Unspoiled(plans) && l < |plans| && forall j :: l < j < |plans| ==> plans[j].file != plans[l].file
    ensures forall j :: l < j < |plans| ==> !Touches(plans[j], plans[l].file)
  {
    forall j | l < j < |plans| ensures !Touches(plans[j], plans[l].file) {
      assert !ComesAgain(plans, j, plans[l].file);
    }
  }

  lemma OrderedAndSoleLand(files: Files, plans: seq<Plan>)
    requires Ready(plans) && AllOrdered(plans) && Sole(plans) && Unspoiled(plans)
    ensures Lands(files, plans)
  {
    OrderedRenameNeverPanics(plans);
    forall k | 0 <= k < |plans|
      ensures plans[k].file in WriteAll(files, plans) && WriteAll(files, plans)[plans[k].file] == Wanted(plans[k])
    {
      OneLands(files, plans, k);
    }
  }

  lemma OneLands(files: Files, plans: seq<Plan>, k: nat)
    requires Ready(plans) && AllOrdered(plans) && Sole(plans) && Unspoiled(plans) && k < |plans|
    ensures plans[k].file in WriteAll(files, plans) && WriteAll(files, plans)[plans[k].file] == Wanted(plans[k])
  {
    var l := LastFor(plans, k);
    LastForIsUntouched(plans, l);
    LastPlanWins(files, plans, l);
    OrderedPlan(plans[l]);
    if k < l {
      NothingToDo(plans[k]);
      NothingToDo(plans[l]);
    }
  }

  // ------------------------------------------------------------ and when not

  lemma SelfRetexted(plans: seq<Plan>)
    requires Ready(plans)
    ensures Retexted(plans, plans)
  {}

  lemma SpoiledIsLost(files: Files, plans: seq<Plan>)
    requires !Unspoiled(plans)
    ensures !Lands(files, plans)
  {
    var k, j :| 0 <= k < j < |plans| && plans[j].temp == plans[k].file != plans[j].file
      && !ComesAgain(plans, j, plans[k].file);
    assert forall l :: j < l < |plans| ==> plans[l].file != plans[k].file;
    TempRemoves(files, plans, j, plans[k].file);
  }

  lemma {:induction false} AsciiDecodes(bs: seq<byte>)
    requires forall i :: 0 <= i < |bs| ==> bs[i] < 0x80
    ensures Decode(bs).Some?
  {
    if bs == [] {
    } else {
      AsciiDecodes(bs[1..]);
    }
  }

  lemma {:induction false} InsertedAtLeast<T>(edits: seq<Edit<T>>, i: nat)
    requires i < |edits|
    ensures |InsertedAt(edits, edits[i].start)| >= |edits[i].text|
  {
    if i == 0 {
    } else {
      InsertedAtLeast(edits[1..], i - 1);
    }
  }

  /** Every text of a batch is in the result. */
  lemma {:induction false} SimAtLeast<T>(src: seq<T>, edits: seq<Edit<T>>, p: nat, i: nat)
    requires i < |edits| && p <= edits[i].start <= |src|
    ensures |SimFrom(src, edits, p)| >= |edits[i].text|
    decreases edits[i].start - p
  {
    if p < edits[i].start {
      SimAtLeast(src, edits, p + 1, i);
    } else {
      InsertedAtLeast(edits, i);
    }
  }

  lemma {:induction false} NothingInsertedBlank<T>(edits: seq<Edit<T>>, p: nat)
    requires forall i :: 0 <= i < |edits| ==> edits[i].text == []
    ensures InsertedAt(edits, p) == []
  {
    if edits == [] {
    } else {
      NothingInsertedBlank(edits[1..], p);
    }
  }

  /** Without texts nothing is added. */
  lemma {:induction false} SimAtMost<T>(src: seq<T>, edits: seq<Edit<T>>, p: nat)
    requires p <= |src| && forall i :: 0 <= i < |edits| ==> edits[i].text == []
    ensures |SimFrom(src, edits, p)| <= |src| - p
    decreases |src| - p
  {
    NothingInsertedBlank(edits, p);
    if p < |src| { SimAtMost(src, edits, p + 1); }
  }

  /** The plan with every text emptied but the first, which becomes `text`. */
  function Reworded(p: Plan, text: seq<byte>): (q: Plan)
    ensures q.file == p.file && q.temp == p.temp && q.source == p.source && SameShape(p.ranges, q.ranges)
    ensures forall i :: 0 <= i < |q.ranges| ==> q.ranges[i].text == if i == 0 then text else []
  {
    Plan(p.file, p.temp, p.source, seq(|p.ranges|, i requires 0 <= i < |p.ranges| =>
      Edit(p.ranges[i].start, p.ranges[i].end, if i == 0 then text else [])))
  }

  /** All plans blanked, but plan `m` given a first text. */
  function OneText(plans: seq<Plan>, m: nat, text: seq<byte>): (b: seq<Plan>)
    ensures |b| == |plans|
    ensures forall i :: 0 <= i < |plans| ==> b[i] == Reworded(plans[i], if i == m then text else [])
  {
    seq(|plans|, i requires 0 <= i < |plans| => Reworded(plans[i], if i == m then text else []))
  }

  lemma OneTextIsRetexted(plans: seq<Plan>, m: nat, n: nat)
    ensures Retexted(plans, OneText(plans, m, Repeat(97, n)))
  {
    var b := OneText(plans, m, Repeat(97, n));
    AsciiDecodes(Repeat(97, n));
    forall i | 0 <= i < |b| ensures Readable(b[i]) {
      assert b[i] == Reworded(plans[i], if i == m then Repeat(97, n) else []);
    }
  }

  /** Two targets of one file that want different texts cannot both land. */
  lemma SharedFileFails(files: Files, plans: seq<Plan>, m: nat, o: nat) returns (b: seq<Plan>)
    requires Ready(plans) && m < |plans| && o < |plans| && m != o
    requires plans[m].file == plans[o].file && plans[m].ranges != []
    ensures Retexted(plans, b) && !Lands(files, b)
  {
    var src := Encode(plans[m].source);
    b := OneText(plans, m, Repeat(97, |src| + 1));
    OneTextIsRetexted(plans, m, |src| + 1);
    assert b[m] == Reworded(plans[m], Repeat(97, |src| + 1)) && b[o] == Reworded(plans[o], []);
    SourceLonger(src, b[m].ranges, b[o].ranges);
    assert Wanted(b[m]) != Wanted(b[o]);
  }

  lemma SourceLonger(src: seq<byte>, full: seq<Edit<byte>>, blank: seq<Edit<byte>>)
    requires full != [] && full[0].start <= |src| && |full[0].text| > |src|
    requires forall i :: 0 <= i < |blank| ==> blank[i].text == []
    ensures Simultaneous(src, full) != Simultaneous(src, blank)
  {
    SimAtLeast(src, full, 0, 0);
    SimAtMost(src, blank, 0);
  }

  lemma TextsDecode(edits: seq<Edit<byte>>)
    requires forall i :: 0 <= i < |edits| ==> OnlyOf(edits[i].text, 97, 98)
    ensures forall i :: 0 <= i < |edits| ==> Decode(edits[i].text).Some?
  {
    forall i | 0 <= i < |edits| ensures Decode(edits[i].text).Some? {
      assert OnlyOf(edits[i].text, 97, 98);
      AsciiDecodes(edits[i].text);
    }
  }

  /** A misordered target goes wrong for some texts. */
  lemma MisorderedFails(files: Files, plans: seq<Plan>, k: nat) returns (b: seq<Plan>)
    requires Ready(plans) && Sole(plans) && Unspoiled(plans)
    requires k < |plans| && !InsertionsFirst(plans[k].ranges)
    ensures Retexted(plans, b) && !Lands(files, b)
  {
    var p := plans[k];
    var bad := TieBreaksIt(Encode(p.source), p.ranges, 97, 98);
    TextsDecode(bad);
    b := plans[k := Plan(p.file, p.temp, p.source, bad)];
    assert Readable(b[k]) && Retexted(plans, b);
    RetextedIsReady(plans, b);
    forall j | k < j < |b| ensures b[j].file != b[k].file { assert plans[j].file == plans[k].file ==> p.ranges == []; }
    LastForIsUntouched(b, k);
    LastPlanWins(files, b, k);
  }

  /** Finishing with every target landed, whatever the replacement texts, takes
      exactly three things: every target lists insertions first, targets that share
      a file edit nothing, and no target sits where a later one puts its temporary
      file, unless it comes again. */
  lemma RenameIsExact(files: Files, plans: seq<Plan>)
    requires Ready(plans)
    ensures AllOrdered(plans) && Sole(plans) && Unspoiled(plans) <==>
      forall b :: Retexted(plans, b) ==> Lands(files, b)
  {
    if !Unspoiled(plans) {
      SelfRetexted(plans);
      SpoiledIsLost(files, plans);
    } else if !Sole(plans) {
      var k, l :| 0 <= k < l < |plans| && plans[k].file == plans[l].file && !(plans[k].ranges == plans[l].ranges == []);
      if plans[k].ranges != [] {
        var b := SharedFileFails(files, plans, k, l);
      } else {
        var b := SharedFileFails(files, plans, l, k);
      }
    } else if !AllOrdered(plans) {
      var k :| 0 <= k < |plans| && !InsertionsFirst(plans[k].ranges);
      var b := MisorderedFails(files, plans, k);
    } else {
      forall b | Retexted(plans, b) ensures Lands(files, b) {
        RetextedIsReady(plans, b);
        OrderedAndSoleLand(files, b);
      }
    }
  }

  /** The exact condition, for the plans of any accepted edit. */
  lemma AcceptedRenameIsExact(host: Host, writable: set<Path>, files: Files, targets: seq<Target>)
    requires Accepts(host, writable, files, targets)
    ensures var plans := PlansOf(host, writable, files, targets);
      AllOrdered(plans) && Sole(plans) && Unspoiled(plans) <==>
        forall b :: Retexted(plans, b) ==> Lands(files, b)
  {
    AcceptedPlans(host, writable, files, targets);
    RenameIsExact(files, PlansOf(host, writable, files, targets));
  }

  // -------------------------------------------------------------- three inputs

  lemma NoEdits(p: Plan)
    requires p.ranges == []
    ensures PlanSound(p) && InsertionsFirst(p.ranges) && Rewritten(p) == Encode(p.source)
  {}

  function Inserted(file: File, temp: File, text: string): Plan {
    Plan(file, temp, "", [Edit(0, 0, Encode(text))])
  }

  /** The plan of one insertion at the start of an empty file. */
  lemma InsertIntoEmpty(file: File, temp: File, text: string)
    ensures RangesOf("", [LspEdit(0, 0, 0, 0, text)]) == [Edit(0, 0, Encode(text))]
    ensures var p := Inserted(file, temp, text);
      PlanSound(p) && InsertionsFirst(p.ranges) && Rewritten(p) == Encode(text)
  {
    var edits, p := [LspEdit(0, 0, 0, 0, text)], Inserted(file, temp, text);
    assert P.ByteAt("", 0, 0) == 0;
    assert RangesOf("", edits) == p.ranges;
    RangesCutCleanly("", edits);
    OrderedPlan(p);
    OnlyInsertion(Encode(text));
  }

  lemma OnlyInsertion(text: seq<byte>)
    ensures Simultaneous([], [Edit(0, 0, text)]) == text
  {
    var edits := [Edit(0, 0, text)];
    assert edits[1..] == [] && InsertedAt(edits, 0) == text + [] == text;
  }

  lemma TwoTargets(host: Host, writable: set<Path>, files: Files,
                   t: Target, u: Target, p: Plan, q: Plan)
    requires Applicable(host, writable, files, t) && PlanOf(host, files, t) == p && PairwiseApart(p.ranges)
    requires Applicable(host, writable, files, u) && PlanOf(host, files, u) == q && PairwiseApart(q.ranges)
    ensures Accepts(host, writable, files, [t, u]) && PlansOf(host, writable, files, [t, u]) == [p, q]
  {
    var targets := [t, u];
    assert forall i :: 0 <= i < 2 ==> Applicable(host, writable, files, targets[i]);
    assert PlansOf(host, writable, files, targets) == [p, q];
  }

  /** The host reads `uri` as the path of `file`, with `temp` for its temporary file. */
  predicate Names(host: Host, uri: string, file: File, temp: File) {
    PathOf(host, uri).Some? && host.locate(PathOf(host, uri).value) == file
    && host.locate(TempOf(PathOf(host, uri).value)) == temp
  }

  predicate MayWrite(host: Host, uri: string, writable: set<Path>) {
    PathOf(host, uri).Some? && PathOf(host, uri).value in writable
  }

  lemma InsertApplies(host: Host, writable: set<Path>, files: Files, uri: string, file: File, temp: File)
    requires Names(host, uri, file, temp) && MayWrite(host, uri, writable) && file in files && files[file] == []
    ensures var t := Target(uri, [LspEdit(0, 0, 0, 0, "x")]);
      Applicable(host, writable, files, t) && PlanOf(host, files, t) == Inserted(file, temp, "x")
  {
    InsertIntoEmpty(file, temp, "x");
  }

  lemma NothingApplies(host: Host, writable: set<Path>, files: Files, uri: string, file: File, temp: File)
    requires Names(host, uri, file, temp) && MayWrite(host, uri, writable) && file in files && files[file] == []
    ensures Applicable(host, writable, files, Target(uri, []))
    ensures PlanOf(host, files, Target(uri, [])) == Plan(file, temp, "", [])
  {
    assert RangesOf("", []) == [];
  }

  /** Two targets of one file, spelt alike or not: the insertion of the first is
      lost. */
  lemma EarlierTargetIsLost(host: Host, writable: set<Path>, u: string, v: string, file: File, a: File, b: File)
    requires Names(host, u, file, a) && Names(host, v, file, b)
    requires MayWrite(host, u, writable) && MayWrite(host, v, writable)
    ensures var files: Files := map[file := []];
      var targets := [Target(u, [LspEdit(0, 0, 0, 0, "x")]), Target(v, [])];
      && Accepts(host, writable, files, targets)
      && var plans := PlansOf(host, writable, files, targets);
         var after := WriteAll(files, plans);
         Ending(plans) == Done(2, 1) && file in after && after[file] == []
  {
    var files: Files := map[file := []];
    var t, none := Target(u, [LspEdit(0, 0, 0, 0, "x")]), Target(v, []);
    var first, second := Inserted(file, a, "x"), Plan(file, b, "", []);
    InsertApplies(host, writable, files, u, file, a);
    NothingApplies(host, writable, files, v, file, b);
    InsertIntoEmpty(file, a, "x");
    NoEdits(second);
    TwoTargets(host, writable, files, t, none, first, second);
    SecondWins(files, first, second);
  }

  lemma SecondWins(files: Files, first: Plan, second: Plan)
    requires PlanSound(first) && InsertionsFirst(first.ranges) && PlanSound(second) && InsertionsFirst(second.ranges)
    ensures var after := WriteAll(files, [first, second]);
      && Ending([first, second]) == Done(2, |first.ranges| + |second.ranges|)
      && second.file in after && after[second.file] == Rewritten(second)
  {
    BothDone([first, second], first, second);
    CountTwo(first, second);
    SecondLands(files, first, second);
  }

  lemma BothDone(plans: seq<Plan>, first: Plan, second: Plan)
    requires plans == [first, second]
    requires PlanSound(first) && InsertionsFirst(first.ranges) && PlanSound(second) && InsertionsFirst(second.ranges)
    ensures Ending(plans) == Done(2, EditCount(plans))
  {
    OrderedPlan(first);
    OrderedPlan(second);
    assert Rebuilding(plans)[0] && Rebuilding(plans)[1];
  }

  lemma SecondLands(files: Files, first: Plan, second: Plan)
    ensures var after := WriteAll(files, [first, second]);
      second.file in after && after[second.file] == Rewritten(second)
  {
    LastPlanWins(files, [first, second], 1);
  }

  lemma CountTwo(p: Plan, q: Plan)
    ensures EditCount([p, q]) == |p.ranges| + |q.ranges|
  {
    assert [p, q][..1] == [p] && [p][..0] == [];
    assert EditCount([p]) == |p.ranges|;
  }

  const ACCENT: char := '\U{E9}'

  lemma AccentBytes()
    ensures Encode([ACCENT]) == [0xC3, 0xA9] && Encode(['a', ACCENT]) == [0x61, 0xC3, 0xA9]
  {
    assert [ACCENT][1..] == [] && ['a', ACCENT][1..] == [ACCENT];
    assert EncodeChar('a') == [0x61] && EncodeChar(ACCENT) == [0xC3, 0xA9];
  }

  function AccentDeleted(file: File, temp: File): Plan {
    Plan(file, temp, [ACCENT], [Edit(0, 2, []), Edit(0, 0, [0x61, 0xC3, 0xA9])])
  }

  /** An accented letter deleted, listed before the insertion of "a" and an accented
      letter at its start. */
  lemma AccentPlan(file: File, temp: File)
    ensures RangesOf([ACCENT], [LspEdit(0, 0, 0, 1, ""), LspEdit(0, 0, 0, 0, ['a', ACCENT])])
         == AccentDeleted(file, temp).ranges
    ensures var p := AccentDeleted(file, temp);
      PlanSound(p) && CutsCharacter(Encode(p.source), StableSort(ByStart, p.ranges))
  {
    var source := [ACCENT];
    var edits := [LspEdit(0, 0, 0, 1, ""), LspEdit(0, 0, 0, 0, ['a', ACCENT])];
    AccentBytes();
    AccentPositions();
    RangesCutCleanly(source, edits);
    var ranges := AccentDeleted(file, temp).ranges;
    assert RangesOf(source, edits) == ranges;
    SortOfTwo(ranges[0], ranges[1]);
    AccentCuts(Encode(source), ranges);
  }

  lemma AccentPositions()
    ensures P.ByteAt([ACCENT], 0, 0) == 0 && P.ByteAt([ACCENT], 0, 1) == 2
  {
    var s := [ACCENT];
    assert s[1..] == [] && P.FirstLine(s) == 1 && s[..1] == s;
    assert P.CharsBefore(s, 1) == 1 && P.CharsBefore(s, 0) == 0;
    assert ByteLen(s) == 2;
  }

  lemma SortOfTwo(a: Edit<byte>, b: Edit<byte>)
    requires a.start <= b.start
    ensures StableSort(ByStart, [a, b]) == [a, b]
  {
    assert [a, b][1..] == [b] && [b][1..] == [];
    assert StableSort(ByStart, [b]) == [b];
  }

  lemma AccentCuts(src: seq<byte>, s: seq<Edit<byte>>)
    requires src == [0xC3, 0xA9] && s == [Edit(0, 2, []), Edit(0, 0, [0x61, 0xC3, 0xA9])]
    ensures HeadCuts(src, s)
  {
    assert s[1..] == [s[1]] && s[1..][1..] == [];
    assert InsertedAt(s[1..], 0) == s[1].text + [] == s[1].text;
    assert (s[1].text + src[0..])[2] == 0xA9;
  }

  /** A misordered tie in the second target stops the rename with the first target
      already written. */
  lemma MisorderedTiePanics(host: Host, writable: set<Path>, u: string, v: string,
                            f: File, a: File, g: File, b: File)
    requires Names(host, u, f, a) && Names(host, v, g, b) && MayWrite(host, u, writable) && MayWrite(host, v, writable)
    requires f != g && a != g
    ensures var files: Files := map[f := [], g := [0xC3, 0xA9]];
      var targets := [Target(u, [LspEdit(0, 0, 0, 0, "x")]),
                      Target(v, [LspEdit(0, 0, 0, 1, ""), LspEdit(0, 0, 0, 0, ['a', ACCENT])])];
      && Accepts(host, writable, files, targets)
      && var plans := PlansOf(host, writable, files, targets);
         var after := WriteAll(files, plans[..1]);
         && Ending(plans) == Panicked(1)
         && f in after && after[f] == Encode("x") && g in after && after[g] == files[g]
  {
    var files: Files := map[f := [], g := [0xC3, 0xA9]];
    var t := Target(u, [LspEdit(0, 0, 0, 0, "x")]);
    var s := Target(v, [LspEdit(0, 0, 0, 1, ""), LspEdit(0, 0, 0, 0, ['a', ACCENT])]);
    var first, second := Inserted(f, a, "x"), AccentDeleted(g, b);
    InsertApplies(host, writable, files, u, f, a);
    AccentApplies(host, writable, files, s, g, b);
    InsertIntoEmpty(f, a, "x");
    AccentPlan(g, b);
    TwoTargets(host, writable, files, t, s, first, second);
    StoppedAtSecond(files, first, second);
  }

  lemma AccentApplies(host: Host, writable: set<Path>, files: Files, t: Target, file: File, temp: File)
    requires Names(host, t.uri, file, temp) && MayWrite(host, t.uri, writable)
    requires file in files && files[file] == [0xC3, 0xA9]
    requires t.edits == [LspEdit(0, 0, 0, 1, ""), LspEdit(0, 0, 0, 0, ['a', ACCENT])]
    ensures Applicable(host, writable, files, t) && PlanOf(host, files, t) == AccentDeleted(file, temp)
  {
    AccentPlan(file, temp);
    AccentBytes();
    DecodeEncode([ACCENT]);
  }

  lemma StoppedAtSecond(files: Files, first: Plan, second: Plan)
    requires PlanSound(first) && InsertionsFirst(first.ranges) && PlanSound(second)
    requires CutsCharacter(Encode(second.source), StableSort(ByStart, second.ranges))
    requires second.file in files && !Touches(first, second.file)
    ensures Ending([first, second]) == Panicked(1)
    ensures var after := WriteAll(files, [first, second][..1]);
      && first.file in after && after[first.file] == Rewritten(first)
      && second.file in after && after[second.file] == files[second.file]
  {
    OrderedPlan(first);
    PlanPanicsIff(second);
    SecondPanics(first, second);
    assert [first, second][..1] == [first];
    OneWritten(files, first, second.file);
  }

  lemma SecondPanics(first: Plan, second: Plan)
    requires Rebuilds(first) && !Rebuilds(second)
    ensures Ending([first, second]) == Panicked(1)
  {
    FirstUnset(Rebuilding([first, second]), 1);
  }

  lemma OneWritten(files: Files, p: Plan, other: File)
    requires other in files && !Touches(p, other)
    ensures var after := WriteAll(files, [p]);
      p.file in after && after[p.file] == Rewritten(p) && other in after && after[other] == files[other]
  {
    LastPlanWins(files, [p], 0);
    OthersUntouched(files, [p], other);
  }
}
