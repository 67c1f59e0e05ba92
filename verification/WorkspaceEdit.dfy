/**
 Applying a server-computed WorkspaceEdit, lsp_ops.rs:667-747: gather every
 target, refuse the whole edit on any bad target, then rewrite file by file.
 */
module WorkspaceEdit {
  import opened Wrappers
  import opened Utf8
  import opened TextEdits
  import opened EditAlgorithms
  import opened Seqs
  import opened TextReplace
  import P = Positions
  import U = FileUri

  type Path = string

  /** A file, as the file system tells files apart: several paths may name one. */
  type File = string

  type Files = map<File, seq<byte>>

  /** What the libraries and the file system of the host decide: the text of bytes
      that may not be UTF-8, and the file a path names. */
  datatype Host = Host(lossy: seq<byte> -> string, locate: Path -> File)

  datatype LspEdit = LspEdit(startLine: nat, startChar: nat, endLine: nat, endChar: nat, newText: string)

  datatype Target = Target(uri: string, edits: seq<LspEdit>)

  datatype Refusal = EmptyEdit | UnsupportedUri | Denied | Unreadable | InvalidRange | Overlapping

  datatype Plan = Plan(file: File, temp: File, source: string, ranges: seq<Edit<byte>>)

  /** How a rename ends: finished, refused before anything is written, or stopped
      by a panic with the files of the first targets already written. */
  datatype Outcome = Done(files: nat, edits: nat) | Refused(why: Refusal) | Panicked(written: nat)

  // ---------------------------------------------------------- one file's edits

  /** The byte range and replacement bytes of one LSP edit. */
  function RangeOf(source: string, e: LspEdit): Edit<byte> {
    Edit(P.ByteAt(source, e.startLine, e.startChar), P.ByteAt(source, e.endLine, e.endChar), Encode(e.newText))
  }

  function RangesOf(source: string, edits: seq<LspEdit>): seq<Edit<byte>> {
    seq(|edits|, i requires 0 <= i < |edits| => RangeOf(source, edits[i]))
  }

  method GatherRanges(source: string, edits: seq<LspEdit>) returns (r: Result<seq<Edit<byte>>, Refusal>)
    ensures r.Ok? <==> InBounds(|Encode(source)|, RangesOf(source, edits))
    ensures r.Ok? ==> r.value == RangesOf(source, edits)
    ensures r.Err? ==> r.error == InvalidRange
  {
    EncodedLength(source);
    var ranges: seq<Edit<byte>> := [];
    for i := 0 to |edits|
      invariant ranges == RangesOf(source, edits)[..i] && InBounds(ByteLen(source), ranges)
    {
      var start := P.LineColToByte(source, edits[i].startLine, edits[i].startChar);
      var end := P.LineColToByte(source, edits[i].endLine, edits[i].endChar);
      if start > end || end > ByteLen(source) {
        assert RangesOf(source, edits)[i] == RangeOf(source, edits[i]);
        return Err(InvalidRange);
      }
      ranges := ranges + [Edit(start, end, Encode(edits[i].newText))];
    }
    return Ok(ranges);
  }

  /** The overlap scan: stable sort by (start, end), then neighbours. */
  method FindsOverlap(n: nat, ranges: seq<Edit<byte>>) returns (overlap: bool)
    requires InBounds(n, ranges)
    ensures overlap <==> !PairwiseApart(ranges)
  {
    OverlapScanIsPairwise(n, ranges);
    overlap := NeighboursOverlap(StableSort(ByStartThenEnd, ranges));
  }

  method NeighboursOverlap(sorted: seq<Edit<byte>>) returns (overlap: bool)
    ensures overlap <==> !NeighboursApart(sorted)
  {
    var i := 0;
    while i + 1 < |sorted|
      invariant forall k :: 0 <= k < i && k < |sorted| - 1 ==> sorted[k].end <= sorted[k + 1].start
    {
      if sorted[i + 1].start < sorted[i].end {
        return true;
      }
      i := i + 1;
    }
    return false;
  }

  /** The rewriting loop: stable sort by start, reverse, replace in place; None is
      the panic of `replace_range`. */
  method ApplyRanges(source: string, ranges: seq<Edit<byte>>) returns (r: Option<seq<byte>>)
    ensures r == BottomUpText(Encode(source), StableSort(ByStart, ranges))
  {
    var sorted := StableSort(ByStart, ranges);
    var out := Encode(source);
    var i := |sorted|;
    assert sorted[i..] == [] && sorted[0..] == sorted;
    while i > 0
      invariant i <= |sorted| && BottomUpText(Encode(source), sorted[i..]) == Some(out)
    {
      i := i - 1;
      assert sorted[i..][1..] == sorted[i + 1..];
      var replaced := ReplaceText(out, sorted[i]);
      if replaced.None? {
        LaterPanics(Encode(source), sorted, i);
        return None;
      }
      out := replaced.value;
    }
    return Some(out);
  }

  lemma {:induction false} LaterPanics(src: seq<byte>, s: seq<Edit<byte>>, i: nat)
    requires i <= |s| && BottomUpText(src, s[i..]).None?
    ensures BottomUpText(src, s).None?
  {
    if i == 0 {
      assert s[0..] == s;
    } else {
      assert s[i - 1..][1..] == s[i..];
      LaterPanics(src, s, i - 1);
    }
  }

  // -------------------------------------------------------------- all targets

  function PathOf(host: Host, uri: string): Option<Path> {
    match U.UriToBytesSpec(uri)
    case None => None
    case Some(bs) => Some(host.lossy(bs))
  }

  /** A target the edit can go through with. */
  predicate Applicable(host: Host, writable: set<Path>, files: Files, t: Target) {
    && PathOf(host, t.uri).Some?
    && var path := PathOf(host, t.uri).value;
    && var file := host.locate(path);
    && path in writable && file in files && Decode(files[file]).Some?
    && var source := Decode(files[file]).value;
    && InBounds(|Encode(source)|, RangesOf(source, t.edits))
  }

  /** The first test a target fails. */
  function ReasonAgainst(host: Host, writable: set<Path>, files: Files, t: Target): Refusal {
    var path := PathOf(host, t.uri);
    if path.None? then UnsupportedUri
    else if path.value !in writable then Denied
    else if host.locate(path.value) !in files || Decode(files[host.locate(path.value)]).None? then Unreadable
    else InvalidRange
  }

  function PlanOf(host: Host, files: Files, t: Target): Plan
    requires PathOf(host, t.uri).Some? && host.locate(PathOf(host, t.uri).value) in files
    requires Decode(files[host.locate(PathOf(host, t.uri).value)]).Some?
  {
    var path := PathOf(host, t.uri).value;
    var source := Decode(files[host.locate(path)]).value;
    Plan(host.locate(path), host.locate(TempOf(path)), source, RangesOf(source, t.edits))
  }

  predicate AllApplicable(host: Host, writable: set<Path>, files: Files, targets: seq<Target>) {
    forall i :: 0 <= i < |targets| ==> Applicable(host, writable, files, targets[i])
  }

  function PlansOf(host: Host, writable: set<Path>, files: Files, targets: seq<Target>): seq<Plan>
    requires AllApplicable(host, writable, files, targets)
  {
    seq(|targets|, i requires 0 <= i < |targets| && Applicable(host, writable, files, targets[i]) =>
      PlanOf(host, files, targets[i]))
  }

  /** The whole edit is accepted: something to do, every target applicable, and
      no two ranges of one target overlap. */
  predicate Accepts(host: Host, writable: set<Path>, files: Files, targets: seq<Target>) {
    && targets != []
    && AllApplicable(host, writable, files, targets)
    && var plans := PlansOf(host, writable, files, targets);
      forall i :: 0 <= i < |plans| ==> PairwiseApart(plans[i].ranges)
  }

  /** The bytes a plan builds, or the panic. */
  function Rebuilt(p: Plan): Option<seq<byte>> {
    BottomUpText(Encode(p.source), StableSort(ByStart, p.ranges))
  }

  function Rewritten(p: Plan): seq<byte> {
    SortThenBottomUp(Encode(p.source), p.ranges)
  }

  /** Where the file name of a slash-separated path starts. */
  function NameStart(path: Path): (k: nat)
    ensures k <= |path|
  {
    if path == [] || path[|path| - 1] == '/' then |path| else NameStart(path[..|path| - 1])
  }

  /** Length of a file name without its extension; a leading dot starts none. */
  function StemLength(name: string, k: nat): (n: nat)
    requires k <= |name|
    ensures n <= |name|
  {
    if k <= 1 then |name| else if name[k - 1] == '.' then k - 1 else StemLength(name, k - 1)
  }

  /** `path.with_extension("synthhires-tmp")`. */
  function TempOf(path: Path): Path {
    var name := path[NameStart(path)..];
    path[..NameStart(path)] + name[..StemLength(name, |name|)] + ".synthhires-tmp"
  }

  /** Write the temporary file beside the target, then rename it onto the target. */
  function Placed(files: Files, p: Plan, out: seq<byte>): Files {
    (files - {p.temp})[p.file := out]
  }

  function WriteAll(files: Files, plans: seq<Plan>): Files {
    if plans == [] then files
    else
      var last := plans[|plans| - 1];
      Placed(WriteAll(files, plans[..|plans| - 1]), last, Rewritten(last))
  }

  predicate Rebuilds(p: Plan) {
    Rebuilt(p).Some?
  }

  /** Which plans go through without a panic. */
  function Rebuilding(plans: seq<Plan>): (flags: seq<bool>)
    ensures |flags| == |plans| && forall i :: 0 <= i < |plans| ==> flags[i] == Rebuilds(plans[i])
  {
    seq(|plans|, i requires 0 <= i < |plans| => Rebuilds(plans[i]))
  }

  /** How many plans are written before the first that panics. */
  function Survived(plans: seq<Plan>): (k: nat)
    ensures k <= |plans|
  {
    Leading(Rebuilding(plans))
  }

  lemma SurvivedStep(plans: seq<Plan>, i: nat)
    requires i < |plans| && i <= Survived(plans)
    ensures Rebuilds(plans[i]) <==> i < Survived(plans)
  {
    assert Rebuilding(plans)[i] == Rebuilds(plans[i]);
  }

  function Ending(plans: seq<Plan>): Outcome {
    if Survived(plans) == |plans| then Done(|plans|, EditCount(plans)) else Panicked(Survived(plans))
  }

  /** What an accepted edit leaves, and how it ends. */
  function Renamed(host: Host, writable: set<Path>, files: Files, targets: seq<Target>): (Files, Outcome)
    requires Accepts(host, writable, files, targets)
  {
    var plans := PlansOf(host, writable, files, targets);
    (WriteAll(files, plans[..Survived(plans)]), Ending(plans))
  }

  function EditCount(plans: seq<Plan>): nat {
    if plans == [] then 0 else EditCount(plans[..|plans| - 1]) + |plans[|plans| - 1].ranges|
  }

  lemma PlansInBounds(host: Host, writable: set<Path>, files: Files, targets: seq<Target>)
    requires AllApplicable(host, writable, files, targets)
    ensures var plans := PlansOf(host, writable, files, targets);
      forall i :: 0 <= i < |plans| ==> InBounds(|Encode(plans[i].source)|, plans[i].ranges)
  {
    var plans := PlansOf(host, writable, files, targets);
    forall i | 0 <= i < |plans| ensures InBounds(|Encode(plans[i].source)|, plans[i].ranges) {
      assert Applicable(host, writable, files, targets[i]);
    }
  }

  method AnyOverlap(plans: seq<Plan>) returns (overlap: bool)
    requires forall i :: 0 <= i < |plans| ==> InBounds(|Encode(plans[i].source)|, plans[i].ranges)
    ensures overlap <==> exists i :: 0 <= i < |plans| && !PairwiseApart(plans[i].ranges)
  {
    for i := 0 to |plans|
      invariant forall k :: 0 <= k < i ==> PairwiseApart(plans[k].ranges)
    {
      var found := FindsOverlap(|Encode(plans[i].source)|, plans[i].ranges);
      if found { return true; }
    }
    return false;
  }

  method RebuildPlan(p: Plan) returns (r: Option<seq<byte>>)
    ensures r.Some? <==> Rebuilds(p)
    ensures r.Some? ==> r.value == Rewritten(p)
  {
    r := ApplyRanges(p.source, p.ranges);
  }

  lemma WriteSnoc(files: Files, plans: seq<Plan>, i: nat)
    requires i < |plans|
    ensures WriteAll(files, plans[..i + 1]) == Placed(WriteAll(files, plans[..i]), plans[i], Rewritten(plans[i]))
    ensures EditCount(plans[..i + 1]) == EditCount(plans[..i]) + |plans[i].ranges|
  {
    assert plans[..i + 1][..i] == plans[..i];
  }

  class Workspace {
    var files: Files
    const writable: set<Path>
    const host: Host

    constructor (files: Files, writable: set<Path>, host: Host)
      ensures this.files == files && this.writable == writable && this.host == host
    {
      this.files, this.writable, this.host := files, writable, host;
    }

    method GatherTarget(t: Target) returns (r: Result<Plan, Refusal>)
      ensures r.Ok? <==> Applicable(host, writable, files, t)
      ensures r.Ok? ==> r.value == PlanOf(host, files, t)
      ensures r.Err? ==> r.error == ReasonAgainst(host, writable, files, t)
    {
      var decoded := U.UriToBytes(t.uri);
      if decoded.None? { return Err(UnsupportedUri); }
      var path := host.lossy(decoded.value);
      if path !in writable { return Err(Denied); }
      var file := host.locate(path);
      if file !in files { return Err(Unreadable); }
      var source := Decode(files[file]);
      if source.None? { return Err(Unreadable); }
      var ranges := GatherRanges(source.value, t.edits);
      match ranges {
        case Err(e) => return Err(e);
        case Ok(rs) => return Ok(Plan(file, host.locate(TempOf(path)), source.value, rs));
      }
    }

    method Gather(targets: seq<Target>) returns (r: Result<seq<Plan>, Refusal>)
      ensures r.Ok? <==> AllApplicable(host, writable, files, targets)
      ensures r.Ok? ==> r.value == PlansOf(host, writable, files, targets)
      ensures r.Err? ==> RefusedFor(targets, r.error)
    {
      var plans: seq<Plan> := [];
      for i := 0 to |targets|
        invariant |plans| == i
        invariant forall k :: 0 <= k < i ==>
          Applicable(host, writable, files, targets[k]) && plans[k] == PlanOf(host, files, targets[k])
      {
        var p := GatherTarget(targets[i]);
        match p {
          case Err(e) => return Err(e);
          case Ok(plan) => plans := plans + [plan];
        }
      }
      return Ok(plans);
    }

    /** The first inapplicable target gives the reason. */
    predicate RefusedFor(targets: seq<Target>, e: Refusal)
      reads this
    {
      exists k :: 0 <= k < |targets| && !Applicable(host, writable, files, targets[k])
        && e == ReasonAgainst(host, writable, files, targets[k])
        && forall j :: 0 <= j < k ==> Applicable(host, writable, files, targets[j])
    }

    /** A refused edit touches no file.  An accepted one rewrites its targets one by
        one, each from the source read before any write, and stops at the first
        that panics. */
    method Apply(targets: seq<Target>) returns (r: Outcome)
      modifies this
      ensures r.Refused? <==> !Accepts(host, writable, old(files), targets)
      ensures r.Refused? ==> files == old(files) && match r.why
        case EmptyEdit => targets == []
        case Overlapping => targets != [] && AllApplicable(host, writable, files, targets)
        case _ => targets != [] && RefusedFor(targets, r.why)
      ensures !r.Refused? ==> (files, r) == Renamed(host, writable, old(files), targets)
    {
      if targets == [] { return Refused(EmptyEdit); }
      var gathered := Gather(targets);
      if gathered.Err? { return Refused(gathered.error); }
      var plans := gathered.value;
      PlansInBounds(host, writable, files, targets);
      var overlap := AnyOverlap(plans);
      if overlap { return Refused(Overlapping); }
      r := Rewrite(plans);
    }

    method Rewrite(plans: seq<Plan>) returns (r: Outcome)
      modifies this
      ensures files == WriteAll(old(files), plans[..Survived(plans)]) && r == Ending(plans)
    {
      var total := 0;
      for i := 0 to |plans|
        invariant files == WriteAll(old(files), plans[..i]) && total == EditCount(plans[..i])
        invariant i <= Survived(plans)
      {
        WriteSnoc(old(files), plans, i);
        SurvivedStep(plans, i);
        var rebuilt := RebuildPlan(plans[i]);
        if rebuilt.None? { return Panicked(i); }
        files := Placed(files, plans[i], rebuilt.value);
        total := total + |plans[i].ranges|;
      }
      assert plans[..|plans|] == plans;
      return Done(|plans|, total);
    }
  }
}
