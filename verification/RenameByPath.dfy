/**
 A rename from outside, lsp_ops.rs:172-230 and 667-759: targets named by the URIs of
 paths, edits by the positions of characters, results by the text of files.
 */
module RenameByPath {
  import opened Seqs
  import opened Wrappers
  import opened Utf8
  import opened TextEdits
  import opened EditAlgorithms
  import opened CharEdits
  import opened WorkspaceEdit
  import opened RenameOutcome
  import P = Positions
  import U = FileUri

  /** The host reads UTF-8 bytes as the text they encode. */
  ghost predicate Faithful(host: Host) {
    forall bs :: Decode(bs).Some? ==> host.lossy(bs) == Decode(bs).value
  }

  // ------------------------------------------------------------------- gating

  lemma PathOfUri(host: Host, path: string)
    requires Faithful(host) && U.Canonical(path)
    ensures PathOf(host, U.PathToUriSpec(path)) == Some(path)
  {
    U.UriRoundTripIsExact(path);
    DecodeEncode(path);
  }

  /** The range of an edit is ordered. */
  predicate Ordered(source: string, e: LspEdit) {
    P.ByteAt(source, e.startLine, e.startChar) <= P.ByteAt(source, e.endLine, e.endChar)
  }

  lemma OrderedIsInBounds(source: string, edits: seq<LspEdit>)
    ensures InBounds(|Encode(source)|, RangesOf(source, edits)) <==> forall e :: e in edits ==> Ordered(source, e)
  {
    EncodedLength(source);
    var rs := RangesOf(source, edits);
    forall i | 0 <= i < |edits| ensures rs[i].end <= ByteLen(source) {
      P.ByteLenMonotone(source, P.CharAt(source, edits[i].endLine, edits[i].endChar), |source|);
    }
    if InBounds(|Encode(source)|, rs) {
      forall e | e in edits ensures Ordered(source, e) {
        var i :| 0 <= i < |edits| && edits[i] == e;
        assert rs[i].start <= rs[i].end;
      }
    }
    if forall e :: e in edits ==> Ordered(source, e) {
      forall i | 0 <= i < |rs| ensures rs[i].start <= rs[i].end <= |Encode(source)| {
        assert Ordered(source, edits[i]);
      }
    }
  }

  /** The target with the URI of a path is gated on that very path, read from the
      file it names, and refused for the first of four reasons. */
  lemma TargetIsGatedOnItsPath(host: Host, writable: set<Path>, files: Files, path: string, edits: seq<LspEdit>)
    requires Faithful(host) && U.Canonical(path)
    ensures var t, file := Target(U.PathToUriSpec(path), edits), host.locate(path);
      && (path !in writable ==>
            !Applicable(host, writable, files, t) && ReasonAgainst(host, writable, files, t) == Denied)
      && (path in writable && (file !in files || Decode(files[file]).None?) ==>
            !Applicable(host, writable, files, t) && ReasonAgainst(host, writable, files, t) == Unreadable)
      && (path in writable && file in files && Decode(files[file]).Some? ==>
            && (Applicable(host, writable, files, t) <==>
                  forall e :: e in edits ==> Ordered(Decode(files[file]).value, e))
            && (!Applicable(host, writable, files, t) ==> ReasonAgainst(host, writable, files, t) == InvalidRange))
  {
    PathOfUri(host, path);
    var file := host.locate(path);
    if file in files && Decode(files[file]).Some? { OrderedIsInBounds(Decode(files[file]).value, edits); }
  }

  /** A URI of another scheme is refused as such. */
  lemma ForeignSchemeIsUnsupported(host: Host, writable: set<Path>, files: Files, uri: string, edits: seq<LspEdit>)
    requires !("file://" <= uri)
    ensures !Applicable(host, writable, files, Target(uri, edits))
    ensures ReasonAgainst(host, writable, files, Target(uri, edits)) == UnsupportedUri
  {}

  // ---------------------------------------------------------------- the result

  /** One file to edit: its path, its text, and what to replace in it. */
  datatype Job = Job(path: string, source: string, edits: seq<Edit<char>>)

  /** The edits as a server sends them: by line and UTF-16 column. */
  function Asked(source: string, edits: seq<Edit<char>>): seq<LspEdit>
    requires InBounds(|source|, edits)
  {
    seq(|edits|, i requires 0 <= i < |edits| =>
      LspEdit(P.LineOf(source, edits[i].start), P.ColumnOf(source, edits[i].start),
              P.LineOf(source, edits[i].end), P.ColumnOf(source, edits[i].end), edits[i].text))
  }

  function TargetOf(job: Job): Target
    requires InBounds(|job.source|, job.edits)
  {
    Target(U.PathToUriSpec(job.path), Asked(job.source, job.edits))
  }

  /** The edits of every job lie inside its text. */
  predicate Inside(jobs: seq<Job>) {
    forall k :: 0 <= k < |jobs| ==> InBounds(|jobs[k].source|, jobs[k].edits)
  }

  function TargetsOf(jobs: seq<Job>): (targets: seq<Target>)
    requires Inside(jobs)
    ensures |targets| == |jobs| && forall k :: 0 <= k < |jobs| ==> targets[k] == TargetOf(jobs[k])
  {
    seq(|jobs|, k requires 0 <= k < |jobs| => TargetOf(jobs[k]))
  }

  function TotalEdits(jobs: seq<Job>): nat {
    if jobs == [] then 0 else TotalEdits(jobs[..|jobs| - 1]) + |jobs[|jobs| - 1].edits|
  }

  /** A file that may be edited, and edits the protocol allows. */
  predicate Proper(host: Host, writable: set<Path>, files: Files, job: Job) {
    && U.Canonical(job.path) && job.path in writable
    && host.locate(job.path) in files && files[host.locate(job.path)] == Encode(job.source)
    && InBounds(|job.source|, job.edits) && PairwiseApart(job.edits) && InsertionsFirst(job.edits)
  }

  predicate AllProper(host: Host, writable: set<Path>, files: Files, jobs: seq<Job>) {
    forall k :: 0 <= k < |jobs| ==> Proper(host, writable, files, jobs[k])
  }

  /** No job's file, and no earlier job's, lies where a job puts its temporary one. */
  predicate Separate(host: Host, jobs: seq<Job>) {
    forall k, j :: 0 <= k < j < |jobs| ==>
      host.locate(jobs[k].path) != host.locate(jobs[j].path)
      && host.locate(TempOf(jobs[j].path)) != host.locate(jobs[k].path)
  }

  lemma AskedRanges(source: string, edits: seq<Edit<char>>)
    requires InBounds(|source|, edits)
    ensures CharRangesOf(source, Asked(source, edits)) == edits
    ensures RangesOf(source, Asked(source, edits)) == OnBytes(source, edits)
  {
    var asked := Asked(source, edits);
    forall i | 0 <= i < |edits|
      ensures CharRangeOf(source, asked[i]) == edits[i] && RangeOf(source, asked[i]) == OnBytes(source, edits)[i]
    {
      P.PositionRoundTrip(source, edits[i].start);
      P.PositionRoundTrip(source, edits[i].end);
    }
  }

  /** Order and separation are the same by characters and by bytes. */
  lemma ConditionsOnBytes(source: string, edits: seq<Edit<char>>)
    requires InBounds(|source|, edits) && PairwiseApart(edits) && InsertionsFirst(edits)
    ensures var bs := OnBytes(source, edits);
      InBounds(|Encode(source)|, bs) && PairwiseApart(bs) && InsertionsFirst(bs)
  {
    var bs := OnBytes(source, edits);
    EncodedLength(source);
    forall i | 0 <= i < |bs| ensures bs[i].start <= bs[i].end <= |Encode(source)| {
      AtOrder(source, edits[i].start, edits[i].end);
      P.ByteLenMonotone(source, edits[i].end, |source|);
    }
    forall i, j | 0 <= i < j < |bs| ensures Apart(bs[i], bs[j]) { ApartOnBytes(source, edits[i], edits[j]); }
    forall i, j | 0 <= i < j < |bs| && bs[i].start == bs[j].start ensures bs[i].end == bs[i].start {
      AtOrder(source, edits[i].start, edits[j].start);
      AtOrder(source, edits[j].start, edits[i].start);
    }
  }

  lemma ApartOnBytes(source: string, a: Edit<char>, b: Edit<char>)
    requires a.start <= a.end <= |source| && b.start <= b.end <= |source| && Apart(a, b)
    ensures At(source, a.end) <= At(source, b.start) || At(source, b.end) <= At(source, a.start)
  {
    AtOrder(source, a.end, b.start);
    AtOrder(source, b.end, a.start);
  }

  function JobPlan(host: Host, job: Job): Plan
    requires InBounds(|job.source|, job.edits)
  {
    Plan(host.locate(job.path), host.locate(TempOf(job.path)), job.source, OnBytes(job.source, job.edits))
  }

  lemma JobApplies(host: Host, writable: set<Path>, files: Files, job: Job)
    requires Faithful(host) && Proper(host, writable, files, job)
    ensures Applicable(host, writable, files, TargetOf(job))
    ensures PlanOf(host, files, TargetOf(job)) == JobPlan(host, job)
    ensures PairwiseApart(JobPlan(host, job).ranges) && InsertionsFirst(JobPlan(host, job).ranges)
  {
    PathOfUri(host, job.path);
    DecodeEncode(job.source);
    AskedRanges(job.source, job.edits);
    ConditionsOnBytes(job.source, job.edits);
  }

  function JobPlans(host: Host, jobs: seq<Job>): (plans: seq<Plan>)
    requires Inside(jobs)
    ensures |plans| == |jobs| && forall k :: 0 <= k < |jobs| ==> plans[k] == JobPlan(host, jobs[k])
  {
    seq(|jobs|, k requires 0 <= k < |jobs| => JobPlan(host, jobs[k]))
  }

  lemma {:induction false} JobsAreApplicable(host: Host, writable: set<Path>, files: Files, jobs: seq<Job>)
    requires Faithful(host) && AllProper(host, writable, files, jobs) && Inside(jobs)
    ensures AllApplicable(host, writable, files, TargetsOf(jobs))
    ensures PlansOf(host, writable, files, TargetsOf(jobs)) == JobPlans(host, jobs)
    ensures forall k :: 0 <= k < |jobs| ==> PairwiseApart(JobPlan(host, jobs[k]).ranges)
  {
    var targets := TargetsOf(jobs);
    forall k | 0 <= k < |jobs|
      ensures Applicable(host, writable, files, targets[k]) && PlanOf(host, files, targets[k]) == JobPlan(host, jobs[k])
      ensures PairwiseApart(JobPlan(host, jobs[k]).ranges)
    {
      JobApplies(host, writable, files, jobs[k]);
    }
  }

  lemma {:induction false} JobsAreAccepted(host: Host, writable: set<Path>, files: Files, jobs: seq<Job>)
    requires Faithful(host) && jobs != [] && AllProper(host, writable, files, jobs) && Inside(jobs)
    ensures Accepts(host, writable, files, TargetsOf(jobs))
    ensures PlansOf(host, writable, files, TargetsOf(jobs)) == JobPlans(host, jobs)
  {
    JobsAreApplicable(host, writable, files, jobs);
  }

  /** The plan of a job is sound, ordered, and what it wants is the encoded edit. */
  lemma JobPlanIsSound(host: Host, job: Job)
    requires InBounds(|job.source|, job.edits) && PairwiseApart(job.edits) && InsertionsFirst(job.edits)
    ensures PlanSound(JobPlan(host, job)) && InsertionsFirst(JobPlan(host, job).ranges)
    ensures Wanted(JobPlan(host, job)) == Encode(Simultaneous(job.source, job.edits))
  {
    ConditionsOnBytes(job.source, job.edits);
    AskedRanges(job.source, job.edits);
    RangesCutCleanly(job.source, Asked(job.source, job.edits));
    EncodingCommutes(job.source, job.edits, 0);
  }

  lemma {:induction false} JobsFinish(host: Host, jobs: seq<Job>)
    requires Inside(jobs)
    requires forall k :: 0 <= k < |jobs| ==> PairwiseApart(jobs[k].edits) && InsertionsFirst(jobs[k].edits)
    ensures Survived(JobPlans(host, jobs)) == |jobs|
    ensures Ending(JobPlans(host, jobs)) == Done(|jobs|, TotalEdits(jobs))
  {
    var plans := JobPlans(host, jobs);
    forall k | 0 <= k < |plans| ensures PlanSound(plans[k]) && InsertionsFirst(plans[k].ranges) {
      JobPlanIsSound(host, jobs[k]);
    }
    OrderedRenameNeverPanics(plans);
    CountIsTotal(jobs, plans);
  }

  lemma {:induction false} JobLands(host: Host, files: Files, jobs: seq<Job>, k: nat)
    requires Inside(jobs) && k < |jobs| && Separate(host, jobs)
    requires PairwiseApart(jobs[k].edits) && InsertionsFirst(jobs[k].edits)
    ensures var after, file := WriteAll(files, JobPlans(host, jobs)), host.locate(jobs[k].path);
      file in after && after[file] == Encode(Simultaneous(jobs[k].source, jobs[k].edits))
  {
    var plans := JobPlans(host, jobs);
    forall j | k < j < |plans| ensures !Touches(plans[j], plans[k].file) {
      assert plans[j] == JobPlan(host, jobs[j]) && plans[k] == JobPlan(host, jobs[k]);
    }
    LastPlanWins(files, plans, k);
    JobPlanIsSound(host, jobs[k]);
    OrderedPlan(JobPlan(host, jobs[k]));
  }

  lemma {:induction false} CountIsTotal(jobs: seq<Job>, plans: seq<Plan>)
    requires |plans| == |jobs| && forall k :: 0 <= k < |jobs| ==> |plans[k].ranges| == |jobs[k].edits|
    ensures EditCount(plans) == TotalEdits(jobs)
  {
    if jobs == [] {
    } else {
      CountIsTotal(jobs[..|jobs| - 1], plans[..|plans| - 1]);
    }
  }

  /** The files and the ending of an accepted edit, by its plans. */
  lemma RenamedByPlans(host: Host, writable: set<Path>, files: Files, targets: seq<Target>, plans: seq<Plan>)
    requires Accepts(host, writable, files, targets) && PlansOf(host, writable, files, targets) == plans
    requires Survived(plans) == |plans|
    ensures Renamed(host, writable, files, targets) == (WriteAll(files, plans), Ending(plans))
  {
    assert plans[..|plans|] == plans;
  }

  lemma {:induction false} ProperJobsRename(host: Host, writable: set<Path>, files: Files, jobs: seq<Job>)
    requires Faithful(host) && jobs != [] && AllProper(host, writable, files, jobs) && Inside(jobs)
    ensures Accepts(host, writable, files, TargetsOf(jobs))
    ensures Renamed(host, writable, files, TargetsOf(jobs))
         == (WriteAll(files, JobPlans(host, jobs)), Done(|jobs|, TotalEdits(jobs)))
  {
    JobsAreAccepted(host, writable, files, jobs);
    forall k | 0 <= k < |jobs| ensures PairwiseApart(jobs[k].edits) && InsertionsFirst(jobs[k].edits) {
      assert Proper(host, writable, files, jobs[k]);
    }
    JobsFinish(host, jobs);
    RenamedByPlans(host, writable, files, TargetsOf(jobs), JobPlans(host, jobs));
  }

  /** Renaming in texts: the edit is accepted and finishes, and then every file holds
      the simultaneous edit of its text, character by character. */
  lemma {:induction false} RenameWritesTheText(host: Host, writable: set<Path>, files: Files, jobs: seq<Job>, k: nat)
    requires Faithful(host) && k < |jobs| && AllProper(host, writable, files, jobs) && Inside(jobs)
    requires Separate(host, jobs)
    ensures Accepts(host, writable, files, TargetsOf(jobs))
    ensures var (after, end) := Renamed(host, writable, files, TargetsOf(jobs));
      var file := host.locate(jobs[k].path);
      && end == Done(|jobs|, TotalEdits(jobs))
      && file in after && after[file] == Encode(Simultaneous(jobs[k].source, jobs[k].edits))
  {
    ProperJobsRename(host, writable, files, jobs);
    assert Proper(host, writable, files, jobs[k]);
    JobLands(host, files, jobs, k);
  }

  /** One job among no others: any other file stays. */
  lemma {:induction false} OthersStay(host: Host, files: Files, job: Job, other: File)
    requires Inside([job]) && other != host.locate(job.path) && other != host.locate(TempOf(job.path))
    ensures var after := WriteAll(files, JobPlans(host, [job]));
      (other in after <==> other in files) && (other in files ==> after[other] == files[other])
  {
    var plans := JobPlans(host, [job]);
    forall i | 0 <= i < |plans| ensures !Touches(plans[i], other) { assert plans[i] == JobPlan(host, [job][i]); }
    OthersUntouched(files, plans, other);
  }

  lemma OneJobRenames(host: Host, writable: set<Path>, files: Files, job: Job, other: File)
    requires Faithful(host) && Proper(host, writable, files, job) && Inside([job])
    ensures Accepts(host, writable, files, TargetsOf([job]))
    ensures var (after, end) := Renamed(host, writable, files, TargetsOf([job]));
      var file := host.locate(job.path);
      && end == Done(1, |job.edits|) && file in after && after[file] == Encode(Simultaneous(job.source, job.edits))
      && (other != file && other != host.locate(TempOf(job.path)) ==>
            (other in after <==> other in files) && (other in files ==> after[other] == files[other]))
  {
    var jobs := [job];
    ProperJobsRename(host, writable, files, jobs);
    assert jobs[..0] == [] && TotalEdits(jobs) == |job.edits|;
    JobLands(host, files, jobs, 0);
    if other != host.locate(job.path) && other != host.locate(TempOf(job.path)) { OthersStay(host, files, job, other); }
  }

  lemma OneEditIsProper(host: Host, writable: set<Path>, files: Files, job: Job, e: Edit<char>)
    requires job.edits == [e] && e.start <= e.end <= |job.source|
    requires U.Canonical(job.path) && job.path in writable
    requires host.locate(job.path) in files && files[host.locate(job.path)] == Encode(job.source)
    ensures Proper(host, writable, files, job) && Inside([job])
  {}

  /** One edit of one file: the characters from `i` to `j`, named by their lines and
      columns, become `text`; any other file stays. */
  lemma OneEditRenames(host: Host, writable: set<Path>, files: Files, path: string, source: string,
                       i: nat, j: nat, text: string, other: File)
    requires Faithful(host) && U.Canonical(path) && path in writable && i <= j <= |source|
    requires host.locate(path) in files && files[host.locate(path)] == Encode(source)
    ensures var target := Target(U.PathToUriSpec(path), [LspEdit(P.LineOf(source, i), P.ColumnOf(source, i),
                                                                 P.LineOf(source, j), P.ColumnOf(source, j), text)]);
      && Accepts(host, writable, files, [target])
      && var (after, end) := Renamed(host, writable, files, [target]);
         && end == Done(1, 1)
         && host.locate(path) in after && after[host.locate(path)] == Encode(source[..i] + text + source[j..])
         && (other != host.locate(path) && other != host.locate(TempOf(path)) ==>
               (other in after <==> other in files) && (other in files ==> after[other] == files[other]))
  {
    var job := Job(path, source, [Edit(i, j, text)]);
    OneEditIsProper(host, writable, files, job, Edit(i, j, text));
    OneJobRenames(host, writable, files, job, other);
    SimOfOne(source, Edit(i, j, text));
    OneEditTarget(path, source, i, j, text);
  }

  lemma OneEditTarget(path: string, source: string, i: nat, j: nat, text: string)
    requires i <= j <= |source| && Inside([Job(path, source, [Edit(i, j, text)])])
    ensures TargetsOf([Job(path, source, [Edit(i, j, text)])])
         == [Target(U.PathToUriSpec(path), [LspEdit(P.LineOf(source, i), P.ColumnOf(source, i),
                                                    P.LineOf(source, j), P.ColumnOf(source, j), text)])]
  {
    var job := Job(path, source, [Edit(i, j, text)]);
    assert job.edits[0] == Edit(i, j, text);
    assert Asked(source, job.edits) == [LspEdit(P.LineOf(source, i), P.ColumnOf(source, i),
                                                P.LineOf(source, j), P.ColumnOf(source, j), text)];
    assert TargetsOf([job]) == [TargetOf(job)];
  }
}
