/**
 The structural rewrite, ast_ops.rs:228-274: sort the matches by byte position
 and copy the source once, top-down.
 */
module AstEdit {
  import opened Seqs
  import opened Wrappers
  import opened Utf8
  import opened TextEdits
  import opened EditAlgorithms

  /** A match of the pattern: byte offsets into the original source. */
  datatype Match = Match(position: nat, deletedLength: nat, inserted: seq<byte>)

  datatype Refusal = OverlappingOrOutOfBounds

  function EditOf(m: Match): Edit<byte> {
    Edit(m.position, m.position + m.deletedLength, m.inserted)
  }

  function EditsOf(ms: seq<Match>): seq<Edit<byte>> {
    seq(|ms|, i requires 0 <= i < |ms| => EditOf(ms[i]))
  }

  /** A batch the rewrite goes through with. */
  predicate Accepts(source: seq<byte>, edits: seq<Edit<byte>>) {
    InBounds(|source|, edits) && PairwiseApart(edits) && InsertionsFirst(edits)
  }

  /** The copying loop over sorted edits. */
  method CopyLoop(source: seq<byte>, sorted: seq<Edit<byte>>) returns (r: Option<seq<byte>>)
    requires forall i :: 0 <= i < |sorted| ==> sorted[i].start <= sorted[i].end
    ensures r == TopDown(source, sorted, 0)
  {
    var out: seq<byte> := [];
    var last: nat := 0;
    var rest := sorted;
    CopiedNothing(TopDown(source, sorted, 0));
    while rest != []
      invariant last <= |source| && forall i :: 0 <= i < |rest| ==> rest[i].start <= rest[i].end
      invariant Copied(out, TopDown(source, rest, last)) == TopDown(source, sorted, 0)
      decreases |rest|
    {
      var e := rest[0];
      if e.start < last || e.end > |source| {
        return None;
      }
      CopiedStep(out, source[last..e.start], e.text, TopDown(source, rest[1..], e.end));
      out := out + source[last..e.start] + e.text;
      last, rest := e.end, rest[1..];
    }
    return Some(out + source[last..]);
  }

  method Rebuild(source: seq<byte>, edits: seq<Edit<byte>>) returns (r: Result<seq<byte>, Refusal>)
    requires forall i :: 0 <= i < |edits| ==> edits[i].start <= edits[i].end
    ensures r.Ok? <==> Accepts(source, edits)
    ensures r.Ok? ==> r.value == Simultaneous(source, edits)
  {
    var sorted := StableSort(ByStart, edits);
    forall i | 0 <= i < |sorted| ensures sorted[i].start <= sorted[i].end {
      assert sorted[i] in multiset(edits);
    }
    RebuildSpec(source, edits);
    var copied := CopyLoop(source, sorted);
    match copied {
      case None => return Err(OverlappingOrOutOfBounds);
      case Some(out) => return Ok(out);
    }
  }

  /** The copy so far in front of what is left to copy. */
  function Copied(out: seq<byte>, rest: Option<seq<byte>>): Option<seq<byte>> {
    match rest
    case None => None
    case Some(t) => Some(out + t)
  }

  lemma CopiedNothing(rest: Option<seq<byte>>)
    ensures Copied([], rest) == rest
  {
    if rest.Some? { assert [] + rest.value == rest.value; }
  }

  lemma CopiedStep(out: seq<byte>, kept: seq<byte>, text: seq<byte>, rest: Option<seq<byte>>)
    ensures Copied(out + kept + text, rest) == Copied(out, Copied(kept + text, rest))
  {
    Assoc(out, kept, text);
    if rest.Some? { Assoc(out, kept + text, rest.value); }
  }

  lemma RebuildSpec(source: seq<byte>, edits: seq<Edit<byte>>)
    requires forall i :: 0 <= i < |edits| ==> edits[i].start <= edits[i].end
    ensures TopDown(source, StableSort(ByStart, edits), 0).Some? <==> Accepts(source, edits)
    ensures Accepts(source, edits) ==>
      TopDown(source, StableSort(ByStart, edits), 0) == Some(Simultaneous(source, edits))
  {
    var s := StableSort(ByStart, edits);
    TopDownIsSimultaneous(source, s, 0);
    BoundsFollowMembers(|source|, s, edits);
    BoundsFollowMembers(|source|, edits, s);
    if InBounds(|source|, edits) { SortedIsChained(|source|, edits); }
    SortKeepsMeaning(source, edits);
  }

  /** The file the rewrite works on. */
  class SourceFile {
    var content: seq<byte>

    /** No match leaves the file alone; a refused batch too. */
    method Rewrite(matches: seq<Match>) returns (r: Result<nat, Refusal>)
      modifies this
      ensures r.Ok? <==> Accepts(old(content), EditsOf(matches))
      ensures r.Ok? ==> r.value == |matches| && content == Simultaneous(old(content), EditsOf(matches))
      ensures r.Err? ==> content == old(content)
    {
      var edits := EditsOf(matches);
      if |edits| == 0 {
        BottomUpIsSimultaneous(content, edits);
        return Ok(0);
      }
      var rebuilt := Rebuild(content, edits);
      match rebuilt {
        case Err(e) => return Err(e);
        case Ok(out) => content := out;
      }
      return Ok(|edits|);
    }
  }

  /** One match: it goes through exactly when it lies inside the source, and then its
      text stands in the place of what it matched. */
  lemma OneMatch(source: seq<byte>, m: Match)
    ensures Accepts(source, EditsOf([m])) <==> m.position + m.deletedLength <= |source|
    ensures Accepts(source, EditsOf([m])) ==>
      Simultaneous(source, EditsOf([m])) == source[..m.position] + m.inserted + source[m.position + m.deletedLength..]
  {
    var e := EditOf(m);
    assert EditsOf([m]) == [e];
    assert InBounds(|source|, [e]) <==> [e][0].start <= [e][0].end <= |source|;
    if m.position + m.deletedLength <= |source| { SimOfOne(source, e); }
  }

  /** Any matches: they go through exactly when each lies inside the source, no two
      overlap, and of two at one position the one listed first deletes nothing. */
  lemma MatchesGoThrough(source: seq<byte>, ms: seq<Match>)
    ensures Accepts(source, EditsOf(ms)) <==>
      && (forall i :: 0 <= i < |ms| ==> ms[i].position + ms[i].deletedLength <= |source|)
      && (forall i, j :: 0 <= i < j < |ms| ==> Disjoint(ms[i], ms[j]))
      && (forall i, j :: 0 <= i < j < |ms| && ms[i].position == ms[j].position ==> ms[i].deletedLength == 0)
  {
    var edits := EditsOf(ms);
    assert forall i :: 0 <= i < |ms| ==> edits[i] == EditOf(ms[i]);
    forall i, j | 0 <= i < j < |ms| ensures Apart(edits[i], edits[j]) <==> Disjoint(ms[i], ms[j]) {}
    if Accepts(source, edits) {
      forall i | 0 <= i < |ms| ensures ms[i].position + ms[i].deletedLength <= |source| {
        assert edits[i].end <= |source|;
      }
      forall i, j | 0 <= i < j < |ms| ensures Disjoint(ms[i], ms[j]) { assert Apart(edits[i], edits[j]); }
      forall i, j | 0 <= i < j < |ms| && ms[i].position == ms[j].position ensures ms[i].deletedLength == 0 {
        assert edits[i].start == edits[j].start;
      }
    }
  }

  /** One ends before the other begins. */
  predicate Disjoint(a: Match, b: Match) {
    a.position + a.deletedLength <= b.position || b.position + b.deletedLength <= a.position
  }

  /** Both paths agree: whenever the top-down copy accepts a batch, bottom-up
      replacement of the same batch builds the same text. */
  lemma CopyAgreesWithReplace(source: seq<byte>, edits: seq<Edit<byte>>)
    requires Accepts(source, edits)
    ensures TopDown(source, StableSort(ByStart, edits), 0) == Some(SortThenBottomUp(source, edits))
    ensures |SortThenBottomUp(source, edits)| == |source| + Growth(edits)
  {
    RebuildSpec(source, edits);
    SortThenBottomUpIsSimultaneous(source, edits);
    SimultaneousLength(source, edits);
  }
}
