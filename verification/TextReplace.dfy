/**
 In-place replacement on UTF-8 text, lsp_ops.rs:722-727: `replace_range` panics
 when an end of the range does not lie on a character boundary of the text as it
 then is.
 */
module TextReplace {
  import opened Seqs
  import opened Wrappers
  import opened Utf8
  import opened TextEdits
  import opened EditAlgorithms

  /** None is the panic. */
  function ReplaceText(out: seq<byte>, e: Edit<byte>): (r: Option<seq<byte>>)
    ensures r.Some? ==> r.value == ReplaceRange(out, e)
  {
    if e.start <= e.end <= |out| && Boundary(out, e.start) && Boundary(out, e.end) then Some(ReplaceRange(out, e))
    else None
  }

  /** Replace in place, last edit of the list first, until done or panicked. */
  function BottomUpText(src: seq<byte>, s: seq<Edit<byte>>): (r: Option<seq<byte>>)
    ensures r.Some? ==> r.value == BottomUp(src, s)
  {
    if s == [] then Some(src)
    else
      match BottomUpText(src, s[1..])
      case None => None
      case Some(out) => ReplaceText(out, s[0])
  }

  /** Ranges of whole characters, texts that start with one. */
  ghost predicate CleanCuts(src: seq<byte>, s: seq<Edit<byte>>) {
    forall i :: 0 <= i < |s| ==> Boundary(src, s[i].start) && Boundary(src, s[i].end) && Boundary(s[i].text, 0)
  }

  // ------------------------------------------------------ the exact condition

  /** The first edit replaces something, and its end, counted behind the texts that
      later edits insert at its start, lies inside a character. */
  predicate HeadCuts(src: seq<byte>, s: seq<Edit<byte>>) {
    && s != [] && s[0].start < s[0].end <= |src|
    && !Boundary(InsertedAt(s[1..], s[0].start) + src[s[0].start..], s[0].end - s[0].start)
  }

  /** Some replacement of the sorted batch ends inside a character of what the
      insertions listed behind it at its own start, and the source, read there. */
  predicate CutsCharacter(src: seq<byte>, s: seq<Edit<byte>>) {
    s != [] && (HeadCuts(src, s) || CutsCharacter(src, s[1..]))
  }

  /** Starts at `q` or later, or changes nothing. */
  predicate Passes(e: Edit<byte>, q: nat) {
    q <= e.start || (e.start == e.end && e.text == [])
  }

  lemma OneStep(out: seq<byte>, e: Edit<byte>, q: nat)
    requires ReplaceText(out, e).Some? && Passes(e, q) && Boundary(e.text, 0)
    requires q <= |out| && Boundary(out, q)
    ensures q <= |ReplaceRange(out, e)| && Boundary(ReplaceRange(out, e), q)
  {
    var r := ReplaceRange(out, e);
    if q < e.start {
      assert r[q] == out[q];
    } else if q == e.start && e.text == [] {
      assert r == out[..q] + out[e.end..];
      assert e.end < |out| ==> r[q] == out[e.end];
    } else if q == e.start {
      assert r[q] == e.text[0];
    } else {
      assert r == out;
    }
  }

  /** A boundary that every edit passes is still one when they are done. */
  lemma {:induction false} StaysBoundary(src: seq<byte>, s: seq<Edit<byte>>, q: nat)
    requires q <= |src| && Boundary(src, q) && BottomUpText(src, s).Some?
    requires forall i :: 0 <= i < |s| ==> Passes(s[i], q) && Boundary(s[i].text, 0)
    ensures q <= |BottomUp(src, s)| && Boundary(BottomUp(src, s), q)
  {
    if s == [] {
    } else {
      StaysBoundary(src, s[1..], q);
      OneStep(BottomUp(src, s[1..]), s[0], q);
    }
  }

  lemma {:induction false} NoTextInserted(s: seq<Edit<byte>>, at: nat)
    requires InsertedAt(s, at) == []
    ensures forall i :: 0 <= i < |s| && s[i].start == at ==> s[i].text == []
  {
    if s == [] {
    } else {
      NoTextInserted(s[1..], at);
    }
  }

  /** Behind a replacement of a sorted batch come insertions at its start, then
      edits from its end on. */
  lemma BehindReplacement(s: seq<Edit<byte>>)
    requires s != [] && s[0].start < s[0].end && Ascending(s) && PairwiseApart(s)
    requires forall i :: 0 <= i < |s| ==> s[i].start <= s[i].end
    ensures forall i :: 0 < i < |s| ==> s[i].start == s[0].start == s[i].end || s[0].end <= s[i].start
  {
    forall i | 0 < i < |s| ensures s[i].start == s[0].start == s[i].end || s[0].end <= s[i].start {
      assert s[0].start <= s[i].start && Apart(s[0], s[i]);
    }
  }

  /** What is known of the text just before a replacement is made. */
  lemma BeforeReplacement(src: seq<byte>, s: seq<Edit<byte>>)
    requires s != [] && s[0].start < s[0].end && Ascending(s) && PairwiseApart(s) && InBounds(|src|, s)
    ensures src[..s[0].start] + InsertedAt(s[1..], s[0].start) + src[s[0].start..s[0].end] <= BottomUp(src, s[1..])
  {
    var rest := s[1..];
    BehindReplacement(s);
    forall i | 0 <= i < |rest| ensures rest[i].start == s[0].start == rest[i].end || s[0].end <= rest[i].start {
      assert rest[i] == s[i + 1];
    }
    forall i, j | 0 <= i < j < |rest| && rest[j].start == s[0].start ensures rest[i].start == s[0].start {
      assert s[i + 1].start <= s[j + 1].start && s[0].start <= s[i + 1].start;
    }
    InsertionsPileUp(src, rest, s[0].start, s[0].end);
  }

  lemma EndInKnown(src: seq<byte>, out: seq<byte>, own: seq<byte>, a: nat, b: nat)
    requires a < b <= |src| && own != [] && src[..a] + own + src[a..b] <= out
    ensures b <= |out| && (Boundary(out, b) <==> Boundary(own + src[a..], b - a))
  {
    var known := src[..a] + own + src[a..b];
    assert b < |known| && out[b] == known[b];
    assert known[b] == (own + src[a..])[b - a];
  }

  /** The end of a replacement, when its turn comes. */
  lemma EndOfReplacement(src: seq<byte>, s: seq<Edit<byte>>)
    requires s != [] && s[0].start < s[0].end && Ascending(s) && PairwiseApart(s) && InBounds(|src|, s)
    requires CleanCuts(src, s) && BottomUpText(src, s[1..]).Some?
    ensures s[0].end <= |BottomUp(src, s[1..])|
    ensures Boundary(BottomUp(src, s[1..]), s[0].end) <==> !HeadCuts(src, s)
  {
    if InsertedAt(s[1..], s[0].start) == [] {
      QuietEnd(src, s);
    } else {
      LoudEnd(src, s);
    }
  }

  /** Behind inserted text the end falls into that text and the source after it. */
  lemma LoudEnd(src: seq<byte>, s: seq<Edit<byte>>)
    requires s != [] && s[0].start < s[0].end && Ascending(s) && PairwiseApart(s) && InBounds(|src|, s)
    requires InsertedAt(s[1..], s[0].start) != []
    ensures s[0].end <= |BottomUp(src, s[1..])|
    ensures Boundary(BottomUp(src, s[1..]), s[0].end) <==> !HeadCuts(src, s)
  {
    BeforeReplacement(src, s);
    EndInKnown(src, BottomUp(src, s[1..]), InsertedAt(s[1..], s[0].start), s[0].start, s[0].end);
  }

  /** With nothing inserted at its start the end is where it was. */
  lemma QuietEnd(src: seq<byte>, s: seq<Edit<byte>>)
    requires s != [] && s[0].start < s[0].end && Ascending(s) && PairwiseApart(s) && InBounds(|src|, s)
    requires CleanCuts(src, s) && BottomUpText(src, s[1..]).Some? && InsertedAt(s[1..], s[0].start) == []
    ensures s[0].end <= |BottomUp(src, s[1..])| && Boundary(BottomUp(src, s[1..]), s[0].end) && !HeadCuts(src, s)
  {
    var a, b, rest := s[0].start, s[0].end, s[1..];
    NoTextInserted(rest, a);
    BehindReplacement(s);
    forall i | 0 <= i < |rest| ensures Passes(rest[i], b) && Boundary(rest[i].text, 0) { assert rest[i] == s[i + 1]; }
    StaysBoundary(src, rest, b);
    assert [] + src[a..] == src[a..];
  }

  /** The start of any edit, when its turn comes. */
  lemma StartOfEdit(src: seq<byte>, s: seq<Edit<byte>>)
    requires s != [] && Ascending(s) && InBounds(|src|, s) && CleanCuts(src, s) && BottomUpText(src, s[1..]).Some?
    ensures s[0].start <= |BottomUp(src, s[1..])| && Boundary(BottomUp(src, s[1..]), s[0].start)
  {
    var rest := s[1..];
    forall i | 0 <= i < |rest| ensures Passes(rest[i], s[0].start) && Boundary(rest[i].text, 0) {
      assert s[0].start <= s[i + 1].start;
    }
    StaysBoundary(src, rest, s[0].start);
  }

  lemma TailConditions(n: nat, src: seq<byte>, s: seq<Edit<byte>>)
    requires s != [] && Ascending(s) && PairwiseApart(s) && InBounds(n, s) && CleanCuts(src, s)
    ensures Ascending(s[1..]) && PairwiseApart(s[1..]) && InBounds(n, s[1..]) && CleanCuts(src, s[1..])
  {
    var t := s[1..];
    forall i, j | 0 <= i < j < |t| ensures t[i].start <= t[j].start && Apart(t[i], t[j]) {
      assert s[i + 1].start <= s[j + 1].start && Apart(s[i + 1], s[j + 1]);
    }
  }

  /** Replacing a sorted batch of disjoint whole-character ranges panics if and only
      if `CutsCharacter`, which can be checked before anything is replaced. */
  lemma {:induction false} PanicsIff(src: seq<byte>, s: seq<Edit<byte>>)
    requires InBounds(|src|, s) && Ascending(s) && PairwiseApart(s) && CleanCuts(src, s)
    ensures BottomUpText(src, s).None? <==> CutsCharacter(src, s)
  {
    if s == [] {
    } else {
      TailConditions(|src|, src, s);
      PanicsIff(src, s[1..]);
      if BottomUpText(src, s[1..]).Some? {
        StartOfEdit(src, s);
        if s[0].start < s[0].end { EndOfReplacement(src, s); }
      }
    }
  }

  lemma {:induction false} ChainsNeverCut(src: seq<byte>, s: seq<Edit<byte>>)
    requires InBounds(|src|, s) && Chained(s) && CleanCuts(src, s)
    ensures !CutsCharacter(src, s)
  {
    if s == [] {
    } else {
      ChainedTail(s);
      ChainsNeverCut(src, s[1..]);
      if s[0].start < s[0].end {
        NothingInserted(s[1..], s[0].start);
        assert [] + src[s[0].start..] == src[s[0].start..];
      }
    }
  }

  /** With insertions listed first no step panics, and the text written is the
      simultaneous edit. */
  lemma OrderedTiesNeverPanic(src: seq<byte>, edits: seq<Edit<byte>>)
    requires InBounds(|src|, edits) && PairwiseApart(edits) && InsertionsFirst(edits) && CleanCuts(src, edits)
    ensures BottomUpText(src, StableSort(ByStart, edits)) == Some(Simultaneous(src, edits))
  {
    var s := StableSort(ByStart, edits);
    SortAscends(edits);
    SortedIsChained(|src|, edits);
    BoundsFollowMembers(|src|, edits, s);
    ApartOfSort(ByStart, edits);
    CleanFollowsMembers(src, edits, s);
    PanicsIff(src, s);
    ChainsNeverCut(src, s);
    SortThenBottomUpIsSimultaneous(src, edits);
  }

  lemma CleanFollowsMembers(src: seq<byte>, a: seq<Edit<byte>>, b: seq<Edit<byte>>)
    requires multiset(a) == multiset(b) && CleanCuts(src, a)
    ensures CleanCuts(src, b)
  {
    forall i | 0 <= i < |b| ensures Boundary(src, b[i].start) && Boundary(src, b[i].end) && Boundary(b[i].text, 0) {
      assert b[i] in multiset(a);
    }
  }
}
