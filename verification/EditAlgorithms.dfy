/**
 The two ways the daemon carries out a batch on a text: replacing ranges in
 place from the last to the first, and copying the text once from the first to
 the last.  Both are related to `Simultaneous`.
 */
module EditAlgorithms {
  import opened Seqs
  import opened TextEdits
  import opened Wrappers

  /** `String::replace_range`.  The library panics on a range outside the text;
      `RangesStayInside` shows that accepted batches never reach the second
      branch. */
  function ReplaceRange<T>(out: seq<T>, e: Edit<T>): seq<T> {
    if e.start <= e.end <= |out| then out[..e.start] + e.text + out[e.end..] else out
  }

  /** Replace in place, last edit of the list first. */
  function BottomUp<T>(src: seq<T>, s: seq<Edit<T>>): seq<T> {
    if s == [] then src else ReplaceRange(BottomUp(src, s[1..]), s[0])
  }

  /** Copy from `last` on; an edit that starts before `last` or ends past the
      text stops the copy. */
  function TopDown<T>(src: seq<T>, s: seq<Edit<T>>, last: nat): Option<seq<T>>
    requires last <= |src|
  {
    if s == [] then Some(src[last..])
    else if s[0].start < last || s[0].end > |src| || s[0].end < s[0].start then None
    else
      match TopDown(src, s[1..], s[0].end)
      case None => None
      case Some(rest) => Some(src[last..s[0].start] + s[0].text + rest)
  }

  // ---------------------------------------------------------------- bottom up

  /** Edits never touch the text below their starts. */
  lemma {:induction false} BelowUntouched<T>(src: seq<T>, s: seq<Edit<T>>, q: nat)
    requires q <= |src| && StartsFrom(s, q)
    ensures |BottomUp(src, s)| >= q && BottomUp(src, s)[..q] == src[..q]
  {
    if s == [] {
    } else {
      BelowUntouched(src, s[1..], q);
      var out := BottomUp(src, s[1..]);
      var r := ReplaceRange(out, s[0]);
      assert r[..q] == out[..q];
    }
  }

  lemma ChainedTail<T>(s: seq<Edit<T>>)
    requires s != [] && Chained(s)
    ensures Chained(s[1..]) && StartsFrom(s[1..], s[0].end)
  {
    forall i | 0 <= i < |s[1..]| ensures s[0].end <= s[1..][i].start { assert s[1..][i] == s[i + 1]; }
  }

  /** In every bottom-up step on a chained batch the range lies inside the part
      of the text no earlier step has touched. */
  lemma NeverPanics<T>(src: seq<T>, s: seq<Edit<T>>)
    requires s != [] && InBounds(|src|, s) && Chained(s)
    ensures s[0].start <= s[0].end <= |BottomUp(src, s[1..])|
    ensures BottomUp(src, s[1..])[..s[0].end] == src[..s[0].end]
  {
    ChainedTail(s);
    BelowUntouched(src, s[1..], s[0].end);
  }

  /** The batch up to its first edit, by meaning. */
  lemma SimSplit<T>(src: seq<T>, s: seq<Edit<T>>)
    requires s != [] && s[0].start <= s[0].end <= |src| && StartsFrom(s[1..], s[0].end)
    ensures Simultaneous(src, s) == src[..s[0].start] + (s[0].text + SimFrom(src, s[1..], s[0].end))
  {
    var e, rest := s[0], s[1..];
    HeadAndTail(s);
    SimFromFirst(src, e, rest, 0);
    TakeAll(src, e.start);
  }

  /** What lies before the first edit, its text, and the meaning of the rest. */
  lemma SimFromFirst<T>(src: seq<T>, e: Edit<T>, rest: seq<Edit<T>>, p: nat)
    requires p <= e.start <= e.end <= |src| && StartsFrom(rest, e.end)
    ensures SimFrom(src, [e] + rest, p) == src[p..e.start] + (e.text + SimFrom(src, rest, e.end))
  {
    StartsCons(e, rest);
    CopyBelow(src, [e] + rest, p, e.start);
    SimOfFirst(src, e, rest);
  }

  lemma StartsCons<T>(e: Edit<T>, rest: seq<Edit<T>>)
    requires e.start <= e.end && StartsFrom(rest, e.end)
    ensures StartsFrom([e] + rest, e.start)
  {
    var l := [e] + rest;
    forall i | 0 <= i < |l| ensures e.start <= l[i].start { if i > 0 { assert l[i] == rest[i - 1]; } }
  }

  /** Bottom-up replacement up to its first edit. */
  lemma BottomUpSplit<T>(src: seq<T>, s: seq<Edit<T>>)
    requires s != [] && s[0].start <= s[0].end <= |src| && StartsFrom(s[1..], s[0].end)
    ensures s[0].end <= |BottomUp(src, s[1..])|
    ensures BottomUp(src, s) == src[..s[0].start] + (s[0].text + BottomUp(src, s[1..])[s[0].end..])
  {
    var e, out := s[0], BottomUp(src, s[1..]);
    BelowUntouched(src, s[1..], e.end);
    assert out[..e.start] == out[..e.end][..e.start] == src[..e.end][..e.start] == src[..e.start];
    Assoc(src[..e.start], e.text, out[e.end..]);
  }

  /** Bottom-up replacement of a chained batch is the simultaneous edit. */
  lemma {:induction false} BottomUpIsSimultaneous<T>(src: seq<T>, s: seq<Edit<T>>)
    requires InBounds(|src|, s) && Chained(s)
    ensures BottomUp(src, s) == Simultaneous(src, s)
  {
    if s == [] {
      CopyBelow(src, s, 0, |src|);
      assert src[0..|src|] + SimFrom(src, s, |src|) == src;
    } else {
      var e, rest := s[0], s[1..];
      ChainedTail(s);
      BottomUpIsSimultaneous(src, rest);
      CopyBelow(src, rest, 0, e.end);
      DropHead(src[0..e.end], SimFrom(src, rest, e.end));
      BottomUpSplit(src, s);
      SimSplit(src, s);
    }
  }

  /** Every range of a sorted batch without overlaps stays inside the text, ties
      in any order. */
  /** One replacement alone. */
  lemma SimOfOne<T>(src: seq<T>, e: Edit<T>)
    requires e.start <= e.end <= |src|
    ensures Simultaneous(src, [e]) == src[..e.start] + e.text + src[e.end..]
  {
    BottomUpIsSimultaneous(src, [e]);
    assert [e][1..] == [];
  }

  lemma {:induction false} StaysInside<T>(src: seq<T>, s: seq<Edit<T>>, q: nat)
    requires q <= |src|
    requires forall i :: 0 <= i < |s| ==> q <= s[i].start || s[i].end <= s[i].start
    ensures |BottomUp(src, s)| >= q
  {
    if s == [] {
    } else {
      StaysInside(src, s[1..], q);
    }
  }

  lemma RangesStayInside<T>(src: seq<T>, s: seq<Edit<T>>)
    requires s != [] && InBounds(|src|, s) && Ascending(s) && PairwiseApart(s)
    ensures s[0].start <= s[0].end <= |BottomUp(src, s[1..])|
  {
    forall i | 0 <= i < |s[1..]| ensures s[0].end <= s[1..][i].start || s[1..][i].end <= s[1..][i].start {
      assert Apart(s[0], s[i + 1]) && s[0].start <= s[i + 1].start;
    }
    StaysInside(src, s[1..], s[0].end);
  }

  lemma {:induction false} BottomUpLength<T>(src: seq<T>, s: seq<Edit<T>>)
    requires InBounds(|src|, s) && Chained(s)
    ensures |BottomUp(src, s)| == |src| + Growth(s)
  {
    if s == [] {
    } else {
      ChainedTail(s);
      BottomUpLength(src, s[1..]);
      NeverPanics(src, s);
    }
  }

  /** Conservation: length in, minus removed, plus added. */
  lemma SimultaneousLength<T>(src: seq<T>, edits: seq<Edit<T>>)
    requires InBounds(|src|, edits) && PairwiseApart(edits) && InsertionsFirst(edits)
    ensures |Simultaneous(src, edits)| == |src| + Growth(edits)
  {
    var s := StableSort(ByStart, edits);
    SortThenBottomUpIsSimultaneous(src, edits);
    BoundsFollowMembers(|src|, edits, s);
    SortedIsChained(|src|, edits);
    BottomUpLength(src, s);
    GrowthOfSort(ByStart, edits);
  }

  // ----------------------------------------------------------------- top down

  /** The copy succeeds exactly on chained in-bounds batches, and then yields
      the simultaneous edit. */
  lemma {:induction false} TopDownIsSimultaneous<T>(src: seq<T>, s: seq<Edit<T>>, last: nat)
    requires last <= |src|
    ensures TopDown(src, s, last).Some? <==> InBounds(|src|, s) && Chained(s) && StartsFrom(s, last)
    ensures TopDown(src, s, last).Some? ==> TopDown(src, s, last).value == SimFrom(src, s, last)
  {
    if s == [] {
      CopyBelow(src, s, last, |src|);
      assert src[last..|src|] + SimFrom(src, s, |src|) == src[last..];
    } else {
      var e, rest := s[0], s[1..];
      if last <= e.start <= e.end <= |src| {
        TopDownIsSimultaneous(src, rest, e.end);
        ChainCons(|src|, s, last);
        if TopDown(src, rest, e.end).Some? {
          TopDownStep(src, s, last);
        }
      }
    }
  }

  lemma ChainCons<T>(n: nat, s: seq<Edit<T>>, last: nat)
    requires s != [] && last <= s[0].start <= s[0].end <= n
    ensures InBounds(n, s) && Chained(s) && StartsFrom(s, last)
       <==> InBounds(n, s[1..]) && Chained(s[1..]) && StartsFrom(s[1..], s[0].end)
  {
    if InBounds(n, s) && Chained(s) { ChainedTail(s); }
    if InBounds(n, s[1..]) && Chained(s[1..]) && StartsFrom(s[1..], s[0].end) {
      forall i | 0 < i < |s| ensures s[i].start <= s[i].end <= n && s[0].end <= s[i].start {
        assert s[i] == s[1..][i - 1];
      }
      forall i, j | 0 < i < j < |s| ensures s[i].end <= s[j].start {
        assert s[i] == s[1..][i - 1] && s[j] == s[1..][j - 1];
      }
    }
  }

  lemma TopDownStep<T>(src: seq<T>, s: seq<Edit<T>>, last: nat)
    requires s != [] && last <= s[0].start <= s[0].end <= |src| && StartsFrom(s[1..], s[0].end)
    ensures SimFrom(src, s, last) == src[last..s[0].start] + s[0].text + SimFrom(src, s[1..], s[0].end)
  {
    var e, rest := s[0], s[1..];
    HeadAndTail(s);
    SimFromFirst(src, e, rest, last);
    Assoc(src[last..e.start], e.text, SimFrom(src, rest, e.end));
  }

  // ------------------------------------------------ ties: the exact condition

  predicate SameShape<T>(a: seq<Edit<T>>, b: seq<Edit<T>>) {
    |a| == |b| && forall i :: 0 <= i < |a| ==> a[i].start == b[i].start && a[i].end == b[i].end
  }

  function RetextOne<T>(e: Edit<T>, at: nat, text: seq<T>): Edit<T> {
    Edit(e.start, e.end, if e.start == at == e.end then text else [])
  }

  /** The batch with `text` inserted by the pure insertions at `at`, and every
      other text emptied. */
  function Retext<T>(edits: seq<Edit<T>>, at: nat, text: seq<T>): (r: seq<Edit<T>>)
    ensures SameShape(edits, r)
    ensures forall i :: 0 <= i < |r| ==> r[i].text == if r[i].start == at == r[i].end then text else []
  {
    if edits == [] then [] else [RetextOne(edits[0], at, text)] + Retext(edits[1..], at, text)
  }

  lemma {:induction false} RetextInsert<T>(e: Edit<T>, sorted: seq<Edit<T>>, at: nat, text: seq<T>)
    ensures Retext(Insert(ByStart, e, sorted), at, text)
         == Insert(ByStart, RetextOne(e, at, text), Retext(sorted, at, text))
  {
    if sorted == [] || NotAfter(ByStart, e, sorted[0]) {
      RetextCons(e, sorted, at, text);
    } else {
      RetextInsert(e, sorted[1..], at, text);
      RetextCons(sorted[0], Insert(ByStart, e, sorted[1..]), at, text);
      assert Retext(sorted, at, text)[1..] == Retext(sorted[1..], at, text);
    }
  }

  lemma RetextCons<T>(e: Edit<T>, rest: seq<Edit<T>>, at: nat, text: seq<T>)
    ensures Retext([e] + rest, at, text) == [RetextOne(e, at, text)] + Retext(rest, at, text)
  {
    assert ([e] + rest)[1..] == rest;
  }

  lemma {:induction false} RetextSort<T>(edits: seq<Edit<T>>, at: nat, text: seq<T>)
    ensures StableSort(ByStart, Retext(edits, at, text)) == Retext(StableSort(ByStart, edits), at, text)
  {
    if edits == [] {
    } else {
      RetextSort(edits[1..], at, text);
      RetextInsert(edits[0], StableSort(ByStart, edits[1..]), at, text);
      assert Retext(edits, at, text)[1..] == Retext(edits[1..], at, text);
    }
  }

  /** One more insertion behind `head`. */
  lemma PileOne<T>(out: seq<T>, head: seq<T>, e: Edit<T>, own: seq<T>, tail: seq<T>)
    requires e.start == e.end == |head| && head + own + tail <= out
    ensures head + (e.text + own) + tail <= ReplaceRange(out, e)
  {
    var known := head + own + tail;
    var rest := out[|known|..];
    assert out == head + (own + tail + rest);
    DropHead(head, own + tail + rest);
    assert out[..|head|] == head && out[|head|..] == own + tail + rest;
    assert ReplaceRange(out, e) == head + (e.text + own) + tail + rest;
  }

  /** What insertions at `at` followed by edits from `q` on build: the text
      below `at`, the inserted texts, then the untouched text up to `q`. */
  lemma {:induction false} InsertionsPileUp<T>(src: seq<T>, s: seq<Edit<T>>, at: nat, q: nat)
    requires at < q <= |src|
    requires forall i :: 0 <= i < |s| ==> s[i].start == at == s[i].end || q <= s[i].start
    requires forall i, j :: 0 <= i < j < |s| && s[j].start == at ==> s[i].start == at
    ensures src[..at] + InsertedAt(s, at) + src[at..q] <= BottomUp(src, s)
  {
    if s == [] {
      assert src[..at] + [] + src[at..q] == src[..q];
    } else if s[0].start != at {
      NothingInserted(s, at);
      BelowUntouched(src, s, q);
      assert src[..at] + [] + src[at..q] == src[..q];
    } else {
      var e, rest := s[0], s[1..];
      InsertionsPileUp(src, rest, at, q);
      PileOne(BottomUp(src, rest), src[..at], e, InsertedAt(rest, at), src[at..q]);
    }
  }

  lemma {:induction false} InsertedIsUniform<T>(s: seq<Edit<T>>, at: nat, z: T)
    requires forall i, k :: 0 <= i < |s| && 0 <= k < |s[i].text| ==> s[i].text[k] == z
    ensures forall k :: 0 <= k < |InsertedAt(s, at)| ==> InsertedAt(s, at)[k] == z
  {
    if s == [] {
    } else {
      InsertedIsUniform(s[1..], at, z);
    }
  }

  /** A replacement listed before an insertion at its own start goes wrong. */
  lemma WrongAtTie<T>(src: seq<T>, s: seq<Edit<T>>, z: T)
    requires |s| > 1 && s[0].start < s[0].end <= |src| && s[0].text == []
    requires s[1].start == s[0].start == s[1].end && |s[1].text| >= s[0].end - s[0].start
    requires src[s[0].start] != z
    requires forall i, k :: 0 <= i < |s| && 0 <= k < |s[i].text| ==> s[i].text[k] == z
    requires forall i :: 0 < i < |s| ==> s[i].start == s[0].start == s[i].end || s[0].end <= s[i].start
    requires forall i, j :: 0 <= i < j < |s| && s[j].start == s[0].start ==> s[i].start == s[0].start
    ensures BottomUp(src, s) != Simultaneous(src, s)
  {
    var e, rest := s[0], s[1..];
    var at, n := e.start, e.end - e.start;
    var g := InsertedAt(rest, at);
    InsertionsPileUp(src, rest, at, e.end);
    InsertedIsUniform(rest, at, z);
    InsertedBehindTie(s);
    CopyBelow(src, s, 0, at);
    WrongLeft(src, BottomUp(src, rest), g, e);
    WrongRight(src, s, g);
    assert g[|g| - n] == z;
  }

  /** An empty replacement leaves what the insertions at its start insert. */
  lemma InsertedBehindTie<T>(s: seq<Edit<T>>)
    requires |s| > 1 && s[0].text == [] && s[1].start == s[0].start
    ensures InsertedAt(s, s[0].start) == InsertedAt(s[1..], s[0].start)
    ensures |InsertedAt(s[1..], s[0].start)| >= |s[1].text|
  {
    var e, rest := s[0], s[1..];
    assert s == [e] + rest && rest == [s[1]] + rest[1..];
    InsertedCons(s[1], rest[1..], e.start);
    InsertedCons(e, rest, e.start);
  }

  lemma WrongLeft<T>(src: seq<T>, out: seq<T>, g: seq<T>, e: Edit<T>)
    requires e.start < e.end <= |src| && e.text == [] && |g| >= e.end - e.start
    requires src[..e.start] + g + src[e.start..e.end] <= out
    ensures var i := e.start + |g| - (e.end - e.start);
      i < |ReplaceRange(out, e)| && ReplaceRange(out, e)[i] == src[e.start]
  {
    var known := src[..e.start] + g + src[e.start..e.end];
    assert known[e.start + |g|] == src[e.start];
  }

  lemma WrongRight<T>(src: seq<T>, s: seq<Edit<T>>, g: seq<T>)
    requires s != [] && s[0].start < s[0].end <= |src| && g == InsertedAt(s, s[0].start)
    requires Simultaneous(src, s) == src[0..s[0].start] + SimFrom(src, s, s[0].start)
    requires |g| >= s[0].end - s[0].start
    ensures var i := s[0].start + |g| - (s[0].end - s[0].start);
      i < |Simultaneous(src, s)| && Simultaneous(src, s)[i] == g[|g| - (s[0].end - s[0].start)]
  {}

  /** A chained edit in front keeps right and wrong apart. */
  lemma ChainKeepsWrong<T>(src: seq<T>, s: seq<Edit<T>>)
    requires s != [] && s[0].start <= s[0].end <= |src| && StartsFrom(s[1..], s[0].end)
    requires BottomUp(src, s[1..]) != Simultaneous(src, s[1..])
    ensures BottomUp(src, s) != Simultaneous(src, s)
  {
    var e, rest := s[0], s[1..];
    SimSplit(src, s);
    BottomUpSplit(src, s);
    CopyBelow(src, rest, 0, e.end);
    BelowUntouched(src, rest, e.end);
    var out, tail := BottomUp(src, rest), SimFrom(src, rest, e.end);
    Rejoin(out, e.end);
    Cancel(e.text, out[e.end..], tail);
    Cancel(src[..e.start], e.text + out[e.end..], e.text + tail);
  }

  predicate TieAt<T>(s: seq<Edit<T>>, k: nat) {
    k + 1 < |s| && s[k].start < s[k].end && s[k + 1].start == s[k].start
  }

  /** The first misordered tie of a sorted batch stands at `k`. */
  predicate FirstTieAt<T>(n: nat, s: seq<Edit<T>>, k: nat) {
    && InBounds(n, s) && Ascending(s) && PairwiseApart(s) && TieAt(s, k)
    && forall i :: 0 <= i < k ==> s[i].end <= s[i + 1].start
  }

  /** Only the insertions at the tie carry a text. */
  ghost predicate OnlyAtTie<T>(s: seq<Edit<T>>, k: nat, text: seq<T>)
    requires k < |s|
  {
    forall i :: 0 <= i < |s| ==> s[i].text == if s[i].start == s[k].start == s[i].end then text else []
  }

  lemma NoTieAtHead<T>(s: seq<Edit<T>>)
    requires Ascending(s) && !TieAt(s, 0)
    requires forall i :: 0 <= i < |s| ==> s[i].start <= s[i].end
    ensures forall j :: 0 < j < |s| && s[j].start == s[0].start ==> s[0].end == s[0].start
  {
    forall j | 0 < j < |s| && s[j].start == s[0].start ensures s[0].end == s[0].start {
      assert s[0].start <= s[1].start;
      assert j == 1 || s[1].start <= s[j].start;
    }
  }

  lemma FirstBack<T>(s: seq<Edit<T>>)
    requires s != [] && forall j :: 0 < j < |s| && s[j].start == s[0].start ==> s[0].end == s[0].start
    ensures InsertionsFirst(s[1..]) ==> InsertionsFirst(s)
  {
    var rest := s[1..];
    if InsertionsFirst(rest) {
      forall i, j | 0 < i < j < |s| && s[i].start == s[j].start ensures s[i].end == s[i].start {
        assert rest[i - 1] == s[i] && rest[j - 1] == s[j];
      }
    }
  }

  /** The first misordered tie of a sorted batch; up to it the batch chains. */
  lemma {:induction false} FirstTie<T>(n: nat, s: seq<Edit<T>>) returns (k: nat)
    requires InBounds(n, s) && Ascending(s) && PairwiseApart(s) && !InsertionsFirst(s)
    ensures FirstTieAt(n, s, k)
  {
    if TieAt(s, 0) {
      k := 0;
    } else {
      var rest := s[1..];
      NoTieAtHead(s);
      FirstBack(s);
      assert |s| > 1 && s[0].start <= s[1].start && Apart(s[0], s[1]);
      var m := FirstTie(n, rest);
      k := m + 1;
      forall i | 0 <= i < k ensures s[i].end <= s[i + 1].start {
        if i > 0 { assert rest[i - 1].end <= rest[i - 1 + 1].start; }
      }
    }
  }

  lemma AfterTheTie<T>(s: seq<Edit<T>>)
    requires Ascending(s) && PairwiseApart(s) && TieAt(s, 0)
    requires forall i :: 0 <= i < |s| ==> s[i].start <= s[i].end
    ensures forall i :: 0 < i < |s| ==> s[i].start == s[0].start == s[i].end || s[0].end <= s[i].start
    ensures forall i, j :: 0 <= i < j < |s| && s[j].start == s[0].start ==> s[i].start == s[0].start
  {
    forall i | 0 < i < |s| ensures s[i].start == s[0].start == s[i].end || s[0].end <= s[i].start {
      assert s[0].start <= s[i].start && Apart(s[0], s[i]);
    }
    forall i, j | 0 <= i < j < |s| && s[j].start == s[0].start ensures s[i].start == s[0].start {
      assert s[i].start <= s[j].start;
      assert i == 0 || s[0].start <= s[i].start;
    }
  }

  lemma {:induction false} WrongFromTie<T>(src: seq<T>, s: seq<Edit<T>>, k: nat, z: T)
    requires FirstTieAt(|src|, s, k) && src[s[k].start] != z
    requires OnlyAtTie(s, k, Repeat(z, s[k].end - s[k].start))
    ensures BottomUp(src, s) != Simultaneous(src, s)
  {
    if k == 0 {
      AfterTheTie(s);
      WrongAtTie(src, s, z);
    } else {
      var rest := s[1..];
      forall i | 0 <= i < |rest| ensures s[0].end <= rest[i].start {
        assert s[0].end <= s[0 + 1].start;
        if i > 0 { assert s[1].start <= s[i + 1].start; }
      }
      WrongTail(|src|, s, k);
      WrongFromTie(src, rest, k - 1, z);
      ChainKeepsWrong(src, s);
    }
  }

  lemma WrongTail<T>(n: nat, s: seq<Edit<T>>, k: nat)
    requires FirstTieAt(n, s, k) && k > 0
    ensures FirstTieAt(n, s[1..], k - 1)
  {
    forall i | 0 <= i < k - 1 ensures s[1..][i].end <= s[1..][i + 1].start {
      assert s[i + 1].end <= s[i + 1 + 1].start;
    }
  }

  lemma ShapeDecides<T>(n: nat, a: seq<Edit<T>>, b: seq<Edit<T>>)
    requires SameShape(a, b)
    ensures InBounds(n, a) ==> InBounds(n, b)
    ensures Ascending(a) ==> Ascending(b)
    ensures PairwiseApart(a) ==> PairwiseApart(b)
    ensures InsertionsFirst(a) ==> InsertionsFirst(b)
  {
    if Ascending(a) {
      forall i, j | 0 <= i < j < |b| ensures b[i].start <= b[j].start { assert a[i].start <= a[j].start; }
    }
    if PairwiseApart(a) {
      forall i, j | 0 <= i < j < |b| ensures Apart(b[i], b[j]) { assert Apart(a[i], a[j]); }
    }
  }

  /** Sorting by start and replacing bottom-up. */
  function SortThenBottomUp<T>(src: seq<T>, edits: seq<Edit<T>>): seq<T> {
    BottomUp(src, StableSort(ByStart, edits))
  }

  lemma SortThenBottomUpIsSimultaneous<T>(src: seq<T>, edits: seq<Edit<T>>)
    requires InBounds(|src|, edits) && PairwiseApart(edits) && InsertionsFirst(edits)
    ensures SortThenBottomUp(src, edits) == Simultaneous(src, edits)
  {
    var s := StableSort(ByStart, edits);
    BoundsFollowMembers(|src|, edits, s);
    SortedIsChained(|src|, edits);
    BottomUpIsSimultaneous(src, s);
    SortKeepsMeaning(src, edits);
  }

  lemma RetextedTie<T>(n: nat, s: seq<Edit<T>>, k: nat, text: seq<T>)
    requires FirstTieAt(n, s, k)
    ensures var t := Retext(s, s[k].start, text);
      FirstTieAt(n, t, k) && OnlyAtTie(t, k, text) && t[k].start == s[k].start < n && t[k].end == s[k].end
  {
    var t := Retext(s, s[k].start, text);
    assert s[k].start < s[k].end <= n;
    ShapeDecides(n, s, t);
    forall i | 0 <= i < k ensures t[i].end <= t[i + 1].start { assert s[i].end <= s[i + 1].start; }
  }

  ghost predicate OnlyOf<T>(text: seq<T>, x: T, y: T) {
    forall i :: 0 <= i < |text| ==> text[i] == x || text[i] == y
  }

  lemma RetextOnly<T>(edits: seq<Edit<T>>, at: nat, text: seq<T>, x: T, y: T)
    requires OnlyOf(text, x, y)
    ensures forall i :: 0 <= i < |Retext(edits, at, text)| ==> OnlyOf(Retext(edits, at, text)[i].text, x, y)
  {}

  lemma TieBounds<T>(n: nat, s: seq<Edit<T>>, k: nat)
    requires FirstTieAt(n, s, k)
    ensures k < |s| && s[k].start < s[k].end <= n
  {}

  lemma WrongWith<T>(src: seq<T>, s: seq<Edit<T>>, k: nat, z: T, text: seq<T>)
    requires k < |s| && s[k].start < s[k].end <= |src| && FirstTieAt(|src|, s, k)
    requires src[s[k].start] != z && text == Repeat(z, s[k].end - s[k].start)
    ensures var t := Retext(s, s[k].start, text);
      BottomUp(src, t) != Simultaneous(src, t)
  {
    var t := Retext(s, s[k].start, text);
    RetextedTie(|src|, s, k, text);
    WrongFromTie(src, t, k, z);
  }

  lemma SortedTieBreaksIt<T>(src: seq<T>, s: seq<Edit<T>>, x: T, y: T) returns (at: nat, text: seq<T>)
    requires InBounds(|src|, s) && Ascending(s) && PairwiseApart(s) && !InsertionsFirst(s) && x != y
    ensures BottomUp(src, Retext(s, at, text)) != Simultaneous(src, Retext(s, at, text))
    ensures OnlyOf(text, x, y)
  {
    var k := FirstTie(|src|, s);
    TieBounds(|src|, s, k);
    at := s[k].start;
    var z := if src[at] == x then y else x;
    text := Repeat(z, s[k].end - s[k].start);
    WrongWith(src, s, k, z, text);
  }

  lemma TieBreaksIt<T>(src: seq<T>, edits: seq<Edit<T>>, x: T, y: T) returns (bad: seq<Edit<T>>)
    requires InBounds(|src|, edits) && PairwiseApart(edits) && !InsertionsFirst(edits) && x != y
    ensures SameShape(edits, bad)
    ensures SortThenBottomUp(src, bad) != Simultaneous(src, bad)
    ensures forall i :: 0 <= i < |bad| ==> OnlyOf(bad[i].text, x, y)
  {
    var s := StableSort(ByStart, edits);
    SortAscends(edits);
    BoundsFollowMembers(|src|, edits, s);
    ApartOfSort(ByStart, edits);
    FirstOfSort(edits);
    var at, text := SortedTieBreaksIt(src, s, x, y);
    bad := Retext(edits, at, text);
    RetextOnly(edits, at, text, x, y);
    RetextSort(edits, at, text);
    SortKeepsMeaning(src, bad);
  }

  /** Accepted ranges are applied as one simultaneous edit WHATEVER their texts
      exactly when equal starts list insertions first. */
  lemma TieOrderIsExact<T>(src: seq<T>, edits: seq<Edit<T>>, x: T, y: T)
    requires InBounds(|src|, edits) && PairwiseApart(edits) && x != y
    ensures InsertionsFirst(edits) <==>
      forall b :: SameShape(edits, b) ==> SortThenBottomUp(src, b) == Simultaneous(src, b)
  {
    if InsertionsFirst(edits) {
      forall b | SameShape(edits, b) ensures SortThenBottomUp(src, b) == Simultaneous(src, b) {
        ShapeDecides(|src|, edits, b);
        SortThenBottomUpIsSimultaneous(src, b);
      }
    } else {
      var bad := TieBreaksIt(src, edits, x, y);
    }
  }
}
