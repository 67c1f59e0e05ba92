/**
 A batch of edits against one text, independent of how it is carried out.

 `Simultaneous` is the meaning of a batch: walk the positions of the ORIGINAL
 text once; at each position emit the texts of the edits that start there (in
 list order), then the element itself unless some edit replaces it.  Nothing in
 it sorts, splices or keeps a running offset.  The three implementations
 (bottom-up replace, top-down copy, line splice) are proved equal to it.
 */
module TextEdits {
  import opened Seqs

  datatype Edit<T> = Edit(start: nat, end: nat, text: seq<T>)

  // ---------------------------------------------------------------- meaning

  /** Texts of the edits that start at `p`, in list order. */
  function InsertedAt<T>(edits: seq<Edit<T>>, p: nat): seq<T> {
    if edits == [] then []
    else (if edits[0].start == p then edits[0].text else []) + InsertedAt(edits[1..], p)
  }

  /** Some edit replaces the element at `p`. */
  predicate Covered<T>(edits: seq<Edit<T>>, p: nat) {
    exists i :: 0 <= i < |edits| && edits[i].start <= p < edits[i].end
  }

  function SimFrom<T>(src: seq<T>, edits: seq<Edit<T>>, p: nat): seq<T>
    decreases |src| - p, 1
  {
    InsertedAt(edits, p) + KeptFrom(src, edits, p)
  }

  function KeptFrom<T>(src: seq<T>, edits: seq<Edit<T>>, p: nat): seq<T>
    decreases |src| - p, 0
  {
    if p >= |src| then []
    else if Covered(edits, p) then SimFrom(src, edits, p + 1)
    else [src[p]] + SimFrom(src, edits, p + 1)
  }

  function Simultaneous<T>(src: seq<T>, edits: seq<Edit<T>>): seq<T> {
    SimFrom(src, edits, 0)
  }

  // ------------------------------------------------------- batch conditions

  /** Every range is ordered and inside a text of length `n`. */
  predicate InBounds<T>(n: nat, edits: seq<Edit<T>>) {
    forall i :: 0 <= i < |edits| ==> edits[i].start <= edits[i].end <= n
  }

  predicate Apart<T>(a: Edit<T>, b: Edit<T>) {
    a.end <= b.start || b.end <= a.start
  }

  predicate PairwiseApart<T>(edits: seq<Edit<T>>) {
    forall i, j :: 0 <= i < j < |edits| ==> Apart(edits[i], edits[j])
  }

  /** Of two edits with one start, the earlier in the list only inserts. */
  predicate InsertionsFirst<T>(edits: seq<Edit<T>>) {
    forall i, j :: 0 <= i < j < |edits| && edits[i].start == edits[j].start
      ==> edits[i].end == edits[i].start
  }

  /** Ascending, and each edit ends before the next one starts. */
  predicate Chained<T>(edits: seq<Edit<T>>) {
    forall i, j :: 0 <= i < j < |edits| ==> edits[i].end <= edits[j].start
  }

  predicate StartsFrom<T>(edits: seq<Edit<T>>, p: nat) {
    forall i :: 0 <= i < |edits| ==> p <= edits[i].start
  }

  // --------------------------------------------------------- stable sorting

  /** The sort keys of the programs: by start, by (start, end), by descending
      start. */
  datatype Key = ByStart | ByStartThenEnd | ByStartDown

  predicate NotAfter<T>(key: Key, a: Edit<T>, b: Edit<T>) {
    match key
    case ByStart => a.start <= b.start
    case ByStartDown => a.start >= b.start
    case ByStartThenEnd => a.start < b.start || (a.start == b.start && a.end <= b.end)
  }

  function Insert<T>(key: Key, e: Edit<T>, sorted: seq<Edit<T>>): (r: seq<Edit<T>>)
    ensures multiset(r) == multiset([e] + sorted)
  {
    if sorted == [] || NotAfter(key, e, sorted[0]) then [e] + sorted
    else
      assert sorted == [sorted[0]] + sorted[1..];
      [sorted[0]] + Insert(key, e, sorted[1..])
  }

  /** The stable ascending sort of the standard library. */
  function StableSort<T>(key: Key, edits: seq<Edit<T>>): (r: seq<Edit<T>>)
    ensures multiset(r) == multiset(edits)
    ensures |r| == |edits|
  {
    if edits == [] then []
    else
      assert edits == [edits[0]] + edits[1..];
      var r := Insert(key, edits[0], StableSort(key, edits[1..]));
      assert |multiset(r)| == |multiset(edits)|;
      r
  }

  ghost predicate SortedBy<T>(key: Key, edits: seq<Edit<T>>) {
    forall i, j :: 0 <= i < j < |edits| ==> NotAfter(key, edits[i], edits[j])
  }

  lemma SortedCons<T>(key: Key, x: Edit<T>, rest: seq<Edit<T>>)
    requires SortedBy(key, rest) && forall j :: 0 <= j < |rest| ==> NotAfter(key, x, rest[j])
    ensures SortedBy(key, [x] + rest)
  {
    var l := [x] + rest;
    forall i, j | 0 <= i < j < |l| ensures NotAfter(key, l[i], l[j]) {
      assert l[j] == rest[j - 1] && (i > 0 ==> l[i] == rest[i - 1]);
    }
  }

  lemma SortedTail<T>(key: Key, sorted: seq<Edit<T>>)
    requires SortedBy(key, sorted) && sorted != []
    ensures SortedBy(key, sorted[1..])
    ensures forall j :: 0 <= j < |sorted[1..]| ==> NotAfter(key, sorted[0], sorted[1..][j])
  {
    var rest := sorted[1..];
    forall i, j | 0 <= i < j < |rest| ensures NotAfter(key, rest[i], rest[j]) {
      assert rest[i] == sorted[i + 1] && rest[j] == sorted[j + 1];
    }
  }

  lemma InsertedMembers<T>(key: Key, e: Edit<T>, sorted: seq<Edit<T>>, j: nat)
    requires j < |Insert(key, e, sorted)|
    ensures Insert(key, e, sorted)[j] == e || Insert(key, e, sorted)[j] in sorted
  {
    assert Insert(key, e, sorted)[j] in multiset([e] + sorted);
  }

  lemma {:induction false} InsertKeepsSorted<T>(key: Key, e: Edit<T>, sorted: seq<Edit<T>>)
    requires SortedBy(key, sorted)
    ensures SortedBy(key, Insert(key, e, sorted))
  {
    if sorted == [] {
    } else {
      var x, rest := sorted[0], sorted[1..];
      SortedTail(key, sorted);
      if NotAfter(key, e, x) {
        SortedCons(key, e, sorted);
      } else {
        InsertKeepsSorted(key, e, rest);
        var r := Insert(key, e, rest);
        forall j | 0 <= j < |r| ensures NotAfter(key, x, r[j]) { InsertedMembers(key, e, rest, j); }
        SortedCons(key, x, r);
      }
    }
  }

  lemma {:induction false} StableSortSorts<T>(key: Key, edits: seq<Edit<T>>)
    ensures SortedBy(key, StableSort(key, edits))
  {
    if edits == [] {
    } else {
      StableSortSorts(key, edits[1..]);
      InsertKeepsSorted(key, edits[0], StableSort(key, edits[1..]));
    }
  }

  lemma InsertedCons<T>(e: Edit<T>, rest: seq<Edit<T>>, p: nat)
    ensures InsertedAt([e] + rest, p) == if e.start == p then e.text + InsertedAt(rest, p) else InsertedAt(rest, p)
  {
    assert ([e] + rest)[1..] == rest;
    assert [] + InsertedAt(rest, p) == InsertedAt(rest, p);
  }

  lemma {:induction false} InsertKeepsInserted<T>(e: Edit<T>, sorted: seq<Edit<T>>, p: nat)
    ensures InsertedAt(Insert(ByStart, e, sorted), p) == InsertedAt([e] + sorted, p)
  {
    if sorted != [] && !NotAfter(ByStart, e, sorted[0]) {
      var y, rest := sorted[0], sorted[1..];
      InsertKeepsInserted(e, rest, p);
      InsertedCons(y, Insert(ByStart, e, rest), p);
      InsertedCons(e, rest, p);
      InsertedCons(e, sorted, p);
      InsertedCons(y, rest, p);
      assert sorted == [y] + rest;
    }
  }

  /** Stability: the sort by start keeps list order among equal starts. */
  lemma {:induction false} StableSortKeepsInserted<T>(edits: seq<Edit<T>>, p: nat)
    ensures InsertedAt(StableSort(ByStart, edits), p) == InsertedAt(edits, p)
  {
    if edits == [] {
    } else {
      StableSortKeepsInserted(edits[1..], p);
      var tail := StableSort(ByStart, edits[1..]);
      InsertKeepsInserted(edits[0], tail, p);
      assert ([edits[0]] + tail)[1..] == tail;
    }
  }

  lemma CoveredFollowsMembers<T>(a: seq<Edit<T>>, b: seq<Edit<T>>, p: nat)
    requires multiset(a) == multiset(b)
    ensures Covered(a, p) == Covered(b, p)
  {
    forall e | e in a ensures e in b { assert e in multiset(a); }
    forall e | e in b ensures e in a { assert e in multiset(b); }
    if Covered(a, p) {
      var i :| 0 <= i < |a| && a[i].start <= p < a[i].end;
      assert a[i] in b;
    }
    if Covered(b, p) {
      var i :| 0 <= i < |b| && b[i].start <= p < b[i].end;
      assert b[i] in a;
    }
  }

  /** Two batches with the same members and the same order among equal starts
      mean the same. */
  lemma {:induction false} SimDependsOnTies<T>(src: seq<T>, a: seq<Edit<T>>, b: seq<Edit<T>>, p: nat)
    requires multiset(a) == multiset(b)
    requires forall q: nat :: InsertedAt(a, q) == InsertedAt(b, q)
    ensures SimFrom(src, a, p) == SimFrom(src, b, p)
    decreases |src| - p
  {
    CoveredFollowsMembers(a, b, p);
    if p < |src| { SimDependsOnTies(src, a, b, p + 1); }
    SameStep(src, a, b, p);
  }

  lemma SortKeepsMeaning<T>(src: seq<T>, edits: seq<Edit<T>>)
    ensures Simultaneous(src, StableSort(ByStart, edits)) == Simultaneous(src, edits)
  {
    forall q: nat ensures InsertedAt(StableSort(ByStart, edits), q) == InsertedAt(edits, q) {
      StableSortKeepsInserted(edits, q);
    }
    SimDependsOnTies(src, StableSort(ByStart, edits), edits, 0);
  }

  // --------------------------------------- when is the sorted list chained?

  /** Membership-based conditions do not depend on the order of the list. */
  lemma BoundsFollowMembers<T>(n: nat, a: seq<Edit<T>>, b: seq<Edit<T>>)
    requires multiset(a) == multiset(b)
    ensures InBounds(n, a) ==> InBounds(n, b)
  {
    forall i | 0 <= i < |b| ensures b[i] in a { assert b[i] in multiset(b); }
  }

  /** The two pairwise conditions, as one relation from an earlier to a later
      edit of the list. */
  datatype Relation = NoOverlap | TieOrder

  predicate Holds<T>(rel: Relation, a: Edit<T>, b: Edit<T>) {
    match rel
    case NoOverlap => Apart(a, b)
    case TieOrder => a.start == b.start ==> a.end == a.start
  }

  predicate HoldsToAll<T>(rel: Relation, a: Edit<T>, s: seq<Edit<T>>) {
    s == [] || (Holds(rel, a, s[0]) && HoldsToAll(rel, a, s[1..]))
  }

  predicate AllPairs<T>(rel: Relation, s: seq<Edit<T>>) {
    s == [] || (HoldsToAll(rel, s[0], s[1..]) && AllPairs(rel, s[1..]))
  }

  lemma {:induction false} HoldsToAllMeans<T>(rel: Relation, a: Edit<T>, s: seq<Edit<T>>)
    ensures HoldsToAll(rel, a, s) <==> forall j :: 0 <= j < |s| ==> Holds(rel, a, s[j])
  {
    if s == [] {
    } else {
      HoldsToAllMeans(rel, a, s[1..]);
      assert s == [s[0]] + s[1..];
    }
  }

  lemma {:induction false} AllPairsMeans<T>(rel: Relation, s: seq<Edit<T>>)
    ensures AllPairs(rel, s) <==> forall i, j :: 0 <= i < j < |s| ==> Holds(rel, s[i], s[j])
  {
    if s == [] {
    } else {
      AllPairsMeans(rel, s[1..]);
      HoldsToAllMeans(rel, s[0], s[1..]);
      assert s == [s[0]] + s[1..];
    }
  }

  lemma {:induction false} HoldsToInsert<T>(rel: Relation, key: Key, a: Edit<T>, e: Edit<T>, sorted: seq<Edit<T>>)
    ensures HoldsToAll(rel, a, Insert(key, e, sorted)) <==> Holds(rel, a, e) && HoldsToAll(rel, a, sorted)
  {
    assert ([e] + sorted)[1..] == sorted;
    if sorted != [] && !NotAfter(key, e, sorted[0]) {
      HoldsToInsert(rel, key, a, e, sorted[1..]);
      var r := Insert(key, e, sorted[1..]);
      assert ([sorted[0]] + r)[1..] == r;
    }
  }

  lemma {:induction false} PairsOfInsert<T>(rel: Relation, key: Key, e: Edit<T>, sorted: seq<Edit<T>>)
    requires rel == NoOverlap || key == ByStart
    ensures AllPairs(rel, Insert(key, e, sorted)) <==> HoldsToAll(rel, e, sorted) && AllPairs(rel, sorted)
  {
    assert ([e] + sorted)[1..] == sorted;
    if sorted != [] && !NotAfter(key, e, sorted[0]) {
      PairsOfInsert(rel, key, e, sorted[1..]);
      HoldsToInsert(rel, key, sorted[0], e, sorted[1..]);
      var r := Insert(key, e, sorted[1..]);
      assert ([sorted[0]] + r)[1..] == r;
    }
  }

  lemma {:induction false} HoldsToSort<T>(rel: Relation, key: Key, a: Edit<T>, edits: seq<Edit<T>>)
    ensures HoldsToAll(rel, a, StableSort(key, edits)) <==> HoldsToAll(rel, a, edits)
  {
    if edits == [] {
    } else {
      HoldsToSort(rel, key, a, edits[1..]);
      HoldsToInsert(rel, key, a, edits[0], StableSort(key, edits[1..]));
    }
  }

  /** Sorting changes neither condition. */
  lemma {:induction false} PairsOfSort<T>(rel: Relation, key: Key, edits: seq<Edit<T>>)
    requires rel == NoOverlap || key == ByStart
    ensures AllPairs(rel, StableSort(key, edits)) <==> AllPairs(rel, edits)
  {
    if edits == [] {
    } else {
      PairsOfSort(rel, key, edits[1..]);
      HoldsToSort(rel, key, edits[0], edits[1..]);
      PairsOfInsert(rel, key, edits[0], StableSort(key, edits[1..]));
    }
  }

  lemma ApartOfSort<T>(key: Key, edits: seq<Edit<T>>)
    ensures PairwiseApart(StableSort(key, edits)) <==> PairwiseApart(edits)
  {
    PairsOfSort(NoOverlap, key, edits);
    AllPairsMeans(NoOverlap, edits);
    AllPairsMeans(NoOverlap, StableSort(key, edits));
  }

  lemma FirstOfSort<T>(edits: seq<Edit<T>>)
    ensures InsertionsFirst(StableSort(ByStart, edits)) <==> InsertionsFirst(edits)
  {
    PairsOfSort(TieOrder, ByStart, edits);
    AllPairsMeans(TieOrder, edits);
    AllPairsMeans(TieOrder, StableSort(ByStart, edits));
  }

  /** Neighbouring ranges of the list do not overlap: what a scan of
      `windows(2)` looks at. */
  predicate NeighboursApart<T>(s: seq<Edit<T>>) {
    forall k :: 0 <= k < |s| - 1 ==> s[k].end <= s[k + 1].start
  }

  lemma {:induction false} NeighboursChain<T>(n: nat, s: seq<Edit<T>>)
    requires InBounds(n, s)
    ensures NeighboursApart(s) <==> Chained(s)
  {
    if NeighboursApart(s) && |s| > 1 {
      NeighboursChain(n, s[1..]);
      assert NeighboursApart(s[1..]) by {
        forall k | 0 <= k < |s[1..]| - 1 ensures s[1..][k].end <= s[1..][k + 1].start {
          assert s[k + 1].end <= s[k + 1 + 1].start;
        }
      }
      forall i, j | 0 <= i < j < |s| ensures s[i].end <= s[j].start {
        if i > 0 {
          assert s[1..][i - 1].end <= s[1..][j - 1].start;
        } else if j > 1 {
          assert s[0].end <= s[1].start <= s[1].end;
          assert s[1..][0].end <= s[1..][j - 1].start;
        }
      }
    }
  }

  /** The server-overlap scan (sort by (start, end), compare neighbours)
      accepts exactly the batches whose ranges are pairwise apart. */
  lemma OverlapScanIsPairwise<T>(n: nat, edits: seq<Edit<T>>)
    requires InBounds(n, edits)
    ensures NeighboursApart(StableSort(ByStartThenEnd, edits)) <==> PairwiseApart(edits)
  {
    var s := StableSort(ByStartThenEnd, edits);
    StableSortSorts(ByStartThenEnd, edits);
    BoundsFollowMembers(n, edits, s);
    NeighboursChain(n, s);
    ApartOfSort(ByStartThenEnd, edits);
    if PairwiseApart(s) {
      forall i, j | 0 <= i < j < |s| ensures s[i].end <= s[j].start {
        assert Apart(s[i], s[j]) && NotAfter(ByStartThenEnd, s[i], s[j]);
      }
    }
  }

  predicate Ascending<T>(s: seq<Edit<T>>) {
    forall i, j :: 0 <= i < j < |s| ==> s[i].start <= s[j].start
  }

  lemma SortAscends<T>(edits: seq<Edit<T>>)
    ensures Ascending(StableSort(ByStart, edits))
  {
    var s := StableSort(ByStart, edits);
    StableSortSorts(ByStart, edits);
    forall i, j | 0 <= i < j < |s| ensures s[i].start <= s[j].start { assert NotAfter(ByStart, s[i], s[j]); }
  }

  lemma ChainedWhenAscending<T>(n: nat, s: seq<Edit<T>>)
    requires InBounds(n, s) && Ascending(s)
    ensures Chained(s) <==> PairwiseApart(s) && InsertionsFirst(s)
  {
    if PairwiseApart(s) && InsertionsFirst(s) {
      forall i, j | 0 <= i < j < |s| ensures s[i].end <= s[j].start {
        assert Apart(s[i], s[j]) && s[i].start <= s[j].start;
      }
    }
  }

  /** After the stable sort by start the ranges are chained exactly when they
      are pairwise apart and ties list insertions first. */
  lemma SortedIsChained<T>(n: nat, edits: seq<Edit<T>>)
    requires InBounds(n, edits)
    ensures Chained(StableSort(ByStart, edits)) <==> PairwiseApart(edits) && InsertionsFirst(edits)
  {
    SortAscends(edits);
    BoundsFollowMembers(n, edits, StableSort(ByStart, edits));
    ChainedWhenAscending(n, StableSort(ByStart, edits));
    ApartOfSort(ByStart, edits);
    FirstOfSort(edits);
  }

  // ------------------------------------------------- batches as multisets

  predicate Nonempty<T>(edits: seq<Edit<T>>) {
    forall i :: 0 <= i < |edits| ==> edits[i].start < edits[i].end
  }

  lemma ApartFromMember<T>(e: Edit<T>, s: seq<Edit<T>>, k: nat)
    requires k < |s| && s[k] == e && PairwiseApart(s)
    ensures var rest := s[..k] + s[k + 1..];
      && multiset(s) == multiset([e] + rest)
      && PairwiseApart([e] + rest)
  {
    var rest := s[..k] + s[k + 1..];
    assert s == s[..k] + [e] + s[k + 1..];
    var l := [e] + rest;
    forall i, j | 0 <= i < j < |l| ensures Apart(l[i], l[j]) {
      var i', j' := if i == 0 then k else if i <= k then i - 1 else i, if j <= k then j - 1 else j;
      assert l[i] == s[i'] && l[j] == s[j'];
      assert i' < j' || j' < i';
    }
  }

  /** Disjointness is a property of the batch, not of its order. */
  lemma {:induction false} ApartPermutes<T>(a: seq<Edit<T>>, b: seq<Edit<T>>)
    requires multiset(a) == multiset(b) && PairwiseApart(a)
    ensures PairwiseApart(b)
  {
    if b == [] {
    } else {
      assert b[0] in multiset(a);
      var k :| 0 <= k < |a| && a[k] == b[0];
      ApartFromMember(b[0], a, k);
      var rest := a[..k] + a[k + 1..];
      assert b == [b[0]] + b[1..];
      CancelMember(b[0], multiset(rest), multiset(b[1..]));
      TailApart(b[0], rest);
      ApartPermutes(rest, b[1..]);
      ApartBack(b[0], rest, b[1..]);
    }
  }

  lemma TailApart<T>(e: Edit<T>, x: seq<Edit<T>>)
    requires PairwiseApart([e] + x)
    ensures PairwiseApart(x) && forall i :: 0 <= i < |x| ==> Apart(e, x[i])
  {
    var l := [e] + x;
    forall i, j | 0 <= i < j < |x| ensures Apart(x[i], x[j]) { assert l[i + 1] == x[i] && l[j + 1] == x[j]; }
    forall i | 0 <= i < |x| ensures Apart(e, x[i]) { assert l[0] == e && l[i + 1] == x[i]; }
  }

  lemma ApartBack<T>(e: Edit<T>, x: seq<Edit<T>>, y: seq<Edit<T>>)
    requires multiset(x) == multiset(y) && PairwiseApart(y)
    requires forall i :: 0 <= i < |x| ==> Apart(e, x[i])
    ensures PairwiseApart([e] + y)
  {
    forall j | 0 <= j < |y| ensures Apart(e, y[j]) {
      assert y[j] in multiset(x);
      var i :| 0 <= i < |x| && x[i] == y[j];
    }
  }

  /** With one edit at a start, that edit's text is what is inserted there. */
  lemma {:induction false} OnlyInserted<T>(edits: seq<Edit<T>>, e: Edit<T>)
    requires PairwiseApart(edits) && Nonempty(edits) && e in edits
    ensures InsertedAt(edits, e.start) == e.text
  {
    var head, rest := edits[0], edits[1..];
    assert edits == [head] + rest;
    TailApart(head, rest);
    if head == e {
      forall i | 0 <= i < |rest| ensures rest[i].start != e.start { assert rest[i] == edits[i + 1]; }
      NothingInserted(rest, e.start);
      assert e.text + [] == e.text;
    } else {
      var i :| 0 <= i < |rest| && rest[i] == e;
      assert rest[i] == edits[i + 1];
      OnlyInserted(rest, e);
      assert [] + e.text == e.text;
    }
  }

  /** A batch of disjoint replacements means the same in every order. */
  lemma SimPermutes<T>(src: seq<T>, a: seq<Edit<T>>, b: seq<Edit<T>>)
    requires multiset(a) == multiset(b) && PairwiseApart(a) && Nonempty(a)
    ensures Simultaneous(src, a) == Simultaneous(src, b)
  {
    ApartPermutes(a, b);
    forall x ensures x in a <==> x in b { assert x in multiset(a) <==> x in multiset(b); }
    forall i | 0 <= i < |b| ensures b[i].start < b[i].end { assert b[i] in a; }
    forall q: nat ensures InsertedAt(a, q) == InsertedAt(b, q) {
      if e :| e in a && e.start == q {
        OnlyInserted(a, e);
        OnlyInserted(b, e);
      } else {
        NothingInserted(a, q);
        forall i | 0 <= i < |b| ensures b[i].start != q { assert b[i] in a; }
        NothingInserted(b, q);
      }
    }
    SimDependsOnTies(src, a, b, 0);
  }

  /** Net number of elements a batch adds. */
  function Growth<T>(edits: seq<Edit<T>>): int {
    if edits == [] then 0 else |edits[0].text| - (edits[0].end - edits[0].start) + Growth(edits[1..])
  }

  lemma {:induction false} GrowthOfInsert<T>(key: Key, e: Edit<T>, sorted: seq<Edit<T>>)
    ensures Growth(Insert(key, e, sorted)) == |e.text| - (e.end - e.start) + Growth(sorted)
  {
    assert ([e] + sorted)[1..] == sorted;
    if sorted != [] && !NotAfter(key, e, sorted[0]) {
      GrowthOfInsert(key, e, sorted[1..]);
      var r := Insert(key, e, sorted[1..]);
      assert ([sorted[0]] + r)[1..] == r;
    }
  }

  lemma {:induction false} GrowthOfSort<T>(key: Key, edits: seq<Edit<T>>)
    ensures Growth(StableSort(key, edits)) == Growth(edits)
  {
    if edits == [] {
    } else {
      GrowthOfSort(key, edits[1..]);
      GrowthOfInsert(key, edits[0], StableSort(key, edits[1..]));
    }
  }

  // -------------------------------------------------- evaluating the meaning

  lemma {:induction false} NothingInserted<T>(edits: seq<Edit<T>>, p: nat)
    requires forall i :: 0 <= i < |edits| ==> edits[i].start != p
    ensures InsertedAt(edits, p) == []
  {
    if edits == [] {
    } else {
      NothingInserted(edits[1..], p);
    }
  }

  /** Below every start the text is copied. */
  lemma {:induction false} CopyBelow<T>(src: seq<T>, edits: seq<Edit<T>>, p: nat, q: nat)
    requires p <= q <= |src| && StartsFrom(edits, q)
    ensures SimFrom(src, edits, p) == src[p..q] + SimFrom(src, edits, q)
    decreases q - p
  {
    var tail := SimFrom(src, edits, q);
    if p == q {
      assert src[p..q] + tail == tail;
    } else {
      CopyStep(src, edits, p);
      CopyBelow(src, edits, p + 1, q);
      TakeFirst(src, p, q);
      Assoc([src[p]], src[p + 1..q], tail);
    }
  }

  lemma CopyStep<T>(src: seq<T>, edits: seq<Edit<T>>, p: nat)
    requires p < |src| && StartsFrom(edits, p + 1)
    ensures SimFrom(src, edits, p) == [src[p]] + SimFrom(src, edits, p + 1)
  {
    NothingInserted(edits, p);
    assert !Covered(edits, p);
    var kept := KeptFrom(src, edits, p);
    assert [] + kept == kept;
  }

  /** Batches that agree at `p` and mean the same from the next position on. */
  lemma SameStep<T>(src: seq<T>, a: seq<Edit<T>>, b: seq<Edit<T>>, p: nat)
    requires InsertedAt(a, p) == InsertedAt(b, p) && Covered(a, p) == Covered(b, p)
    requires p < |src| ==> SimFrom(src, a, p + 1) == SimFrom(src, b, p + 1)
    ensures SimFrom(src, a, p) == SimFrom(src, b, p)
  {}

  /** An edit in front of later ones is invisible past its end. */
  lemma {:induction false} PastTheEnd<T>(src: seq<T>, e: Edit<T>, rest: seq<Edit<T>>, p: nat)
    requires e.start < p && e.end <= p
    ensures SimFrom(src, [e] + rest, p) == SimFrom(src, rest, p)
    decreases |src| - p
  {
    InsertedCons(e, rest, p);
    CoveredCons(e, rest, p);
    if p < |src| { PastTheEnd(src, e, rest, p + 1); }
    SameStep(src, [e] + rest, rest, p);
  }

  lemma CoveredCons<T>(e: Edit<T>, rest: seq<Edit<T>>, p: nat)
    ensures Covered([e] + rest, p) <==> e.start <= p < e.end || Covered(rest, p)
  {
    var l := [e] + rest;
    if Covered(rest, p) {
      var i :| 0 <= i < |rest| && rest[i].start <= p < rest[i].end;
      assert l[i + 1] == rest[i];
    }
    if e.start <= p < e.end { assert l[0] == e; }
  }

  /** A replaced position emits the texts that start there and nothing else. */
  lemma ReplacedStep<T>(src: seq<T>, edits: seq<Edit<T>>, p: nat, text: seq<T>)
    requires p < |src| && Covered(edits, p) && InsertedAt(edits, p) == text
    ensures SimFrom(src, edits, p) == text + SimFrom(src, edits, p + 1)
    ensures text == [] ==> SimFrom(src, edits, p) == SimFrom(src, edits, p + 1)
  {
    assert [] + SimFrom(src, edits, p + 1) == SimFrom(src, edits, p + 1);
  }

  lemma SilentStep<T>(src: seq<T>, e: Edit<T>, rest: seq<Edit<T>>, p: nat)
    requires e.start < p < e.end <= |src| && StartsFrom(rest, e.end)
    ensures SimFrom(src, [e] + rest, p) == SimFrom(src, [e] + rest, p + 1)
  {
    InsertedCons(e, rest, p);
    NothingInserted(rest, p);
    CoveredCons(e, rest, p);
    ReplacedStep(src, [e] + rest, p, []);
  }

  /** Inside a replaced range nothing is emitted. */
  lemma {:induction false} SkipReplaced<T>(src: seq<T>, e: Edit<T>, rest: seq<Edit<T>>, p: nat)
    requires e.start < p <= e.end <= |src| && StartsFrom(rest, e.end)
    ensures SimFrom(src, [e] + rest, p) == SimFrom(src, rest, e.end)
    decreases e.end - p
  {
    var all := [e] + rest;
    if p == e.end {
      PastTheEnd(src, e, rest, p);
    } else {
      SilentStep(src, e, rest, p);
      SkipReplaced(src, e, rest, p + 1);
      assert SimFrom(src, all, p) == SimFrom(src, all, p + 1);
    }
  }

  /** The meaning of a chained batch, read off its first edit. */
  lemma SimOfFirst<T>(src: seq<T>, e: Edit<T>, rest: seq<Edit<T>>)
    requires e.start <= e.end <= |src| && StartsFrom(rest, e.end)
    ensures SimFrom(src, [e] + rest, e.start) == e.text + SimFrom(src, rest, e.end)
  {
    InsertedCons(e, rest, e.start);
    if e.start < e.end {
      SimOfReplace(src, e, rest);
    } else {
      SimOfInsertion(src, e, rest);
    }
  }

  lemma FirstReplaced<T>(e: Edit<T>, rest: seq<Edit<T>>)
    requires e.start < e.end && StartsFrom(rest, e.end)
    ensures InsertedAt([e] + rest, e.start) == e.text && Covered([e] + rest, e.start)
  {
    InsertedCons(e, rest, e.start);
    NothingInserted(rest, e.start);
    CoveredCons(e, rest, e.start);
    assert e.text + [] == e.text;
  }

  lemma SimOfReplace<T>(src: seq<T>, e: Edit<T>, rest: seq<Edit<T>>)
    requires e.start < e.end <= |src| && StartsFrom(rest, e.end)
    ensures SimFrom(src, [e] + rest, e.start) == e.text + SimFrom(src, rest, e.end)
  {
    FirstReplaced(e, rest);
    ReplacedStep(src, [e] + rest, e.start, e.text);
    SkipReplaced(src, e, rest, e.start + 1);
  }

  lemma SameKept<T>(src: seq<T>, a: seq<Edit<T>>, b: seq<Edit<T>>, p: nat)
    requires Covered(a, p) == Covered(b, p)
    requires p < |src| ==> SimFrom(src, a, p + 1) == SimFrom(src, b, p + 1)
    ensures KeptFrom(src, a, p) == KeptFrom(src, b, p)
  {}

  lemma SimOfInsertion<T>(src: seq<T>, e: Edit<T>, rest: seq<Edit<T>>)
    requires e.start == e.end <= |src|
    ensures SimFrom(src, [e] + rest, e.start) == e.text + SimFrom(src, rest, e.end)
  {
    var s := e.start;
    InsertedCons(e, rest, s);
    CoveredCons(e, rest, s);
    if s < |src| { PastTheEnd(src, e, rest, s + 1); }
    SameKept(src, [e] + rest, rest, s);
    Assoc(e.text, InsertedAt(rest, s), KeptFrom(src, rest, s));
  }
}
