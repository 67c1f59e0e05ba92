/**
 What a capture records and what a restore answers, checkpoint.rs:140-258, on the
 fields of the entries.
 */
module CheckpointOutcomes {
  import opened Seqs
  import opened Wrappers
  import opened Utf8
  import opened Checkpoint

  /** The entry a capture of `path` at `now` makes: what was there, its size, and its
      hash unless it is above 32 MiB. */
  predicate Records(h: Bytes -> string, files: map<Path, Bytes>, path: Path, now: nat, e: Entry) {
    && e.path == path && e.ts == now
    && (e.existed <==> path in files)
    && (path !in files ==> e.size == 0 && !e.truncated && e.hash == "")
    && (path in files ==>
          && e.size == |files[path]|
          && (e.truncated <==> |files[path]| > 33_554_432)
          && (|files[path]| > 33_554_432 ==> e.hash == "")
          && (|files[path]| <= 33_554_432 ==> e.hash == h(files[path])))
  }

  /** Eviction spares the reading it is told to skip. */
  lemma {:induction false} EvictSpares(entries: seq<Entry>, blobs: map<nat, Bytes>, skip: nat, e: Entry)
    requires e in entries && e.ts == skip
    ensures var (kept, left) := Evict(entries, blobs, skip);
      e in kept && (skip in blobs ==> skip in left && left[skip] == blobs[skip])
    decreases |entries|
  {
    var v := Oldest(entries, skip);
    if !Fits(entries) && v.Some? {
      WithoutKeeps(entries, v.value.ts, e);
      EvictSpares(Without(entries, v.value.ts), blobs - {v.value.ts}, skip, e);
    }
  }

  /** A capture appends a true entry, keeps the content of a file up to 32 MiB under
      its reading, touches no file, and afterwards the index is within 200 entries and
      512 MiB or holds entries of one reading alone. */
  lemma CaptureRecords(h: Bytes -> string, w: World, a: string, c: string, path: Path, now: nat)
    ensures var after, e := Captured(h, w, a, c, path, now), Observe(h, w.files, a, c, path, now);
      && e.actionId == a && e.capability == c && Records(h, w.files, path, now, e)
      && e in after.entries && after.files == w.files
      && (path in w.files && |w.files[path]| <= 33_554_432 ==> now in after.blobs && after.blobs[now] == w.files[path])
      && ((|after.entries| <= 200 && Total(after.entries) <= 536_870_912)
          || forall x, y :: x in after.entries && y in after.entries ==> x.ts == y.ts)
  {
    var e := Observe(h, w.files, a, c, path, now);
    var blobs := if Stored(e) then w.blobs[now := w.files[path]] else w.blobs;
    assert e in w.entries + [e];
    EvictSpares(w.entries + [e], blobs, now, e);
    EvictBounds(w.entries + [e], blobs, now);
  }

  /** Entry `i` is the first of the index with the reading. */
  predicate FirstOfReading(entries: seq<Entry>, ts: nat, i: nat) {
    i < |entries| && entries[i].ts == ts && forall j :: 0 <= j < i ==> entries[j].ts != ts
  }

  lemma {:induction false} FindIs(entries: seq<Entry>, ts: nat, i: nat)
    requires FirstOfReading(entries, ts, i)
    ensures Find(entries, ts) == Some(entries[i])
  {
    if i > 0 {
      assert entries[0].ts != ts;
      FindIs(entries[1..], ts, i - 1);
    }
  }

  /** A reading that is not in the index is refused, and nothing is captured for it. */
  lemma UnknownReading(h: Bytes -> string, w: World, ts: nat, now: nat)
    requires forall e :: e in w.entries ==> e.ts != ts
    ensures Restored(h, w, ts, now) == (w, Err(NoSuchCheckpoint))
  {}

  /** Any other reading first captures the path as it is; then the answer follows the
      entry: content put back after its hash is checked, a missing file made missing
      again, and content that was never stored or is gone refused with the files as
      they were. */
  lemma RestoreAnswers(h: Bytes -> string, w: World, ts: nat, now: nat, i: nat)
    requires FirstOfReading(w.entries, ts, i)
    ensures var e, (after, r) := w.entries[i], Restored(h, w, ts, now);
      var rolled := Captured(h, w, "restore", "desktop.fs.restore", e.path, now);
      && after.entries == rolled.entries && after.blobs == rolled.blobs
      && (r == Err(ContentNotStored) <==> e.existed && e.truncated)
      && (r == Err(BlobUnreadable) <==> e.existed && !e.truncated && ts !in rolled.blobs)
      && (r == Err(BlobCorrupt) <==>
            e.existed && !e.truncated && ts in rolled.blobs && e.hash != "" && h(rolled.blobs[ts]) != e.hash)
      && r != Err(NoSuchCheckpoint)
      && (r.Err? ==> after.files == w.files)
      && (r.Ok? && e.existed ==> ts in rolled.blobs && after.files == w.files[e.path := rolled.blobs[ts]])
      && (r.Ok? && !e.existed ==> after.files == w.files - {e.path})
      && (r.Ok? ==>
            && r.value.actionId == "restore" && r.value.capability == "desktop.fs.restore"
            && Records(h, w.files, e.path, now, r.value))
  {
    FindIs(w.entries, ts, i);
    CaptureRecords(h, w, "restore", "desktop.fs.restore", w.entries[i].path, now);
  }
}
