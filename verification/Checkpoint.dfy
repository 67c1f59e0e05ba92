/**
 The checkpoint store, checkpoint.rs: pre-images of files captured before a
 mutation, evicted oldest-first under two budgets, restored reversibly.
 Clock readings are parameters; SHA-256 is a parameter.
 */
module Checkpoint {
  import opened Seqs
  import opened Wrappers
  import opened Utf8

  type Path = string
  type Bytes = seq<byte>

  const MAX_CHECKPOINTS: nat := 200
  const MAX_TOTAL_BYTES: nat := 512 * 1024 * 1024
  const MAX_FILE_BYTES: nat := 32 * 1024 * 1024

  datatype Entry = Entry(actionId: string, capability: string, path: Path, ts: nat,
                         existed: bool, size: nat, hash: string, truncated: bool)

  datatype World = World(files: map<Path, Bytes>, entries: seq<Entry>, blobs: map<nat, Bytes>)

  datatype Failure = NoSuchCheckpoint | BlobUnreadable | BlobCorrupt | ContentNotStored

  // ---------------------------------------------------------------- eviction

  function Total(entries: seq<Entry>): nat {
    if entries == [] then 0 else entries[0].size + Total(entries[1..])
  }

  predicate Fits(entries: seq<Entry>) {
    |entries| <= MAX_CHECKPOINTS && Total(entries) <= MAX_TOTAL_BYTES
  }

  /** The entry with the least timestamp, `skip` excepted; the first of equals. */
  function Oldest(entries: seq<Entry>, skip: nat): (v: Option<Entry>)
    ensures v.Some? ==> v.value in entries && v.value.ts != skip
  {
    if entries == [] then None
    else
      var rest := Oldest(entries[1..], skip);
      if entries[0].ts == skip then rest
      else if rest.Some? && rest.value.ts < entries[0].ts then rest
      else Some(entries[0])
  }

  function Without(entries: seq<Entry>, ts: nat): (r: seq<Entry>)
    ensures |r| <= |entries| && ((exists e :: e in entries && e.ts == ts) ==> |r| < |entries|)
  {
    if entries == [] then []
    else if entries[0].ts == ts then Without(entries[1..], ts)
    else [entries[0]] + Without(entries[1..], ts)
  }

  /** Drop the oldest entry, with its blob, while a budget is exceeded. */
  function Evict(entries: seq<Entry>, blobs: map<nat, Bytes>, skip: nat): (seq<Entry>, map<nat, Bytes>)
    decreases |entries|
  {
    if Fits(entries) then (entries, blobs)
    else
      match Oldest(entries, skip)
      case None => (entries, blobs)
      case Some(v) => Evict(Without(entries, v.ts), blobs - {v.ts}, skip)
  }

  // ------------------------------------------------------- capture and restore

  /** What a capture records about the current state of `path`. */
  function Observe(h: Bytes -> string, files: map<Path, Bytes>, actionId: string, capability: string, path: Path,
                   now: nat): Entry
  {
    if path !in files then Entry(actionId, capability, path, now, false, 0, "", false)
    else if |files[path]| > MAX_FILE_BYTES then Entry(actionId, capability, path, now, true, |files[path]|, "", true)
    else Entry(actionId, capability, path, now, true, |files[path]|, h(files[path]), false)
  }

  predicate Stored(e: Entry) { e.existed && !e.truncated }

  function Captured(h: Bytes -> string, w: World, actionId: string, capability: string, path: Path, now: nat): World {
    var e := Observe(h, w.files, actionId, capability, path, now);
    var blobs := if Stored(e) then w.blobs[now := w.files[path]] else w.blobs;
    var kept := Evict(w.entries + [e], blobs, now);
    World(w.files, kept.0, kept.1)
  }

  function Find(entries: seq<Entry>, ts: nat): (r: Option<Entry>)
    ensures r.Some? ==> r.value in entries && r.value.ts == ts
    ensures r.None? ==> forall e :: e in entries ==> e.ts != ts
  {
    if entries == [] then None else if entries[0].ts == ts then Some(entries[0]) else Find(entries[1..], ts)
  }

  /** Writing the pre-image back, after the rollback capture. */
  function Materialized(h: Bytes -> string, w: World, e: Entry): Result<World, Failure> {
    if Stored(e) then
      if e.ts !in w.blobs then Err(BlobUnreadable)
      else if e.hash != "" && h(w.blobs[e.ts]) != e.hash then Err(BlobCorrupt)
      else Ok(w.(files := w.files[e.path := w.blobs[e.ts]]))
    else if e.existed then Err(ContentNotStored)
    else Ok(w.(files := w.files - {e.path}))
  }

  /** The world after a restore and its outcome: the rollback entry. */
  function Restored(h: Bytes -> string, w: World, ts: nat, now: nat): (World, Result<Entry, Failure>) {
    match Find(w.entries, ts)
    case None => (w, Err(NoSuchCheckpoint))
    case Some(e) =>
      var w1 := Captured(h, w, "restore", "desktop.fs.restore", e.path, now);
      match Materialized(h, w1, e)
      case Err(f) => (w1, Err(f))
      case Ok(w2) => (w2, Ok(Observe(h, w.files, "restore", "desktop.fs.restore", e.path, now)))
  }

  class CheckpointStore {
    var files: map<Path, Bytes>
    var entries: seq<Entry>
    var blobs: map<nat, Bytes>
    const hash: Bytes -> string

    constructor (files: map<Path, Bytes>, hash: Bytes -> string)
      ensures State() == World(files, [], map[]) && this.hash == hash
    {
      this.files, this.entries, this.blobs, this.hash := files, [], map[], hash;
    }

    function State(): World
      reads this
    {
      World(files, entries, blobs)
    }

    method EnforceLimits(skip: nat)
      modifies this
      ensures var (kept, left) := Evict(old(entries), old(blobs), skip);
        State() == World(old(files), kept, left)
    {
      while true
        invariant files == old(files)
        invariant Evict(entries, blobs, skip) == Evict(old(entries), old(blobs), skip)
        decreases |entries|
      {
        var total := 0;
        for i := 0 to |entries|
          invariant total + Total(entries[i..]) == Total(entries)
          invariant files == old(files)
          invariant Evict(entries, blobs, skip) == Evict(old(entries), old(blobs), skip)
        {
          total := total + entries[i].size;
        }
        if |entries| <= MAX_CHECKPOINTS && total <= MAX_TOTAL_BYTES { break; }
        var victim := Oldest(entries, skip);
        if victim.None? { break; }
        blobs := blobs - {victim.value.ts};
        entries := Without(entries, victim.value.ts);
      }
    }

    method Capture(actionId: string, capability: string, path: Path, now: nat) returns (e: Entry)
      modifies this
      ensures State() == Captured(hash, old(State()), actionId, capability, path, now)
      ensures e == Observe(hash, old(files), actionId, capability, path, now)
    {
      if path in files {
        var bytes := files[path];
        if |bytes| > MAX_FILE_BYTES {
          e := Entry(actionId, capability, path, now, true, |bytes|, "", true);
        } else {
          blobs := blobs[now := bytes];
          e := Entry(actionId, capability, path, now, true, |bytes|, hash(bytes), false);
        }
      } else {
        e := Entry(actionId, capability, path, now, false, 0, "", false);
      }
      entries := entries + [e];
      EnforceLimits(now);
    }

    method Restore(ts: nat, now: nat) returns (r: Result<Entry, Failure>)
      modifies this
      ensures (State(), r) == Restored(hash, old(State()), ts, now)
    {
      var found := Find(entries, ts);
      if found.None? { return Err(NoSuchCheckpoint); }
      var e := found.value;
      var rollback := Capture("restore", "desktop.fs.restore", e.path, now);
      if e.existed && !e.truncated {
        if e.ts !in blobs { return Err(BlobUnreadable); }
        var bytes := blobs[e.ts];
        if e.hash != "" && hash(bytes) != e.hash { return Err(BlobCorrupt); }
        files := files[e.path := bytes];
      } else if e.existed && e.truncated {
        return Err(ContentNotStored);
      } else {
        files := files - {e.path};
      }
      return Ok(rollback);
    }
  }

  // ------------------------------------------- what eviction keeps, by itself

  predicate Chronological(entries: seq<Entry>) {
    forall i, j :: 0 <= i < j < |entries| ==> entries[i].ts < entries[j].ts
  }

  /** How many of the oldest entries go: the least number that leaves a run
      within both budgets, but never the newest entry. */
  function Dropped(entries: seq<Entry>): (d: nat)
    ensures entries != [] ==> d < |entries|
    ensures d <= |entries|
  {
    if |entries| <= 1 || Fits(entries) then 0 else 1 + Dropped(entries[1..])
  }

  lemma {:induction false} DroppedIsLeast(entries: seq<Entry>, k: nat)
    requires k <= |entries|
    ensures Fits(entries[Dropped(entries)..]) || |entries| - Dropped(entries) == 1
    ensures k < Dropped(entries) ==> !Fits(entries[k..])
  {
    if |entries| > 1 && !Fits(entries) {
      DroppedIsLeast(entries[1..], if k == 0 then 0 else k - 1);
      var d := Dropped(entries);
      assert entries[1..][d - 1..] == entries[d..];
      if k == 0 { assert entries[0..] == entries; } else { assert entries[1..][k - 1..] == entries[k..]; }
    } else {
      assert entries[0..] == entries;
    }
  }

  lemma {:induction false} FitsShrinks(entries: seq<Entry>, i: nat, j: nat)
    requires i <= j <= |entries| && Fits(entries[i..])
    ensures Fits(entries[j..])
    decreases j - i
  {
    if i < j {
      assert entries[i..][1..] == entries[i + 1..];
      FitsShrinks(entries, i + 1, j);
    }
  }

  /** Entry `i` survives exactly when the run from it to the newest fits (or it
      is the newest). */
  lemma SurvivesIff(entries: seq<Entry>, i: nat)
    requires i < |entries|
    ensures Dropped(entries) <= i <==> Fits(entries[i..]) || i == |entries| - 1
  {
    var d := Dropped(entries);
    DroppedIsLeast(entries, i);
    if d <= i && Fits(entries[d..]) { FitsShrinks(entries, d, i); }
  }

  ghost predicate BlobsWithin(entries: seq<Entry>, blobs: map<nat, Bytes>) {
    forall t :: t in blobs <==> exists i :: 0 <= i < |entries| && entries[i].ts == t && Stored(entries[i])
  }

  lemma OldestIsFirst(entries: seq<Entry>, skip: nat)
    requires Chronological(entries) && |entries| > 1 && entries[|entries| - 1].ts == skip
    ensures Oldest(entries, skip) == Some(entries[0])
  {
    assert entries[0].ts < entries[|entries| - 1].ts;
    var rest := Oldest(entries[1..], skip);
    if rest.Some? { assert rest.value in entries[1..]; }
  }

  lemma {:induction false} WithoutAbsent(entries: seq<Entry>, ts: nat)
    requires forall i :: 0 <= i < |entries| ==> entries[i].ts != ts
    ensures Without(entries, ts) == entries
  {
    if entries == [] {
    } else {
      WithoutAbsent(entries[1..], ts);
    }
  }

  /** With strictly increasing timestamps the eviction loop keeps exactly the
      run `Dropped` describes, and exactly its blobs. */
  lemma {:induction false} EvictKeepsRun(entries: seq<Entry>, blobs: map<nat, Bytes>, skip: nat)
    requires Chronological(entries) && entries != [] && entries[|entries| - 1].ts == skip
    requires BlobsWithin(entries, blobs)
    ensures var (kept, left) := Evict(entries, blobs, skip);
      && kept == entries[Dropped(entries)..]
      && BlobsWithin(kept, left)
      && forall t :: t in left ==> t in blobs && left[t] == blobs[t]
    decreases |entries|
  {
    assert entries[0..] == entries;
    if |entries| > 1 && !Fits(entries) {
      EvictStep(entries, blobs, skip);
      DropFirstBlob(entries, blobs);
      EvictKeepsRun(entries[1..], blobs - {entries[0].ts}, skip);
      assert entries[1..][Dropped(entries[1..])..] == entries[Dropped(entries)..];
    } else {
      EvictStops(entries, blobs, skip);
    }
  }

  lemma EvictStops(entries: seq<Entry>, blobs: map<nat, Bytes>, skip: nat)
    requires Fits(entries) || (|entries| == 1 && entries[0].ts == skip)
    ensures Evict(entries, blobs, skip) == (entries, blobs)
  {
    if |entries| == 1 { assert entries[1..] == []; }
  }

  lemma EvictStep(entries: seq<Entry>, blobs: map<nat, Bytes>, skip: nat)
    requires Chronological(entries) && |entries| > 1 && entries[|entries| - 1].ts == skip && !Fits(entries)
    ensures Evict(entries, blobs, skip) == Evict(entries[1..], blobs - {entries[0].ts}, skip)
  {
    OldestIsFirst(entries, skip);
    WithoutAbsent(entries[1..], entries[0].ts);
  }

  lemma DropFirstBlob(entries: seq<Entry>, blobs: map<nat, Bytes>)
    requires Chronological(entries) && |entries| > 1 && BlobsWithin(entries, blobs)
    ensures BlobsWithin(entries[1..], blobs - {entries[0].ts})
  {
    var rest, left := entries[1..], blobs - {entries[0].ts};
    forall t ensures t in left <==> exists i :: 0 <= i < |rest| && rest[i].ts == t && Stored(rest[i]) {
      if t in left {
        var i :| 0 <= i < |entries| && entries[i].ts == t && Stored(entries[i]);
        assert rest[i - 1] == entries[i];
      }
      if i :| 0 <= i < |rest| && rest[i].ts == t && Stored(rest[i]) {
        assert entries[i + 1] == rest[i] && entries[0].ts < entries[i + 1].ts;
      }
    }
  }

  // ------------------------------------------------------------- whole runs

  /** What a file held when a capture looked at it. */
  datatype Snapshot = Snapshot(path: Path, content: Option<Bytes>)

  function Look(files: map<Path, Bytes>, path: Path): Option<Bytes> {
    if path in files then Some(files[path]) else None
  }

  function Put(files: map<Path, Bytes>, path: Path, content: Option<Bytes>): map<Path, Bytes> {
    if content.Some? then files[path := content.value] else files - {path}
  }

  datatype Op =
    | Capture(actionId: string, capability: string, path: Path)
    | Mutate(target: Path, content: Option<Bytes>)
    | Restore(ts: nat)

  /** A world with the history of every capture and the last clock reading. */
  datatype Run = Run(world: World, history: map<nat, Snapshot>, clock: nat)

  function Perform(h: Bytes -> string, m: Run, op: Op, now: nat): Run {
    var w := m.world;
    match op
    case Mutate(path, content) => m.(world := w.(files := Put(w.files, path, content)), clock := now)
    case Capture(a, c, path) =>
      Run(Captured(h, w, a, c, path, now), m.history[now := Snapshot(path, Look(w.files, path))], now)
    case Restore(ts) =>
      var found := Find(w.entries, ts);
      var history := if found.None? then m.history
                     else m.history[now := Snapshot(found.value.path, Look(w.files, found.value.path))];
      Run(Restored(h, w, ts, now).0, history, now)
  }

  function PerformAll(h: Bytes -> string, m: Run, ops: seq<(Op, nat)>): Run
    decreases |ops|
  {
    if ops == [] then m else PerformAll(h, Perform(h, m, ops[0].0, ops[0].1), ops[1..])
  }

  /** Strictly increasing clock readings. */
  predicate Clocked(clock: nat, ops: seq<(Op, nat)>)
    decreases |ops|
  {
    ops == [] || (clock < ops[0].1 && Clocked(ops[0].1, ops[1..]))
  }

  /** An entry tells the truth about its snapshot. */
  predicate Truthful(h: Bytes -> string, e: Entry, s: Snapshot) {
    && e.path == s.path && e.existed == s.content.Some?
    && (s.content.None? ==> e.size == 0 && e.hash == "" && !e.truncated)
    && (s.content.Some? ==>
          && e.size == |s.content.value| && e.truncated == (e.size > MAX_FILE_BYTES)
          && e.hash == if e.truncated then "" else h(s.content.value))
  }

  /** The history and the blobs agree with what the entry records. */
  predicate EntrySound(h: Bytes -> string, e: Entry, history: map<nat, Snapshot>, blobs: map<nat, Bytes>) {
    && e.ts in history && Truthful(h, e, history[e.ts])
    && (Stored(e) ==> e.ts in blobs && Some(blobs[e.ts]) == history[e.ts].content)
  }

  ghost predicate Sound(h: Bytes -> string, m: Run) {
    var w := m.world;
    && Chronological(w.entries)
    && (forall i :: 0 <= i < |w.entries| ==> w.entries[i].ts <= m.clock)
    && (forall i :: 0 <= i < |w.entries| ==> EntrySound(h, w.entries[i], m.history, w.blobs))
    && BlobsWithin(w.entries, w.blobs)
    && (Fits(w.entries) || |w.entries| == 1)
  }

  /** After a capture the index is the longest newest-first run within budget
      (or the fresh entry alone), and everything recorded stays true. */
  lemma CaptureKeepsSound(h: Bytes -> string, m: Run, a: string, c: string, path: Path, now: nat)
    requires Sound(h, m) && m.clock < now
    ensures Sound(h, Perform(h, m, Capture(a, c, path), now))
    ensures var all := m.world.entries + [Observe(h, m.world.files, a, c, path, now)];
      Captured(h, m.world, a, c, path, now).entries == all[Dropped(all)..]
  {
    var w := m.world;
    var e := Observe(h, w.files, a, c, path, now);
    var blobs := if Stored(e) then w.blobs[now := w.files[path]] else w.blobs;
    var history := m.history[now := Snapshot(path, Look(w.files, path))];
    RecordedSound(h, m, e, blobs, history);
    BlobsAfterCapture(w, e, blobs);
    EvictedSound(h, w.files, w.entries + [e], blobs, history, now);
  }

  /** Eviction keeps a sound store sound. */
  lemma EvictedSound(h: Bytes -> string, files: map<Path, Bytes>, all: seq<Entry>, blobs: map<nat, Bytes>,
                     history: map<nat, Snapshot>, now: nat)
    requires Chronological(all) && all != [] && all[|all| - 1].ts == now && BlobsWithin(all, blobs)
    requires forall i :: 0 <= i < |all| ==> EntrySound(h, all[i], history, blobs)
    ensures var (kept, left) := Evict(all, blobs, now);
      kept == all[Dropped(all)..] && Sound(h, Run(World(files, kept, left), history, now))
  {
    EvictKeepsRun(all, blobs, now);
    DroppedIsLeast(all, 0);
    var (kept, left) := Evict(all, blobs, now);
    RunStaysSound(h, all, blobs, history, kept, left, Dropped(all));
    NoneAfterLast(all, kept, Dropped(all));
  }

  lemma NoneAfterLast(all: seq<Entry>, kept: seq<Entry>, d: nat)
    requires Chronological(all) && all != [] && d < |all| && kept == all[d..]
    ensures forall i :: 0 <= i < |kept| ==> kept[i].ts <= all[|all| - 1].ts
  {
    forall i | 0 <= i < |kept| ensures kept[i].ts <= all[|all| - 1].ts {
      assert kept[i] == all[d + i] && (d + i == |all| - 1 || all[d + i].ts < all[|all| - 1].ts);
    }
  }

  /** Before eviction: the old entries and the fresh one. */
  lemma RecordedSound(h: Bytes -> string, m: Run, e: Entry, blobs: map<nat, Bytes>, history: map<nat, Snapshot>)
    requires Sound(h, m) && m.clock < e.ts
    requires e == Observe(h, m.world.files, e.actionId, e.capability, e.path, e.ts)
    requires blobs == if Stored(e) then m.world.blobs[e.ts := m.world.files[e.path]] else m.world.blobs
    requires history == m.history[e.ts := Snapshot(e.path, Look(m.world.files, e.path))]
    ensures var all := m.world.entries + [e];
      Chronological(all) && forall i :: 0 <= i < |all| ==> EntrySound(h, all[i], history, blobs)
  {
    var all := m.world.entries + [e];
    forall i | 0 <= i < |all| ensures EntrySound(h, all[i], history, blobs) {
      if i < |m.world.entries| { assert EntrySound(h, m.world.entries[i], m.history, m.world.blobs); }
    }
  }

  lemma RunStaysSound(h: Bytes -> string, all: seq<Entry>, blobs: map<nat, Bytes>, history: map<nat, Snapshot>,
                      kept: seq<Entry>, left: map<nat, Bytes>, d: nat)
    requires Chronological(all) && d <= |all| && kept == all[d..]
    requires forall i :: 0 <= i < |all| ==> EntrySound(h, all[i], history, blobs)
    requires BlobsWithin(kept, left) && forall t :: t in left ==> t in blobs && left[t] == blobs[t]
    ensures Chronological(kept)
    ensures forall i :: 0 <= i < |kept| ==> EntrySound(h, kept[i], history, left) && kept[i] == all[d + i]
  {
    forall i | 0 <= i < |kept| ensures EntrySound(h, kept[i], history, left) {
      assert EntrySound(h, all[d + i], history, blobs);
    }
  }

  lemma BlobsAfterCapture(w: World, e: Entry, blobs: map<nat, Bytes>)
    requires BlobsWithin(w.entries, w.blobs) && (Stored(e) ==> e.path in w.files)
    requires blobs == if Stored(e) then w.blobs[e.ts := w.files[e.path]] else w.blobs
    ensures BlobsWithin(w.entries + [e], blobs)
  {
    var all := w.entries + [e];
    forall t ensures t in blobs <==> exists i :: 0 <= i < |all| && all[i].ts == t && Stored(all[i]) {
      if t in w.blobs {
        var i :| 0 <= i < |w.entries| && w.entries[i].ts == t && Stored(w.entries[i]);
        assert all[i] == w.entries[i];
      }
      if Stored(e) { assert all[|w.entries|] == e; }
    }
  }

  lemma PerformKeepsSound(h: Bytes -> string, m: Run, op: Op, now: nat)
    requires Sound(h, m) && m.clock < now
    ensures Sound(h, Perform(h, m, op, now))
  {
    match op
    case Mutate(_, _) =>
    case Capture(a, c, path) => CaptureKeepsSound(h, m, a, c, path, now);
    case Restore(ts) => RestoreKeepsSound(h, m, ts, now);
  }

  lemma RestoreKeepsSound(h: Bytes -> string, m: Run, ts: nat, now: nat)
    requires Sound(h, m) && m.clock < now
    ensures Sound(h, Perform(h, m, Restore(ts), now))
  {
    var found := Find(m.world.entries, ts);
    if found.None? {
      SoundLater(h, m, m.world.files, now);
    } else {
      var captured := Perform(h, m, Capture("restore", "desktop.fs.restore", found.value.path), now);
      CaptureKeepsSound(h, m, "restore", "desktop.fs.restore", found.value.path, now);
      SoundLater(h, captured, Perform(h, m, Restore(ts), now).world.files, now);
    }
  }

  /** Files may change, and time pass, without the store noticing. */
  lemma SoundLater(h: Bytes -> string, m: Run, files: map<Path, Bytes>, now: nat)
    requires Sound(h, m) && m.clock <= now
    ensures Sound(h, Run(World(files, m.world.entries, m.world.blobs), m.history, now))
  {}

  /** Every run with increasing timestamps from an empty store. */
  lemma {:induction false} RunKeepsSound(h: Bytes -> string, m: Run, ops: seq<(Op, nat)>)
    requires Sound(h, m) && Clocked(m.clock, ops)
    ensures Sound(h, PerformAll(h, m, ops))
    decreases |ops|
  {
    if ops == [] {
    } else {
      PerformKeepsSound(h, m, ops[0].0, ops[0].1);
      RunKeepsSound(h, Perform(h, m, ops[0].0, ops[0].1), ops[1..]);
    }
  }

  // -------------------------------------------------- the index over a whole run

  /** What one capture saw. */
  datatype Record = Record(entry: Entry, content: Option<Bytes>)

  function RecordOf(h: Bytes -> string, files: map<Path, Bytes>, a: string, c: string, path: Path, now: nat): Record {
    Record(Observe(h, files, a, c, path, now), Look(files, path))
  }

  /** The record an operation adds, if it captures. */
  function Records(h: Bytes -> string, w: World, op: Op, now: nat): seq<Record> {
    match op
    case Mutate(_, _) => []
    case Capture(a, c, path) => [RecordOf(h, w.files, a, c, path, now)]
    case Restore(ts) =>
      var found := Find(w.entries, ts);
      if found.None? then []
      else [RecordOf(h, w.files, "restore", "desktop.fs.restore", found.value.path, now)]
  }

  /** The records of a run at any readings, equal and decreasing ones included. */
  function Log(h: Bytes -> string, m: Run, ops: seq<(Op, nat)>): seq<Record>
    decreases |ops|
  {
    if ops == [] then []
    else Records(h, m.world, ops[0].0, ops[0].1) + Log(h, Perform(h, m, ops[0].0, ops[0].1), ops[1..])
  }

  function EntriesOf(log: seq<Record>): seq<Entry> {
    if log == [] then [] else [log[0].entry] + EntriesOf(log[1..])
  }

  lemma OneEntry(r: Record)
    ensures EntriesOf([r]) == [r.entry]
  {
    assert [r][1..] == [];
  }

  lemma {:induction false} EntriesConcat(a: seq<Record>, b: seq<Record>)
    ensures EntriesOf(a + b) == EntriesOf(a) + EntriesOf(b)
  {
    if a == [] {
      NothingBeside(b);
    } else {
      EntriesConcat(a[1..], b);
      ConcatTail(a, b);
    }
  }

  lemma {:induction false} TotalConcat(a: seq<Entry>, b: seq<Entry>)
    ensures Total(a + b) == Total(a) + Total(b)
  {
    if a == [] {
      NothingBeside(b);
    } else {
      TotalConcat(a[1..], b);
      ConcatTail(a, b);
    }
  }

  /** Entries gone before stay gone: dropping in two rounds is dropping once. */
  lemma {:induction false} DroppedTwice(log: seq<Entry>, e: Entry)
    ensures var kept := log[Dropped(log)..] + [e];
      (log + [e])[Dropped(log + [e])..] == kept[Dropped(kept)..]
  {
    var next := log + [e];
    if Dropped(log) == 0 {
      assert log[0..] + [e] == next;
    } else {
      DroppedTwice(log[1..], e);
      assert next[1..] == log[1..] + [e] && log[1..][Dropped(log[1..])..] == log[Dropped(log)..];
      TotalConcat(log, [e]);
      assert next[1..][Dropped(next[1..])..] == next[Dropped(next)..];
    }
  }

  lemma IndexAfterCapture(h: Bytes -> string, m: Run, log: seq<Entry>, a: string, c: string, path: Path, now: nat)
    requires Sound(h, m) && m.clock < now && m.world.entries == log[Dropped(log)..]
    ensures var next := log + [Observe(h, m.world.files, a, c, path, now)];
      Captured(h, m.world, a, c, path, now).entries == next[Dropped(next)..]
  {
    CaptureKeepsSound(h, m, a, c, path, now);
    DroppedTwice(log, Observe(h, m.world.files, a, c, path, now));
  }

  /** A restore changes the index only through its rollback capture. */
  lemma RestoredEntries(h: Bytes -> string, w: World, ts: nat, now: nat)
    ensures var found := Find(w.entries, ts);
      Restored(h, w, ts, now).0.entries ==
        if found.None? then w.entries
        else Captured(h, w, "restore", "desktop.fs.restore", found.value.path, now).entries
  {}

  lemma IndexAfter(h: Bytes -> string, m: Run, log: seq<Entry>, op: Op, now: nat)
    requires Sound(h, m) && m.clock < now && m.world.entries == log[Dropped(log)..]
    ensures var next := log + EntriesOf(Records(h, m.world, op, now));
      Perform(h, m, op, now).world.entries == next[Dropped(next)..]
  {
    assert log + [] == log;
    match op
    case Mutate(_, _) =>
    case Capture(a, c, path) =>
      OneEntry(RecordOf(h, m.world.files, a, c, path, now));
      IndexAfterCapture(h, m, log, a, c, path, now);
    case Restore(ts) =>
      var found := Find(m.world.entries, ts);
      RestoredEntries(h, m.world, ts, now);
      if found.Some? {
        OneEntry(RecordOf(h, m.world.files, "restore", "desktop.fs.restore", found.value.path, now));
        IndexAfterCapture(h, m, log, "restore", "desktop.fs.restore", found.value.path, now);
      }
  }

  /** Over a whole run the index is the longest newest-first run, within both
      budgets, of everything ever recorded (or the newest entry alone). */
  lemma {:induction false} IndexIsLongestRun(h: Bytes -> string, m: Run, log: seq<Entry>, ops: seq<(Op, nat)>)
    requires Sound(h, m) && Clocked(m.clock, ops) && m.world.entries == log[Dropped(log)..]
    ensures var all := log + EntriesOf(Log(h, m, ops));
      PerformAll(h, m, ops).world.entries == all[Dropped(all)..]
    decreases |ops|
  {
    if ops == [] {
      assert log + [] == log;
    } else {
      var (op, now) := ops[0];
      var next, added := Perform(h, m, op, now), EntriesOf(Records(h, m.world, op, now));
      PerformKeepsSound(h, m, op, now);
      IndexAfter(h, m, log, op, now);
      IndexIsLongestRun(h, next, log + added, ops[1..]);
      EntriesConcat(Records(h, m.world, op, now), Log(h, next, ops[1..]));
      Assoc(log, added, EntriesOf(Log(h, next, ops[1..])));
    }
  }

  // ---------------------------------------------------------------- restoring

  lemma {:induction false} FindAt(entries: seq<Entry>, i: nat)
    requires i < |entries| && Chronological(entries)
    ensures Find(entries, entries[i].ts) == Some(entries[i])
  {
    if i == 0 {
    } else {
      assert entries[0].ts < entries[i].ts;
      FindAt(entries[1..], i - 1);
    }
  }

  function Rollback(h: Bytes -> string, w: World, e: Entry, now: nat): Entry {
    Observe(h, w.files, "restore", "desktop.fs.restore", e.path, now)
  }

  /** Restoring live entry `i` goes through exactly when its content was stored
      and the run from it to the rollback still fits the budgets (a recorded
      absence needs neither).  It then gives its path the content it had at
      capture and touches no other path; a failure touches no file. */
  lemma RestoreIsExact(h: Bytes -> string, m: Run, i: nat, now: nat)
    requires Sound(h, m) && m.clock < now && i < |m.world.entries|
    ensures var e, files := m.world.entries[i], m.world.files;
      var (w, r) := Restored(h, m.world, e.ts, now);
      && (r.Ok? <==> !e.existed || (!e.truncated && Fits(m.world.entries[i..] + [Rollback(h, m.world, e, now)])))
      && (r.Ok? ==> w.files == Put(files, e.path, m.history[e.ts].content) && r.value == Rollback(h, m.world, e, now))
      && (r.Err? ==> w.files == files)
  {
    var e := m.world.entries[i];
    FindAt(m.world.entries, i);
    assert EntrySound(h, e, m.history, m.world.blobs);
    if Stored(e) { BlobSurvives(h, m, i, now); }
  }

  /** The blob of entry `i` is there after the rollback capture exactly when the
      entry is. */
  lemma BlobSurvives(h: Bytes -> string, m: Run, i: nat, now: nat)
    requires Sound(h, m) && m.clock < now && i < |m.world.entries| && Stored(m.world.entries[i])
    ensures var w, e := m.world, m.world.entries[i];
      var w1 := Captured(h, w, "restore", "desktop.fs.restore", e.path, now);
      && (e.ts in w1.blobs <==> Fits(w.entries[i..] + [Rollback(h, w, e, now)]))
      && (e.ts in w1.blobs ==> Some(w1.blobs[e.ts]) == m.history[e.ts].content)
  {
    var w, e := m.world, m.world.entries[i];
    var all := w.entries + [Rollback(h, w, e, now)];
    CaptureKeepsSound(h, m, "restore", "desktop.fs.restore", e.path, now);
    var w1 := Captured(h, w, "restore", "desktop.fs.restore", e.path, now);
    SurvivesIff(all, i);
    SuffixSnoc(w.entries, i, Rollback(h, w, e, now));
    var history := m.history[now := Snapshot(e.path, Look(w.files, e.path))];
    SoundBlobs(h, Run(w1, history, now));
    AllAscend(m, Rollback(h, w, e, now));
    BlobOfRun(h, all, w1.entries, w1.blobs, history, Dropped(all), i);
  }

  lemma SuffixSnoc(entries: seq<Entry>, i: nat, e: Entry)
    requires i < |entries|
    ensures (entries + [e])[i] == entries[i] && (entries + [e])[i..] == entries[i..] + [e]
  {}

  lemma SoundBlobs(h: Bytes -> string, m: Run)
    requires Sound(h, m)
    ensures BlobsWithin(m.world.entries, m.world.blobs)
    ensures forall i :: 0 <= i < |m.world.entries| ==> EntrySound(h, m.world.entries[i], m.history, m.world.blobs)
  {}

  lemma AllAscend(m: Run, e: Entry)
    requires Chronological(m.world.entries) && m.clock < e.ts
    requires forall i :: 0 <= i < |m.world.entries| ==> m.world.entries[i].ts <= m.clock
    ensures Chronological(m.world.entries + [e])
  {}

  lemma BlobOfRun(h: Bytes -> string, all: seq<Entry>, kept: seq<Entry>, left: map<nat, Bytes>,
                  history: map<nat, Snapshot>, d: nat, i: nat)
    requires Chronological(all) && d <= |all| && kept == all[d..] && i < |all| && Stored(all[i])
    requires BlobsWithin(kept, left) && forall j :: 0 <= j < |kept| ==> EntrySound(h, kept[j], history, left)
    ensures all[i].ts in left <==> d <= i
    ensures d <= i ==> all[i].ts in history && Some(left[all[i].ts]) == history[all[i].ts].content
  {
    StampInRun(all, kept, d, i);
    if d <= i {
      assert kept[i - d] == all[i] && EntrySound(h, kept[i - d], history, left);
    }
  }

  /** With distinct timestamps an entry's own is in a run exactly if it is. */
  lemma StampInRun(all: seq<Entry>, kept: seq<Entry>, d: nat, i: nat)
    requires Chronological(all) && d <= |all| && kept == all[d..] && i < |all|
    ensures d <= i ==> exists j :: 0 <= j < |kept| && kept[j].ts == all[i].ts && kept[j] == all[i]
    ensures d > i ==> forall j :: 0 <= j < |kept| ==> kept[j].ts != all[i].ts
  {
    if d <= i {
      assert kept[i - d] == all[i];
    } else {
      forall j | 0 <= j < |kept| ensures kept[j].ts != all[i].ts {
        assert all[i].ts < all[d + j].ts;
      }
    }
  }

  /** Undo of undo: after a successful restore, restoring the returned rollback
      entry brings every file back, exactly when the file it overwrote was
      small enough to be stored. */
  lemma UndoIsExact(h: Bytes -> string, m: Run, i: nat, now: nat, later: nat)
    requires Sound(h, m) && m.clock < now < later && i < |m.world.entries|
    requires Restored(h, m.world, m.world.entries[i].ts, now).1.Ok?
    ensures var e, files := m.world.entries[i], m.world.files;
      var (w, r) := Restored(h, m.world, e.ts, now);
      var (w', r') := Restored(h, w, r.value.ts, later);
      && (r'.Ok? <==> e.path !in files || |files[e.path]| <= MAX_FILE_BYTES)
      && (r'.Ok? ==> w'.files == files)
  {
    var e := m.world.entries[i];
    var m1 := Perform(h, m, Restore(e.ts), now);
    RestoreIsExact(h, m, i, now);
    PerformKeepsSound(h, m, Restore(e.ts), now);
    RollbackIsLast(h, m, i, now);
    assert EntrySound(h, e, m.history, m.world.blobs);
    UndoOfLast(h, m1, later);
    PutBack(m.world.files, e.path, m.history[e.ts].content);
  }

  lemma PutBack(files: map<Path, Bytes>, path: Path, content: Option<Bytes>)
    ensures Put(Put(files, path, content), path, Look(files, path)) == files
  {}

  /** Restoring the newest entry when its path now holds a small file or none. */
  lemma UndoOfLast(h: Bytes -> string, m: Run, later: nat)
    requires Sound(h, m) && m.clock < later && m.world.entries != []
    requires var p := m.world.entries[|m.world.entries| - 1].path;
      p in m.world.files ==> |m.world.files[p]| <= MAX_FILE_BYTES
    ensures var e := m.world.entries[|m.world.entries| - 1];
      var (w, r) := Restored(h, m.world, e.ts, later);
      && (r.Ok? <==> !e.truncated)
      && (r.Ok? ==> w.files == Put(m.world.files, e.path, m.history[e.ts].content))
  {
    var last := |m.world.entries| - 1;
    var e := m.world.entries[last];
    RestoreIsExact(h, m, last, later);
    assert EntrySound(h, e, m.history, m.world.blobs);
    var second := Rollback(h, m.world, e, later);
    assert m.world.entries[last..] + [second] == [e, second];
    if Stored(e) { TwoSmallEntriesFit(e, second); }
  }

  lemma RollbackIsLast(h: Bytes -> string, m: Run, i: nat, now: nat)
    requires Sound(h, m) && m.clock < now && i < |m.world.entries|
    requires Restored(h, m.world, m.world.entries[i].ts, now).1.Ok?
    ensures var e := m.world.entries[i];
      var m1 := Perform(h, m, Restore(e.ts), now);
      && m1.world.entries != []
      && m1.world.entries[|m1.world.entries| - 1] == Rollback(h, m.world, e, now)
      && m1.history == m.history[now := Snapshot(e.path, Look(m.world.files, e.path))]
  {
    var w, e := m.world, m.world.entries[i];
    FindAt(w.entries, i);
    CaptureKeepsSound(h, m, "restore", "desktop.fs.restore", e.path, now);
  }

  lemma TwoSmallEntriesFit(a: Entry, b: Entry)
    requires a.size <= MAX_FILE_BYTES && b.size <= MAX_FILE_BYTES
    ensures Fits([a, b])
  {
    assert [a, b][1..] == [b] && [b][1..] == [];
    assert Total([b]) == b.size;
  }

  /** A restore can destroy the very pre-image it was asked for: the rollback of
      a file beyond the whole budget evicts it. */
  lemma RestoreCanEvictItsEntry(h: Bytes -> string)
    ensures var huge := seq(MAX_TOTAL_BYTES + 1, _ => 0);
      var m := PerformAll(h, Run(World(map["a" := [1]], [], map[]), map[], 0),
                          [(Capture("act", "desktop.fs.write", "a"), 1), (Mutate("a", Some(huge)), 2)]);
      var (w, r) := Restored(h, m.world, 1, 3);
      && Find(m.world.entries, 1).Some? && r == Err(BlobUnreadable) && Find(w.entries, 1).None?
  {
    var start := Run(World(map["a" := [1]], [], map[]), map[], 0);
    var huge: Bytes := seq(MAX_TOTAL_BYTES + 1, _ => 0);
    var ops: seq<(Op, nat)> := [(Capture("act", "desktop.fs.write", "a"), 1), (Mutate("a", Some(huge)), 2)];
    var e := Entry("act", "desktop.fs.write", "a", 1, true, 1, h([1]), false);
    assert [e][1..] == [] && Total([e]) == 1 && [] + [e] == [e];
    var m1 := Perform(h, start, ops[0].0, 1);
    assert m1.world == World(map["a" := [1]], [e], map[1 := [1]]);
    assert ops[1..][1..] == [];
    var m2 := Perform(h, m1, ops[1].0, 2);
    assert PerformAll(h, start, ops) == PerformAll(h, m1, ops[1..]) == PerformAll(h, m2, ops[1..][1..]) == m2;
    RunKeepsSound(h, start, ops);
    HugeRollbackEvicts(h, m2, e, 3);
  }

  lemma HugeRollbackEvicts(h: Bytes -> string, m: Run, e: Entry, now: nat)
    requires Sound(h, m) && m.clock < now && m.world.entries == [e] && Stored(e)
    requires e.path in m.world.files && |m.world.files[e.path]| > MAX_TOTAL_BYTES
    ensures var (w, r) := Restored(h, m.world, e.ts, now);
      r == Err(BlobUnreadable) && Find(w.entries, e.ts).None?
  {
    var rollback := Rollback(h, m.world, e, now);
    var all := [e] + [rollback];
    assert all[1..] == [rollback] && [rollback][1..] == [];
    assert Total(all) == e.size + Total([rollback]) && Total([rollback]) == rollback.size;
    assert Dropped(all) == 1;
    CaptureKeepsSound(h, m, "restore", "desktop.fs.restore", e.path, now);
    BlobSurvives(h, m, 0, now);
  }

  // -------------------------------------------------------- any clock reading

  lemma {:induction false} WithoutKeeps(entries: seq<Entry>, ts: nat, e: Entry)
    ensures e in Without(entries, ts) <==> e in entries && e.ts != ts
  {
    if entries == [] {
    } else {
      WithoutKeeps(entries[1..], ts, e);
    }
  }

  /** Eviction drops an entry and its blob together, and rewrites none. */
  lemma {:induction false} EvictKeepsBlobs(entries: seq<Entry>, blobs: map<nat, Bytes>, skip: nat, e: Entry)
    ensures var (kept, left) := Evict(entries, blobs, skip);
      && (e in kept ==> e in entries && (e.ts in left <==> e.ts in blobs))
      && (forall t :: t in left ==> t in blobs && left[t] == blobs[t])
    decreases |entries|
  {
    var v := Oldest(entries, skip);
    if !Fits(entries) && v.Some? {
      WithoutKeeps(entries, v.value.ts, e);
      EvictKeepsBlobs(Without(entries, v.value.ts), blobs - {v.value.ts}, skip, e);
    }
  }

  lemma {:induction false} NoneOlder(entries: seq<Entry>, skip: nat)
    ensures Oldest(entries, skip).None? ==> forall e :: e in entries ==> e.ts == skip
  {
    if entries == [] {
    } else {
      NoneOlder(entries[1..], skip);
    }
  }

  /** Within the budgets, or of one reading alone. */
  ghost predicate Bounded(entries: seq<Entry>) {
    Fits(entries) || forall e, f :: e in entries && f in entries ==> e.ts == f.ts
  }

  lemma {:induction false} EvictBounds(entries: seq<Entry>, blobs: map<nat, Bytes>, skip: nat)
    ensures Bounded(Evict(entries, blobs, skip).0)
    decreases |entries|
  {
    NoneOlder(entries, skip);
    var v := Oldest(entries, skip);
    if !Fits(entries) && v.Some? {
      EvictBounds(Without(entries, v.value.ts), blobs - {v.value.ts}, skip);
    }
  }

  /** The entries read at `t` or later, and those of the fresh reading. */
  function NotOlder(entries: seq<Entry>, t: nat, last: nat): seq<Entry> {
    if entries == [] then []
    else if entries[0].ts >= t || entries[0].ts == last then [entries[0]] + NotOlder(entries[1..], t, last)
    else NotOlder(entries[1..], t, last)
  }

  lemma {:induction false} NotOlderIsSmaller(entries: seq<Entry>, t: nat, last: nat)
    ensures |NotOlder(entries, t, last)| <= |entries| && Total(NotOlder(entries, t, last)) <= Total(entries)
  {
    if entries == [] {
    } else {
      NotOlderIsSmaller(entries[1..], t, last);
      var rest := NotOlder(entries[1..], t, last);
      assert ([entries[0]] + rest)[1..] == rest;
    }
  }

  lemma {:induction false} NoneIsOlder(entries: seq<Entry>, t: nat, last: nat)
    requires forall e :: e in entries ==> e.ts >= t || e.ts == last
    ensures NotOlder(entries, t, last) == entries
  {
    if entries == [] {
    } else {
      NoneIsOlder(entries[1..], t, last);
    }
  }

  lemma {:induction false} WithoutOlder(entries: seq<Entry>, v: nat, t: nat, last: nat)
    requires v < t && v != last
    ensures NotOlder(Without(entries, v), t, last) == NotOlder(entries, t, last)
  {
    if entries == [] {
    } else {
      WithoutOlder(entries[1..], v, t, last);
      var rest := Without(entries[1..], v);
      assert ([entries[0]] + rest)[1..] == rest;
    }
  }

  lemma {:induction false} OldestIsLeast(entries: seq<Entry>, skip: nat)
    ensures Oldest(entries, skip).Some? ==>
      forall e :: e in entries ==> e.ts == skip || Oldest(entries, skip).value.ts <= e.ts
  {
    if entries == [] {
    } else {
      OldestIsLeast(entries[1..], skip);
      NoneOlder(entries[1..], skip);
    }
  }

  /** At any readings, in any order: an entry survives eviction if and only if it is
      of the fresh reading, or the entries not older than it and the fresh ones fit
      the budgets; and a blob goes with its entries. */
  lemma {:induction false} EvictedExactly(entries: seq<Entry>, blobs: map<nat, Bytes>, skip: nat, e: Entry)
    requires e in entries
    ensures var (kept, left) := Evict(entries, blobs, skip);
      (e in kept <==> e.ts == skip || Fits(NotOlder(entries, e.ts, skip))) && (e !in kept ==> e.ts !in left)
    decreases |entries|, 1
  {
    var v := Oldest(entries, skip);
    NotOlderIsSmaller(entries, e.ts, skip);
    NoneOlder(entries, skip);
    if !Fits(entries) && v.Some? {
      OldestIsLeast(entries, skip);
      EvictOne(entries, blobs, skip, v.value, e);
    }
  }

  lemma {:induction false} EvictOne(entries: seq<Entry>, blobs: map<nat, Bytes>, skip: nat, v: Entry, e: Entry)
    requires e in entries && !Fits(entries) && Oldest(entries, skip) == Some(v)
    requires forall x :: x in entries ==> x.ts == skip || v.ts <= x.ts
    ensures var (kept, left) := Evict(entries, blobs, skip);
      (e in kept <==> e.ts == skip || Fits(NotOlder(entries, e.ts, skip))) && (e !in kept ==> e.ts !in left)
    decreases |entries|, 0
  {
    var rest, fewer := Without(entries, v.ts), blobs - {v.ts};
    WithoutKeeps(entries, v.ts, e);
    if e.ts == v.ts {
      NoneIsOlder(entries, e.ts, skip);
      EvictKeepsBlobs(rest, fewer, skip, e);
    } else {
      EvictedExactly(rest, fewer, skip, e);
      if e.ts != skip { WithoutOlder(entries, v.ts, e.ts, skip); }
    }
  }

  /** A capture at ANY reading: a stored entry that survives it still has its
      content if and only if the readings differ, or the capture stores nothing,
      or its path holds that same content. */
  lemma CaptureClashIsExact(h: Bytes -> string, w: World, a: string, c: string, path: Path, now: nat, e: Entry)
    requires e in w.entries && e.ts in w.blobs
    ensures var w' := Captured(h, w, a, c, path, now);
      e in w'.entries ==>
        (&& e.ts in w'.blobs
         && (w'.blobs[e.ts] == w.blobs[e.ts] <==>
               e.ts != now || !Stored(Observe(h, w.files, a, c, path, now)) || w.files[path] == w.blobs[e.ts]))
  {
    var o := Observe(h, w.files, a, c, path, now);
    EvictKeepsBlobs(w.entries + [o], if Stored(o) then w.blobs[now := w.files[path]] else w.blobs, now, e);
  }

  /** What the last capture at reading `ts` that stored anything stored. */
  function LastStored(log: seq<Record>, ts: nat): Option<Bytes> {
    if log == [] then None
    else
      var r := log[|log| - 1];
      if r.entry.ts == ts && Stored(r.entry) then r.content else LastStored(log[..|log| - 1], ts)
  }

  predicate Recorded(log: seq<Record>, e: Entry) {
    exists i :: 0 <= i < |log| && log[i].entry == e
  }

  /** Every record tells the truth about the content it saw. */
  predicate TruthfulLog(h: Bytes -> string, log: seq<Record>) {
    forall i :: 0 <= i < |log| ==> Truthful(h, log[i].entry, Snapshot(log[i].entry.path, log[i].content))
  }

  /** Index and blobs follow the log, and the index its budgets. */
  ghost predicate Follows(w: World, log: seq<Record>) {
    Bounded(w.entries)
    && forall e :: e in w.entries ==>
      && Recorded(log, e)
      && (Stored(e) ==> e.ts in w.blobs && Some(w.blobs[e.ts]) == LastStored(log, e.ts))
  }

  lemma RecordedGrows(log: seq<Record>, r: Record, e: Entry)
    ensures Recorded(log, e) || e == r.entry ==> Recorded(log + [r], e)
  {
    var all := log + [r];
    if i :| 0 <= i < |log| && log[i].entry == e { assert all[i] == log[i]; }
    if e == r.entry { assert all[|log|] == r; }
  }

  lemma CaptureFollows(h: Bytes -> string, w: World, log: seq<Record>, a: string, c: string, path: Path, now: nat)
    requires Follows(w, log)
    ensures Follows(Captured(h, w, a, c, path, now), log + [RecordOf(h, w.files, a, c, path, now)])
  {
    var r, w' := RecordOf(h, w.files, a, c, path, now), Captured(h, w, a, c, path, now);
    var o, all := r.entry, log + [r];
    assert all[..|log|] == log && all[|log|] == r;
    EvictBounds(w.entries + [o], if Stored(o) then w.blobs[now := w.files[path]] else w.blobs, now);
    forall e | e in w'.entries
      ensures Recorded(all, e) && (Stored(e) ==> e.ts in w'.blobs && Some(w'.blobs[e.ts]) == LastStored(all, e.ts))
    {
      EvictKeepsBlobs(w.entries + [o], if Stored(o) then w.blobs[now := w.files[path]] else w.blobs, now, e);
      RecordedGrows(log, r, e);
    }
  }

  lemma StepFollows(h: Bytes -> string, m: Run, log: seq<Record>, op: Op, now: nat)
    requires Follows(m.world, log)
    ensures Follows(Perform(h, m, op, now).world, log + Records(h, m.world, op, now))
  {
    assert log + [] == log;
    match op
    case Mutate(_, _) =>
    case Capture(a, c, path) => CaptureFollows(h, m.world, log, a, c, path, now);
    case Restore(ts) =>
      var found := Find(m.world.entries, ts);
      if found.Some? {
        CaptureFollows(h, m.world, log, "restore", "desktop.fs.restore", found.value.path, now);
        MaterializedKeeps(h, Captured(h, m.world, "restore", "desktop.fs.restore", found.value.path, now), found.value);
      }
  }

  lemma MaterializedKeeps(h: Bytes -> string, w: World, e: Entry)
    ensures var r := Materialized(h, w, e);
      r.Ok? ==> r.value.entries == w.entries && r.value.blobs == w.blobs
  {}

  /** In every run at any readings, a live entry is one that was recorded, and its
      blob is what the last capture at its reading stored. */
  lemma {:induction false} AnyRunFollows(h: Bytes -> string, m: Run, log: seq<Record>, ops: seq<(Op, nat)>)
    requires Follows(m.world, log)
    ensures Follows(PerformAll(h, m, ops).world, log + Log(h, m, ops))
    decreases |ops|
  {
    if ops == [] {
      assert log + [] == log;
    } else {
      var (op, now) := ops[0];
      StepFollows(h, m, log, op, now);
      AnyRunFollows(h, Perform(h, m, op, now), log + Records(h, m.world, op, now), ops[1..]);
      Assoc(log, Records(h, m.world, op, now), Log(h, Perform(h, m, op, now), ops[1..]));
    }
  }

  lemma {:induction false} LogIsTruthful(h: Bytes -> string, m: Run, ops: seq<(Op, nat)>)
    ensures TruthfulLog(h, Log(h, m, ops))
    decreases |ops|
  {
    if ops == [] {
    } else {
      LogIsTruthful(h, Perform(h, m, ops[0].0, ops[0].1), ops[1..]);
    }
  }

  /** No later capture at the reading of record `i` stored anything else. */
  predicate Unclashed(log: seq<Record>, i: nat)
    requires i < |log|
  {
    LastStored(log, log[i].entry.ts) == log[i].content
  }

  /** A live entry keeps the content of its record if and only if the last capture
      that stored anything at its reading stored that content. */
  lemma LiveContentIsExact(h: Bytes -> string, files: map<Path, Bytes>, ops: seq<(Op, nat)>, i: nat)
    requires var m := Run(World(files, [], map[]), map[], 0);
      var log := Log(h, m, ops);
      i < |log| && Stored(log[i].entry) && log[i].entry in PerformAll(h, m, ops).world.entries
    ensures var m := Run(World(files, [], map[]), map[], 0);
      var log, w := Log(h, m, ops), PerformAll(h, m, ops).world;
      var e := log[i].entry;
      e.ts in w.blobs && (Some(w.blobs[e.ts]) == log[i].content <==> Unclashed(log, i))
  {
    var m := Run(World(files, [], map[]), map[], 0);
    AnyRunFollows(h, m, [], ops);
    assert [] + Log(h, m, ops) == Log(h, m, ops);
  }

  /** Distinct readings are enough: the clock may step back. */
  lemma {:induction false} DistinctReadingsNeverClash(log: seq<Record>, i: nat)
    requires i < |log| && Stored(log[i].entry)
    requires forall j :: 0 <= j < |log| && j != i ==> log[j].entry.ts != log[i].entry.ts
    ensures Unclashed(log, i)
    decreases |log|
  {
    if i < |log| - 1 {
      DistinctReadingsNeverClash(log[..|log| - 1], i);
    }
  }

  /** Whether the entry read at `ts` would survive a capture at `now`. */
  predicate Survives(all: seq<Entry>, ts: nat, now: nat) {
    ts == now || Fits(NotOlder(all, ts, now))
  }

  /** What the rollback capture of a restore leaves in the index. */
  lemma SurvivesRollback(h: Bytes -> string, w: World, e: Entry, now: nat)
    requires e in w.entries
    ensures var o, w1 := Rollback(h, w, e, now), Captured(h, w, "restore", "desktop.fs.restore", e.path, now);
      && (e in w1.entries <==> Survives(w.entries + [o], e.ts, now))
      && (e !in w1.entries ==> e.ts !in w1.blobs)
  {
    var o := Rollback(h, w, e, now);
    EvictedExactly(w.entries + [o], if Stored(o) then w.blobs[now := w.files[e.path]] else w.blobs, now, e);
  }

  /** Restoring a stored entry at ANY reading goes through if and only if the entry
      survives the rollback capture and what was last stored at its reading, the
      rollback included, has the digest it recorded; it then writes just that, so a
      content of another is written only in a collision of digests. */
  lemma RestoreAtAnyReading(h: Bytes -> string, w: World, log: seq<Record>, i: nat, now: nat)
    requires Follows(w, log) && TruthfulLog(h, log) && forall x :: h(x) != ""
    requires i < |log| && Stored(log[i].entry) && Find(w.entries, log[i].entry.ts) == Some(log[i].entry)
    ensures var e := log[i].entry;
      var (w', r) := Restored(h, w, e.ts, now);
      var o := RecordOf(h, w.files, "restore", "desktop.fs.restore", e.path, now);
      var last := LastStored(log + [o], e.ts);
      && log[i].content.Some? && last.Some?
      && (r.Ok? <==> Survives(w.entries + [o.entry], e.ts, now) && h(last.value) == h(log[i].content.value))
      && w'.files == if r.Ok? then Put(w.files, e.path, last) else w.files
  {
    var e := log[i].entry;
    assert Truthful(h, e, Snapshot(e.path, log[i].content));
    StoredRestore(h, w, e, now);
    BlobAfterRollback(h, w, log, e, now);
  }

  /** A restore of a stored entry, in terms of the blob the rollback leaves. */
  lemma StoredRestore(h: Bytes -> string, w: World, e: Entry, now: nat)
    requires Stored(e) && e.hash != "" && Find(w.entries, e.ts) == Some(e)
    ensures var (w', r) := Restored(h, w, e.ts, now);
      var left := Captured(h, w, "restore", "desktop.fs.restore", e.path, now).blobs;
      && (r.Ok? <==> e.ts in left && h(left[e.ts]) == e.hash)
      && w'.files == if r.Ok? then w.files[e.path := left[e.ts]] else w.files
  {}

  lemma BlobAfterRollback(h: Bytes -> string, w: World, log: seq<Record>, e: Entry, now: nat)
    requires Follows(w, log) && e in w.entries && Stored(e)
    ensures var o := RecordOf(h, w.files, "restore", "desktop.fs.restore", e.path, now);
      var left := Captured(h, w, "restore", "desktop.fs.restore", e.path, now).blobs;
      var last := LastStored(log + [o], e.ts);
      && last.Some?
      && (e.ts in left <==> Survives(w.entries + [o.entry], e.ts, now))
      && (e.ts in left ==> left[e.ts] == last.value)
  {
    CaptureFollows(h, w, log, "restore", "desktop.fs.restore", e.path, now);
    SurvivesRollback(h, w, e, now);
    LastStoredIs(w, log, e, RecordOf(h, w.files, "restore", "desktop.fs.restore", e.path, now));
  }

  /** Something stored at the reading of a live stored entry is on record. */
  lemma LastStoredIs(w: World, log: seq<Record>, e: Entry, o: Record)
    requires Follows(w, log) && e in w.entries && Stored(e)
    requires Stored(o.entry) ==> o.content.Some?
    ensures LastStored(log + [o], e.ts).Some?
  {
    assert (log + [o])[..|log|] == log;
  }

  /** So a restore gives back the recorded content when nothing else was last stored
      at its reading, whatever the clock did. */
  lemma UnclashedRestores(h: Bytes -> string, w: World, log: seq<Record>, i: nat, now: nat)
    requires Follows(w, log) && TruthfulLog(h, log) && forall x :: h(x) != ""
    requires i < |log| && Stored(log[i].entry) && Find(w.entries, log[i].entry.ts) == Some(log[i].entry)
    requires var e := log[i].entry;
      var o := RecordOf(h, w.files, "restore", "desktop.fs.restore", e.path, now);
      LastStored(log + [o], e.ts) == log[i].content && Survives(w.entries + [o.entry], e.ts, now)
    ensures var (w', r) := Restored(h, w, log[i].entry.ts, now);
      r.Ok? && w'.files == Put(w.files, log[i].entry.path, log[i].content)
  {
    RestoreAtAnyReading(h, w, log, i, now);
  }

  /** Two captures in one millisecond share one blob: the older is lost. */
  lemma SameTimestampLosesContent(h: Bytes -> string)
    requires h([1]) != h([2]) && h([1]) != ""
    ensures var m := PerformAll(h, Run(World(map["a" := [1], "b" := [2]], [], map[]), map[], 0),
                                [(Capture("x", "desktop.fs.write", "a"), 5),
                                 (Capture("y", "desktop.fs.write", "b"), 5)]);
      Restored(h, m.world, 5, 6).1 == Err(BlobCorrupt)
  {
    var files: map<Path, Bytes> := map["a" := [1], "b" := [2]];
    var start := Run(World(files, [], map[]), map[], 0);
    var ops: seq<(Op, nat)> := [(Capture("x", "desktop.fs.write", "a"), 5), (Capture("y", "desktop.fs.write", "b"), 5)];
    var a := Entry("x", "desktop.fs.write", "a", 5, true, 1, h([1]), false);
    var b := Entry("y", "desktop.fs.write", "b", 5, true, 1, h([2]), false);
    var c := Entry("restore", "desktop.fs.restore", "a", 6, true, 1, h([1]), false);
    ThreeBytesFit(a, b, c);
    var m1 := Perform(h, start, ops[0].0, 5);
    assert m1.world == World(files, [a], map[5 := [1]]);
    var m2 := Perform(h, m1, ops[1].0, 5);
    assert m2.world == World(files, [a, b], map[5 := [2]]);
    assert ops[1..][1..] == [] && PerformAll(h, start, ops) == m2;
    BlobOfAnother(h, m2.world, a, b, c);
  }

  lemma ThreeBytesFit(a: Entry, b: Entry, c: Entry)
    requires a.size == b.size == c.size == 1
    ensures [] + [a] == [a] && [a] + [b] == [a, b] && [a, b] + [c] == [a, b, c]
    ensures Fits([a]) && Fits([a, b]) && Fits([a, b, c])
  {
    assert [a][1..] == [] && [a, b][1..] == [b] && [b][1..] == [];
    assert [a, b, c][1..] == [b, c] && [b, c][1..] == [c] && [c][1..] == [];
    assert Total([c]) == 1 && Total([b, c]) == 2 && Total([b]) == 1;
  }

  lemma BlobOfAnother(h: Bytes -> string, w: World, a: Entry, b: Entry, c: Entry)
    requires w.entries == [a, b] && a.ts == 5 && Stored(a) && a.hash != ""
    requires Fits([a, b, c]) && [a, b] + [c] == [a, b, c]
    requires c == Observe(h, w.files, "restore", "desktop.fs.restore", a.path, 6)
    requires 5 in w.blobs && h(w.blobs[5]) != a.hash
    ensures Restored(h, w, 5, 6).1 == Err(BlobCorrupt)
  {
    assert Find(w.entries, 5) == Some(a);
    assert Captured(h, w, "restore", "desktop.fs.restore", a.path, 6).blobs
        == if Stored(c) then w.blobs[6 := w.files[a.path]] else w.blobs;
  }
}
