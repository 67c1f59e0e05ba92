/**
 Convergence of chat snapshots, chat_store.rs:158-263: the same snapshots delivered
 in different orders and numbers, and exactly when the order cannot show.
 */
module ChatConvergence {
  import opened Wrappers
  import opened ChatStore

  /** A snapshot on its way, with the local clock when it lands. */
  datatype Delivery = Delivery(snap: Snapshot, now: u64)

  const EMPTY := Db(map[], map[])

  function PlayAll(ds: seq<Delivery>): Db {
    if ds == [] then EMPTY
    else Upserted(PlayAll(ds[..|ds| - 1]), ds[|ds| - 1].snap, ds[|ds| - 1].now)
  }

  /** The snapshots delivered, whatever their order and number. */
  function Snaps(ds: seq<Delivery>): set<Snapshot> {
    set i | 0 <= i < |ds| :: ds[i].snap
  }

  /** Every snapshot carries its own timestamp. */
  predicate Dated(all: set<Snapshot>) {
    forall s :: s in all ==> s.updatedAt.Some?
  }

  /** No snapshot of the conversation is newer. */
  predicate Top(all: set<Snapshot>, s: Snapshot) {
    forall t :: t in all && t.id == s.id ==> Stamp(t, 0) <= Stamp(s, 0)
  }

  predicate SharesMessageId(s: Snapshot, t: Snapshot) {
    exists k, l :: 0 <= k < |s.messages| && 0 <= l < |t.messages| && s.messages[k].id == t.messages[l].id
  }

  // ------------------------------------------------------- the four conditions

  predicate Rivals(all: set<Snapshot>, s: Snapshot, t: Snapshot) {
    s.id == t.id && Top(all, s) && Top(all, t)
  }

  /** The newest snapshots of a conversation give it one row. */
  predicate OneRow(all: set<Snapshot>) {
    forall s, t :: s in all && t in all && Rivals(all, s, t) ==> RowOf(s, 0) == RowOf(t, 0)
  }

  /** Those of them that have messages have the same ones. */
  predicate OneContent(all: set<Snapshot>) {
    forall s, t :: s in all && t in all && Rivals(all, s, t) && s.messages != [] && t.messages != [] ==>
      Wanted(s) == Wanted(t)
  }

  predicate HasFullTop(all: set<Snapshot>, c: Id) {
    exists t :: t in all && t.id == c && Top(all, t) && t.messages != []
  }

  /** If any snapshot of a conversation has messages, a newest one has. */
  predicate TopHasMessages(all: set<Snapshot>) {
    forall s :: s in all && s.messages != [] ==> HasFullTop(all, s.id)
  }

  /** No message id of a newest snapshot is listed for another conversation. */
  predicate OwnIds(all: set<Snapshot>) {
    forall s, t :: s in all && t in all && s.id != t.id && Top(all, s) ==> !SharesMessageId(s, t)
  }

  predicate Agreeing(all: set<Snapshot>) {
    OneRow(all) && OneContent(all) && TopHasMessages(all) && OwnIds(all)
  }

  // ------------------------------------------------------ where things come from

  predicate ListedFor(done: set<Snapshot>, c: Id, m: Id) {
    exists s :: s in done && s.id == c && Listed(s.messages, m)
  }

  predicate RowFrom(done: set<Snapshot>, c: Id, row: ConvRow) {
    exists s :: s in done && s.id == c && row == RowOf(s, 0)
  }

  /** Every message was listed by a snapshot of its conversation, every row is that
      of one, and every snapshot's conversation is there. */
  ghost predicate Traced(db: Db, done: set<Snapshot>) {
    && (forall m :: m in db.msgs ==> ListedFor(done, db.msgs[m].conv, m))
    && (forall c :: c in db.convs ==> RowFrom(done, c, db.convs[c]))
    && (forall s :: s in done ==> s.id in db.convs)
  }

  lemma ListedForGrows(done: set<Snapshot>, s: Snapshot, c: Id, m: Id)
    requires ListedFor(done, c, m) || (s.id == c && Listed(s.messages, m))
    ensures ListedFor(done + {s}, c, m)
  {
    if ListedFor(done, c, m) {
      var t :| t in done && t.id == c && Listed(t.messages, m);
      assert t in done + {s};
    } else {
      assert s in done + {s};
    }
  }

  lemma RowFromGrows(done: set<Snapshot>, s: Snapshot, c: Id, row: ConvRow)
    requires RowFrom(done, c, row) || (s.id == c && row == RowOf(s, 0))
    ensures RowFrom(done + {s}, c, row)
  {
    if RowFrom(done, c, row) {
      var t :| t in done && t.id == c && row == RowOf(t, 0);
      assert t in done + {s};
    } else {
      assert s in done + {s};
    }
  }

  lemma DeliveryTraced(db: Db, done: set<Snapshot>, s: Snapshot, now: u64)
    requires Traced(db, done) && s.updatedAt.Some?
    ensures Traced(Upserted(db, s, now), done + {s})
  {
    var db' := Upserted(db, s, now);
    forall m | m in db'.msgs ensures ListedFor(done + {s}, db'.msgs[m].conv, m) {
      WrittenAt(db.msgs, s, m);
      ListedForGrows(done, s, db'.msgs[m].conv, m);
    }
    forall c | c in db'.convs ensures RowFrom(done + {s}, c, db'.convs[c]) {
      assert RowOf(s, now) == RowOf(s, 0);
      RowFromGrows(done, s, c, db'.convs[c]);
    }
  }

  lemma SnapsSnoc(ds: seq<Delivery>, d: Delivery)
    ensures Snaps(ds + [d]) == Snaps(ds) + {d.snap}
    ensures PlayAll(ds + [d]) == Upserted(PlayAll(ds), d.snap, d.now)
  {
    var all := ds + [d];
    assert all[..|ds|] == ds && all[|ds|] == d;
    forall s ensures s in Snaps(all) <==> s in Snaps(ds) + {d.snap} {
      if s in Snaps(ds) {
        var i :| 0 <= i < |ds| && ds[i].snap == s;
        assert all[i].snap == s;
      }
    }
  }

  lemma {:induction false} PlayingTraced(ds: seq<Delivery>)
    requires Dated(Snaps(ds))
    ensures Traced(PlayAll(ds), Snaps(ds))
  {
    if ds == [] {
    } else {
      var init, last := ds[..|ds| - 1], ds[|ds| - 1];
      assert ds == init + [last];
      SnapsSnoc(init, last);
      PlayingTraced(init);
      DeliveryTraced(PlayAll(init), Snaps(init), last.snap, last.now);
    }
  }

  // ------------------------------------------------------------- orders agree

  /** Every newest snapshot delivered so far has its row, and its messages if it has
      any. */
  ghost predicate Landed(all: set<Snapshot>, db: Db, done: set<Snapshot>) {
    forall t :: t in done && Top(all, t) ==> LandedAt(db, t)
  }

  predicate LandedAt(db: Db, t: Snapshot) {
    && t.id in db.convs && db.convs[t.id] == RowOf(t, 0)
    && (t.messages != [] ==> MessagesOf(db.msgs, t.id) == Wanted(t))
  }

  /** With its own ids, a newest snapshot finds none under another conversation. */
  lemma NothingForeign(all: set<Snapshot>, db: Db, done: set<Snapshot>, s: Snapshot)
    requires OwnIds(all) && done <= all && s in all && Top(all, s) && Traced(db, done)
    ensures NoForeign(db.msgs, s.id, s.messages)
  {
    forall i | 0 <= i < |s.messages| && s.messages[i].id in db.msgs ensures db.msgs[s.messages[i].id].conv == s.id {
      var m := s.messages[i].id;
      var t :| t in done && t.id == db.msgs[m].conv && Listed(t.messages, m);
      var l :| 0 <= l < |t.messages| && t.messages[l].id == m;
      assert s.id != t.id ==> !SharesMessageId(s, t);
    }
  }

  /** A snapshot that lists none of a conversation's messages leaves them alone. */
  lemma UntouchedAt(db: Db, s: Snapshot, now: u64, c: Id)
    requires c != s.id && forall m :: m in MessagesOf(db.msgs, c) ==> !Listed(s.messages, m)
    ensures MessagesOf(Upserted(db, s, now).msgs, c) == MessagesOf(db.msgs, c)
  {
    var before, after := MessagesOf(db.msgs, c), MessagesOf(Upserted(db, s, now).msgs, c);
    forall m ensures m in after <==> m in before ensures m in after ==> after[m] == before[m] {
      WrittenAt(db.msgs, s, m);
    }
  }

  lemma WantedIsUnlisted(s: Snapshot, t: Snapshot)
    requires !SharesMessageId(t, s)
    ensures forall m :: m in Wanted(t) ==> !Listed(s.messages, m)
  {
    forall m | m in Wanted(t) ensures !Listed(s.messages, m) {
      WantedIsListed(t, m);
      var k :| 0 <= k < |t.messages| && t.messages[k].id == m;
    }
  }

  /** A landed snapshot of another conversation stays landed. */
  lemma OtherStaysLanded(all: set<Snapshot>, db: Db, s: Snapshot, now: u64, t: Snapshot)
    requires OwnIds(all) && s in all && t in all && Top(all, t) && t.id != s.id && LandedAt(db, t)
    ensures LandedAt(Upserted(db, s, now), t)
  {
    if t.messages != [] {
      WantedIsUnlisted(s, t);
      UntouchedAt(db, s, now, t.id);
    }
  }

  /** No row is newer than a newest snapshot. */
  lemma TopIsTimely(all: set<Snapshot>, db: Db, done: set<Snapshot>, t: Snapshot, now: u64)
    requires done <= all && t in all && Top(all, t) && Traced(db, done) && t.updatedAt.Some?
    ensures !Outdated(db, t, now)
  {
    if t.id in db.convs {
      var x :| x in done && x.id == t.id && db.convs[t.id] == RowOf(x, 0);
      assert Stamp(x, 0) <= Stamp(t, 0) == Stamp(t, now);
    }
  }

  /** Within its own conversation a delivery keeps what has landed, and lands. */
  lemma OwnLands(all: set<Snapshot>, db: Db, done: set<Snapshot>, s: Snapshot, now: u64, t: Snapshot)
    requires Dated(all) && OneRow(all) && OneContent(all) && OwnIds(all)
    requires done <= all && s in all && Traced(db, done) && Landed(all, db, done)
    requires t in done + {s} && Top(all, t) && t.id == s.id
    ensures LandedAt(Upserted(db, s, now), t)
  {
    TopIsTimely(all, db, done, t, now);
    assert t in done ==> LandedAt(db, t);
    if !Outdated(db, s, now) {
      assert Stamp(t, 0) <= Stamp(s, now) == Stamp(s, 0) && RowOf(s, now) == RowOf(s, 0);
      assert Top(all, s) && Rivals(all, s, t);
      if s.messages != [] {
        NothingForeign(all, db, done, s);
        AcceptedIsExact(db, s, now);
      }
    }
  }

  lemma DeliveryLands(all: set<Snapshot>, db: Db, done: set<Snapshot>, s: Snapshot, now: u64)
    requires Dated(all) && OneRow(all) && OneContent(all) && OwnIds(all)
    requires done <= all && s in all && Traced(db, done) && Landed(all, db, done)
    ensures Landed(all, Upserted(db, s, now), done + {s})
  {
    forall t | t in done + {s} && Top(all, t) ensures LandedAt(Upserted(db, s, now), t) {
      if t.id == s.id { OwnLands(all, db, done, s, now, t); } else { OtherStaysLanded(all, db, s, now, t); }
    }
  }

  /** After any deliveries each newest snapshot delivered holds its conversation. */
  lemma {:induction false} PlayingLands(all: set<Snapshot>, ds: seq<Delivery>)
    requires Dated(all) && OneRow(all) && OneContent(all) && OwnIds(all) && Snaps(ds) <= all
    ensures Landed(all, PlayAll(ds), Snaps(ds))
  {
    if ds == [] {
    } else {
      var init, last := ds[..|ds| - 1], ds[|ds| - 1];
      assert ds == init + [last];
      SnapsSnoc(init, last);
      PlayingLands(all, init);
      PlayingTraced(init);
      DeliveryLands(all, PlayAll(init), Snaps(init), last.snap, last.now);
    }
  }

  /** Some snapshot of the conversation is a newest one. */
  lemma {:induction false} TopAbove(all: set<Snapshot>, s: Snapshot) returns (t: Snapshot)
    requires s in all
    ensures t in all && t.id == s.id && Top(all, t) && Stamp(s, 0) <= Stamp(t, 0)
    decreases |set x | x in all && Stamp(x, 0) > Stamp(s, 0)|
  {
    if u :| u in all && u.id == s.id && Stamp(u, 0) > Stamp(s, 0) {
      var above, higher := set x | x in all && Stamp(x, 0) > Stamp(s, 0), set x | x in all && Stamp(x, 0) > Stamp(u, 0);
      assert higher < above by { assert u in above && u !in higher; }
      Fewer(higher, above);
      t := TopAbove(all, u);
    } else {
      t := s;
    }
  }

  lemma Fewer(a: set<Snapshot>, b: set<Snapshot>)
    requires a < b
    ensures |a| < |b|
  {
    var x :| x in b && x !in a;
    assert a <= b - {x};
    NoMore(a, b - {x});
  }

  lemma {:induction false} NoMore(a: set<Snapshot>, b: set<Snapshot>)
    requires a <= b
    ensures |a| <= |b|
  {
    if a == {} {
    } else {
      var x :| x in a;
      NoMore(a - {x}, b - {x});
    }
  }

  lemma SameRows(all: set<Snapshot>, x: Db, y: Db)
    requires Traced(x, all) && Traced(y, all) && Landed(all, x, all) && Landed(all, y, all)
    ensures x.convs == y.convs
  {
    forall c ensures c in x.convs <==> c in y.convs ensures c in x.convs && c in y.convs ==> x.convs[c] == y.convs[c] {
      if c in x.convs || c in y.convs {
        var s :| s in all && s.id == c;
        var t := TopAbove(all, s);
        assert LandedAt(x, t) && LandedAt(y, t);
      }
    }
  }

  lemma NoneWithout(all: set<Snapshot>, db: Db, c: Id)
    requires Traced(db, all) && forall s :: s in all && s.id == c ==> s.messages == []
    ensures MessagesOf(db.msgs, c) == map[]
  {
    assert forall m :: m in MessagesOf(db.msgs, c) ==> ListedFor(all, c, m);
    assert forall m :: !ListedFor(all, c, m);
  }

  lemma SameMessages(all: set<Snapshot>, x: Db, y: Db, c: Id)
    requires Traced(x, all) && Traced(y, all) && Landed(all, x, all) && Landed(all, y, all) && TopHasMessages(all)
    ensures MessagesOf(x.msgs, c) == MessagesOf(y.msgs, c)
  {
    if s :| s in all && s.id == c && s.messages != [] {
      assert HasFullTop(all, c);
      var t :| t in all && t.id == c && Top(all, t) && t.messages != [];
      assert LandedAt(x, t) && LandedAt(y, t);
    } else {
      NoneWithout(all, x, c);
      NoneWithout(all, y, c);
    }
  }

  lemma SameTables(x: map<Id, MsgRow>, y: map<Id, MsgRow>)
    requires forall c :: MessagesOf(x, c) == MessagesOf(y, c)
    ensures x == y
  {
    forall m ensures m in x ==> m in y && x[m] == y[m] ensures m in y ==> m in x {
      if m in x { assert m in MessagesOf(x, x[m].conv) && m in MessagesOf(y, x[m].conv); }
      if m in y { assert m in MessagesOf(y, y[m].conv) && m in MessagesOf(x, y[m].conv); }
    }
  }

  /** Delivering the same agreeing snapshots in any order, any number of times, at
      any local time, ends in the same store. */
  lemma DeliveriesConverge(a: seq<Delivery>, b: seq<Delivery>)
    requires Snaps(a) == Snaps(b) && Dated(Snaps(a)) && Agreeing(Snaps(a))
    ensures PlayAll(a) == PlayAll(b)
  {
    var all, x, y := Snaps(a), PlayAll(a), PlayAll(b);
    PlayingTraced(a);
    PlayingTraced(b);
    PlayingLands(all, a);
    PlayingLands(all, b);
    SameRows(all, x, y);
    forall c ensures MessagesOf(x.msgs, c) == MessagesOf(y.msgs, c) { SameMessages(all, x, y, c); }
    SameTables(x.msgs, y.msgs);
  }

  // ------------------------------------------------------------- orders differ

  lemma {:induction false} ListOf(all: set<Snapshot>) returns (ds: seq<Delivery>)
    ensures Snaps(ds) == all
  {
    if all == {} {
      ds := [];
    } else {
      var s :| s in all;
      var rest := ListOf(all - {s});
      ds := rest + [Delivery(s, 0)];
      SnapsSnoc(rest, Delivery(s, 0));
    }
  }

  lemma {:induction false} SnapsConcat(a: seq<Delivery>, b: seq<Delivery>)
    ensures Snaps(a + b) == Snaps(a) + Snaps(b)
  {
    if b == [] {
      assert a + b == a;
    } else {
      var init, last := b[..|b| - 1], b[|b| - 1];
      assert b == init + [last] && a + b == (a + init) + [last];
      SnapsConcat(a, init);
      SnapsSnoc(init, last);
      SnapsSnoc(a + init, last);
    }
  }

  lemma SnapsOne(d: Delivery)
    ensures Snaps([d]) == {d.snap} && PlayAll([d]) == Upserted(EMPTY, d.snap, d.now)
  {
    assert [] + [d] == [d];
    SnapsSnoc([], d);
  }

  predicate Under(db: Db, m: Id, c: Id) {
    m in db.msgs && db.msgs[m].conv == c
  }

  /** The row of `c` carries `stamp`, and `m` is under `c` exactly if `under`. */
  predicate Keeps(db: Db, c: Id, stamp: int, m: Id, under: bool) {
    c in db.convs && db.convs[c].updatedAt == stamp && (under <==> Under(db, m, c))
  }

  /** Older than `stamp`, or of that age and without a say on `m`. */
  predicate Allowed(x: Snapshot, c: Id, stamp: int, m: Id, under: bool) {
    x.id == c ==>
      Stamp(x, 0) < stamp || (Stamp(x, 0) == stamp && (x.messages == [] || (Listed(x.messages, m) <==> under)))
  }

  lemma DeliveryKeeps(db: Db, x: Snapshot, now: u64, c: Id, stamp: int, m: Id, under: bool)
    requires Keeps(db, c, stamp, m, under) && Allowed(x, c, stamp, m, under) && x.updatedAt.Some?
    ensures Keeps(Upserted(db, x, now), c, stamp, m, under)
  {
    WrittenAt(db.msgs, x, m);
  }

  lemma {:induction false} PlayingKeeps(first: seq<Delivery>, ds: seq<Delivery>, c: Id, stamp: int, m: Id, under: bool)
    requires Keeps(PlayAll(first), c, stamp, m, under) && Dated(Snaps(ds))
    requires forall x :: x in Snaps(ds) ==> Allowed(x, c, stamp, m, under)
    ensures Keeps(PlayAll(first + ds), c, stamp, m, under)
  {
    if ds == [] {
      assert first + ds == first;
    } else {
      var init, last := ds[..|ds| - 1], ds[|ds| - 1];
      assert ds == init + [last] && first + ds == (first + init) + [last];
      SnapsSnoc(init, last);
      SnapsSnoc(first + init, last);
      PlayingKeeps(first, init, c, stamp, m, under);
      DeliveryKeeps(PlayAll(first + init), last.snap, last.now, c, stamp, m, under);
    }
  }

  /** A newest snapshot delivered last decides the row, and the messages if they are
      its own. */
  lemma LastLands(all: set<Snapshot>, ds: seq<Delivery>, s: Snapshot)
    requires Dated(all) && Snaps(ds) == all && s in all && Top(all, s)
    ensures var a := ds + [Delivery(s, 0)];
      && Snaps(a) == all && s.id in PlayAll(a).convs && PlayAll(a).convs[s.id] == RowOf(s, 0)
      && (OwnIds(all) && s.messages != [] ==> MessagesOf(PlayAll(a).msgs, s.id) == Wanted(s))
  {
    var db := PlayAll(ds);
    PlayingTraced(ds);
    SnapsSnoc(ds, Delivery(s, 0));
    TopIsTimely(all, db, all, s, 0);
    if OwnIds(all) && s.messages != [] {
      NothingForeign(all, db, all, s);
      AcceptedIsExact(db, s, 0);
    }
  }

  lemma RivalsDiffer(all: set<Snapshot>, s: Snapshot, t: Snapshot) returns (a: seq<Delivery>, b: seq<Delivery>)
    requires Dated(all) && s in all && t in all && Rivals(all, s, t)
    requires RowOf(s, 0) != RowOf(t, 0)
      || (OwnIds(all) && s.messages != [] && t.messages != [] && Wanted(s) != Wanted(t))
    ensures Snaps(a) == all == Snaps(b) && PlayAll(a) != PlayAll(b)
  {
    var ds := ListOf(all);
    a, b := ds + [Delivery(s, 0)], ds + [Delivery(t, 0)];
    LastLands(all, ds, s);
    LastLands(all, ds, t);
  }

  /** Played from a first part on, an order keeps what the part has settled. */
  lemma RestKeeps(first: seq<Delivery>, rest: set<Snapshot>, c: Id, stamp: int, m: Id, under: bool)
    returns (a: seq<Delivery>)
    requires Keeps(PlayAll(first), c, stamp, m, under) && Dated(rest)
    requires forall x :: x in rest ==> Allowed(x, c, stamp, m, under)
    ensures Snaps(a) == Snaps(first) + rest && Keeps(PlayAll(a), c, stamp, m, under)
  {
    var ds := ListOf(rest);
    a := first + ds;
    SnapsConcat(first, ds);
    PlayingKeeps(first, ds, c, stamp, m, under);
  }

  lemma FirstLands(s: Snapshot, m: Id)
    requires s.updatedAt.Some?
    ensures Keeps(PlayAll([Delivery(s, 0)]), s.id, Stamp(s, 0), m, Listed(s.messages, m))
    ensures Under(PlayAll([Delivery(s, 0)]), m, s.id) <==> m in PlayAll([Delivery(s, 0)]).msgs
  {
    SnapsOne(Delivery(s, 0));
    WrittenAt(EMPTY.msgs, s, m);
  }

  /** Every newest snapshot is empty although `u` is not: landing first they leave
      the conversation empty, landing behind `u` they leave its messages. */
  lemma EmptyTopDiffers(all: set<Snapshot>, u: Snapshot) returns (a: seq<Delivery>, b: seq<Delivery>)
    requires Dated(all) && u in all && u.messages != [] && !HasFullTop(all, u.id)
    ensures Snaps(a) == all == Snaps(b) && PlayAll(a) != PlayAll(b)
  {
    var s := TopAbove(all, u);
    var m := u.messages[0].id;
    assert s.messages == [] && Listed(u.messages, m);
    forall x, under | x in all ensures Allowed(x, s.id, Stamp(s, 0), m, under) {
      if x.id == s.id && Stamp(x, 0) == Stamp(s, 0) { assert Top(all, x); }
    }
    FirstLands(s, m);
    a := RestKeeps([Delivery(s, 0)], all, s.id, Stamp(s, 0), m, false);
    FullThenEmpty(u, s, m);
    b := RestKeeps([Delivery(u, 0), Delivery(s, 0)], all, s.id, Stamp(s, 0), m, true);
    SnapsOne(Delivery(s, 0));
  }

  lemma FullThenEmpty(u: Snapshot, s: Snapshot, m: Id)
    requires u.updatedAt.Some? && s.updatedAt.Some? && u.id == s.id && Stamp(u, 0) <= Stamp(s, 0)
    requires Listed(u.messages, m) && s.messages == []
    ensures var ds := [Delivery(u, 0), Delivery(s, 0)];
      Snaps(ds) == {u, s} && Keeps(PlayAll(ds), s.id, Stamp(s, 0), m, true)
  {
    FirstLands(u, m);
    SnapsOne(Delivery(u, 0));
    SnapsSnoc([Delivery(u, 0)], Delivery(s, 0));
    assert [Delivery(u, 0)] + [Delivery(s, 0)] == [Delivery(u, 0), Delivery(s, 0)];
    WrittenAt(PlayAll([Delivery(u, 0)]).msgs, s, m);
  }

  /** The newest snapshots of a conversation. */
  function Tops(all: set<Snapshot>, c: Id): set<Snapshot> {
    set s | s in all && s.id == c && Top(all, s)
  }

  /** Delivered by themselves they put the conversation's row at their stamp and no
      message under any other. */
  lemma TopsAlone(all: set<Snapshot>, s: Snapshot, ds: seq<Delivery>)
    requires Dated(all) && s in all && Top(all, s) && Snaps(ds) == Tops(all, s.id)
    ensures var db := PlayAll(ds);
      && s.id in db.convs && db.convs[s.id].updatedAt == Stamp(s, 0)
      && forall m :: m in db.msgs ==> db.msgs[m].conv == s.id
  {
    var db := PlayAll(ds);
    PlayingTraced(ds);
    assert s in Snaps(ds);
    var x :| x in Snaps(ds) && x.id == s.id && db.convs[s.id] == RowOf(x, 0);
    assert Stamp(x, 0) <= Stamp(s, 0) && Stamp(s, 0) <= Stamp(x, 0);
    forall m | m in db.msgs ensures db.msgs[m].conv == s.id { assert ListedFor(Snaps(ds), db.msgs[m].conv, m); }
  }

  /** All the newest, one of them once more, then the older ones. */
  lemma TopsThenRest(all: set<Snapshot>, s: Snapshot, m: Id) returns (a: seq<Delivery>)
    requires Dated(all) && s in all && Top(all, s) && s.messages != []
    ensures Snaps(a) == all && Keeps(PlayAll(a), s.id, Stamp(s, 0), m, Listed(s.messages, m))
  {
    var tops := ListOf(Tops(all, s.id));
    var first := tops + [Delivery(s, 0)];
    TopsAlone(all, s, tops);
    SnapsSnoc(tops, Delivery(s, 0));
    WrittenAt(PlayAll(tops).msgs, s, m);
    var rest := all - Tops(all, s.id);
    forall x | x in rest ensures Allowed(x, s.id, Stamp(s, 0), m, Listed(s.messages, m)) { NotTopIsOlder(all, s, x); }
    a := RestKeeps(first, rest, s.id, Stamp(s, 0), m, Listed(s.messages, m));
  }

  lemma NotTopIsOlder(all: set<Snapshot>, s: Snapshot, x: Snapshot)
    requires s in all && Top(all, s) && x in all - Tops(all, s.id)
    ensures x.id == s.id ==> Stamp(x, 0) < Stamp(s, 0)
  {}

  /** Two newest snapshots that list different ids: the one delivered last counts. */
  lemma ListsDiffer(all: set<Snapshot>, s: Snapshot, t: Snapshot, m: Id)
    returns (a: seq<Delivery>, b: seq<Delivery>)
    requires Dated(all) && s in all && t in all && Rivals(all, s, t) && s.messages != [] && t.messages != []
    requires Listed(s.messages, m) && !Listed(t.messages, m)
    ensures Snaps(a) == all == Snaps(b) && PlayAll(a) != PlayAll(b)
  {
    a := TopsThenRest(all, s, m);
    b := TopsThenRest(all, t, m);
  }

  /** Newest snapshots that have messages list the same ids. */
  predicate OneList(all: set<Snapshot>) {
    forall s, t :: s in all && t in all && Rivals(all, s, t) && s.messages != [] && t.messages != [] ==>
      forall k :: 0 <= k < |s.messages| ==> Listed(t.messages, s.messages[k].id)
  }

  lemma SameAge(all: set<Snapshot>, s: Snapshot, m: Id)
    requires OneList(all) && s in all && Top(all, s) && s.messages != []
    ensures forall x :: x in all ==> Allowed(x, s.id, Stamp(s, 0), m, Listed(s.messages, m))
  {
    forall x | x in all ensures Allowed(x, s.id, Stamp(s, 0), m, Listed(s.messages, m)) {
      if x.id == s.id && Stamp(x, 0) == Stamp(s, 0) && x.messages != [] {
        assert Top(all, x) && Rivals(all, x, s) && Rivals(all, s, x);
        if Listed(x.messages, m) {
          var k :| 0 <= k < |x.messages| && x.messages[k].id == m;
        }
        if Listed(s.messages, m) {
          var k :| 0 <= k < |s.messages| && s.messages[k].id == m;
        }
      }
    }
  }

  /** Delivered first, a newest snapshot keeps what it lists. */
  lemma FirstKeeps(all: set<Snapshot>, s: Snapshot, m: Id) returns (a: seq<Delivery>)
    requires Dated(all) && OneList(all) && s in all && Top(all, s) && Listed(s.messages, m)
    ensures Snaps(a) == all && Under(PlayAll(a), m, s.id)
  {
    SameAge(all, s, m);
    FirstLands(s, m);
    a := RestKeeps([Delivery(s, 0)], all, s.id, Stamp(s, 0), m, true);
    SnapsOne(Delivery(s, 0));
  }

  /** `t` puts `m` under its conversation, so the newest of `c` do not get it; then
      `l`, newer than `t`, prunes it: `m` never comes under `c`. */
  lemma OtherOwnerKeeps(all: set<Snapshot>, s: Snapshot, t: Snapshot, l: Snapshot, m: Id) returns (b: seq<Delivery>)
    requires Dated(all) && s in all && t in all && l in all && Top(all, s) && Top(all, l)
    requires s.id != t.id == l.id && Listed(s.messages, m) && Listed(t.messages, m)
    requires l.messages != [] && !Listed(l.messages, m)
    ensures Snaps(b) == all && !Under(PlayAll(b), m, s.id)
  {
    var first := OwnedElsewhere(all, s, t, m);
    var second := first + [Delivery(l, 0)];
    SnapsSnoc(first, Delivery(l, 0));
    assert Stamp(t, 0) <= Stamp(l, 0);
    WrittenAt(PlayAll(first).msgs, l, m);
    var rest := all - Tops(all, s.id);
    forall x | x in rest ensures Allowed(x, s.id, Stamp(s, 0), m, false) { NotTopIsOlder(all, s, x); }
    b := RestKeeps(second, rest, s.id, Stamp(s, 0), m, false);
  }

  lemma OwnedElsewhere(all: set<Snapshot>, s: Snapshot, t: Snapshot, m: Id) returns (first: seq<Delivery>)
    requires Dated(all) && s in all && t in all && Top(all, s) && s.id != t.id && Listed(t.messages, m)
    ensures Snaps(first) == {t} + Tops(all, s.id)
    ensures Keeps(PlayAll(first), t.id, Stamp(t, 0), m, true)
    ensures s.id in PlayAll(first).convs && PlayAll(first).convs[s.id].updatedAt == Stamp(s, 0)
  {
    FirstLands(t, m);
    first := RestKeeps([Delivery(t, 0)], Tops(all, s.id), t.id, Stamp(t, 0), m, true);
    SnapsOne(Delivery(t, 0));
    PlayingTraced(first);
    assert s in Snaps(first);
    var x :| x in Snaps(first) && x.id == s.id && PlayAll(first).convs[s.id] == RowOf(x, 0);
    assert x in Tops(all, s.id);
  }

  /** A newest snapshot whose message id another conversation lists too: who comes
      first shows. */
  lemma SharedIdDiffers(all: set<Snapshot>, s: Snapshot, t: Snapshot) returns (a: seq<Delivery>, b: seq<Delivery>)
    requires Dated(all) && OneList(all) && TopHasMessages(all)
    requires s in all && t in all && Top(all, s) && s.id != t.id && SharesMessageId(s, t)
    ensures Snaps(a) == all == Snaps(b) && PlayAll(a) != PlayAll(b)
  {
    var k, j :| 0 <= k < |s.messages| && 0 <= j < |t.messages| && s.messages[k].id == t.messages[j].id;
    var m := s.messages[k].id;
    assert Listed(s.messages, m) && Listed(t.messages, m) && HasFullTop(all, t.id);
    a := FirstKeeps(all, s, m);
    var l :| l in all && l.id == t.id && Top(all, l) && l.messages != [];
    if Listed(l.messages, m) {
      b := FirstKeeps(all, l, m);
    } else {
      b := OtherOwnerKeeps(all, s, t, l, m);
    }
  }

  lemma OrdersDiffer(all: set<Snapshot>) returns (a: seq<Delivery>, b: seq<Delivery>)
    requires Dated(all) && !Agreeing(all)
    ensures Snaps(a) == all == Snaps(b) && PlayAll(a) != PlayAll(b)
  {
    if !OneRow(all) {
      var s, t :| s in all && t in all && Rivals(all, s, t) && RowOf(s, 0) != RowOf(t, 0);
      a, b := RivalsDiffer(all, s, t);
    } else if !TopHasMessages(all) {
      var u :| u in all && u.messages != [] && !HasFullTop(all, u.id);
      a, b := EmptyTopDiffers(all, u);
    } else if !OneList(all) {
      var s, t, k :| s in all && t in all && Rivals(all, s, t) && s.messages != [] && t.messages != []
        && 0 <= k < |s.messages| && !Listed(t.messages, s.messages[k].id);
      a, b := ListsDiffer(all, s, t, s.messages[k].id);
    } else if !OwnIds(all) {
      var s, t :| s in all && t in all && s.id != t.id && Top(all, s) && SharesMessageId(s, t);
      a, b := SharedIdDiffers(all, s, t);
    } else {
      var s, t :| s in all && t in all && Rivals(all, s, t) && s.messages != [] && t.messages != []
        && Wanted(s) != Wanted(t);
      a, b := RivalsDiffer(all, s, t);
    }
  }

  /** All orders and duplications of some dated snapshots end in the same store if
      and only if, conversation by conversation, the newest snapshots give one row and
      one set of messages, one of them has messages if any snapshot has, and none of
      their message ids is listed for another conversation. */
  lemma ConvergesIff(all: set<Snapshot>)
    requires Dated(all)
    ensures Agreeing(all) <==>
      forall a, b :: Snaps(a) == all && Snaps(b) == all ==> PlayAll(a) == PlayAll(b)
  {
    if Agreeing(all) {
      forall a, b | Snaps(a) == all && Snaps(b) == all ensures PlayAll(a) == PlayAll(b) { DeliveriesConverge(a, b); }
    } else {
      var a, b := OrdersDiffer(all);
    }
  }

  /** A snapshot without a timestamp lands as one dated by the local clock. */
  lemma UndatedIsDatedByClock(db: Db, s: Snapshot, now: u64)
    ensures Upserted(db, s, now) == Upserted(db, s.(updatedAt := Some(s.updatedAt.GetOr(now))), now)
  {}

  // ---------------------------------------------------------------- two inputs

  function Bare(c: Id, stamp: u64, messages: seq<Message>): Snapshot {
    Snapshot(c, None, None, None, None, None, Some(stamp), messages)
  }

  lemma PlayTwo(s: Snapshot, t: Snapshot)
    ensures PlayAll([Delivery(s, 0), Delivery(t, 0)]) == Upserted(Upserted(EMPTY, s, 0), t, 0)
  {
    SnapsOne(Delivery(s, 0));
    SnapsSnoc([Delivery(s, 0)], Delivery(t, 0));
    assert [Delivery(s, 0)] + [Delivery(t, 0)] == [Delivery(s, 0), Delivery(t, 0)];
  }

  /** A newer snapshot without messages: nothing is pruned when it lands last. */
  lemma EmptySnapshotsDiverge()
    ensures var s, t := Bare("c", 1, [Message("m", "user", "hi", Some(1))]), Bare("c", 2, []);
      PlayAll([Delivery(s, 0), Delivery(t, 0)]) != PlayAll([Delivery(t, 0), Delivery(s, 0)])
  {
    var s, t := Bare("c", 1, [Message("m", "user", "hi", Some(1))]), Bare("c", 2, []);
    PlayTwo(s, t);
    PlayTwo(t, s);
    assert Listed(s.messages, s.messages[0].id);
    WrittenAt(EMPTY.msgs, s, "m");
    WrittenAt(Upserted(EMPTY, s, 0).msgs, t, "m");
  }

  /** One message id in two conversations stays with the one that came first. */
  lemma SharedIdsDiverge()
    ensures var m := Message("m", "user", "hi", Some(1));
      var s, t := Bare("c", 1, [m]), Bare("d", 1, [m]);
      && Under(PlayAll([Delivery(s, 0), Delivery(t, 0)]), "m", "c")
      && Under(PlayAll([Delivery(t, 0), Delivery(s, 0)]), "m", "d")
  {
    var m := Message("m", "user", "hi", Some(1));
    var s, t := Bare("c", 1, [m]), Bare("d", 1, [m]);
    PlayTwo(s, t);
    PlayTwo(t, s);
    assert Listed(s.messages, s.messages[0].id) && Listed(t.messages, t.messages[0].id);
    WrittenAt(EMPTY.msgs, s, "m");
    WrittenAt(EMPTY.msgs, t, "m");
    WrittenAt(Upserted(EMPTY, s, 0).msgs, t, "m");
    WrittenAt(Upserted(EMPTY, t, 0).msgs, s, "m");
  }
}
