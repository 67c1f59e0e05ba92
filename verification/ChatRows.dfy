/**
 What the archive's rows hold after a snapshot, chat_store.rs:158-263, field by
 field.
 */
module ChatRows {
  import opened Wrappers
  import opened ChatStore

  /** `i` is the signed 64-bit number with the bits of `u`. */
  predicate SameBits(u: u64, i: int) {
    -0x8000_0000_0000_0000 <= i < 0x8000_0000_0000_0000 && (i == u || i == u - 0x1_0000_0000_0000_0000)
  }

  /** The first 200,000 characters, or all of them. */
  predicate Shortened(full: string, kept: string) {
    && (|full| <= 200_000 ==> kept == full)
    && (|full| > 200_000 ==> |kept| == 200_000 && kept <= full)
  }

  /** The time of a snapshot, its own or the clock's, as stored. */
  predicate DatedAt(s: Snapshot, now: u64, stamp: int) {
    SameBits(if s.updatedAt == None then now else s.updatedAt.value, stamp)
  }

  /** The row of a conversation is the snapshot's, absent fields by their defaults. */
  predicate HoldsConversation(row: ConvRow, s: Snapshot, now: u64) {
    && (s.title.Some? ==> row.title == s.title.value) && (s.title.None? ==> row.title == "New conversation")
    && (s.workspaceRef.Some? && s.workspaceRef.value != "" ==> row.workspaceRef == s.workspaceRef)
    && (s.workspaceRef == None || s.workspaceRef == Some("") ==> row.workspaceRef == None)
    && (s.model.Some? ==> row.model == s.model.value) && (s.model.None? ==> row.model == "gpt-4o")
    && (s.provider.Some? ==> row.provider == s.provider.value) && (s.provider.None? ==> row.provider == "openai")
    && (row.pinned <==> s.pinned == Some(true))
    && DatedAt(s, now, row.updatedAt)
  }

  /** The row of a message is the message's, its time 0 when it has none. */
  predicate HoldsMessage(row: MsgRow, m: Message) {
    && row.role == m.role && Shortened(m.content, row.content)
    && (m.createdAt.Some? ==> SameBits(m.createdAt.value, row.createdAt))
    && (m.createdAt.None? ==> row.createdAt == 0)
  }

  /** Message `k` is the last of the snapshot with its id. */
  predicate LastOfItsId(ms: seq<Message>, k: nat) {
    k < |ms| && forall j :: k < j < |ms| ==> ms[j].id != ms[k].id
  }

  lemma StampIs(s: Snapshot, now: u64, stamp: int)
    requires DatedAt(s, now, stamp)
    ensures Stamp(s, now) == stamp
  {}

  /** A snapshot older than what is stored changes nothing. */
  lemma OlderIsIgnored(db: Db, s: Snapshot, now: u64, stamp: int)
    requires DatedAt(s, now, stamp) && s.id in db.convs && stamp < db.convs[s.id].updatedAt
    ensures Upserted(db, s, now) == db
  {
    StampIs(s, now, stamp);
  }

  /** No stored row of the conversation is newer than the snapshot. */
  predicate InTime(db: Db, s: Snapshot, stamp: int) {
    s.id in db.convs ==> db.convs[s.id].updatedAt <= stamp
  }

  /** Any other snapshot puts its conversation into the row, and leaves other rows. */
  lemma ConversationIsStored(db: Db, s: Snapshot, now: u64, stamp: int, c: Id)
    requires DatedAt(s, now, stamp) && InTime(db, s, stamp)
    ensures var convs := Upserted(db, s, now).convs;
      && s.id in convs && HoldsConversation(convs[s.id], s, now) && convs[s.id].updatedAt == stamp
      && (c != s.id ==> (c in convs <==> c in db.convs) && (c in convs ==> convs[c] == db.convs[c]))
  {
    StampIs(s, now, stamp);
  }

  lemma {:induction false} LastIsPut(msgs: map<Id, MsgRow>, conv: Id, ms: seq<Message>, k: nat)
    requires LastOfItsId(ms, k)
    ensures var put := PutMessages(msgs, conv, ms);
      ms[k].id in put && put[ms[k].id] == MsgRowOf(if ms[k].id in msgs then msgs[ms[k].id].conv else conv, ms[k])
  {
    var init := ms[..|ms| - 1];
    if k < |ms| - 1 {
      LastIsPut(msgs, conv, init, k);
    } else {
      PutMessagesAt(msgs, conv, init, ms[k].id);
    }
  }

  /** The last message with each id is stored with its own role, content and time,
      under the conversation that had the id first. */
  lemma MessageIsStored(db: Db, s: Snapshot, now: u64, stamp: int, k: nat)
    requires DatedAt(s, now, stamp) && InTime(db, s, stamp) && LastOfItsId(s.messages, k)
    ensures var id, msgs := s.messages[k].id, Upserted(db, s, now).msgs;
      && id in msgs && HoldsMessage(msgs[id], s.messages[k])
      && (id in db.msgs ==> msgs[id].conv == db.msgs[id].conv)
      && (id !in db.msgs ==> msgs[id].conv == s.id)
  {
    StampIs(s, now, stamp);
    LastIsPut(db.msgs, s.id, s.messages, k);
  }

  /** A message the snapshot does not carry stays as it is, unless it is of the
      snapshot's conversation and the snapshot carries any messages: then it goes. */
  lemma UnlistedMessage(db: Db, s: Snapshot, now: u64, stamp: int, id: Id)
    requires DatedAt(s, now, stamp) && InTime(db, s, stamp)
    requires forall m :: m in s.messages ==> m.id != id
    ensures var msgs := Upserted(db, s, now).msgs;
      && (id in msgs <==> id in db.msgs && (db.msgs[id].conv != s.id || s.messages == []))
      && (id in msgs ==> msgs[id] == db.msgs[id])
  {
    StampIs(s, now, stamp);
    assert !Listed(s.messages, id);
    WrittenAt(db.msgs, s, id);
  }

  /** A snapshot dates itself in exactly one way. */
  lemma DateIsUnique(s: Snapshot, now: u64)
    ensures DatedAt(s, now, Stamp(s, now))
    ensures forall stamp :: DatedAt(s, now, stamp) ==> stamp == Stamp(s, now)
  {}
}
