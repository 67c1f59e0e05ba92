/**
 The local chat archive, chat_store.rs:158-263 and 407-413: whole-conversation
 snapshots, last write wins, messages upserted one by one and pruned to the
 snapshot.  The two tables are maps.
 */
module ChatStore {
  import opened Wrappers

  type Id = string

  datatype ConvRow = ConvRow(title: string, workspaceRef: Option<string>, model: string, provider: string,
                             pinned: bool, updatedAt: int)

  datatype MsgRow = MsgRow(conv: Id, role: string, content: string, createdAt: int)

  datatype Db = Db(convs: map<Id, ConvRow>, msgs: map<Id, MsgRow>)

  type u64 = n: int | 0 <= n < 0x1_0000_0000_0000_0000

  datatype Message = Message(id: Id, role: string, content: string, createdAt: Option<u64>)

  datatype Snapshot = Snapshot(id: Id, title: Option<string>, workspaceRef: Option<string>, model: Option<string>,
                               provider: Option<string>, pinned: Option<bool>, updatedAt: Option<u64>,
                               messages: seq<Message>)

  const MAX_CONTENT: nat := 200_000

  // ---------------------------------------------------------------- one write

  /** `as i64`. */
  function AsI64(u: u64): int {
    if u < 0x8000_0000_0000_0000 then u else u - 0x1_0000_0000_0000_0000
  }

  function Stamp(s: Snapshot, now: u64): int { AsI64(s.updatedAt.GetOr(now)) }

  function RowOf(s: Snapshot, now: u64): ConvRow {
    ConvRow(s.title.GetOr("New conversation"),
            if s.workspaceRef == Some("") then None else s.workspaceRef,
            s.model.GetOr("gpt-4o"), s.provider.GetOr("openai"), s.pinned.GetOr(false), Stamp(s, now))
  }

  function Normalise(content: string): string {
    if |content| <= MAX_CONTENT then content else content[..MAX_CONTENT]
  }

  function MsgRowOf(conv: Id, m: Message): MsgRow {
    MsgRow(conv, m.role, Normalise(m.content), AsI64(m.createdAt.GetOr(0)))
  }

  /** INSERT .. ON CONFLICT(id) DO UPDATE: an existing row keeps its
      conversation. */
  function PutMessage(msgs: map<Id, MsgRow>, conv: Id, m: Message): map<Id, MsgRow> {
    msgs[m.id := MsgRowOf(if m.id in msgs then msgs[m.id].conv else conv, m)]
  }

  function PutMessages(msgs: map<Id, MsgRow>, conv: Id, ms: seq<Message>): map<Id, MsgRow> {
    if ms == [] then msgs else PutMessage(PutMessages(msgs, conv, ms[..|ms| - 1]), conv, ms[|ms| - 1])
  }

  predicate Listed(ms: seq<Message>, id: Id) {
    exists i :: 0 <= i < |ms| && ms[i].id == id
  }

  function Prune(msgs: map<Id, MsgRow>, conv: Id, ms: seq<Message>): map<Id, MsgRow> {
    if ms == [] then msgs
    else map id | id in msgs && !(msgs[id].conv == conv && !Listed(ms, id)) :: msgs[id]
  }

  predicate Outdated(db: Db, s: Snapshot, now: u64) {
    s.id in db.convs && db.convs[s.id].updatedAt > Stamp(s, now)
  }

  function Upserted(db: Db, s: Snapshot, now: u64): Db {
    if Outdated(db, s, now) then db
    else Db(db.convs[s.id := RowOf(s, now)], Prune(PutMessages(db.msgs, s.id, s.messages), s.id, s.messages))
  }

  /** Statements of an upsert that goes ahead: the row, each message, the pruning if
      there are messages, the commit. */
  function Statements(s: Snapshot): nat {
    1 + |s.messages| + (if s.messages == [] then 0 else 1) + 1
  }

  /** The message loop, statement `i + 1` for message `i`. */
  method PutEach(msgs: map<Id, MsgRow>, s: Snapshot, failing: Option<nat>) returns (put: Option<map<Id, MsgRow>>)
    ensures put.None? <==> failing.Some? && 0 < failing.value <= |s.messages|
    ensures put.Some? ==> put.value == PutMessages(msgs, s.id, s.messages)
  {
    var done := msgs;
    for i := 0 to |s.messages|
      invariant done == PutMessages(msgs, s.id, s.messages[..i])
      invariant failing.Some? ==> failing.value == 0 || failing.value > i
    {
      if failing == Some(i + 1) { return None; }
      var m := s.messages[i];
      assert s.messages[..i + 1][..i] == s.messages[..i];
      done := done[m.id := MsgRowOf(if m.id in done then done[m.id].conv else s.id, m)];
    }
    assert s.messages[..|s.messages|] == s.messages;
    return Some(done);
  }

  class ChatStore {
    var convs: map<Id, ConvRow>
    var msgs: map<Id, MsgRow>

    constructor ()
      ensures State() == Db(map[], map[])
    {
      convs, msgs := map[], map[];
    }

    function State(): Db
      reads this
    {
      Db(convs, msgs)
    }

    /** One transaction; `failing` is the statement that fails, if one does.  A
        failure rolls everything back. */
    method UpsertConversation(s: Snapshot, now: u64, failing: Option<nat>) returns (inserted: Option<nat>)
      modifies this
      ensures inserted.None? <==>
        !Outdated(old(State()), s, now) && failing.Some? && failing.value < Statements(s)
      ensures State() == if inserted.None? then old(State()) else Upserted(old(State()), s, now)
      ensures inserted.Some? ==> inserted.value == if Outdated(old(State()), s, now) then 0 else |s.messages|
    {
      var updatedAt := AsI64(if s.updatedAt.Some? then s.updatedAt.value else now);
      if s.id in convs && convs[s.id].updatedAt > updatedAt { return Some(0); }
      if failing == Some(0) { return None; }
      var rows := convs[s.id := RowOf(s, now)];
      var put := PutEach(msgs, s, failing);
      if put.None? { return None; }
      var kept := put.value;
      if s.messages != [] {
        if failing == Some(|s.messages| + 1) { return None; }
        kept := map id | id in kept && !(kept[id].conv == s.id && !Listed(s.messages, id)) :: kept[id];
      }
      if failing == Some(Statements(s) - 1) { return None; }
      convs, msgs := rows, kept;
      return Some(|s.messages|);
    }

    /** Deleting a conversation cascades to exactly its messages. */
    method DeleteConversation(id: Id) returns (found: bool)
      requires Referential(State())
      modifies this
      ensures found <==> id in old(convs)
      ensures convs == old(convs) - {id}
      ensures forall c :: MessagesOf(msgs, c) == if c == id then map[] else MessagesOf(old(msgs), c)
      ensures Referential(State())
    {
      found := id in convs;
      convs := convs - {id};
      if found {
        msgs := map m | m in msgs && msgs[m].conv != id :: msgs[m];
      }
    }
  }

  // ----------------------------------------------- a conversation's messages

  function MessagesOf(msgs: map<Id, MsgRow>, conv: Id): map<Id, MsgRow> {
    map m | m in msgs && msgs[m].conv == conv :: msgs[m]
  }

  /** What the snapshot says the conversation holds; the last of equal ids. */
  function Wanted(s: Snapshot): map<Id, MsgRow> {
    PutMessages(map[], s.id, s.messages)
  }

  /** Foreign key: every message belongs to a stored conversation. */
  predicate Referential(db: Db) {
    forall m :: m in db.msgs ==> db.msgs[m].conv in db.convs
  }

  /** No message id of the list is stored under another conversation. */
  predicate NoForeign(msgs: map<Id, MsgRow>, conv: Id, ms: seq<Message>) {
    forall i :: 0 <= i < |ms| && ms[i].id in msgs ==> msgs[ms[i].id].conv == conv
  }

  /** A row after upserting a list: untouched, or that of the last message with
      its id, under the conversation that had it first. */
  lemma {:induction false} PutMessagesAt(msgs: map<Id, MsgRow>, conv: Id, ms: seq<Message>, id: Id)
    ensures var put := PutMessages(msgs, conv, ms);
      && (id in put <==> id in msgs || Listed(ms, id))
      && (!Listed(ms, id) && id in msgs ==> put[id] == msgs[id])
      && (Listed(ms, id) ==>
            && id in PutMessages(map[], conv, ms)
            && put[id] == PutMessages(map[], conv, ms)[id].(conv := if id in msgs then msgs[id].conv else conv)
            && PutMessages(map[], conv, ms)[id].conv == conv)
  {
    if ms == [] {
    } else {
      var init, last := ms[..|ms| - 1], ms[|ms| - 1];
      PutMessagesAt(msgs, conv, init, id);
      ListedSnoc(ms, id);
      if last.id == id {
        PutMessagesAt(map[], conv, init, id);
      }
    }
  }

  lemma ListedSnoc(ms: seq<Message>, id: Id)
    requires ms != []
    ensures Listed(ms, id) <==> ms[|ms| - 1].id == id || Listed(ms[..|ms| - 1], id)
  {
    if Listed(ms[..|ms| - 1], id) {
      var i :| 0 <= i < |ms| - 1 && ms[..|ms| - 1][i].id == id;
      assert ms[i].id == id;
    }
  }

  /** A row after the whole write. */
  lemma WrittenAt(msgs: map<Id, MsgRow>, s: Snapshot, id: Id)
    ensures var put := Prune(PutMessages(msgs, s.id, s.messages), s.id, s.messages);
      && (id in put <==> Listed(s.messages, id) || (id in msgs && (msgs[id].conv != s.id || s.messages == [])))
      && (id in put && !Listed(s.messages, id) ==> put[id] == msgs[id])
      && (Listed(s.messages, id) ==>
            && id in Wanted(s) && Wanted(s)[id].conv == s.id
            && put[id] == Wanted(s)[id].(conv := if id in msgs then msgs[id].conv else s.id))
  {
    PutMessagesAt(msgs, s.id, s.messages, id);
  }

  lemma WantedIsListed(s: Snapshot, id: Id)
    ensures id in Wanted(s) <==> Listed(s.messages, id)
    ensures id in Wanted(s) ==> Wanted(s)[id].conv == s.id
  {
    PutMessagesAt(map[], s.id, s.messages, id);
  }

  /** An accepted snapshot makes its conversation hold exactly its messages if
      and only if it carries messages (or there were none to prune) and none of
      its ids sits under another conversation. */
  lemma AcceptedIsExact(db: Db, s: Snapshot, now: u64)
    requires !Outdated(db, s, now)
    ensures MessagesOf(Upserted(db, s, now).msgs, s.id) == Wanted(s)
       <==> NoForeign(db.msgs, s.id, s.messages) && (s.messages != [] || MessagesOf(db.msgs, s.id) == map[])
  {
    var db' := Upserted(db, s, now);
    var got, want := MessagesOf(db'.msgs, s.id), Wanted(s);
    if NoForeign(db.msgs, s.id, s.messages) && (s.messages != [] || MessagesOf(db.msgs, s.id) == map[]) {
      forall id ensures id in got <==> id in want ensures id in got ==> got[id] == want[id] {
        WrittenAt(db.msgs, s, id);
        WantedIsListed(s, id);
        assert s.messages == [] && id in db.msgs && db.msgs[id].conv == s.id ==> id in MessagesOf(db.msgs, s.id);
      }
      assert got == want;
    }
    if got == want {
      forall i | 0 <= i < |s.messages| && s.messages[i].id in db.msgs ensures db.msgs[s.messages[i].id].conv == s.id {
        var id := s.messages[i].id;
        WrittenAt(db.msgs, s, id);
        assert id in want && id in got;
      }
      if s.messages == [] {
        assert want == map[] && db'.msgs == db.msgs;
      }
    }
  }

  /** With no foreign id a write leaves every other conversation as it was. */
  lemma OthersUntouched(db: Db, s: Snapshot, now: u64, c: Id)
    requires c != s.id && NoForeign(db.msgs, s.id, s.messages)
    ensures MessagesOf(Upserted(db, s, now).msgs, c) == MessagesOf(db.msgs, c)
    ensures c in Upserted(db, s, now).convs <==> c in db.convs
    ensures c in db.convs ==> Upserted(db, s, now).convs[c] == db.convs[c]
  {
    var before, after := MessagesOf(db.msgs, c), MessagesOf(Upserted(db, s, now).msgs, c);
    forall id ensures id in after <==> id in before ensures id in after ==> after[id] == before[id] {
      WrittenAt(db.msgs, s, id);
    }
  }

  lemma UpsertKeepsReferential(db: Db, s: Snapshot, now: u64)
    requires Referential(db)
    ensures Referential(Upserted(db, s, now))
  {
    var db' := Upserted(db, s, now);
    forall id | id in db'.msgs ensures db'.msgs[id].conv in db'.convs {
      WrittenAt(db.msgs, s, id);
    }
  }
}
