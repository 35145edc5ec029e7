/**
 The messages table and the repository operations over it
 (`MessageRepository` in messages/repositories.py).

 The table is a map from server id to row. The unique index on
 `client_msg_id`, which the insert's ON CONFLICT clause relies on, is kept
 beside it as `byClient`; `nextId` stands for the server id generator
 (every id it hands out is fresh).
 */
module MessageStore {
  import opened Common

  datatype Message = Message(
    id: MessageId,
    chatId: ChatId,
    senderId: UserId,
    text: string,
    clientMsgId: ClientMsgId,
    timestamp: Timestamp,
    isRead: bool)

  datatype Store = Store(
    rows: map<MessageId, Message>,
    byClient: map<ClientMsgId, MessageId>,
    nextId: MessageId)
  {
    /** Every row is filed under its own id, below the id generator, and
        the client-key index points at exactly the rows carrying that key. */
    ghost predicate Valid() {
      && (forall id | id in rows ::
            && rows[id].id == id
            && id < nextId
            && rows[id].clientMsgId in byClient
            && byClient[rows[id].clientMsgId] == id)
      && (forall k | k in byClient :: byClient[k] in rows && rows[byClient[k]].clientMsgId == k)
    }
  }

  /** No two rows share a client message id. */
  ghost predicate UniqueClientIds(st: Store) {
    forall a, b | a in st.rows && b in st.rows && st.rows[a].clientMsgId == st.rows[b].clientMsgId :: a == b
  }

  ghost predicate HasClientId(st: Store, k: ClientMsgId) {
    exists id | id in st.rows :: st.rows[id].clientMsgId == k
  }

  /** The result of an operation that may write to the table. */
  datatype Written = Written(store: Store, msg: Message)

  datatype ReadResult = ReadResult(store: Store, updated: seq<Message>)

  lemma ValidHasUniqueClientIds(st: Store)
    requires st.Valid()
    ensures UniqueClientIds(st)
  {
    forall a, b | a in st.rows && b in st.rows && st.rows[a].clientMsgId == st.rows[b].clientMsgId
      ensures a == b
    {
      assert st.byClient[st.rows[a].clientMsgId] == a;
    }
  }

  /** `get_by_client_id`: the row carrying key `k`, if any. */
  function GetByClientId(st: Store, k: ClientMsgId): (r: Option<Message>)
    requires st.Valid()
    ensures r.Some? <==> HasClientId(st, k)
    ensures r.Some? ==> r.value.id in st.rows && st.rows[r.value.id] == r.value && r.value.clientMsgId == k
  {
    if k in st.byClient then Some(st.rows[st.byClient[k]])
    else
      assert !HasClientId(st, k);
      None
  }

  /** The row `create_message` inserts: server id from the generator,
      `timestamp` from the database clock, `is_read` false by default. */
  function NewRow(st: Store, chat: ChatId, sender: UserId, text: string, k: ClientMsgId, now: Timestamp): Message {
    Message(st.nextId, chat, sender, text, k, now, false)
  }

  /** Repository `create_message`: INSERT ... ON CONFLICT (client_msg_id) DO
      NOTHING RETURNING the row; when nothing was returned, fall back to the
      lookup by client message id. */
  function Create(st: Store, chat: ChatId, sender: UserId, text: string, k: ClientMsgId, now: Timestamp): (r: Written)
    requires st.Valid()
    ensures r.store.Valid()
    ensures r.msg.clientMsgId == k
    ensures r.msg.id in r.store.rows && r.store.rows[r.msg.id] == r.msg
    ensures HasClientId(st, k) ==> r.store == st && r.msg.id in st.rows && st.rows[r.msg.id] == r.msg
    ensures !HasClientId(st, k) ==>
              && r.msg == Message(st.nextId, chat, sender, text, k, now, false)
              && r.msg.id !in st.rows
              && r.store.rows == st.rows[r.msg.id := r.msg]
  {
    if k in st.byClient then
      var existing := GetByClientId(st, k);
      Written(st, existing.value)
    else
      assert !HasClientId(st, k);
      var row := NewRow(st, chat, sender, text, k, now);
      var st' := Store(st.rows[row.id := row], st.byClient[k := row.id], st.nextId + 1);
      assert row.id !in st.rows;
      assert st'.Valid();
      Written(st', row)
  }

  /** Messages are listed oldest first. */
  ghost predicate SortedByTime(ms: seq<Message>) {
    forall i, j | 0 <= i < j < |ms| :: ms[i].timestamp <= ms[j].timestamp
  }

  /** `all` lists every row of chat `c`, each once, oldest first; rows with
      equal timestamps may come in either order, as SQL leaves them. */
  ghost predicate ChatListing(st: Store, c: ChatId, all: seq<Message>) {
    && NoDuplicates(all)
    && SortedByTime(all)
    && (forall m | m in all :: m in st.rows.Values && m.chatId == c)
    && (forall id | id in st.rows && st.rows[id].chatId == c :: st.rows[id] in all)
  }

  /** SQL `LIMIT limit OFFSET offset` applied to a listing. */
  function Page<T>(all: seq<T>, limit: nat, offset: nat): (r: seq<T>)
    ensures |r| <= limit
    ensures offset <= |all| ==> |r| == if |all| - offset < limit then |all| - offset else limit
    ensures offset <= |all| ==> forall i | 0 <= i < |r| :: r[i] == all[offset + i]
    ensures offset >= |all| ==> r == []
  {
    if offset >= |all| then []
    else if |all| - offset < limit then all[offset..]
    else all[offset..offset + limit]
  }

  /** Inserts `m` after every element not newer than it. */
  function InsertByTime(ms: seq<Message>, m: Message): (r: seq<Message>)
    requires SortedByTime(ms)
    ensures SortedByTime(r)
    ensures |r| == |ms| + 1
    ensures forall x | x in r :: x == m || x in ms
    ensures m in r && forall x | x in ms :: x in r
  {
    if ms == [] || m.timestamp < ms[0].timestamp then [m] + ms
    else
      var rest := InsertByTime(ms[1..], m);
      assert forall x | x in ms :: x == ms[0] || x in ms[1..];
      assert forall x | x in rest :: ms[0].timestamp <= x.timestamp;
      [ms[0]] + rest
  }

  /** Inserting a message not yet listed keeps the listing free of repeats. */
  lemma {:induction false} InsertByTimeNoDuplicates(ms: seq<Message>, m: Message)
    requires SortedByTime(ms) && NoDuplicates(ms) && m !in ms
    ensures NoDuplicates(InsertByTime(ms, m))
  {
    if ms == [] || m.timestamp < ms[0].timestamp {
      NoDuplicatesCons(m, ms);
    } else {
      var head, tail := ms[0], ms[1..];
      assert SortedByTime(tail);
      assert NoDuplicates(tail);
      assert m !in tail;
      InsertByTimeNoDuplicates(tail, m);
      assert head !in tail;
      assert head !in InsertByTime(tail, m);
      NoDuplicatesCons(head, InsertByTime(tail, m));
    }
  }

  /** Repository `get_by_chat`: the chat's rows, ascending by timestamp,
      then the page selected by `limit` and `offset`. */
  method GetByChat(st: Store, c: ChatId, limit: nat, offset: nat) returns (r: seq<Message>)
    requires st.Valid()
    ensures exists all :: ChatListing(st, c, all) && r == Page(all, limit, offset)
    ensures |r| <= limit
    ensures forall m | m in r :: m in st.rows.Values && m.chatId == c
  {
    var todo := st.rows.Keys;
    var all: seq<Message> := [];
    while todo != {}
      invariant todo <= st.rows.Keys
      invariant SortedByTime(all)
      invariant NoDuplicates(all)
      invariant forall m | m in all :: m.id in st.rows && st.rows[m.id] == m && m.chatId == c && m.id !in todo
      invariant forall id | id in st.rows && id !in todo && st.rows[id].chatId == c :: st.rows[id] in all
      decreases todo
    {
      var id :| id in todo;
      var row := st.rows[id];
      if row.chatId == c {
        InsertByTimeNoDuplicates(all, row);
        all := InsertByTime(all, row);
      }
      todo := todo - {id};
    }
    assert ChatListing(st, c, all);
    r := Page(all, limit, offset);
    forall m | m in r
      ensures m in st.rows.Values && m.chatId == c
    {
      var i :| 0 <= i < |r| && r[i] == m;
      assert m == all[offset + i];
    }
  }

  /** `mark_as_read` acts on message `id` for requester `u` when the row
      exists and `u` is not its sender. */
  predicate Markable(rows: map<MessageId, Message>, id: MessageId, u: UserId) {
    id in rows && rows[id].senderId != u
  }

  /** The requested ids `mark_as_read` acts on, in request order, repeats kept. */
  function MarkableIds(rows: map<MessageId, Message>, ids: seq<MessageId>, u: UserId): (r: seq<MessageId>)
    ensures forall i | 0 <= i < |r| :: r[i] in ids && Markable(rows, r[i], u)
    ensures forall id | id in ids && Markable(rows, id, u) :: id in r
  {
    if ids == [] then []
    else
      var rest := MarkableIds(rows, ids[1..], u);
      assert forall id | id in ids :: id == ids[0] || id in ids[1..];
      if Markable(rows, ids[0], u) then [ids[0]] + rest else rest
  }

  /** Which ids are acted on depends only on which rows exist and who sent them. */
  lemma {:induction false} MarkableIdsDependOnSenders(rows1: map<MessageId, Message>, rows2: map<MessageId, Message>, ids: seq<MessageId>, u: UserId)
    requires rows1.Keys == rows2.Keys
    requires forall id | id in rows1 :: rows1[id].senderId == rows2[id].senderId
    ensures MarkableIds(rows1, ids, u) == MarkableIds(rows2, ids, u)
  {
    if ids != [] {
      MarkableIdsDependOnSenders(rows1, rows2, ids[1..], u);
    }
  }

  /** The table with row `id` marked read; nothing else changes. */
  function SetRead(st: Store, id: MessageId): (st': Store)
    requires st.Valid() && id in st.rows
    ensures st'.Valid()
    ensures st'.rows.Keys == st.rows.Keys && st'.byClient == st.byClient && st'.nextId == st.nextId
    ensures st'.rows[id] == st.rows[id].(isRead := true)
    ensures forall x | x in st.rows && x != id :: st'.rows[x] == st.rows[x]
  {
    st.(rows := st.rows[id := st.rows[id].(isRead := true)])
  }

  /** Repository `mark_as_read`: walks the requested ids in order, skipping
      ids with no row and messages the requester sent; every other row gets
      `is_read` set and is appended to the result, whether or not it was
      already read. What it does to the rows and what it returns are stated
      by the lemmas below. */
  function MarkAsRead(st: Store, ids: seq<MessageId>, u: UserId): (r: ReadResult)
    requires st.Valid()
    ensures r.store.Valid()
    ensures r.store.byClient == st.byClient && r.store.nextId == st.nextId
    ensures r.store.rows.Keys == st.rows.Keys
    decreases |ids|
  {
    if ids == [] then ReadResult(st, [])
    else
      var id := ids[0];
      if Markable(st.rows, id, u) then
        var rest := MarkAsRead(SetRead(st, id), ids[1..], u);
        ReadResult(rest.store, [st.rows[id].(isRead := true)] + rest.updated)
      else
        MarkAsRead(st, ids[1..], u)
  }

  /** What the walk does to one row: it ends read when it was requested
      and the requester did not send it, and is left as it was otherwise. */
  lemma {:induction false} MarkAsReadRow(st: Store, ids: seq<MessageId>, u: UserId, id: MessageId)
    requires st.Valid() && id in st.rows
    ensures MarkAsRead(st, ids, u).store.rows[id] ==
            if id in ids && Markable(st.rows, id, u) then st.rows[id].(isRead := true) else st.rows[id]
    decreases |ids|
  {
    if ids != [] {
      assert id in ids <==> id == ids[0] || id in ids[1..];
      if Markable(st.rows, ids[0], u) {
        MarkAsReadRow(SetRead(st, ids[0]), ids[1..], u, id);
      } else {
        MarkAsReadRow(st, ids[1..], u, id);
      }
    }
  }

  /** Every requested row that exists and that the requester did not send
      ends read; every other row is left as it was. */
  lemma MarkAsReadRows(st: Store, ids: seq<MessageId>, u: UserId)
    requires st.Valid()
    ensures var r := MarkAsRead(st, ids, u);
            forall id | id in ids && Markable(st.rows, id, u) :: r.store.rows[id] == st.rows[id].(isRead := true)
    ensures var r := MarkAsRead(st, ids, u);
            forall id | id in st.rows && (id !in ids || !Markable(st.rows, id, u)) :: r.store.rows[id] == st.rows[id]
  {
    forall id | id in st.rows {
      MarkAsReadRow(st, ids, u, id);
    }
  }

  /** The rows filed under `ids`, in order. */
  function RowsAt(rows: map<MessageId, Message>, ids: seq<MessageId>): (r: seq<Message>)
    requires forall id | id in ids :: id in rows
    ensures |r| == |ids|
    ensures forall i | 0 <= i < |r| :: r[i] == rows[ids[i]]
  {
    if ids == [] then [] else [rows[ids[0]]] + RowsAt(rows, ids[1..])
  }

  /** The result is the acted-on rows, as they end up, in request order. */
  lemma {:induction false} MarkAsReadUpdated(st: Store, ids: seq<MessageId>, u: UserId)
    requires st.Valid()
    ensures var r := MarkAsRead(st, ids, u);
            r.updated == RowsAt(r.store.rows, MarkableIds(st.rows, ids, u))
    decreases |ids|
  {
    if ids != [] {
      var id := ids[0];
      var marked := MarkableIds(st.rows, ids, u);
      if Markable(st.rows, id, u) {
        var st1 := SetRead(st, id);
        var rest := MarkAsRead(st1, ids[1..], u);
        var marked1 := MarkableIds(st1.rows, ids[1..], u);
        MarkableIdsDependOnSenders(st.rows, st1.rows, ids[1..], u);
        assert marked == [id] + marked1;
        assert marked[1..] == marked1;
        MarkAsReadUpdated(st1, ids[1..], u);
        MarkAsReadRow(st1, ids[1..], u, id);
        assert rest.store.rows[id] == st.rows[id].(isRead := true);
      } else {
        MarkAsReadUpdated(st, ids[1..], u);
      }
    }
  }

  /** Every returned message is read, was not sent by the requester, and
      was asked for. */
  lemma MarkAsReadReturnsMarked(st: Store, ids: seq<MessageId>, u: UserId)
    requires st.Valid()
    ensures var r := MarkAsRead(st, ids, u);
            forall i | 0 <= i < |r.updated| :: r.updated[i].isRead && r.updated[i].senderId != u && r.updated[i].id in ids
  {
    var r := MarkAsRead(st, ids, u);
    var marked := MarkableIds(st.rows, ids, u);
    MarkAsReadRows(st, ids, u);
    MarkAsReadUpdated(st, ids, u);
    assert |r.updated| == |marked|;
    forall i | 0 <= i < |r.updated|
      ensures r.updated[i].isRead && r.updated[i].senderId != u && r.updated[i].id in ids
    {
      assert marked[i] in ids && Markable(st.rows, marked[i], u);
      assert r.updated[i] == st.rows[marked[i]].(isRead := true);
    }
  }

  /** Marking the same ids twice changes nothing more and returns the same
      messages again. */
  lemma MarkAsReadIdempotent(st: Store, ids: seq<MessageId>, u: UserId)
    requires st.Valid()
    ensures var r1 := MarkAsRead(st, ids, u);
            var r2 := MarkAsRead(r1.store, ids, u);
            r2 == r1
  {
    var r1 := MarkAsRead(st, ids, u);
    var r2 := MarkAsRead(r1.store, ids, u);
    MarkAsReadRows(st, ids, u);
    MarkAsReadRows(r1.store, ids, u);
    MarkAsReadUpdated(st, ids, u);
    MarkAsReadUpdated(r1.store, ids, u);
    MarkableIdsDependOnSenders(st.rows, r1.store.rows, ids, u);
    assert r2.store.rows == r1.store.rows;
    assert r2.updated == r1.updated;
  }
}
