/**
 `MessageService` (messages/services.py): the dedup ingestion gate in
 front of the repository, and the history and read-marking entry points
 that delegate to it.
 */
module MessageService {
  import opened Common
  import opened MessageStore

  /** `create_message`: look the client message id up first and return
      the stored row when there is one; otherwise build the row from the
      request and hand it to the repository's conditional insert. */
  function CreateMessage(st: Store, chat: ChatId, text: string, k: ClientMsgId, sender: UserId, now: Timestamp): (r: Written)
    requires st.Valid()
    ensures r.store.Valid()
    ensures r.msg.clientMsgId == k && r.msg.id in r.store.rows && r.store.rows[r.msg.id] == r.msg
    ensures HasClientId(st, k) ==> r.store == st && Some(r.msg) == GetByClientId(st, k)
    ensures !HasClientId(st, k) ==>
              && r.msg.chatId == chat && r.msg.text == text && r.msg.senderId == sender
              && r.msg.timestamp == now && !r.msg.isRead
              && r.msg.id !in st.rows
              && r.store.rows == st.rows[r.msg.id := r.msg]
  {
    var existing := GetByClientId(st, k);
    if existing.Some? then Written(st, existing.value)
    else Create(st, chat, sender, text, k, now)
  }

  /** Under one writer at a time the lookup in front of the insert never
      changes the outcome: the repository's own conflict fallback returns
      the same row. */
  lemma CreateMessageAgreesWithRepository(st: Store, chat: ChatId, text: string, k: ClientMsgId, sender: UserId, now: Timestamp)
    requires st.Valid()
    ensures CreateMessage(st, chat, text, k, sender, now) == Create(st, chat, sender, text, k, now)
  {
    var existing := GetByClientId(st, k);
    if existing.Some? {
      ValidHasUniqueClientIds(st);
      assert existing.value.id == st.byClient[k];
    }
  }

  /** A retried send with the same client message id, even with another
      chat or text, returns the first call's message and writes nothing. */
  lemma CreateMessageIdempotent(st: Store, chat1: ChatId, text1: string, chat2: ChatId, text2: string,
                                k: ClientMsgId, sender1: UserId, sender2: UserId, now1: Timestamp, now2: Timestamp)
    requires st.Valid()
    ensures var first := CreateMessage(st, chat1, text1, k, sender1, now1);
            var second := CreateMessage(first.store, chat2, text2, k, sender2, now2);
            second == first
  {
    var first := CreateMessage(st, chat1, text1, k, sender1, now1);
    assert HasClientId(first.store, k);
    ValidHasUniqueClientIds(first.store);
  }

  /** After a create, exactly one row carries the client message id. */
  lemma CreateMessageLeavesOneRow(st: Store, chat: ChatId, text: string, k: ClientMsgId, sender: UserId, now: Timestamp)
    requires st.Valid()
    ensures var r := CreateMessage(st, chat, text, k, sender, now);
            forall id | id in r.store.rows && r.store.rows[id].clientMsgId == k :: id == r.msg.id
  {
    var r := CreateMessage(st, chat, text, k, sender, now);
    ValidHasUniqueClientIds(r.store);
  }

  /** `get_chat_history`: the repository's chat listing page, unchanged. */
  method GetChatHistory(st: Store, c: ChatId, limit: nat, offset: nat) returns (r: seq<Message>)
    requires st.Valid()
    ensures exists all :: ChatListing(st, c, all) && r == Page(all, limit, offset)
    ensures |r| <= limit
    ensures forall m | m in r :: m in st.rows.Values && m.chatId == c
  {
    r := GetByChat(st, c, limit, offset);
  }

  /** `mark_as_read`, called with the requester as the handler calls it:
      the repository's walk over the ids, unchanged. */
  function MarkAsRead(st: Store, ids: seq<MessageId>, u: UserId): (r: ReadResult)
    requires st.Valid()
    ensures r.store.Valid()
    ensures r.store.rows.Keys == st.rows.Keys
    ensures r.updated == RowsAt(r.store.rows, MarkableIds(st.rows, ids, u))
    ensures forall i | 0 <= i < |r.updated| :: r.updated[i].isRead && r.updated[i].senderId != u && r.updated[i].id in ids
  {
    MessageStore.MarkAsReadUpdated(st, ids, u);
    MessageStore.MarkAsReadReturnsMarked(st, ids, u);
    MessageStore.MarkAsRead(st, ids, u)
  }
}
