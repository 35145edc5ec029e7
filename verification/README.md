# Chat fan-out and idempotent message store, in Dafny

This project models the real-time core of a chat backend. It covers three parts:

- the session registry (`ConnectionManager`): one socket and a set of subscribed chats per connected user, presence queries, a per-user, per-chat typing throttle, and fan-out of frames to a chat's subscribers;
- the WebSocket handler (`websocket_endpoint`): the `auth` handshake, seeding a new session with the user's chats, the presence snapshot and the online announcements, the per-action receive loop, and disconnect cleanup;
- the message store (`MessageRepository`, `MessageService`): idempotent ingestion keyed by a client-supplied message id, paged chat history ordered by timestamp, and read marking.

State is immutable, and almost every operation is a pure function. The exceptions are `MessageStore.GetByChat` and `MessageService.GetChatHistory`: they are methods whose loop takes the table's rows in a nondeterministically chosen order and inserts each into a list sorted by timestamp, so the order of rows with equal timestamps depends on that choice. The registry is a map of sessions plus the dict's insertion order (`order`). The message table is a map of rows plus the unique index on the client message id. A handler step takes the shared `World` and one inbound event and returns the next `World`, the handler's next `Phase`, and the transport actions it took (`Out`: a send attempt or a close with a code). For a run of sends, `SentTo(outs, v)` is the frames addressed to user `v`. It counts send attempts, so it is what `v` actually gets only when `v`'s socket does not fail; lemmas that speak of what a user receives require that. Properties of whole runs of broadcasts are stated against the reference definition `Expected`.

Modules:

- `Common` (common.dfy): ids, `Option`, sequence helpers.
- `MessageStore` (message_store.dfy): the repository.
- `MessageService` (message_service.dfy): the service in front of the repository.
- `Frames` (frames.dfy): wire frames and transport actions.
- `ConnectionManager` (ws_manager.dfy).
- `WebsocketEndpoint` (api_ws.dfy).

Where the code behaves unexpectedly, the model follows the code:

- A membership refusal on `subscribe`, `unsubscribe`, `send_message` or `typing` is an exception the receive loop does not catch. The handler ends (`Aborted`), and no cleanup or offline announcement runs.
- A frame that is not valid JSON, or whose ids do not parse, also escapes the loop (`Malformed` leads to `Aborted`). It is not ignored.
- The snapshot a user receives lists the user itself, because it is taken after the user has been subscribed.
- `read_messages` checks no membership. `mark_as_read` returns already-read messages again.
- `send_message` broadcasts to the chat the request names, not to the stored message's chat. A replay of a client message id under another chat therefore sends the first message, still carrying its own chat, to the other chat's listeners.
- The message table is modelled with the fields the repository writes: `id, chat_id, sender_id, text, client_msg_id, timestamp, is_read`. The ORM class and create schema in messages/models.py and messages/schemas.py lack some of these.
- `MessageService.mark_as_read` is modelled with the requester argument that its callers pass.
- The disconnect cleanup deregisters whatever session the registry holds for the user, even when a newer login has replaced this handler's socket. `Step` does exactly that; the corrected `StepGuarded` is stated beside it (see Findings).

## Model

| member | source | states |
|---|---|---|
| MessageStore.GetByClientId | messages/repositories.py:42-46 | returns a row exactly when some row carries the client message id, and then a stored row with that id |
| MessageStore.Create | messages/repositories.py:14-32 | with a new key, inserts one fresh row (given chat, sender, text, key; database timestamp; unread) and nothing else changes; with a known key, writes nothing and returns the stored row; the key index stays unique |
| MessageStore.GetByChat | messages/repositories.py:35-39 | the result is the `limit`/`offset` page of a listing of exactly the chat's rows, without repeats, in ascending timestamp order |
| MessageStore.MarkAsRead | messages/repositories.py:49-59 | the walk keeps the table consistent: the same row ids, the same key index |
| MessageStore.MarkAsReadRows | messages/repositories.py:51-58 | every requested row that exists and was not sent by the requester ends read; rows not requested, and the requester's own, are unchanged |
| MessageStore.MarkAsReadUpdated | messages/repositories.py:50-59 | the result lists the acted-on rows as they end up, in request order, repeats and already-read rows included |
| MessageStore.MarkAsReadReturnsMarked | messages/repositories.py:51-59 | every returned message is read, was not sent by the requester, and was asked for |
| MessageStore.MarkableIdsDependOnSenders | messages/repositories.py:51-55 | which requested ids are acted on depends only on which rows exist and who sent them, not on their read flags |
| MessageStore.MarkAsReadIdempotent | messages/repositories.py:49-59 | marking the same ids again changes nothing further and returns the same messages |
| MessageStore.ValidHasUniqueClientIds | messages/repositories.py:24 | no two rows of a consistent table share a client message id |
| MessageService.CreateMessage | messages/services.py:12-17 | a known client message id returns the stored row and leaves the table as it was; otherwise a new row with exactly the given chat, text, key and sender is inserted |
| MessageService.CreateMessageAgreesWithRepository | messages/services.py:12-17 | the lookup in front of the insert never changes the outcome of the repository's conflict-tolerant insert |
| MessageService.CreateMessageIdempotent | messages/services.py:12-17 | a second create with the same client message id, whatever its chat, text, sender or time, returns the first message and writes nothing |
| MessageService.CreateMessageLeavesOneRow | messages/services.py:12-17 | after a create, the returned message is the only row carrying its client message id |
| MessageService.GetChatHistory | messages/services.py:20-21 | returns a page of the repository's timestamp-ordered listing of the chat, at most `limit` rows, all of that chat |
| MessageService.MarkAsRead | messages/services.py:24-25 | the repository's walk over the ids: the same table keys, one result per acted-on id in order, each read and not sent by the requester |
| Frames.SentToConcat | messages/ws_manager.py:80-87 | what is sent to a user by two runs of sends is what the first sends it, then what the second sends it |
| Frames.SentToSingleFrame | messages/ws_manager.py:80-87 | distinct sends of one frame, one socket per user, address that frame once to each addressee and nothing to anyone else |
| ConnectionManager.Connect | messages/ws_manager.py:13-21 | the user is registered on the new socket with no subscriptions, other sessions unchanged; a previous socket of the user gets exactly one close with 1000 |
| ConnectionManager.Disconnect | messages/ws_manager.py:23-25 | removes exactly the user's session; a no-op when the user is absent |
| ConnectionManager.DisconnectIdempotent | messages/ws_manager.py:23-25 | disconnecting twice is disconnecting once |
| ConnectionManager.DisconnectUndoesConnect | messages/ws_manager.py:13-25 | connecting a user with no session and then disconnecting it restores the registry, iteration order included |
| ConnectionManager.Subscribe | messages/ws_manager.py:27-29 | adds the chat to the user's set; no other session changes; a no-op when the user is absent |
| ConnectionManager.Unsubscribe | messages/ws_manager.py:31-33 | removes the chat from the user's set, absent or not; no other session changes; a no-op when the user is absent |
| ConnectionManager.SubscribeMany | messages/ws_manager.py:35-38 | adds every listed chat to the user's set; no other session changes; a no-op when the user is absent |
| ConnectionManager.Subscriptions | messages/ws_manager.py:40-44 | the user's current chats, or the empty set when the user is absent |
| ConnectionManager.UnsubscribeUndoesSubscribe | messages/ws_manager.py:27-33 | unsubscribing from a chat just subscribed to, not listened to before, restores the registry |
| ConnectionManager.SubscribeThenQuery | messages/ws_manager.py:27-44 | after subscribing, the query lists the chat exactly when the user is connected; after unsubscribing it never does |
| ConnectionManager.OnlineInChat | messages/ws_manager.py:46-51 | exactly the connected users subscribed to the chat, each once |
| ConnectionManager.TypingAllowed | messages/ws_manager.py:53-62 | allows exactly when the interval has passed since the pair's last allowed event (0 when never); a refusal changes nothing; an allowance records the time for that pair only |
| ConnectionManager.TypingAllowedSpacing | messages/ws_manager.py:53-62 | two consecutive allowances for the same user and chat are at least the interval apart |
| ConnectionManager.TypingAllowedTwiceInInterval | messages/ws_manager.py:53-62 | two calls less than the interval apart give true then false, and a call the interval after the first gives true again |
| ConnectionManager.SendToUser | messages/ws_manager.py:64-71 | no action when the user is absent; otherwise one send to the user's socket, and the user is dropped exactly when that send fails |
| ConnectionManager.Broadcast | messages/ws_manager.py:73-90 | one send of the frame to every subscriber of the chat other than the excluded user, on its own socket, and to nobody else; afterwards exactly the reached users whose send failed are gone |
| ConnectionManager.BroadcastDeliversOnce | messages/ws_manager.py:73-90 | every reached user is sent the frame exactly once, every other user nothing; a reached user whose socket fails is sent it all the same |
| ConnectionManager.BroadcastWithoutFailures | messages/ws_manager.py:89-90 | when no reached socket fails the registry is unchanged |
| WebsocketEndpoint.BroadcastAll | messages/api_ws.py:139-145 | a run of broadcasts only drops sessions, never sends to the excluded user, and sends only the run's frames |
| WebsocketEndpoint.BroadcastAllKeepsExcluded | messages/api_ws.py:60-70 | a run of broadcasts that leaves a user out never drops or changes that user's session |
| WebsocketEndpoint.BroadcastAllDelivers | messages/api_ws.py:139-145 | a user whose own socket does not fail receives the frames of the items whose chat it listens to, in item order, whichever other sockets fail |
| WebsocketEndpoint.BroadcastAllKeeps | messages/api_ws.py:139-145 | when no socket the run reaches fails, the registry is kept; sockets of users who listen to none of the run's chats, or of the excluded user, may fail |
| WebsocketEndpoint.PresenceOncePerChat | messages/api_ws.py:60-70 | over distinct chats, the reference run gives a user the presence update for a chat once if it listens there and not at all otherwise |
| WebsocketEndpoint.Authenticate | messages/api_ws.py:26-38 | a user is authenticated exactly when the first frame is `auth` with a non-empty token that verifies |
| WebsocketEndpoint.AuthStep | messages/api_ws.py:24-41 | a refused handshake closes the socket with 1008 and changes nothing; an accepted one makes the handler active for the token's user on this socket, without touching the store |
| WebsocketEndpoint.OpenSession | messages/api_ws.py:43-70 | the handshake leaves the table alone and the handler active; the close, registration, snapshot and online announcements are stated by the OpenSession lemmas below |
| WebsocketEndpoint.OnSendMessage | messages/api_ws.py:87-106 | the table becomes the service's create result; the registry only loses sessions; every send carries the stored message's view (delivery in SendMessageDelivers) |
| WebsocketEndpoint.OnTyping | messages/api_ws.py:108-128 | the table is untouched and no session is added (recipients in TypingNotEchoed and TypingDelivers) |
| WebsocketEndpoint.OnReadMessages | messages/api_ws.py:130-145 | the table becomes the service's mark result; the registry only loses sessions; every send is a message frame (order in ReadMessagesInOrder) |
| WebsocketEndpoint.ActiveStep | messages/api_ws.py:72-162 | a member's `subscribe`/`unsubscribe` changes only its subscriptions and sends nothing; `send_message`, `typing` and `read_messages` run their handlers; a disconnect runs the cleanup as written |
| WebsocketEndpoint.Step | messages/api_ws.py:20-162 | a refused handshake closes with 1008 and changes nothing; an accepted one makes the handler active for that user; unknown actions and repeated `auth` do nothing; a non-member's gated action and a malformed frame end the handler with nothing changed; only `send_message` and `read_messages` write the store; a handler that closes has deregistered its user |
| WebsocketEndpoint.Seeded | messages/api_ws.py:43-48 | after connect and seeding, the user listens to exactly its chats on the new socket and every other session is as it was |
| WebsocketEndpoint.Snapshot | messages/api_ws.py:50-58 | the snapshot maps exactly the user's chats, each to the connected users subscribed to it |
| WebsocketEndpoint.OpenSessionClosesOld | messages/api_ws.py:43 | the first action of an accepted handshake is closing the user's older socket with 1000 |
| WebsocketEndpoint.OpenSessionRegisters | messages/api_ws.py:43-70 | unless the snapshot send fails, the user ends registered on the new socket with exactly its chats |
| WebsocketEndpoint.OpenSessionSnapshotOnce | messages/api_ws.py:50-58 | the handshake sends exactly one snapshot, to the user on its new socket |
| WebsocketEndpoint.SnapshotContents | messages/api_ws.py:43-58 | each chat's snapshot entry lists the user itself and the other users already subscribed there, and nobody else |
| WebsocketEndpoint.OpenSessionOnlineShape | messages/api_ws.py:60-70 | every presence update of the handshake says the user came online in one of its chats and goes to someone else |
| ConnectionManager.SendToUserKeepsOthers | messages/ws_manager.py:64-71 | sending to one user changes no other user's session and sends nothing to anyone else |
| WebsocketEndpoint.OpenSessionOnlineDelivery | messages/api_ws.py:60-70 | every other user whose own socket does not fail receives one online update per entry of the user's chat list that it listens to, in list order |
| WebsocketEndpoint.OpenSessionOnlineOncePerChat | messages/api_ws.py:60-70 | when the chat list has no repeats, such a user is told once per chat it shares with the user, and about no other chat |
| WebsocketEndpoint.SendMessageDelivers | messages/api_ws.py:87-106 | the table becomes the service's create result, and the stored message is sent once to every subscriber of the chat, sender included, and to nobody else |
| WebsocketEndpoint.SendMessageReplay | messages/api_ws.py:87-106 | a replayed send with the same client message id, whatever its chat, sender or text, writes nothing and sends the first stored message unchanged, once, to each listener of the chat the replay names |
| WebsocketEndpoint.TypingNotEchoed | messages/api_ws.py:108-128 | typing frames never go to their sender and carry the flag, true when absent; a throttled event changes nothing and sends nothing |
| WebsocketEndpoint.TypingDelivers | messages/api_ws.py:108-128 | an allowed typing event is sent exactly to the other subscribers of the chat, once each |
| WebsocketEndpoint.ReadMessagesInOrder | messages/api_ws.py:130-145 | the store gets the service's marks; each user whose own socket does not fail receives the updated messages of chats it listens to, in request order; when no socket the run reaches fails the registry is kept |
| WebsocketEndpoint.CloseSession | messages/api_ws.py:149-162 | after cleanup the user is not registered and the store is untouched |
| WebsocketEndpoint.DisconnectAnnouncesOffline | messages/api_ws.py:149-162 | every frame of the cleanup is an offline update about the user in one of its chats, to someone else; each user whose own socket does not fail receives one update per entry of the ascending list of the user's chats that it listens to; when no socket of another user listening to one of those chats fails, only the user's session goes |
| WebsocketEndpoint.DisconnectOfflineOncePerChat | messages/api_ws.py:149-162 | each user whose own socket does not fail is told once per chat it shares with the departing user, and about no other chat |
| WebsocketEndpoint.SupersededCleanupEvictsNewSession | messages/api_ws.py:149-162 | as written: after a second login closes the first socket, the first handler's disconnect `Step` deregisters the newer live session |
| WebsocketEndpoint.CloseSessionGuarded | messages/api_ws.py:149-162 | the corrected cleanup: runs `CloseSession` only while the registry still holds this handler's socket for the user; otherwise nothing changes and nothing is sent |
| WebsocketEndpoint.StepGuarded | messages/api_ws.py:149-162 | the corrected step: identical to `Step` whenever the handler still owns its user's registered socket, and a superseded handler's disconnect closes it with nothing changed |
| WebsocketEndpoint.GuardedCleanupKeepsNewSession | messages/api_ws.py:149-162 | with `StepGuarded`, the superseded handler's disconnect keeps the newer session and sends nothing |

## Left out

- Async I/O, database sessions, commits and flushes are not modelled. Neither is any interleaving of concurrent handlers: each handler step is atomic over the shared registry and table.
- JWT decoding is the abstract `verify` function. Its failures and non-UUID subjects all count as a refused token.
- Chat membership and the user's chat list are the abstract `isMember` and `userChats`. The handler calls `ChatService.list_user_chat_ids` (messages/api_ws.py:46), but the `ChatService` in chats/services.py defines no such method, so the code as written raises `AttributeError` right after `connect`. `userChats` stands in for the list that call evidently means to return.
- JSON is not modelled. Frames are datatypes, and the client message id is dropped from the outbound message view. A frame that fails to parse, or whose ids are not UUIDs, is folded into `Malformed`.
- `bool(data.get("is_typing", True))` is modelled as an optional boolean that defaults to true. Python truthiness of other JSON values is not modelled.
- Time is integer milliseconds passed in with each step. It stands in for the float `time.time()` and for the database's `now()`. `uuid4` is replaced by a counter.
- Socket send failures are a parameter: the set of sockets whose sends fail during the step. A failing close is ignored, as in the source.
- Python set iteration order in the disconnect cleanup is fixed to ascending chat id. The source's order is unspecified.
- Ties in timestamp order within a chat's history are left open, as SQL leaves them: their order follows the listing loop's nondeterministic choice of rows. Negative `limit` or `offset` is not modelled (`nat`).
- HTTP routers, password hashing, token issuance, migrations and configuration are not modelled.

## Findings

| source | as written | input that shows it | evidently intended | confidence | as-written member | corrected member |
|---|---|---|---|---|---|---|
| messages/api_ws.py:149-162 | the disconnect cleanup reads the subscriptions of, and deregisters, whatever session the registry holds for the user, without checking that it is this handler's socket | user logs in on socket 1, then again on socket 2; `connect` closes socket 1, its handler gets a disconnect and runs cleanup | the superseded handler leaves the newer session registered and announces nothing | medium, not executed | WebsocketEndpoint.SupersededCleanupEvictsNewSession | WebsocketEndpoint.GuardedCleanupKeepsNewSession |
