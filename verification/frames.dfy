/**
 The frames of the real-time channel (messages/api_ws.py), as data
 rather than JSON, and the transport actions the server performs.
 */
module Frames {
  import opened Common
  import opened MessageStore

  datatype Status = Online | Offline

  /** A stored message as it goes over the wire (`MessageReadSchema`):
      every field except the client message id. */
  datatype MessageView = MessageView(
    id: MessageId,
    chatId: ChatId,
    senderId: UserId,
    text: string,
    timestamp: Timestamp,
    isRead: bool)

  function View(m: Message): MessageView {
    MessageView(m.id, m.chatId, m.senderId, m.text, m.timestamp, m.isRead)
  }

  /** Server-to-client frames. */
  datatype Frame =
    | SnapshotAll(onlineByChat: map<ChatId, seq<UserId>>)
    | PresenceUpdate(chatId: ChatId, userId: UserId, status: Status)
    | TypingEvent(chatId: ChatId, userId: UserId, isTyping: bool)
    | MessageOut(view: MessageView)

  /** Client-to-server frames, already decoded. `Other` is any other value
      of `action`; `Malformed` is a frame whose JSON or ids do not parse;
      `Disconnected` is the transport reporting that the client went away. */
  datatype Inbound =
    | Auth(token: Option<string>)
    | Subscribe(chat: ChatId)
    | Unsubscribe(chat: ChatId)
    | SendMessage(chat: ChatId, text: string, clientMsgId: ClientMsgId)
    | Typing(chat: ChatId, isTyping: Option<bool>)
    | ReadMessages(ids: seq<MessageId>)
    | Other(action: string)
    | Malformed
    | Disconnected

  /** What the server does to transports: an attempted send of a frame to
      a user's socket, or a close with a status code. */
  datatype Out =
    | Send(to: UserId, socket: SocketId, frame: Frame)
    | Close(socket: SocketId, code: int)

  /** Close code for a normal closure (a superseded session). */
  const NormalClosure := 1000

  /** Close code for a policy violation (a failed handshake). */
  const PolicyViolation := 1008

  /** The frames addressed to user `v`, in the order they were sent. This
      counts send attempts: a send on a failing socket is addressed all the
      same, and what the user actually gets is this run only when its
      socket does not fail. */
  function SentTo(outs: seq<Out>, v: UserId): (r: seq<Frame>)
    ensures |r| <= |outs|
  {
    if outs == [] then []
    else (if outs[0].Send? && outs[0].to == v then [outs[0].frame] else []) + SentTo(outs[1..], v)
  }

  lemma {:induction false} SentToConcat(a: seq<Out>, b: seq<Out>, v: UserId)
    ensures SentTo(a + b, v) == SentTo(a, v) + SentTo(b, v)
  {
    if a != [] {
      var head := if a[0].Send? && a[0].to == v then [a[0].frame] else [];
      assert (a + b)[0] == a[0];
      assert (a + b)[1..] == a[1..] + b;
      SentToConcat(a[1..], b, v);
      assert SentTo(a + b, v) == head + SentTo(a[1..] + b, v);
      assert SentTo(a, v) == head + SentTo(a[1..], v);
    } else {
      assert a + b == b;
    }
  }

  /** Sends of one frame `f` to pairwise different users address `f` once
      to each of them and nothing to anybody else. */
  lemma {:induction false} SentToSingleFrame(outs: seq<Out>, f: Frame, v: UserId)
    requires forall i | 0 <= i < |outs| :: outs[i].Send? && outs[i].frame == f
    requires forall i, j | 0 <= i < j < |outs| :: outs[i] != outs[j]
    requires forall i, j | 0 <= i < j < |outs| :: outs[i].to == outs[j].to ==> outs[i].socket == outs[j].socket
    ensures SentTo(outs, v) == if exists i | 0 <= i < |outs| :: outs[i].to == v then [f] else []
  {
    if outs != [] {
      SentToSingleFrame(outs[1..], f, v);
      if outs[0].to == v {
        forall i | 0 <= i < |outs[1..]|
          ensures outs[1..][i].to != v
        {
          assert outs[0] != outs[i + 1];
        }
      } else {
        assert (exists i | 0 <= i < |outs| :: outs[i].to == v) <==> (exists i | 0 <= i < |outs[1..]| :: outs[1..][i].to == v) by {
          if i :| 0 <= i < |outs| && outs[i].to == v {
            assert outs[1..][i - 1].to == v;
          }
        }
      }
    }
  }
}
