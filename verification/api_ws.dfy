/**
 The real-time connection handler (`websocket_endpoint` in
 messages/api_ws.py) as a step function: one inbound event at a time,
 over the registry and the message table shared by all connections,
 producing the handler's next phase and the transport actions it takes.

 Token decoding, chat membership and the user's chat list are consulted
 through `Env`, together with the set of sockets whose sends fail during
 the step and the current time.
 */
module WebsocketEndpoint {
  import opened Common
  import opened MessageStore
  import MessageService
  import opened Frames
  import CM = ConnectionManager

  /** The handler lets a user's typing events in one chat through at most
      once per second (`min_interval_sec=1.0`), in milliseconds. */
  const TypingInterval := 1000

  /** Where one connection's handler is: waiting for the handshake frame,
      serving a user, closed after a disconnect or a refused handshake, or
      ended by an exception the handler does not catch. */
  datatype Phase =
    | Authenticating(socket: SocketId)
    | Active(user: UserId, socket: SocketId)
    | Closed
    | Aborted

  /** The state shared by all connections. */
  datatype World = World(mgr: CM.Manager, store: Store) {
    ghost predicate Valid() {
      mgr.Valid() && store.Valid()
    }
  }

  /** The collaborators the handler consults: token verification (`None`
      for a token that does not decode or carries no valid subject), chat
      membership, the user's chats, the sockets whose sends fail, and the
      clock. */
  datatype Env = Env(
    verify: string -> Option<UserId>,
    isMember: (ChatId, UserId) -> bool,
    userChats: UserId -> seq<ChatId>,
    dead: set<SocketId>,
    now: Timestamp)

  datatype Transition = Transition(world: World, phase: Phase, outs: seq<Out>)

  /** No socket that a run of broadcasts over `m` reaches fails: every
      user listening to one of the run's chats, other than the excluded
      one, keeps a live socket. Users listening to none of them may fail. */
  ghost predicate ReachedAlive(m: CM.Manager, items: seq<(ChatId, Frame)>, exclude: Option<UserId>, dead: set<SocketId>) {
    forall i, v | 0 <= i < |items| && CM.Reaches(m, v, items[i].0, exclude) :: m.sessions[v].socket !in dead
  }

  /** User `v`'s own socket, if it has one, does not fail during the step. */
  ghost predicate OwnAlive(m: CM.Manager, dead: set<SocketId>, v: UserId) {
    v in m.sessions ==> m.sessions[v].socket !in dead
  }

  // ---------------------------------------------------------------------
  // Runs of broadcasts

  /** The frames of a run of broadcasts, each with the chat it goes to. */
  function ItemFrames(items: seq<(ChatId, Frame)>): set<Frame> {
    set it | it in items :: it.1
  }

  /** Broadcasts each item's frame to its chat, one after the other, each
      over the registry the previous one left. */
  function BroadcastAll(m: CM.Manager, items: seq<(ChatId, Frame)>, exclude: Option<UserId>, dead: set<SocketId>): (r: CM.Update)
    requires m.Valid()
    ensures CM.Pruned(m, r.mgr)
    ensures forall i | 0 <= i < |r.outs| ::
              r.outs[i].Send? && exclude != Some(r.outs[i].to) && r.outs[i].frame in ItemFrames(items)
    decreases |items|
  {
    if items == [] then CM.Update(m, [])
    else
      var b := CM.Broadcast(m, items[0].0, items[0].1, exclude, dead);
      var rest := BroadcastAll(b.mgr, items[1..], exclude, dead);
      CM.PrunedTransitive(m, b.mgr, rest.mgr);
      assert forall it | it in items[1..] :: it in items;
      CM.Update(rest.mgr, b.outs + rest.outs)
  }

  /** A run of broadcasts never drops the user it leaves out. */
  lemma {:induction false} BroadcastAllKeepsExcluded(m: CM.Manager, items: seq<(ChatId, Frame)>, u: UserId, dead: set<SocketId>)
    requires m.Valid() && u in m.sessions
    ensures var r := BroadcastAll(m, items, Some(u), dead);
            u in r.mgr.sessions && r.mgr.sessions[u] == m.sessions[u]
    decreases |items|
  {
    if items != [] {
      var b := CM.Broadcast(m, items[0].0, items[0].1, Some(u), dead);
      assert !CM.Reaches(m, u, items[0].0, Some(u));
      BroadcastAllKeepsExcluded(b.mgr, items[1..], u, dead);
    }
  }

  /** What user `v` receives from a run of broadcasts when no send fails:
      the frame of every item whose chat it listens to, in item order. This
      is the reference the run's sends are measured against. */
  ghost function Expected(m: CM.Manager, items: seq<(ChatId, Frame)>, exclude: Option<UserId>, v: UserId): seq<Frame> {
    if items == [] then []
    else (if CM.Reaches(m, v, items[0].0, exclude) then [items[0].1] else []) + Expected(m, items[1..], exclude, v)
  }

  /** A user whose own socket does not fail receives from a run of
      broadcasts exactly the frames of the items it listens to, in item
      order, whichever other sockets fail on the way. */
  lemma {:induction false} BroadcastAllDelivers(m: CM.Manager, items: seq<(ChatId, Frame)>, exclude: Option<UserId>, dead: set<SocketId>, v: UserId)
    requires m.Valid() && OwnAlive(m, dead, v)
    ensures SentTo(BroadcastAll(m, items, exclude, dead).outs, v) == Expected(m, items, exclude, v)
    decreases |items|
  {
    if items != [] {
      var b := CM.Broadcast(m, items[0].0, items[0].1, exclude, dead);
      CM.BroadcastDeliversOnce(m, items[0].0, items[0].1, exclude, dead, v);
      assert v in b.mgr.sessions <==> v in m.sessions;
      BroadcastAllDelivers(b.mgr, items[1..], exclude, dead, v);
      ExpectedSameListeners(b.mgr, m, items[1..], exclude, v);
      SentToConcat(b.outs, BroadcastAll(b.mgr, items[1..], exclude, dead).outs, v);
    }
  }

  /** When no socket the run reaches fails, a run of broadcasts keeps the
      registry, whatever happens to the sockets of users it does not reach. */
  lemma {:induction false} BroadcastAllKeeps(m: CM.Manager, items: seq<(ChatId, Frame)>, exclude: Option<UserId>, dead: set<SocketId>)
    requires m.Valid() && ReachedAlive(m, items, exclude, dead)
    ensures BroadcastAll(m, items, exclude, dead).mgr == m
    decreases |items|
  {
    if items != [] {
      CM.BroadcastWithoutFailures(m, items[0].0, items[0].1, exclude, dead);
      assert forall i | 0 <= i < |items[1..]| :: items[1..][i] == items[i + 1];
      BroadcastAllKeeps(m, items[1..], exclude, dead);
    }
  }

  /** One presence update per chat, about user `u`. */
  function PresenceItems(chats: seq<ChatId>, u: UserId, status: Status): (items: seq<(ChatId, Frame)>)
    ensures |items| == |chats|
    ensures forall i | 0 <= i < |items| :: items[i] == (chats[i], PresenceUpdate(chats[i], u, status))
  {
    seq(|chats|, i requires 0 <= i < |chats| => (chats[i], PresenceUpdate(chats[i], u, status)))
  }

  /** One message frame per message, to the message's own chat. */
  function MessageItems(msgs: seq<Message>): (items: seq<(ChatId, Frame)>)
    ensures |items| == |msgs|
    ensures forall i | 0 <= i < |items| :: items[i] == (msgs[i].chatId, MessageOut(View(msgs[i])))
  {
    seq(|msgs|, i requires 0 <= i < |msgs| => (msgs[i].chatId, MessageOut(View(msgs[i]))))
  }

  // ---------------------------------------------------------------------
  // Handshake

  /** The user a handshake frame authenticates: the frame's action must be
      `auth`, its token present and non-empty, and the token must verify. */
  function Authenticate(ev: Inbound, env: Env): (r: Option<UserId>)
    ensures r.Some? <==> ev.Auth? && ev.token.Some? && ev.token.value != "" && env.verify(ev.token.value).Some?
    ensures r.Some? ==> r == env.verify(ev.token.value)
  {
    match ev
    case Auth(Some(token)) => if token == "" then None else env.verify(token)
    case _ => None
  }

  /** A successful handshake: register the session (closing any older one
      of the user), subscribe it to all of the user's chats, send the user
      one presence snapshot of every such chat, then announce the user
      online in each chat to everybody else listening there. */
  function OpenSession(w: World, u: UserId, s: SocketId, env: Env): (t: Transition)
    requires w.Valid()
    ensures t.world.Valid()
    ensures t.world.store == w.store
    ensures t.phase == Active(u, s)
  {
    var c1 := CM.Connect(w.mgr, u, s);
    var chats := env.userChats(u);
    var m2 := Seeded(w.mgr, u, s, chats);
    var c3 := CM.SendToUser(m2, u, Snapshot(m2, chats), env.dead);
    var c4 := BroadcastAll(c3.mgr, PresenceItems(chats, u, Online), Some(u), env.dead);
    Transition(World(c4.mgr, w.store), Active(u, s), c1.outs + c3.outs + c4.outs)
  }

  /** The registry once the new session is registered and subscribed to
      the user's chats: the user listens to exactly those chats on the new
      socket, every other session is as it was. */
  function Seeded(m: CM.Manager, u: UserId, s: SocketId, chats: seq<ChatId>): (r: CM.Manager)
    requires m.Valid()
    ensures r.Valid()
    ensures r.sessions == m.sessions[u := CM.Session(s, Elems(chats))]
    ensures r.typingLast == m.typingLast
  {
    var c := CM.Connect(m, u, s);
    assert {} + Elems(chats) == Elems(chats);
    CM.SubscribeMany(c.mgr, u, chats)
  }

  /** The `presence.snapshot_all` frame: for each chat, who is online in it. */
  function Snapshot(m: CM.Manager, chats: seq<ChatId>): (f: Frame)
    requires m.Valid()
    ensures f.SnapshotAll? && f.onlineByChat.Keys == Elems(chats)
    ensures forall c | c in chats :: forall v :: v in f.onlineByChat[c] <==> v in m.sessions && c in m.sessions[v].subs
  {
    SnapshotAll(map c | c in chats :: CM.OnlineInChat(m, c))
  }

  /** The handshake step: a refused frame closes the socket with 1008 and
      touches nothing; an accepted one opens the user's session. */
  function AuthStep(w: World, s: SocketId, ev: Inbound, env: Env): (t: Transition)
    requires w.Valid()
    ensures t.world.Valid() && t.world.store == w.store
    ensures Authenticate(ev, env).None? ==> t == Transition(w, Closed, [Close(s, PolicyViolation)])
    ensures Authenticate(ev, env).Some? ==> t.phase == Active(Authenticate(ev, env).value, s)
  {
    match Authenticate(ev, env)
    case None => Transition(w, Closed, [Close(s, PolicyViolation)])
    case Some(u) => OpenSession(w, u, s, env)
  }

  // ---------------------------------------------------------------------
  // The receive loop

  /** The handler ended by an exception it does not catch: nothing is
      announced and the session stays registered. */
  function Abort(w: World): Transition {
    Transition(w, Aborted, [])
  }

  /** Disconnect cleanup: take the user's subscriptions, announce the user
      offline in each of them to everybody else, then deregister. */
  function CloseSession(w: World, u: UserId, env: Env): (t: Transition)
    requires w.Valid()
    ensures t.world.Valid()
    ensures t.world.store == w.store && t.phase == Closed
    ensures u !in t.world.mgr.sessions
  {
    var subs := CM.Subscriptions(w.mgr, u);
    var a := BroadcastAll(w.mgr, PresenceItems(Ascending(subs), u, Offline), Some(u), env.dead);
    Transition(World(CM.Disconnect(a.mgr, u), w.store), Closed, a.outs)
  }

  /** Disconnect cleanup that only runs while the registry still holds
      this handler's own socket for the user; a handler whose session was
      superseded by a newer login leaves the registry to the newer one. */
  function CloseSessionGuarded(w: World, u: UserId, s: SocketId, env: Env): (t: Transition)
    requires w.Valid()
    ensures t.world.Valid()
    ensures t.world.store == w.store && t.phase == Closed
    ensures u in w.mgr.sessions && w.mgr.sessions[u].socket == s ==> t == CloseSession(w, u, env)
    ensures !(u in w.mgr.sessions && w.mgr.sessions[u].socket == s) ==> t == Transition(w, Closed, [])
  {
    if u in w.mgr.sessions && w.mgr.sessions[u].socket == s then CloseSession(w, u, env)
    else Transition(w, Closed, [])
  }

  /** The chat an action that checks membership first is about. */
  function GatedChat(ev: Inbound): Option<ChatId> {
    match ev
    case Subscribe(c) => Some(c)
    case Unsubscribe(c) => Some(c)
    case SendMessage(c, _, _) => Some(c)
    case Typing(c, _) => Some(c)
    case _ => None
  }

  /** `send_message` from a member: store the message through the
      service, then broadcast its stored form to the chat, sender included. */
  function OnSendMessage(w: World, u: UserId, s: SocketId, c: ChatId, text: string, k: ClientMsgId, env: Env): (t: Transition)
    requires w.Valid()
    ensures t.world.Valid() && t.phase == Active(u, s)
    ensures t.world.store == MessageService.CreateMessage(w.store, c, text, k, u, env.now).store
    ensures CM.Pruned(w.mgr, t.world.mgr)
    ensures forall i | 0 <= i < |t.outs| ::
              t.outs[i].Send? && t.outs[i].frame == MessageOut(View(MessageService.CreateMessage(w.store, c, text, k, u, env.now).msg))
  {
    var created := MessageService.CreateMessage(w.store, c, text, k, u, env.now);
    var b := CM.Broadcast(w.mgr, c, MessageOut(View(created.msg)), None, env.dead);
    Transition(World(b.mgr, created.store), Active(u, s), b.outs)
  }

  /** `typing` from a member: dropped when throttled, otherwise broadcast
      to the chat without the sender; a missing flag means typing. */
  function OnTyping(w: World, u: UserId, s: SocketId, c: ChatId, isTyping: Option<bool>, env: Env): (t: Transition)
    requires w.Valid()
    ensures t.world.Valid() && t.world.store == w.store && t.phase == Active(u, s)
    ensures t.world.mgr.sessions.Keys <= w.mgr.sessions.Keys
  {
    var g := CM.TypingAllowed(w.mgr, u, c, env.now, TypingInterval);
    if !g.allowed then Transition(w, Active(u, s), [])
    else
      var b := CM.Broadcast(g.mgr, c, TypingEvent(c, u, isTyping.GetOr(true)), Some(u), env.dead);
      Transition(w.(mgr := b.mgr), Active(u, s), b.outs)
  }

  /** `read_messages`: mark through the service, then broadcast each
      updated message to its own chat, in order. */
  function OnReadMessages(w: World, u: UserId, s: SocketId, ids: seq<MessageId>, env: Env): (t: Transition)
    requires w.Valid()
    ensures t.world.Valid() && t.phase == Active(u, s)
    ensures t.world.store == MessageService.MarkAsRead(w.store, ids, u).store
    ensures CM.Pruned(w.mgr, t.world.mgr)
    ensures forall i | 0 <= i < |t.outs| :: t.outs[i].Send? && t.outs[i].frame.MessageOut?
  {
    var read := MessageService.MarkAsRead(w.store, ids, u);
    var b := BroadcastAll(w.mgr, MessageItems(read.updated), None, env.dead);
    Transition(World(b.mgr, read.store), Active(u, s), b.outs)
  }

  /** One event of the receive loop. Actions about a chat check membership
      first; the handler does not catch the refusal, nor a frame that does
      not parse. */
  function ActiveStep(w: World, u: UserId, s: SocketId, ev: Inbound, env: Env): (t: Transition)
    requires w.Valid()
    ensures t.world.Valid()
    ensures ev.Subscribe? && env.isMember(ev.chat, u) ==>
              t == Transition(w.(mgr := CM.Subscribe(w.mgr, u, ev.chat)), Active(u, s), [])
    ensures ev.Unsubscribe? && env.isMember(ev.chat, u) ==>
              t == Transition(w.(mgr := CM.Unsubscribe(w.mgr, u, ev.chat)), Active(u, s), [])
    ensures ev.SendMessage? && env.isMember(ev.chat, u) ==> t == OnSendMessage(w, u, s, ev.chat, ev.text, ev.clientMsgId, env)
    ensures ev.Typing? && env.isMember(ev.chat, u) ==> t == OnTyping(w, u, s, ev.chat, ev.isTyping, env)
    ensures ev.ReadMessages? ==> t == OnReadMessages(w, u, s, ev.ids, env)
    ensures ev.Disconnected? ==> t == CloseSession(w, u, env)
  {
    var here := Active(u, s);
    if GatedChat(ev).Some? && !env.isMember(GatedChat(ev).value, u) then Abort(w)
    else
      match ev
      case Subscribe(c) => Transition(w.(mgr := CM.Subscribe(w.mgr, u, c)), here, [])
      case Unsubscribe(c) => Transition(w.(mgr := CM.Unsubscribe(w.mgr, u, c)), here, [])
      case SendMessage(c, text, k) => OnSendMessage(w, u, s, c, text, k, env)
      case Typing(c, isTyping) => OnTyping(w, u, s, c, isTyping, env)
      case ReadMessages(ids) => OnReadMessages(w, u, s, ids, env)
      case Auth(_) => Transition(w, here, [])
      case Other(_) => Transition(w, here, [])
      case Malformed => Abort(w)
      case Disconnected => CloseSession(w, u, env)
  }

  /** One step of a connection's handler. Closed and aborted handlers take
      no more steps; a refused handshake closes with 1008 and touches
      nothing; an aborted handler leaves everything as it was. */
  function Step(w: World, p: Phase, ev: Inbound, env: Env): (t: Transition)
    requires w.Valid()
    ensures t.world.Valid()
    ensures p.Closed? || p.Aborted? ==> t == Transition(w, p, [])
    ensures p.Authenticating? && Authenticate(ev, env).None? ==>
              t == Transition(w, Closed, [Close(p.socket, PolicyViolation)])
    ensures p.Authenticating? && Authenticate(ev, env).Some? ==>
              t.phase == Active(Authenticate(ev, env).value, p.socket)
    ensures p.Active? ==> t.phase == p || t.phase == Closed || t.phase == Aborted
    ensures p.Active? && (ev.Other? || ev.Auth?) ==> t == Transition(w, p, [])
    ensures p.Active? && GatedChat(ev).Some? && !env.isMember(GatedChat(ev).value, p.user) ==>
              t == Transition(w, Aborted, [])
    ensures p.Active? && ev.Malformed? ==> t == Transition(w, Aborted, [])
    ensures p.Active? && (ev.Subscribe? || ev.Unsubscribe? || ev.Typing?) ==> t.world.store == w.store
    ensures t.phase.Aborted? ==> t.world == w && t.outs == []
    ensures p.Active? && t.phase.Closed? ==> ev.Disconnected? && p.user !in t.world.mgr.sessions
    ensures t.world.store != w.store ==> p.Active? && t.phase == p && (ev.SendMessage? || ev.ReadMessages?)
  {
    match p
    case Authenticating(s) => AuthStep(w, s, ev, env)
    case Active(u, s) => ActiveStep(w, u, s, ev, env)
    case Closed => Transition(w, p, [])
    case Aborted => Transition(w, p, [])
  }

  /** `Step` with the corrected disconnect cleanup: a handler whose socket
      is no longer the one registered for its user leaves the registry to
      the newer session. Whenever the handler still owns the registered
      socket, it steps exactly as `Step` does. */
  function StepGuarded(w: World, p: Phase, ev: Inbound, env: Env): (t: Transition)
    requires w.Valid()
    ensures t.world.Valid()
    ensures !(p.Active? && ev.Disconnected?) ==> t == Step(w, p, ev, env)
    ensures p.Active? && p.user in w.mgr.sessions && w.mgr.sessions[p.user].socket == p.socket ==>
              t == Step(w, p, ev, env)
    ensures p.Active? && ev.Disconnected? && !(p.user in w.mgr.sessions && w.mgr.sessions[p.user].socket == p.socket) ==>
              t == Transition(w, Closed, [])
  {
    match p
    case Active(u, s) => if ev.Disconnected? then CloseSessionGuarded(w, u, s, env) else Step(w, p, ev, env)
    case _ => Step(w, p, ev, env)
  }

  // ---------------------------------------------------------------------
  // Properties of the handshake

  /** The sends of a presence snapshot among `outs`. */
  function SnapshotSends(outs: seq<Out>): (r: seq<Out>)
    ensures |r| <= |outs|
    ensures forall i | 0 <= i < |r| :: r[i].Send? && r[i].frame.SnapshotAll?
  {
    if outs == [] then []
    else (if outs[0].Send? && outs[0].frame.SnapshotAll? then [outs[0]] else []) + SnapshotSends(outs[1..])
  }

  lemma {:induction false} SnapshotSendsConcat(a: seq<Out>, b: seq<Out>)
    ensures SnapshotSends(a + b) == SnapshotSends(a) + SnapshotSends(b)
  {
    if a == [] {
      assert a + b == b;
    } else {
      assert (a + b)[0] == a[0];
      assert (a + b)[1..] == a[1..] + b;
      SnapshotSendsConcat(a[1..], b);
    }
  }

  lemma {:induction false} NoSnapshotSends(outs: seq<Out>)
    requires forall i | 0 <= i < |outs| :: !(outs[i].Send? && outs[i].frame.SnapshotAll?)
    ensures SnapshotSends(outs) == []
  {
    if outs != [] {
      NoSnapshotSends(outs[1..]);
    }
  }

  /** Every send of a presence run is an update about `u` with the given
      status in one of the chats, addressed to somebody other than `u`. */
  lemma PresenceRunFrames(m: CM.Manager, chats: seq<ChatId>, u: UserId, status: Status, dead: set<SocketId>)
    requires m.Valid()
    ensures var outs := BroadcastAll(m, PresenceItems(chats, u, status), Some(u), dead).outs;
            forall i | 0 <= i < |outs| ::
              && outs[i].Send? && outs[i].to != u && outs[i].frame.PresenceUpdate?
              && outs[i].frame.userId == u && outs[i].frame.status == status && outs[i].frame.chatId in chats
  {
    var items := PresenceItems(chats, u, status);
    forall f | f in ItemFrames(items)
      ensures f.PresenceUpdate? && f.userId == u && f.status == status && f.chatId in chats
    {
      var it :| it in items && it.1 == f;
      var j :| 0 <= j < |items| && items[j] == it;
    }
  }

  /** A successful handshake first closes an older session of the user
      with 1000. */
  lemma OpenSessionClosesOld(w: World, u: UserId, s: SocketId, env: Env)
    requires w.Valid() && u in w.mgr.sessions
    ensures var t := OpenSession(w, u, s, env);
            |t.outs| > 0 && t.outs[0] == Close(w.mgr.sessions[u].socket, NormalClosure)
  {
    var c1 := CM.Connect(w.mgr, u, s);
    var chats := env.userChats(u);
    var m2 := Seeded(w.mgr, u, s, chats);
    var c3 := CM.SendToUser(m2, u, Snapshot(m2, chats), env.dead);
    var c4 := BroadcastAll(c3.mgr, PresenceItems(chats, u, Online), Some(u), env.dead);
    assert c1.outs == [Close(w.mgr.sessions[u].socket, NormalClosure)];
    assert (c1.outs + c3.outs + c4.outs)[0] == c1.outs[0];
  }

  /** Unless the snapshot send fails, a successful handshake leaves the
      user registered on the new socket, listening to exactly its chats. */
  lemma OpenSessionRegisters(w: World, u: UserId, s: SocketId, env: Env)
    requires w.Valid() && s !in env.dead
    ensures var t := OpenSession(w, u, s, env);
            u in t.world.mgr.sessions && t.world.mgr.sessions[u] == CM.Session(s, Elems(env.userChats(u)))
  {
    var chats := env.userChats(u);
    var m2 := Seeded(w.mgr, u, s, chats);
    var c3 := CM.SendToUser(m2, u, Snapshot(m2, chats), env.dead);
    assert c3.mgr == m2;
    BroadcastAllKeepsExcluded(m2, PresenceItems(chats, u, Online), u, env.dead);
  }

  /** A successful handshake sends exactly one presence snapshot: to the
      user, on its new socket, computed over the seeded registry. */
  lemma OpenSessionSnapshotOnce(w: World, u: UserId, s: SocketId, env: Env)
    requires w.Valid()
    ensures var t := OpenSession(w, u, s, env);
            var chats := env.userChats(u);
            SnapshotSends(t.outs) == [Send(u, s, Snapshot(Seeded(w.mgr, u, s, chats), chats))]
  {
    var c1 := CM.Connect(w.mgr, u, s);
    var chats := env.userChats(u);
    var m2 := Seeded(w.mgr, u, s, chats);
    var snap := Snapshot(m2, chats);
    var c3 := CM.SendToUser(m2, u, snap, env.dead);
    var c4 := BroadcastAll(c3.mgr, PresenceItems(chats, u, Online), Some(u), env.dead);
    assert OpenSession(w, u, s, env).outs == c1.outs + c3.outs + c4.outs;
    NoSnapshotSends(c1.outs);
    PresenceRunFrames(c3.mgr, chats, u, Online, env.dead);
    NoSnapshotSends(c4.outs);
    SnapshotSendsConcat(c1.outs, c3.outs);
    SnapshotSendsConcat(c1.outs + c3.outs, c4.outs);
    assert SnapshotSends(c3.outs) == [Send(u, s, snap)];
  }

  /** For each of the user's chats the snapshot lists the user itself and
      every other connected user already listening there, and nobody else. */
  lemma SnapshotContents(m: CM.Manager, u: UserId, s: SocketId, chats: seq<ChatId>, c: ChatId, v: UserId)
    requires m.Valid() && c in chats
    ensures var f := Snapshot(Seeded(m, u, s, chats), chats);
            c in f.onlineByChat &&
            (v in f.onlineByChat[c] <==> v == u || (v in m.sessions && c in m.sessions[v].subs))
  {
  }

  /** Users `v` other than `u` are reached alike in two registries that
      agree on them. */
  lemma {:induction false} ExpectedSameListeners(m1: CM.Manager, m2: CM.Manager, items: seq<(ChatId, Frame)>, exclude: Option<UserId>, v: UserId)
    requires (v in m1.sessions <==> v in m2.sessions)
    requires v in m1.sessions ==> m1.sessions[v].subs == m2.sessions[v].subs
    ensures Expected(m1, items, exclude, v) == Expected(m2, items, exclude, v)
  {
    if items != [] {
      ExpectedSameListeners(m1, m2, items[1..], exclude, v);
    }
  }

  /** Every presence update among `outs` says that `u` has the given status
      in one of `chats`, and goes to somebody other than `u`. */
  ghost predicate AnnouncesOnly(outs: seq<Out>, u: UserId, status: Status, chats: seq<ChatId>) {
    forall o | o in outs && o.Send? && o.frame.PresenceUpdate? ::
      o.to != u && o.frame.userId == u && o.frame.status == status && o.frame.chatId in chats
  }

  /** After the snapshot the user is announced online: no presence update
      goes to the user itself, and each is about the user coming online in
      one of its chats. */
  lemma OpenSessionOnlineShape(w: World, u: UserId, s: SocketId, env: Env)
    requires w.Valid()
    ensures AnnouncesOnly(OpenSession(w, u, s, env).outs, u, Online, env.userChats(u))
  {
    var c1 := CM.Connect(w.mgr, u, s);
    var chats := env.userChats(u);
    var m2 := Seeded(w.mgr, u, s, chats);
    var c3 := CM.SendToUser(m2, u, Snapshot(m2, chats), env.dead);
    var c4 := BroadcastAll(c3.mgr, PresenceItems(chats, u, Online), Some(u), env.dead);
    assert OpenSession(w, u, s, env).outs == (c1.outs + c3.outs) + c4.outs;
    assert AnnouncesOnly(c1.outs + c3.outs, u, Online, chats);
    PresenceRunFrames(c3.mgr, chats, u, Online, env.dead);
    assert AnnouncesOnly(c4.outs, u, Online, chats) by {
      forall o | o in c4.outs
        ensures o.Send? && o.to != u && o.frame.PresenceUpdate? && o.frame.userId == u
        ensures o.frame.status == Online && o.frame.chatId in chats
      {
        var i :| 0 <= i < |c4.outs| && c4.outs[i] == o;
      }
    }
  }

  /** Every other user whose own socket does not fail receives one online
      update per entry of the user's chat list that it listens to, in the
      order of that list. */
  lemma OpenSessionOnlineDelivery(w: World, u: UserId, s: SocketId, env: Env, v: UserId)
    requires w.Valid() && OwnAlive(w.mgr, env.dead, v) && v != u
    ensures SentTo(OpenSession(w, u, s, env).outs, v) ==
            Expected(w.mgr, PresenceItems(env.userChats(u), u, Online), Some(u), v)
  {
    var c1 := CM.Connect(w.mgr, u, s);
    var chats := env.userChats(u);
    var m2 := Seeded(w.mgr, u, s, chats);
    var c3 := CM.SendToUser(m2, u, Snapshot(m2, chats), env.dead);
    var items := PresenceItems(chats, u, Online);
    var c4 := BroadcastAll(c3.mgr, items, Some(u), env.dead);
    CM.SendToUserKeepsOthers(m2, u, Snapshot(m2, chats), env.dead, v);
    BroadcastAllDelivers(c3.mgr, items, Some(u), env.dead, v);
    ExpectedSameListeners(c3.mgr, w.mgr, items, Some(u), v);
    SentToConcat(c1.outs, c3.outs, v);
    SentToConcat(c1.outs + c3.outs, c4.outs, v);
    assert SentTo(c1.outs, v) == [];
    assert SentTo(c3.outs, v) == [];
  }

  /** When the user's chat list has no repeats, every other user whose own
      socket does not fail is told once that the user came online in each
      chat they share, and never about any other chat. */
  lemma OpenSessionOnlineOncePerChat(w: World, u: UserId, s: SocketId, env: Env, v: UserId, c: ChatId)
    requires w.Valid() && OwnAlive(w.mgr, env.dead, v) && v != u && NoDuplicates(env.userChats(u))
    ensures multiset(SentTo(OpenSession(w, u, s, env).outs, v))[PresenceUpdate(c, u, Online)] ==
            if c in env.userChats(u) && CM.Reaches(w.mgr, v, c, Some(u)) then 1 else 0
  {
    OpenSessionOnlineDelivery(w, u, s, env, v);
    PresenceOncePerChat(w.mgr, env.userChats(u), u, Online, v, c);
  }

  /** Among the frames a user receives from a presence run over chats
      without repeats, the update for chat `c` occurs once when it listens
      to `c`, and not at all otherwise. */
  lemma {:induction false} PresenceOncePerChat(m: CM.Manager, chats: seq<ChatId>, u: UserId, status: Status, v: UserId, c: ChatId)
    requires NoDuplicates(chats)
    ensures multiset(Expected(m, PresenceItems(chats, u, status), Some(u), v))[PresenceUpdate(c, u, status)] ==
            if c in chats && CM.Reaches(m, v, c, Some(u)) then 1 else 0
  {
    if chats != [] {
      assert PresenceItems(chats, u, status)[1..] == PresenceItems(chats[1..], u, status);
      assert NoDuplicates(chats[1..]);
      PresenceOncePerChat(m, chats[1..], u, status, v, c);
      assert forall x | x in chats :: x == chats[0] || x in chats[1..];
      assert chats[0] !in chats[1..];
    }
  }

  // ---------------------------------------------------------------------
  // Properties of the receive loop

  /** A message is stored (or found again by its client message id) and
      delivered once, in its canonical stored form, to every user listening
      to the chat, the sender included. */
  lemma SendMessageDelivers(w: World, u: UserId, s: SocketId, c: ChatId, text: string, k: ClientMsgId, env: Env, v: UserId)
    requires w.Valid()
    ensures var t := OnSendMessage(w, u, s, c, text, k, env);
            var created := MessageService.CreateMessage(w.store, c, text, k, u, env.now);
            && t.world.store == created.store
            && SentTo(t.outs, v) == if CM.Reaches(w.mgr, v, c, None) then [MessageOut(View(created.msg))] else []
  {
    var created := MessageService.CreateMessage(w.store, c, text, k, u, env.now);
    CM.BroadcastDeliversOnce(w.mgr, c, MessageOut(View(created.msg)), None, env.dead, v);
  }

  /** Replaying a send with the same client message id, whatever its
      chat, sender or text, writes nothing and sends the message the first
      send stored, unchanged, to the listeners of the chat the replay
      names, which need not be the chat the message was stored in. */
  lemma SendMessageReplay(w: World, u1: UserId, s1: SocketId, c1: ChatId, text1: string, env1: Env,
                           u2: UserId, s2: SocketId, c2: ChatId, text2: string, env2: Env, k: ClientMsgId, v: UserId)
    requires w.Valid()
    ensures var t1 := OnSendMessage(w, u1, s1, c1, text1, k, env1);
            var t2 := OnSendMessage(t1.world, u2, s2, c2, text2, k, env2);
            var first := MessageService.CreateMessage(w.store, c1, text1, k, u1, env1.now);
            && t2.world.store == t1.world.store
            && SentTo(t2.outs, v) == if CM.Reaches(t1.world.mgr, v, c2, None) then [MessageOut(View(first.msg))] else []
  {
    var t1 := OnSendMessage(w, u1, s1, c1, text1, k, env1);
    MessageService.CreateMessageIdempotent(w.store, c1, text1, c2, text2, k, u1, u2, env1.now, env2.now);
    SendMessageDelivers(t1.world, u2, s2, c2, text2, k, env2, v);
  }

  /** A typing event is never echoed to its sender; a throttled one changes
      nothing and sends nothing. */
  lemma TypingNotEchoed(w: World, u: UserId, s: SocketId, c: ChatId, isTyping: Option<bool>, env: Env)
    requires w.Valid()
    ensures var t := OnTyping(w, u, s, c, isTyping, env);
            forall i | 0 <= i < |t.outs| ::
              t.outs[i].Send? && t.outs[i].to != u && t.outs[i].frame == TypingEvent(c, u, isTyping.GetOr(true))
    ensures CM.LastTyped(w.mgr, u, c) + TypingInterval > env.now ==>
              OnTyping(w, u, s, c, isTyping, env) == Transition(w, Active(u, s), [])
  {
  }

  /** A typing event let through reaches, once, exactly the other users
      listening to the chat. */
  lemma TypingDelivers(w: World, u: UserId, s: SocketId, c: ChatId, isTyping: Option<bool>, env: Env, v: UserId)
    requires w.Valid()
    requires CM.LastTyped(w.mgr, u, c) + TypingInterval <= env.now
    ensures SentTo(OnTyping(w, u, s, c, isTyping, env).outs, v) ==
            if v != u && v in w.mgr.sessions && c in w.mgr.sessions[v].subs then [TypingEvent(c, u, isTyping.GetOr(true))] else []
  {
    var g := CM.TypingAllowed(w.mgr, u, c, env.now, TypingInterval);
    CM.BroadcastDeliversOnce(g.mgr, c, TypingEvent(c, u, isTyping.GetOr(true)), Some(u), env.dead, v);
  }

  /** Marking messages read stores the marks the service makes; every
      user whose own socket does not fail receives each updated message of
      a chat it listens to, in the order of the request; and when no send
      fails the registry is kept. */
  lemma ReadMessagesInOrder(w: World, u: UserId, s: SocketId, ids: seq<MessageId>, env: Env, v: UserId)
    requires w.Valid()
    ensures var t := OnReadMessages(w, u, s, ids, env);
            t.world.store == MessageService.MarkAsRead(w.store, ids, u).store
    ensures OwnAlive(w.mgr, env.dead, v) ==>
              var read := MessageService.MarkAsRead(w.store, ids, u);
              SentTo(OnReadMessages(w, u, s, ids, env).outs, v) == Expected(w.mgr, MessageItems(read.updated), None, v)
    ensures var read := MessageService.MarkAsRead(w.store, ids, u);
            ReachedAlive(w.mgr, MessageItems(read.updated), None, env.dead) ==>
              OnReadMessages(w, u, s, ids, env).world.mgr == w.mgr
  {
    var read := MessageService.MarkAsRead(w.store, ids, u);
    if OwnAlive(w.mgr, env.dead, v) {
      BroadcastAllDelivers(w.mgr, MessageItems(read.updated), None, env.dead, v);
    }
    if ReachedAlive(w.mgr, MessageItems(read.updated), None, env.dead) {
      BroadcastAllKeeps(w.mgr, MessageItems(read.updated), None, env.dead);
    }
  }

  /** A disconnecting user is announced offline in each chat it listened
      to, to everybody else there, and then deregistered. Each user whose
      own socket does not fail receives the updates of the chats it shares
      with the departing user; when no other user's socket fails nothing
      else is dropped. */
  lemma DisconnectAnnouncesOffline(w: World, u: UserId, env: Env, v: UserId)
    requires w.Valid() && u in w.mgr.sessions
    ensures var t := CloseSession(w, u, env);
            forall i | 0 <= i < |t.outs| ::
              && t.outs[i].Send? && t.outs[i].to != u && t.outs[i].frame.PresenceUpdate?
              && t.outs[i].frame.userId == u && t.outs[i].frame.status == Offline
              && t.outs[i].frame.chatId in w.mgr.sessions[u].subs
    ensures OwnAlive(w.mgr, env.dead, v) ==>
              SentTo(CloseSession(w, u, env).outs, v) ==
              Expected(w.mgr, PresenceItems(Ascending(w.mgr.sessions[u].subs), u, Offline), Some(u), v)
    ensures ReachedAlive(w.mgr, PresenceItems(Ascending(w.mgr.sessions[u].subs), u, Offline), Some(u), env.dead) ==>
              CloseSession(w, u, env).world.mgr == CM.Disconnect(w.mgr, u)
  {
    var chats := Ascending(w.mgr.sessions[u].subs);
    PresenceRunFrames(w.mgr, chats, u, Offline, env.dead);
    if OwnAlive(w.mgr, env.dead, v) {
      BroadcastAllDelivers(w.mgr, PresenceItems(chats, u, Offline), Some(u), env.dead, v);
    }
    if ReachedAlive(w.mgr, PresenceItems(chats, u, Offline), Some(u), env.dead) {
      BroadcastAllKeeps(w.mgr, PresenceItems(chats, u, Offline), Some(u), env.dead);
    }
  }

  /** Each user whose own socket does not fail is told once that the
      departing user went offline in each chat they share, and never about
      any other chat. */
  lemma DisconnectOfflineOncePerChat(w: World, u: UserId, env: Env, v: UserId, c: ChatId)
    requires w.Valid() && u in w.mgr.sessions && OwnAlive(w.mgr, env.dead, v)
    ensures multiset(SentTo(CloseSession(w, u, env).outs, v))[PresenceUpdate(c, u, Offline)] ==
            if c in w.mgr.sessions[u].subs && CM.Reaches(w.mgr, v, c, Some(u)) then 1 else 0
  {
    var chats := Ascending(w.mgr.sessions[u].subs);
    DisconnectAnnouncesOffline(w, u, env, v);
    PresenceOncePerChat(w.mgr, chats, u, Offline, v, c);
  }

  // ---------------------------------------------------------------------
  // A superseded session's cleanup

  /** The cleanup as written does not ask whose socket is registered: after
      the user logs in again on `s2` (handshake frame `ev`), which closes the
      older socket `s1`, the older handler's disconnect step deregisters the
      newer, live session. */
  lemma SupersededCleanupEvictsNewSession(w: World, u: UserId, s1: SocketId, s2: SocketId, ev: Inbound, env: Env)
    requires w.Valid() && u in w.mgr.sessions && w.mgr.sessions[u].socket == s1
    requires Authenticate(ev, env) == Some(u) && s2 !in env.dead
    ensures var t1 := Step(w, Authenticating(s2), ev, env);
            var t2 := Step(t1.world, Active(u, s1), Disconnected, env);
            && |t1.outs| > 0 && t1.outs[0] == Close(s1, NormalClosure)
            && u in t1.world.mgr.sessions && t1.world.mgr.sessions[u].socket == s2
            && t2.phase == Closed && u !in t2.world.mgr.sessions
  {
    OpenSessionClosesOld(w, u, s2, env);
    OpenSessionRegisters(w, u, s2, env);
  }

  /** With the corrected cleanup, the older handler's disconnect step
      leaves the newer session registered and announces nothing. */
  lemma GuardedCleanupKeepsNewSession(w: World, u: UserId, s1: SocketId, s2: SocketId, ev: Inbound, env: Env)
    requires w.Valid() && u in w.mgr.sessions && w.mgr.sessions[u].socket == s1
    requires Authenticate(ev, env) == Some(u) && s2 !in env.dead && s1 != s2
    ensures var t1 := StepGuarded(w, Authenticating(s2), ev, env);
            var t2 := StepGuarded(t1.world, Active(u, s1), Disconnected, env);
            && t2 == Transition(t1.world, Closed, [])
            && u in t2.world.mgr.sessions && t2.world.mgr.sessions[u].socket == s2
  {
    OpenSessionRegisters(w, u, s2, env);
  }
}
