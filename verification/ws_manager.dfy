/**
 The session registry, presence queries and typing throttle
 (`ConnectionManager` in messages/ws_manager.py).

 The registry is a Python dict, so it iterates in insertion order: an
 overwritten key keeps its place, a deleted and re-added key moves to the
 end. `order` records that order beside the map of sessions.
 */
module ConnectionManager {
  import opened Common
  import opened Frames

  /** One live connection: its socket and the chats it listens to. */
  datatype Session = Session(socket: SocketId, subs: set<ChatId>)

  datatype Manager = Manager(
    order: seq<UserId>,
    sessions: map<UserId, Session>,
    typingLast: map<(UserId, ChatId), Timestamp>)
  {
    /** `order` lists every registered user exactly once. */
    ghost predicate Valid() {
      && NoDuplicates(order)
      && (forall u | u in order :: u in sessions)
      && (forall u | u in sessions :: u in order)
    }
  }

  /** A new registry state together with the transport actions taken on the way. */
  datatype Update = Update(mgr: Manager, outs: seq<Out>)

  /** The verdict of the typing throttle and the registry after it. */
  datatype Gate = Gate(allowed: bool, mgr: Manager)

  /** `m'` keeps some of `m`'s sessions, each unchanged, and the same throttle state. */
  ghost predicate Pruned(m: Manager, m': Manager) {
    && m'.Valid()
    && m'.sessions.Keys <= m.sessions.Keys
    && (forall v | v in m'.sessions :: m'.sessions[v] == m.sessions[v])
    && m'.typingLast == m.typingLast
  }

  lemma PrunedTransitive(m1: Manager, m2: Manager, m3: Manager)
    requires Pruned(m1, m2) && Pruned(m2, m3)
    ensures Pruned(m1, m3)
  {
  }

  /** `connect`: a previous session of the user is sent a normal-closure
      close (whose failure is ignored) and replaced by a fresh session with
      no subscriptions; there is never more than one session per user. */
  function Connect(m: Manager, u: UserId, s: SocketId): (r: Update)
    requires m.Valid()
    ensures r.mgr.Valid()
    ensures r.mgr.sessions == m.sessions[u := Session(s, {})]
    ensures r.mgr.typingLast == m.typingLast
    ensures u in m.sessions ==> r.outs == [Close(m.sessions[u].socket, NormalClosure)]
    ensures u !in m.sessions ==> r.outs == []
  {
    if u in m.sessions then
      Update(m.(sessions := m.sessions[u := Session(s, {})]), [Close(m.sessions[u].socket, NormalClosure)])
    else
      Update(m.(order := m.order + [u], sessions := m.sessions[u := Session(s, {})]), [])
  }

  /** `disconnect`: drops the user's session if there is one. */
  function Disconnect(m: Manager, u: UserId): (r: Manager)
    requires m.Valid()
    ensures r.Valid()
    ensures r.sessions == m.sessions - {u}
    ensures r.typingLast == m.typingLast
    ensures u !in m.sessions ==> r == m
  {
    if u in m.sessions then Manager(Without(m.order, {u}), m.sessions - {u}, m.typingLast)
    else m
  }

  /** Disconnecting twice is disconnecting once. */
  lemma DisconnectIdempotent(m: Manager, u: UserId)
    requires m.Valid()
    ensures Disconnect(Disconnect(m, u), u) == Disconnect(m, u)
  {
  }

  /** A connect of a user that had no session is undone by its disconnect,
      registry order included. */
  lemma DisconnectUndoesConnect(m: Manager, u: UserId, s: SocketId)
    requires m.Valid() && u !in m.sessions
    ensures Disconnect(Connect(m, u, s).mgr, u) == m
  {
    WithoutAppended(m.order, u);
    assert (m.sessions[u := Session(s, {})]) - {u} == m.sessions;
  }

  /** The session's subscriptions with `c` added (`subscribe`), removed
      (`unsubscribe`), or `cs` added (`subscribe_many`); the registry is
      unchanged when the user has no session. */
  function Subscribe(m: Manager, u: UserId, c: ChatId): (r: Manager)
    requires m.Valid()
    ensures r.Valid() && r.order == m.order && r.typingLast == m.typingLast
    ensures r.sessions.Keys == m.sessions.Keys
    ensures u in m.sessions ==> r.sessions[u] == Session(m.sessions[u].socket, m.sessions[u].subs + {c})
    ensures forall v | v in m.sessions && v != u :: r.sessions[v] == m.sessions[v]
    ensures u !in m.sessions ==> r == m
  {
    if u in m.sessions then m.(sessions := m.sessions[u := m.sessions[u].(subs := m.sessions[u].subs + {c})])
    else m
  }

  function Unsubscribe(m: Manager, u: UserId, c: ChatId): (r: Manager)
    requires m.Valid()
    ensures r.Valid() && r.order == m.order && r.typingLast == m.typingLast
    ensures r.sessions.Keys == m.sessions.Keys
    ensures u in m.sessions ==> r.sessions[u] == Session(m.sessions[u].socket, m.sessions[u].subs - {c})
    ensures forall v | v in m.sessions && v != u :: r.sessions[v] == m.sessions[v]
    ensures u !in m.sessions ==> r == m
  {
    if u in m.sessions then m.(sessions := m.sessions[u := m.sessions[u].(subs := m.sessions[u].subs - {c})])
    else m
  }

  function SubscribeMany(m: Manager, u: UserId, cs: seq<ChatId>): (r: Manager)
    requires m.Valid()
    ensures r.Valid() && r.order == m.order && r.typingLast == m.typingLast
    ensures r.sessions.Keys == m.sessions.Keys
    ensures u in m.sessions ==> r.sessions[u] == Session(m.sessions[u].socket, m.sessions[u].subs + Elems(cs))
    ensures forall v | v in m.sessions && v != u :: r.sessions[v] == m.sessions[v]
    ensures u !in m.sessions ==> r == m
  {
    if u in m.sessions then m.(sessions := m.sessions[u := m.sessions[u].(subs := m.sessions[u].subs + Elems(cs))])
    else m
  }

  /** `get_user_subscriptions`: a copy of the session's chats, or none. */
  function Subscriptions(m: Manager, u: UserId): (r: set<ChatId>)
    ensures u in m.sessions ==> r == m.sessions[u].subs
    ensures u !in m.sessions ==> r == {}
  {
    if u in m.sessions then m.sessions[u].subs else {}
  }

  /** Unsubscribing from a chat just subscribed to (and not listened to
      before) restores the registry exactly. */
  lemma UnsubscribeUndoesSubscribe(m: Manager, u: UserId, c: ChatId)
    requires m.Valid() && c !in Subscriptions(m, u)
    ensures Unsubscribe(Subscribe(m, u, c), u, c) == m
  {
    if u in m.sessions {
      var m2 := Unsubscribe(Subscribe(m, u, c), u, c);
      assert m2.sessions[u] == m.sessions[u];
      assert m2.sessions == m.sessions;
    }
  }

  /** After subscribing, the chat is among the user's subscriptions exactly
      when the user is connected; after unsubscribing it never is. */
  lemma SubscribeThenQuery(m: Manager, u: UserId, c: ChatId)
    requires m.Valid()
    ensures c in Subscriptions(Subscribe(m, u, c), u) <==> u in m.sessions
    ensures c !in Subscriptions(Unsubscribe(m, u, c), u)
  {
  }

  /** The users of `users` whose session listens to chat `c`, in order. */
  function Subscribers(users: seq<UserId>, sessions: map<UserId, Session>, c: ChatId): (r: seq<UserId>)
    requires forall v | v in users :: v in sessions
    ensures forall v | v in r :: v in users && c in sessions[v].subs
    ensures forall v | v in users && c in sessions[v].subs :: v in r
    ensures NoDuplicates(users) ==> NoDuplicates(r)
  {
    if users == [] then []
    else
      var rest := Subscribers(users[1..], sessions, c);
      assert forall v | v in users :: v == users[0] || v in users[1..];
      if c in sessions[users[0]].subs then
        assert NoDuplicates(users) ==> users[0] !in users[1..];
        [users[0]] + rest
      else rest
  }

  /** `get_online_user_ids_in_chat`: exactly the connected users whose
      session listens to `c`, each once, in registry order. */
  function OnlineInChat(m: Manager, c: ChatId): (r: seq<UserId>)
    requires m.Valid()
    ensures forall v | v in r :: v in m.sessions && c in m.sessions[v].subs
    ensures forall v | v in m.sessions && c in m.sessions[v].subs :: v in r
    ensures NoDuplicates(r)
  {
    Subscribers(m.order, m.sessions, c)
  }

  /** When the throttle last let a typing event of `u` in `c` through; 0 if never. */
  function LastTyped(m: Manager, u: UserId, c: ChatId): Timestamp {
    if (u, c) in m.typingLast then m.typingLast[(u, c)] else 0
  }

  /** `typing_allowed`: refuses, changing nothing, when less than
      `interval` has passed since the last allowed event for the pair;
      otherwise records `now` for the pair and allows. */
  function TypingAllowed(m: Manager, u: UserId, c: ChatId, now: Timestamp, interval: int): (r: Gate)
    ensures r.allowed <==> LastTyped(m, u, c) + interval <= now
    ensures !r.allowed ==> r.mgr == m
    ensures r.mgr.order == m.order && r.mgr.sessions == m.sessions
    ensures r.allowed ==> LastTyped(r.mgr, u, c) == now
    ensures forall v: UserId, d: ChatId | (v, d) != (u, c) :: LastTyped(r.mgr, v, d) == LastTyped(m, v, d)
  {
    var last := LastTyped(m, u, c);
    if now - last < interval then Gate(false, m)
    else Gate(true, m.(typingLast := m.typingLast[(u, c) := now]))
  }

  /** Two consecutive allowed typing events for the same user and chat are
      at least `interval` apart. */
  lemma TypingAllowedSpacing(m: Manager, u: UserId, c: ChatId, t1: Timestamp, t2: Timestamp, interval: int)
    requires TypingAllowed(m, u, c, t1, interval).allowed
    requires TypingAllowed(TypingAllowed(m, u, c, t1, interval).mgr, u, c, t2, interval).allowed
    ensures t2 - t1 >= interval
  {
  }

  /** Two calls less than `interval` apart give true then false; a third
      call `interval` or more after the first gives true again. */
  lemma TypingAllowedTwiceInInterval(m: Manager, u: UserId, c: ChatId, t1: Timestamp, t2: Timestamp, t3: Timestamp, interval: int)
    requires TypingAllowed(m, u, c, t1, interval).allowed
    requires t1 <= t2 < t1 + interval <= t3
    ensures var g1 := TypingAllowed(m, u, c, t1, interval);
            var g2 := TypingAllowed(g1.mgr, u, c, t2, interval);
            !g2.allowed && g2.mgr == g1.mgr && TypingAllowed(g2.mgr, u, c, t3, interval).allowed
  {
  }

  /** `send_to_user`: nothing when the user has no session; otherwise one
      send attempt, and the user's session is dropped when it fails. */
  function SendToUser(m: Manager, u: UserId, f: Frame, dead: set<SocketId>): (r: Update)
    requires m.Valid()
    ensures r.mgr.Valid()
    ensures u !in m.sessions ==> r == Update(m, [])
    ensures u in m.sessions ==> r.outs == [Send(u, m.sessions[u].socket, f)]
    ensures u in m.sessions && m.sessions[u].socket in dead ==> r.mgr == Disconnect(m, u)
    ensures !(u in m.sessions && m.sessions[u].socket in dead) ==> r.mgr == m
  {
    if u !in m.sessions then Update(m, [])
    else
      var sock := m.sessions[u].socket;
      var outs := [Send(u, sock, f)];
      if sock in dead then Update(Disconnect(m, u), outs) else Update(m, outs)
  }

  /** Whether a broadcast to chat `c` that excludes `exclude` reaches user `v`. */
  ghost predicate Reaches(m: Manager, v: UserId, c: ChatId, exclude: Option<UserId>) {
    v in m.sessions && c in m.sessions[v].subs && exclude != Some(v)
  }

  function ExcludedSet(exclude: Option<UserId>): set<UserId> {
    if exclude.Some? then {exclude.value} else {}
  }

  /** One send attempt of `f` to each of `targets`, in order. */
  function SendsTo(targets: seq<UserId>, sessions: map<UserId, Session>, f: Frame): (r: seq<Out>)
    requires forall v | v in targets :: v in sessions
    ensures |r| == |targets|
    ensures forall i | 0 <= i < |r| :: r[i] == Send(targets[i], sessions[targets[i]].socket, f)
    ensures NoDuplicates(targets) ==> forall i, j | 0 <= i < j < |r| :: r[i] != r[j]
  {
    seq(|targets|, i requires 0 <= i < |targets| => Send(targets[i], sessions[targets[i]].socket, f))
  }

  /** The registry without the sessions of `failed`. */
  function DropSessions(m: Manager, failed: set<UserId>): (r: Manager)
    requires m.Valid()
    ensures Pruned(m, r)
    ensures r.sessions == m.sessions - failed
    ensures failed == {} ==> r == m
  {
    Manager(Without(m.order, failed), m.sessions - failed, m.typingLast)
  }

  /** `broadcast`: one send attempt of `f`, in registry order, to every
      connected user listening to `c` other than `exclude`, and to nobody
      else; the users whose send failed are disconnected after the pass,
      every other session stays as it was. */
  function Broadcast(m: Manager, c: ChatId, f: Frame, exclude: Option<UserId>, dead: set<SocketId>): (r: Update)
    requires m.Valid()
    ensures Pruned(m, r.mgr)
    ensures forall i | 0 <= i < |r.outs| ::
              && r.outs[i].Send? && r.outs[i].frame == f
              && Reaches(m, r.outs[i].to, c, exclude)
              && r.outs[i].socket == m.sessions[r.outs[i].to].socket
    ensures forall v | Reaches(m, v, c, exclude) :: exists i | 0 <= i < |r.outs| :: r.outs[i].to == v
    ensures forall i, j | 0 <= i < j < |r.outs| :: r.outs[i] != r.outs[j]
    ensures forall v | v in m.sessions ::
              v in r.mgr.sessions <==> !(Reaches(m, v, c, exclude) && m.sessions[v].socket in dead)
  {
    Update(DropSessions(m, Failed(m, Targets(m, c, exclude), dead)), BroadcastSends(m, c, f, exclude))
  }

  /** The send attempts of a broadcast: one per reached user, on its socket. */
  function BroadcastSends(m: Manager, c: ChatId, f: Frame, exclude: Option<UserId>): (outs: seq<Out>)
    requires m.Valid()
    ensures forall i | 0 <= i < |outs| ::
              && outs[i].Send? && outs[i].frame == f
              && Reaches(m, outs[i].to, c, exclude)
              && outs[i].socket == m.sessions[outs[i].to].socket
    ensures forall v | Reaches(m, v, c, exclude) :: exists i | 0 <= i < |outs| :: outs[i].to == v
    ensures forall i, j | 0 <= i < j < |outs| :: outs[i] != outs[j]
  {
    var targets := Targets(m, c, exclude);
    SendsToReached(m, c, exclude, targets, f);
    SendsTo(targets, m.sessions, f)
  }

  /** Sends to a list of exactly the reached users, each once, are sends
      to reached users on their own sockets, cover every reached user, and
      are pairwise distinct. */
  lemma SendsToReached(m: Manager, c: ChatId, exclude: Option<UserId>, targets: seq<UserId>, f: Frame)
    requires m.Valid() && NoDuplicates(targets)
    requires forall v | v in targets :: v in m.sessions && Reaches(m, v, c, exclude)
    requires forall v | Reaches(m, v, c, exclude) :: v in targets
    ensures var outs := SendsTo(targets, m.sessions, f);
            && (forall i | 0 <= i < |outs| ::
                  && outs[i].Send? && outs[i].frame == f
                  && Reaches(m, outs[i].to, c, exclude)
                  && outs[i].socket == m.sessions[outs[i].to].socket)
            && (forall v | Reaches(m, v, c, exclude) :: exists i | 0 <= i < |outs| :: outs[i].to == v)
            && (forall i, j | 0 <= i < j < |outs| :: outs[i] != outs[j])
  {
    var outs := SendsTo(targets, m.sessions, f);
    forall i | 0 <= i < |outs|
      ensures Reaches(m, outs[i].to, c, exclude)
    {
      assert targets[i] in targets;
    }
    forall v | Reaches(m, v, c, exclude)
      ensures exists i | 0 <= i < |outs| :: outs[i].to == v
    {
      var k := IndexOf(targets, v);
      assert outs[k].to == v;
    }
  }

  /** Sending to `u` alone leaves every other session as it was and
      addresses nobody else. */
  lemma SendToUserKeepsOthers(m: Manager, u: UserId, f: Frame, dead: set<SocketId>, v: UserId)
    requires m.Valid() && v != u
    ensures var r := SendToUser(m, u, f, dead);
            && (v in r.mgr.sessions <==> v in m.sessions)
            && (v in m.sessions ==> r.mgr.sessions[v] == m.sessions[v])
            && SentTo(r.outs, v) == []
  {
    var r := SendToUser(m, u, f, dead);
    assert r.mgr.sessions == m.sessions || r.mgr.sessions == m.sessions - {u};
  }

  /** Every user a broadcast reaches is sent its frame exactly once; no
      other user is sent anything. */
  lemma BroadcastDeliversOnce(m: Manager, c: ChatId, f: Frame, exclude: Option<UserId>, dead: set<SocketId>, v: UserId)
    requires m.Valid()
    ensures SentTo(Broadcast(m, c, f, exclude, dead).outs, v) == if Reaches(m, v, c, exclude) then [f] else []
  {
    var outs := Broadcast(m, c, f, exclude, dead).outs;
    SentToSingleFrame(outs, f, v);
  }

  /** A broadcast none of whose sends fails leaves the registry as it was. */
  lemma BroadcastWithoutFailures(m: Manager, c: ChatId, f: Frame, exclude: Option<UserId>, dead: set<SocketId>)
    requires m.Valid()
    requires forall v | Reaches(m, v, c, exclude) :: m.sessions[v].socket !in dead
    ensures Broadcast(m, c, f, exclude, dead).mgr == m
  {
    var failed := Failed(m, Targets(m, c, exclude), dead);
    assert failed == {};
  }

  /** The users a broadcast to `c` excluding `exclude` reaches, in registry order. */
  function Targets(m: Manager, c: ChatId, exclude: Option<UserId>): (t: seq<UserId>)
    requires m.Valid()
    ensures forall v | v in t :: Reaches(m, v, c, exclude)
    ensures forall v | Reaches(m, v, c, exclude) :: v in t
    ensures NoDuplicates(t)
  {
    Without(OnlineInChat(m, c), ExcludedSet(exclude))
  }

  /** The targets whose socket is dead. */
  function Failed(m: Manager, targets: seq<UserId>, dead: set<SocketId>): (failed: set<UserId>)
    requires forall v | v in targets :: v in m.sessions
    ensures forall v | v in m.sessions :: v in failed <==> v in targets && m.sessions[v].socket in dead
  {
    set v | v in targets && m.sessions[v].socket in dead
  }
}
