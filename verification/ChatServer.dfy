/**
 The shared tables of the chat server sample: each lock-guarded handler is one atomic step.
 */
module ChatServer {
  import opened Basics

  /** What a client is told, in lock order; Snapshot is the user list of a join response. */
  datatype Event =
    | Snapshot(users: set<string>)
    | UserEntered(name: string)
    | UserLeft(name: string)
    | RoomChat(sender: string, message: string)
    | PrivateChat(sender: string, target: string, message: string)

  datatype SessionState =
    SessionState(connected: bool, username: Option<string>, room: Option<string>, inbox: seq<Event>)
  {
    /** `session.Username ?? ""` */
    function Name(): (n: string) { if username.Some? then username.value else "" }
  }

  datatype State<!S(==)> =
    State(sessions: map<S, SessionState>, loggedIn: map<string, S>, rooms: map<string, set<S>>)

  // -- The handlers as functions on the state ----------------------------------------------

  /** TrySendPacket to every session in `to`. */
  function Send<S>(sessions: map<S, SessionState>, to: set<S>, e: Event): (m: map<S, SessionState>)
    ensures m.Keys == sessions.Keys
  {
    map s | s in sessions :: if s in to then sessions[s].(inbox := sessions[s].inbox + [e]) else sessions[s]
  }

  function Members<S>(st: State<S>, room: string): (ms: set<S>)
  {
    if room in st.rooms then st.rooms[room] else {}
  }

  /** `session.CurrentRoom = room`, with what the session is told about it. */
  function SetRoom<S>(st: State<S>, s: S, room: Option<string>, told: seq<Event>): (r: State<S>)
    requires s in st.sessions
  {
    var me := st.sessions[s];
    st.(sessions := st.sessions[s := me.(room := room, inbox := me.inbox + told)])
  }

  /** Takes the session out of the room's table entry and tells the others. */
  function RemoveMember<S>(st: State<S>, s: S, room: string): (r: State<S>)
    requires s in st.sessions
    ensures r.sessions.Keys == st.sessions.Keys && r.loggedIn == st.loggedIn
  {
    if room !in st.rooms then st
    else
      var rest := st.rooms[room] - {s};
      State(Send(st.sessions, rest, UserLeft(st.sessions[s].Name())), st.loggedIn,
            if rest == {} then st.rooms - {room} else st.rooms[room := rest])
  }

  function LeaveCurrentRoom<S>(st: State<S>, s: S): (r: State<S>)
    requires s in st.sessions
    ensures r.sessions.Keys == st.sessions.Keys && r.loggedIn == st.loggedIn
  {
    if st.sessions[s].room.None? then st
    else SetRoom(RemoveMember(st, s, st.sessions[s].room.value), s, None, [])
  }

  /** char.IsWhiteSpace */
  predicate IsWhiteSpace(c: char)
  {
    || '\t' <= c <= '\r' || c == ' ' || c == '\U{85}' || c == '\U{A0}' || c == '\U{1680}'
    || '\U{2000}' <= c <= '\U{200A}' || '\U{2028}' <= c <= '\U{2029}' || c == '\U{202F}'
    || c == '\U{205F}' || c == '\U{3000}'
  }

  /** string.IsNullOrWhiteSpace of a non-null name. */
  predicate IsBlank(name: string) { forall c | c in name :: IsWhiteSpace(c) }

  function Login<S>(st: State<S>, s: S, name: string): (r: State<S>)
    requires s in st.sessions
  {
    if IsBlank(name) || name in st.loggedIn then st
    else State(st.sessions[s := st.sessions[s].(username := Some(name))], st.loggedIn[name := s], st.rooms)
  }

  function Names<S>(sessions: map<S, SessionState>, ms: set<S>): (ns: set<string>)
  {
    set s | s in ms && s in sessions && sessions[s].username.Some? :: sessions[s].username.value
  }

  /** Adds the session to the room, creating it if needed; the join response lists who was there. */
  function AddMember<S>(st: State<S>, s: S, room: string): (r: State<S>)
    requires s in st.sessions
    ensures r.sessions.Keys == st.sessions.Keys
  {
    var others := Members(st, room);
    SetRoom(st.(rooms := st.rooms[room := others + {s}]), s, Some(room), [Snapshot(Names(st.sessions, others))])
  }

  /** The part of a join after the old room was left. */
  function EnterRoom<S>(st: State<S>, s: S, room: string): (r: State<S>)
    requires s in st.sessions
  {
    var st1 := AddMember(st, s, room);
    st1.(sessions := Send(st1.sessions, Members(st1, room) - {s}, UserEntered(st1.sessions[s].Name())))
  }

  function RoomJoin<S>(st: State<S>, s: S, room: string): (r: State<S>)
    requires s in st.sessions
  {
    EnterRoom(LeaveCurrentRoom(st, s), s, room)
  }

  function RoomMessage<S>(st: State<S>, s: S, message: string): (r: State<S>)
    requires s in st.sessions
  {
    if st.sessions[s].room.None? then st
    else st.(sessions := Send(st.sessions, Members(st, st.sessions[s].room.value), RoomChat(st.sessions[s].Name(), message)))
  }

  function PrivateMessage<S>(st: State<S>, s: S, target: string, message: string): (r: State<S>)
    requires s in st.sessions
  {
    var e := PrivateChat(st.sessions[s].Name(), target, message);
    var st1 := if target in st.loggedIn then st.(sessions := Send(st.sessions, {st.loggedIn[target]}, e)) else st;
    st1.(sessions := Send(st1.sessions, {s}, e))
  }

  function Unregister<S>(st: State<S>, s: S): (r: State<S>)
    requires s in st.sessions
  {
    if st.sessions[s].username.Some? then st.(loggedIn := st.loggedIn - {st.sessions[s].username.value}) else st
  }

  function Close<S>(st: State<S>, s: S): (r: State<S>)
    requires s in st.sessions
  {
    st.(sessions := st.sessions[s := st.sessions[s].(connected := false)])
  }

  function Disconnect<S>(st: State<S>, s: S): (r: State<S>)
    requires s in st.sessions
  {
    Close(LeaveCurrentRoom(Unregister(st, s), s), s)
  }

  function Connect<S>(st: State<S>, s: S): (r: State<S>)
  {
    st.(sessions := st.sessions[s := SessionState(true, None, None, [])])
  }

  // -- The tables agree ------------------------------------------------------------------------

  /** A session is in exactly the room its CurrentRoom names; no empty room is stored. */
  ghost predicate RoomsAgree<S>(st: State<S>)
  {
    && (forall r :: r in st.rooms ==> st.rooms[r] != {})
    && (forall r, s :: r in st.rooms && s in st.rooms[r] ==> s in st.sessions && st.sessions[s].room == Some(r))
    && (forall s :: s in st.sessions && st.sessions[s].room.Some? ==>
          st.sessions[s].room.value in st.rooms && s in st.rooms[st.sessions[s].room.value])
  }

  /** The name of a connected session, other than those in `skip`, is registered to it, hence unique. */
  ghost predicate NamesAgreeFor<S>(st: State<S>, skip: set<S>)
  {
    && (forall s :: s in st.sessions && s !in skip && st.sessions[s].connected && st.sessions[s].username.Some? ==>
          st.sessions[s].username.value in st.loggedIn && st.loggedIn[st.sessions[s].username.value] == s)
    && (forall s :: s in st.sessions && !st.sessions[s].connected ==> st.sessions[s].room.None?)
    && (forall n :: n in st.loggedIn ==> !IsBlank(n))
  }

  ghost predicate NamesAgree<S>(st: State<S>)
  {
    NamesAgreeFor(st, {})
  }

  ghost predicate Inv<S>(st: State<S>)
  {
    RoomsAgree(st) && NamesAgree(st)
  }

  lemma LiveNamesUnique<S>(st: State<S>, a: S, b: S)
    requires Inv(st) && a in st.sessions && b in st.sessions
    requires st.sessions[a].connected && st.sessions[b].connected
    requires st.sessions[a].username.Some? && st.sessions[a].username == st.sessions[b].username
    ensures a == b
  {
  }

  datatype Step<S> =
    | StepConnect(s: S)
    | StepLogin(s: S, name: string)
    | StepJoin(s: S, room: string)
    | StepRoomChat(s: S, message: string)
    | StepPrivateChat(s: S, target: string, message: string)
    | StepDisconnect(s: S)

  /** A handler runs on the thread of a connected session; a new connection is a new session. */
  predicate Enabled<S>(st: State<S>, step: Step<S>)
  {
    if step.StepConnect? then step.s !in st.sessions
    else step.s in st.sessions && st.sessions[step.s].connected
  }

  function Next<S>(st: State<S>, step: Step<S>): (r: State<S>)
    requires Enabled(st, step)
  {
    match step
    case StepConnect(s) => Connect(st, s)
    case StepLogin(s, name) => Login(st, s, name)
    case StepJoin(s, room) => RoomJoin(st, s, room)
    case StepRoomChat(s, message) => RoomMessage(st, s, message)
    case StepPrivateChat(s, target, message) => PrivateMessage(st, s, target, message)
    case StepDisconnect(s) => Disconnect(st, s)
  }

  /** Messages change inboxes only. */
  lemma SendKeepsInv<S>(st: State<S>, to: set<S>, e: Event)
    ensures RoomsAgree(st) ==> RoomsAgree(st.(sessions := Send(st.sessions, to, e)))
    ensures NamesAgree(st) ==> NamesAgree(st.(sessions := Send(st.sessions, to, e)))
  {
  }

  lemma LeaveKeepsRooms<S>(st: State<S>, s: S)
    requires RoomsAgree(st) && s in st.sessions
    ensures var r := LeaveCurrentRoom(st, s);
            RoomsAgree(r) && r.sessions[s].room.None? && forall q :: q in r.rooms ==> s !in r.rooms[q]
  {
    if st.sessions[s].room.Some? {
      var name := st.sessions[s].room.value;
      RemoveOnlyFrom(st, s, name);
    }
  }

  /** Where the sessions and rooms are when one has left. */
  lemma RemoveOnlyFrom<S>(st: State<S>, s: S, name: string)
    requires RoomsAgree(st) && s in st.sessions && st.sessions[s].room == Some(name)
    ensures var r, rest := LeaveCurrentRoom(st, s), st.rooms[name] - {s};
            && r.rooms == (if rest == {} then st.rooms - {name} else st.rooms[name := rest])
            && forall m | m in st.sessions :: r.sessions[m].room == if m == s then None else st.sessions[m].room
  {
  }

  lemma LeaveKeepsNames<S>(st: State<S>, s: S, skip: set<S>)
    requires s in st.sessions && NamesAgreeFor(st, skip)
    ensures NamesAgreeFor(LeaveCurrentRoom(st, s), skip)
  {
  }

  lemma JoinKeepsInv<S>(st: State<S>, s: S, room: string)
    requires Inv(st) && s in st.sessions && st.sessions[s].connected
    ensures Inv(RoomJoin(st, s, room))
  {
    LeaveKeepsRooms(st, s);
    LeaveKeepsNames(st, s, {});
    EnterKeepsInv(LeaveCurrentRoom(st, s), s, room);
  }

  lemma AddMemberKeepsInv<S>(st: State<S>, s: S, room: string)
    requires Inv(st) && s in st.sessions && st.sessions[s].connected && st.sessions[s].room.None?
    ensures Inv(AddMember(st, s, room))
  {
  }

  lemma EnterKeepsInv<S>(st: State<S>, s: S, room: string)
    requires Inv(st) && s in st.sessions && st.sessions[s].connected && st.sessions[s].room.None?
    ensures Inv(EnterRoom(st, s, room))
  {
    AddMemberKeepsInv(st, s, room);
    var st1 := AddMember(st, s, room);
    SendKeepsInv(st1, Members(st1, room) - {s}, UserEntered(st1.sessions[s].Name()));
  }

  lemma LoginKeepsInv<S>(st: State<S>, s: S, name: string)
    requires Inv(st) && s in st.sessions && st.sessions[s].connected
    ensures Inv(Login(st, s, name))
  {
  }

  lemma RoomMessageKeepsInv<S>(st: State<S>, s: S, message: string)
    requires Inv(st) && s in st.sessions
    ensures Inv(RoomMessage(st, s, message))
  {
    if st.sessions[s].room.Some? {
      SendKeepsInv(st, Members(st, st.sessions[s].room.value), RoomChat(st.sessions[s].Name(), message));
    }
  }

  lemma PrivateMessageKeepsInv<S>(st: State<S>, s: S, target: string, message: string)
    requires Inv(st) && s in st.sessions
    ensures Inv(PrivateMessage(st, s, target, message))
  {
    var e := PrivateChat(st.sessions[s].Name(), target, message);
    if target in st.loggedIn {
      SendKeepsInv(st, {st.loggedIn[target]}, e);
      SendKeepsInv(st.(sessions := Send(st.sessions, {st.loggedIn[target]}, e)), {s}, e);
    } else {
      SendKeepsInv(st, {s}, e);
    }
  }

  lemma ConnectKeepsInv<S>(st: State<S>, s: S)
    requires Inv(st) && s !in st.sessions
    ensures Inv(Connect(st, s))
  {
  }

  lemma UnregisterKeepsInv<S>(st: State<S>, s: S)
    requires Inv(st) && s in st.sessions && st.sessions[s].connected
    ensures RoomsAgree(Unregister(st, s)) && NamesAgreeFor(Unregister(st, s), {s})
  {
  }

  lemma CloseKeepsInv<S>(st: State<S>, s: S)
    requires RoomsAgree(st) && NamesAgreeFor(st, {s}) && s in st.sessions && st.sessions[s].room.None?
    ensures Inv(Close(st, s))
  {
  }

  lemma DisconnectKeepsInv<S>(st: State<S>, s: S)
    requires Inv(st) && s in st.sessions && st.sessions[s].connected
    ensures Inv(Disconnect(st, s))
  {
    UnregisterKeepsInv(st, s);
    LeaveKeepsRooms(Unregister(st, s), s);
    LeaveKeepsNames(Unregister(st, s), s, {s});
    CloseKeepsInv(LeaveCurrentRoom(Unregister(st, s), s), s);
  }

  lemma NextKeepsInv<S>(st: State<S>, step: Step<S>)
    requires Inv(st) && Enabled(st, step)
    ensures Inv(Next(st, step))
  {
    match step
    case StepConnect(s) => ConnectKeepsInv(st, s);
    case StepLogin(s, name) => LoginKeepsInv(st, s, name);
    case StepJoin(s, room) => JoinKeepsInv(st, s, room);
    case StepRoomChat(s, message) => RoomMessageKeepsInv(st, s, message);
    case StepPrivateChat(s, target, message) => PrivateMessageKeepsInv(st, s, target, message);
    case StepDisconnect(s) => DisconnectKeepsInv(st, s);
  }

  // -- Every run -------------------------------------------------------------------------------

  function Initial<S>(): (st: State<S>) { State(map[], map[], map[]) }

  /** The state after a run of the server: any handlers, of any clients, in lock order. */
  ghost function Run<S>(steps: seq<Step<S>>): (r: Option<State<S>>)
  {
    if steps == [] then Some(Initial())
    else
      match Run(steps[..|steps| - 1])
      case None => None
      case Some(st) => if Enabled(st, steps[|steps| - 1]) then Some(Next(st, steps[|steps| - 1])) else None
  }

  lemma {:induction false} RunKeepsInv<S>(steps: seq<Step<S>>)
    requires Run(steps).Some?
    ensures Inv(Run(steps).value)
  {
    if steps != [] {
      RunKeepsInv(steps[..|steps| - 1]);
      NextKeepsInv(Run(steps[..|steps| - 1]).value, steps[|steps| - 1]);
    }
  }

  // -- What clients know -----------------------------------------------------------------------

  function Apply(v: set<string>, e: Event): (w: set<string>)
  {
    match e
    case Snapshot(users) => users
    case UserEntered(name) => v + {name}
    case UserLeft(name) => v - {name}
    case RoomChat(_, _) => v
    case PrivateChat(_, _, _) => v
  }

  /** The other members a client computes from its join response and the later notifications. */
  function View(inbox: seq<Event>): (v: set<string>)
  {
    if inbox == [] then {} else Apply(View(inbox[..|inbox| - 1]), inbox[|inbox| - 1])
  }

  lemma ViewSnoc(inbox: seq<Event>, e: Event)
    ensures View(inbox + [e]) == Apply(View(inbox), e)
  {
    assert (inbox + [e])[..|inbox|] == inbox;
  }

  /** Connected sessions have different names (the part of Inv the views rely on). */
  ghost predicate DistinctNames<S>(st: State<S>)
  {
    forall a, b :: a in st.sessions && b in st.sessions && a != b &&
                   st.sessions[a].room.Some? && st.sessions[b].room.Some? && st.sessions[a].username.Some?
                   ==> st.sessions[a].username != st.sessions[b].username
  }

  /** Everyone in a room is logged in and knows exactly the names of the others in it. */
  ghost predicate ViewsAgree<S>(st: State<S>)
  {
    forall s :: s in st.sessions && st.sessions[s].room.Some? ==>
      && st.sessions[s].username.Some?
      && View(st.sessions[s].inbox) == Names(st.sessions, Members(st, st.sessions[s].room.value) - {s})
  }

  /** No session that has a name logs in again. */
  predicate LogsInOnce<S>(st: State<S>, step: Step<S>)
    requires Enabled(st, step)
  {
    step.StepLogin? ==> st.sessions[step.s].username.None?
  }

  /** No name changes while others see it, and nobody joins a room without a name. */
  predicate Disciplined<S>(st: State<S>, step: Step<S>)
    requires Enabled(st, step)
  {
    match step
    case StepLogin(s, name) =>
      || IsBlank(name) || name in st.loggedIn || st.sessions[s].room.None?
      || Members(st, st.sessions[s].room.value) == {s}
    case StepJoin(s, _) => st.sessions[s].username.Some?
    case _ => true
  }

  lemma NamesSame<S>(a: map<S, SessionState>, b: map<S, SessionState>, ms: set<S>)
    requires forall m :: m in ms ==> m in a && m in b && a[m].username == b[m].username
    ensures Names(a, ms) == Names(b, ms)
  {
  }

  /** What one member of a room knows. */
  ghost predicate ViewAgrees<S>(st: State<S>, m: S)
    requires m in st.sessions
  {
    st.sessions[m].room.Some? ==>
      && st.sessions[m].username.Some?
      && View(st.sessions[m].inbox) == Names(st.sessions, Members(st, st.sessions[m].room.value) - {m})
  }

  lemma LeaveKeepsView<S>(st: State<S>, s: S, m: S)
    requires RoomsAgree(st) && DistinctNames(st) && ViewsAgree(st) && s in st.sessions && m in st.sessions
    ensures ViewAgrees(LeaveCurrentRoom(st, s), m)
  {
    LeaveKeepsRooms(st, s);
    var r := LeaveCurrentRoom(st, s);
    if m != s && st.sessions[m].room.Some? {
      var before, after := Members(st, st.sessions[m].room.value), Members(r, st.sessions[m].room.value);
      NamesSame(st.sessions, r.sessions, after - {m});
      if st.sessions[s].room == st.sessions[m].room {
        ViewSnoc(st.sessions[m].inbox, UserLeft(st.sessions[s].Name()));
        assert after == before - {s};
        NamesWithout(st, s, m, before);
      }
    }
  }

  /** The names of the others in a room when one of them is gone. */
  lemma NamesWithout<S>(st: State<S>, s: S, m: S, ms: set<S>)
    requires DistinctNames(st) && ViewsAgree(st) && s in ms && s != m
    requires forall x :: x in ms ==> x in st.sessions && st.sessions[x].room.Some?
    ensures Names(st.sessions, ms - {s} - {m}) == Names(st.sessions, ms - {m}) - {st.sessions[s].Name()}
  {
  }

  /** Where a join leaves the table entries of the session and of everybody else. */
  lemma EnterEffect<S>(st: State<S>, s: S, room: string, m: S)
    requires RoomsAgree(st) && s in st.sessions && m in st.sessions && st.sessions[s].room.None?
    ensures var r, others := EnterRoom(st, s, room), Members(st, room);
            && s !in others && r.rooms == st.rooms[room := others + {s}]
            && r.sessions[m].username == st.sessions[m].username
            && r.sessions[m].room == (if m == s then Some(room) else st.sessions[m].room)
            && r.sessions[m].inbox == st.sessions[m].inbox +
                 if m == s then [Snapshot(Names(st.sessions, others))]
                 else if m in others then [UserEntered(st.sessions[s].Name())]
                 else []
  {
    assert s !in Members(st, room);
    assert st.sessions[m].inbox + [] == st.sessions[m].inbox;
  }

  lemma EnterKeepsNames<S>(st: State<S>, s: S, room: string, ms: set<S>)
    requires RoomsAgree(st) && s in st.sessions && st.sessions[s].room.None?
    requires ms <= st.sessions.Keys
    ensures Names(EnterRoom(st, s, room).sessions, ms) == Names(st.sessions, ms)
  {
    forall m | m in ms
      ensures EnterRoom(st, s, room).sessions[m].username == st.sessions[m].username
    {
      EnterEffect(st, s, room, m);
    }
    NamesSame(st.sessions, EnterRoom(st, s, room).sessions, ms);
  }

  lemma EnterKeepsView<S>(st: State<S>, s: S, room: string, m: S)
    requires RoomsAgree(st) && ViewsAgree(st) && s in st.sessions && m in st.sessions
    requires st.sessions[s].room.None? && st.sessions[s].username.Some?
    ensures ViewAgrees(EnterRoom(st, s, room), m)
  {
    var r, others := EnterRoom(st, s, room), Members(st, room);
    EnterEffect(st, s, room, m);
    if m == s {
      ViewSnoc(st.sessions[s].inbox, Snapshot(Names(st.sessions, others)));
      assert Members(r, room) - {s} == others;
      EnterKeepsNames(st, s, room, others);
    } else if st.sessions[m].room == Some(room) {
      ViewSnoc(st.sessions[m].inbox, UserEntered(st.sessions[s].Name()));
      assert Members(r, room) - {m} == others - {m} + {s};
      EnterKeepsNames(st, s, room, others - {m} + {s});
      assert Names(st.sessions, others - {m} + {s}) == Names(st.sessions, others - {m}) + {st.sessions[s].Name()};
    } else if st.sessions[m].room.Some? {
      EnterKeepsNames(st, s, room, Members(st, st.sessions[m].room.value) - {m});
      assert st.sessions[m].inbox + [] == st.sessions[m].inbox;
    }
  }

  lemma LeaveKeepsViews<S>(st: State<S>, s: S)
    requires RoomsAgree(st) && DistinctNames(st) && ViewsAgree(st) && s in st.sessions
    ensures ViewsAgree(LeaveCurrentRoom(st, s))
  {
    var r := LeaveCurrentRoom(st, s);
    forall m | m in r.sessions ensures ViewAgrees(r, m) {
      LeaveKeepsView(st, s, m);
    }
  }

  lemma JoinKeepsViews<S>(st: State<S>, s: S, room: string)
    requires Inv(st) && ViewsAgree(st) && s in st.sessions
    ensures ViewsAgree(RoomJoin(st, s, room)) <==> st.sessions[s].username.Some?
  {
    LeaveKeepsRooms(st, s);
    var l, r := LeaveCurrentRoom(st, s), RoomJoin(st, s, room);
    if st.sessions[s].username.Some? {
      LeaveKeepsViews(st, s);
      forall m | m in r.sessions ensures ViewAgrees(r, m) {
        EnterKeepsView(l, s, room, m);
      }
    } else {
      EnterEffect(l, s, room, s);
      assert !ViewAgrees(r, s);
    }
  }

  /** A step that moves nobody and changes no name that `m` sees keeps its view. */
  lemma OtherStepsKeepView<S>(st: State<S>, r: State<S>, m: S)
    requires RoomsAgree(st) && ViewsAgree(st) && m in st.sessions && m in r.sessions
    requires r.rooms == st.rooms && st.sessions[m].room == r.sessions[m].room
    requires st.sessions[m].username.Some? ==> r.sessions[m].username.Some?
    requires forall x :: x in st.sessions ==> x in r.sessions
    requires forall x :: x in st.sessions && x != m && st.sessions[x].room.Some? && st.sessions[x].room == st.sessions[m].room
                         ==> st.sessions[x].username == r.sessions[x].username
    requires View(r.sessions[m].inbox) == View(st.sessions[m].inbox)
    ensures ViewAgrees(r, m)
  {
    if st.sessions[m].room.Some? {
      NamesSame(st.sessions, r.sessions, Members(st, st.sessions[m].room.value) - {m});
    }
  }

  lemma ChatKeepsViews<S>(st: State<S>, to: set<S>, e: Event)
    requires RoomsAgree(st) && ViewsAgree(st) && (e.RoomChat? || e.PrivateChat?)
    ensures ViewsAgree(st.(sessions := Send(st.sessions, to, e)))
  {
    var r := st.(sessions := Send(st.sessions, to, e));
    forall m | m in r.sessions ensures ViewAgrees(r, m) {
      ViewSnoc(st.sessions[m].inbox, e);
      OtherStepsKeepView(st, r, m);
    }
  }

  lemma RoomMessageKeepsViews<S>(st: State<S>, s: S, message: string)
    requires RoomsAgree(st) && ViewsAgree(st) && s in st.sessions
    ensures ViewsAgree(RoomMessage(st, s, message))
  {
    if st.sessions[s].room.Some? {
      ChatKeepsViews(st, Members(st, st.sessions[s].room.value), RoomChat(st.sessions[s].Name(), message));
    }
  }

  lemma PrivateMessageKeepsViews<S>(st: State<S>, s: S, target: string, message: string)
    requires RoomsAgree(st) && ViewsAgree(st) && s in st.sessions
    ensures ViewsAgree(PrivateMessage(st, s, target, message))
  {
    var e := PrivateChat(st.sessions[s].Name(), target, message);
    if target in st.loggedIn {
      var st1 := st.(sessions := Send(st.sessions, {st.loggedIn[target]}, e));
      SendKeepsInv(st, {st.loggedIn[target]}, e);
      ChatKeepsViews(st, {st.loggedIn[target]}, e);
      ChatKeepsViews(st1, {s}, e);
    } else {
      ChatKeepsViews(st, {s}, e);
    }
  }

  lemma LoginKeepsViews<S>(st: State<S>, s: S, name: string)
    requires Inv(st) && ViewsAgree(st) && s in st.sessions && st.sessions[s].connected
    ensures ViewsAgree(Login(st, s, name)) <==> Disciplined(st, StepLogin(s, name))
  {
    if Disciplined(st, StepLogin(s, name)) {
      HarmlessLogin(st, s, name);
    } else {
      var m :| m in Members(st, st.sessions[s].room.value) && m != s;
      RenameSeen(st, s, name, m);
    }
  }

  lemma HarmlessLogin<S>(st: State<S>, s: S, name: string)
    requires RoomsAgree(st) && ViewsAgree(st) && s in st.sessions && st.sessions[s].connected
    requires Disciplined(st, StepLogin(s, name))
    ensures ViewsAgree(Login(st, s, name))
  {
    var r := Login(st, s, name);
    if r != st {
      forall m | m in r.sessions ensures ViewAgrees(r, m) {
        OtherStepsKeepView(st, r, m);
      }
    }
  }

  /** Another member of the room does not learn the new name, which is nobody else's. */
  lemma RenameSeen<S>(st: State<S>, s: S, name: string, m: S)
    requires Inv(st) && ViewsAgree(st) && s in st.sessions && st.sessions[s].connected && st.sessions[s].room.Some?
    requires !IsBlank(name) && name !in st.loggedIn && m in Members(st, st.sessions[s].room.value) && m != s
    ensures !ViewsAgree(Login(st, s, name))
  {
    var r, others := Login(st, s, name), Members(st, st.sessions[s].room.value) - {m};
    assert ViewAgrees(st, m) && View(st.sessions[m].inbox) == Names(st.sessions, others);
    assert name !in Names(st.sessions, others);
    assert s in others && r.sessions[s].username == Some(name) && name in Names(r.sessions, others);
    assert !ViewAgrees(r, m);
  }

  lemma ConnectKeepsViews<S>(st: State<S>, s: S)
    requires RoomsAgree(st) && ViewsAgree(st) && s !in st.sessions
    ensures ViewsAgree(Connect(st, s))
  {
    var r := Connect(st, s);
    forall m | m in r.sessions ensures ViewAgrees(r, m) {
      if m != s {
        OtherStepsKeepView(st, r, m);
      }
    }
  }

  lemma CloseKeepsViews<S>(st: State<S>, s: S)
    requires RoomsAgree(st) && ViewsAgree(st) && s in st.sessions
    ensures ViewsAgree(Close(st, s))
  {
    var r := Close(st, s);
    forall m | m in r.sessions ensures ViewAgrees(r, m) {
      OtherStepsKeepView(st, r, m);
    }
  }

  lemma UnregisterKeepsViews<S>(st: State<S>, s: S)
    requires Inv(st) && ViewsAgree(st) && s in st.sessions
    ensures RoomsAgree(Unregister(st, s)) && DistinctNames(Unregister(st, s)) && ViewsAgree(Unregister(st, s))
  {
    var r := Unregister(st, s);
    forall m | m in r.sessions ensures ViewAgrees(r, m) {
      OtherStepsKeepView(st, r, m);
    }
  }

  lemma DisconnectKeepsViews<S>(st: State<S>, s: S)
    requires Inv(st) && ViewsAgree(st) && s in st.sessions
    ensures ViewsAgree(Disconnect(st, s))
  {
    UnregisterKeepsViews(st, s);
    LeaveKeepsViews(Unregister(st, s), s);
    LeaveKeepsRooms(Unregister(st, s), s);
    CloseKeepsViews(LeaveCurrentRoom(Unregister(st, s), s), s);
  }

  /** Each step keeps the views if and only if it is disciplined. */
  lemma NextKeepsViews<S>(st: State<S>, step: Step<S>)
    requires Inv(st) && ViewsAgree(st) && Enabled(st, step)
    ensures ViewsAgree(Next(st, step)) <==> Disciplined(st, step)
  {
    match step
    case StepConnect(s) => ConnectKeepsViews(st, s);
    case StepLogin(s, name) => LoginKeepsViews(st, s, name);
    case StepJoin(s, room) => JoinKeepsViews(st, s, room);
    case StepRoomChat(s, message) => RoomMessageKeepsViews(st, s, message);
    case StepPrivateChat(s, target, message) => PrivateMessageKeepsViews(st, s, target, message);
    case StepDisconnect(s) => DisconnectKeepsViews(st, s);
  }

  ghost predicate DisciplinedRun<S>(steps: seq<Step<S>>)
  {
    steps == [] ||
    (var init, last := steps[..|steps| - 1], steps[|steps| - 1];
     && DisciplinedRun(init)
     && Run(init).Some? && Enabled(Run(init).value, last) && Disciplined(Run(init).value, last))
  }

  /** The views agree after every step of the run. */
  ghost predicate ViewsThroughout<S>(steps: seq<Step<S>>)
  {
    && Run(steps).Some? && ViewsAgree(Run(steps).value)
    && (steps != [] ==> ViewsThroughout(steps[..|steps| - 1]))
  }

  /** Join snapshot plus notifications equal the other members throughout exactly the disciplined runs. */
  lemma {:induction false} RunKeepsViews<S>(steps: seq<Step<S>>)
    requires Run(steps).Some?
    ensures ViewsThroughout(steps) <==> DisciplinedRun(steps)
  {
    if steps != [] {
      var init := steps[..|steps| - 1];
      RunKeepsViews(init);
      if ViewsThroughout(init) {
        RunKeepsInv(init);
        NextKeepsViews(Run(init).value, steps[|steps| - 1]);
      }
    }
  }

  // -- Who is told what ------------------------------------------------------------------------

  /** `m` is in the room that `s` is in. */
  predicate SameRoom<S>(st: State<S>, s: S, m: S)
    requires s in st.sessions && m in st.sessions
  {
    st.sessions[s].room.Some? && st.sessions[m].room == st.sessions[s].room
  }

  /** Everyone in the sender's room gets the message, the sender too; nobody else does, and nothing else changes. */
  lemma RoomMessageReceivers<S>(st: State<S>, s: S, message: string, m: S)
    requires RoomsAgree(st) && s in st.sessions && m in st.sessions
    ensures var r, name := RoomMessage(st, s, message), st.sessions[s].Name();
            && r.loggedIn == st.loggedIn && r.rooms == st.rooms && r.sessions.Keys == st.sessions.Keys
            && r.sessions[m] == st.sessions[m].(inbox := st.sessions[m].inbox +
                 if SameRoom(st, s, m) then [RoomChat(name, message)] else [])
  {
    assert st.sessions[m].inbox + [] == st.sessions[m].inbox;
  }

  /** The session registered under the target's name gets the message, and the sender gets it. */
  lemma PrivateMessageReceivers<S>(st: State<S>, s: S, target: string, message: string, m: S)
    requires s in st.sessions && m in st.sessions
    ensures var r, e := PrivateMessage(st, s, target, message), PrivateChat(st.sessions[s].Name(), target, message);
            && r.loggedIn == st.loggedIn && r.rooms == st.rooms && r.sessions.Keys == st.sessions.Keys
            && r.sessions[m] == st.sessions[m].(inbox := st.sessions[m].inbox +
                 (if target in st.loggedIn && st.loggedIn[target] == m then [e] else []) + if m == s then [e] else [])
  {
    assert st.sessions[m].inbox + [] == st.sessions[m].inbox;
  }

  /** The others in the room that is left are told, and nobody else is. */
  lemma LeaveReceivers<S>(st: State<S>, s: S, m: S)
    requires RoomsAgree(st) && s in st.sessions && m in st.sessions
    ensures var r, old_ := LeaveCurrentRoom(st, s), st.sessions[m];
            && r.sessions[m].connected == old_.connected && r.sessions[m].username == old_.username
            && r.sessions[m].room == (if m == s then None else old_.room)
            && r.sessions[m].inbox == old_.inbox +
                 if m != s && SameRoom(st, s, m) then [UserLeft(st.sessions[s].Name())] else []
  {
    assert st.sessions[m].inbox + [] == st.sessions[m].inbox;
  }

  /** The names of the others in a room, from their sessions. */
  function NamesIn<S>(st: State<S>, s: S, room: string): (ns: set<string>)
  {
    set x | x in st.sessions && x != s && st.sessions[x].room == Some(room) && st.sessions[x].username.Some? ::
      st.sessions[x].username.value
  }

  /**
   A join: the others in the room left are told so, the session is told the names of the others in the room
   entered, these are told its name, and nobody else is told anything.
   */
  lemma JoinReceivers<S>(st: State<S>, s: S, room: string, m: S)
    requires RoomsAgree(st) && s in st.sessions && m in st.sessions
    ensures var r, old_, name := RoomJoin(st, s, room), st.sessions[m], st.sessions[s].Name();
            && r.loggedIn == st.loggedIn && r.sessions.Keys == st.sessions.Keys
            && r.sessions[m].connected == old_.connected && r.sessions[m].username == old_.username
            && r.sessions[m].room == (if m == s then Some(room) else old_.room)
            && r.sessions[m].inbox == old_.inbox +
                 (if m != s && SameRoom(st, s, m) then [UserLeft(name)] else []) +
                 if m == s then [Snapshot(NamesIn(st, s, room))]
                 else if old_.room == Some(room) then [UserEntered(name)]
                 else []
  {
    var l := LeaveCurrentRoom(st, s);
    LeaveKeepsRooms(st, s);
    LeaveReceivers(st, s, m);
    LeaveReceivers(st, s, s);
    EnterEffect(l, s, room, m);
    EnterKeepsConnected(l, s, room, m);
    NamesOfOthers(st, s, room);
  }

  lemma EnterKeepsConnected<S>(st: State<S>, s: S, room: string, m: S)
    requires s in st.sessions && m in st.sessions
    ensures var r := EnterRoom(st, s, room);
            && r.loggedIn == st.loggedIn && r.sessions.Keys == st.sessions.Keys
            && r.sessions[m].connected == st.sessions[m].connected
  {
  }

  lemma NamesOfOthers<S>(st: State<S>, s: S, room: string)
    requires RoomsAgree(st) && s in st.sessions
    ensures var l := LeaveCurrentRoom(st, s); Names(l.sessions, Members(l, room)) == NamesIn(st, s, room)
  {
    var l := LeaveCurrentRoom(st, s);
    LeaveKeepsRooms(st, s);
    forall x | x in st.sessions
      ensures x in Members(l, room) <==> x != s && st.sessions[x].room == Some(room)
      ensures l.sessions[x].username == st.sessions[x].username
    {
      LeaveReceivers(st, s, x);
    }
  }

  /** A disconnect: the others in the room are told, and the session's name is free. */
  lemma DisconnectReceivers<S>(st: State<S>, s: S, m: S)
    requires RoomsAgree(st) && s in st.sessions && m in st.sessions
    ensures var r, old_ := Disconnect(st, s), st.sessions[m];
            && r.loggedIn == (if st.sessions[s].username.Some? then st.loggedIn - {st.sessions[s].username.value}
                              else st.loggedIn)
            && r.sessions.Keys == st.sessions.Keys && r.sessions[m].username == old_.username
            && r.sessions[m].connected == (m != s && old_.connected)
            && r.sessions[m].room == (if m == s then None else old_.room)
            && r.sessions[m].inbox == old_.inbox +
                 if m != s && SameRoom(st, s, m) then [UserLeft(st.sessions[s].Name())] else []
  {
    LeaveReceivers(Unregister(st, s), s, m);
  }

  // -- No stale names -------------------------------------------------------------------------

  /** Every registered name is the name of the connected session it is registered to. */
  ghost predicate NamesLive<S>(st: State<S>)
  {
    forall n :: n in st.loggedIn ==>
      && st.loggedIn[n] in st.sessions
      && st.sessions[st.loggedIn[n]].connected && st.sessions[st.loggedIn[n]].username == Some(n)
  }

  /** A name becomes stale exactly by a second successful login of its session. */
  lemma LoginKeepsLive<S>(st: State<S>, s: S, name: string)
    requires Inv(st) && NamesLive(st) && s in st.sessions && st.sessions[s].connected
    ensures NamesLive(Login(st, s, name)) <==>
            IsBlank(name) || name in st.loggedIn || st.sessions[s].username.None?
  {
    var r := Login(st, s, name);
    if !IsBlank(name) && name !in st.loggedIn && st.sessions[s].username.Some? {
      var first := st.sessions[s].username.value;
      assert first in r.loggedIn && r.loggedIn[first] == s && r.sessions[s].username == Some(name);
    }
  }

  /** Leaving a room and being sent something change no names. */
  lemma LeaveKeepsUsers<S>(st: State<S>, s: S, m: S)
    requires s in st.sessions && m in st.sessions
    ensures var r := LeaveCurrentRoom(st, s);
            m in r.sessions && r.sessions[m].username == st.sessions[m].username
            && r.sessions[m].connected == st.sessions[m].connected
  {
  }

  lemma DisconnectKeepsLive<S>(st: State<S>, s: S)
    requires NamesLive(st) && s in st.sessions
    ensures NamesLive(Disconnect(st, s))
  {
    var u := Unregister(st, s);
    forall n | n in u.loggedIn ensures u.loggedIn[n] != s && u.loggedIn[n] in u.sessions {
      LeaveKeepsUsers(u, s, st.loggedIn[n]);
    }
    forall m | m in u.sessions {
      LeaveKeepsUsers(u, s, m);
    }
  }

  lemma JoinKeepsLive<S>(st: State<S>, s: S, room: string)
    requires NamesLive(st) && s in st.sessions
    ensures NamesLive(RoomJoin(st, s, room))
  {
    forall m | m in st.sessions {
      LeaveKeepsUsers(st, s, m);
    }
  }

  lemma NextKeepsLive<S>(st: State<S>, step: Step<S>)
    requires Inv(st) && NamesLive(st) && Enabled(st, step) && LogsInOnce(st, step)
    ensures NamesLive(Next(st, step))
  {
    match step
    case StepConnect(_) =>
    case StepLogin(s, name) => LoginKeepsLive(st, s, name);
    case StepJoin(s, room) => JoinKeepsLive(st, s, room);
    case StepRoomChat(_, _) =>
    case StepPrivateChat(_, _, _) =>
    case StepDisconnect(s) => DisconnectKeepsLive(st, s);
  }

  ghost predicate LoginOnceRun<S>(steps: seq<Step<S>>)
  {
    steps == [] ||
    (var init, last := steps[..|steps| - 1], steps[|steps| - 1];
     && LoginOnceRun(init)
     && Run(init).Some? && Enabled(Run(init).value, last) && LogsInOnce(Run(init).value, last))
  }

  /** In every run in which no session logs in twice, no name is stale. */
  lemma {:induction false} RunKeepsLive<S>(steps: seq<Step<S>>)
    requires LoginOnceRun(steps)
    ensures Run(steps).Some? && NamesLive(Run(steps).value)
  {
    if steps != [] {
      var init := steps[..|steps| - 1];
      RunKeepsLive(init);
      RunKeepsInv(init);
      NextKeepsLive(Run(init).value, steps[|steps| - 1]);
    }
  }

  /** A registered name that no connected session has. */
  ghost predicate Stale<S>(st: State<S>, name: string)
  {
    name in st.loggedIn &&
    forall s :: s in st.sessions && st.sessions[s].connected ==> st.sessions[s].username != Some(name)
  }

  /** A second login makes the session's first name stale. */
  lemma SecondLoginStale<S>(st: State<S>, s: S, first: string, name: string)
    requires Inv(st) && s in st.sessions && st.sessions[s].connected && st.sessions[s].username == Some(first)
    requires !IsBlank(name) && name !in st.loggedIn
    ensures Stale(Login(st, s, name), first)
  {
  }

  lemma StaleStays<S>(st: State<S>, step: Step<S>, name: string)
    requires Enabled(st, step) && Stale(st, name)
    ensures Stale(Next(st, step), name)
  {
    match step
    case StepConnect(_) =>
    case StepLogin(_, _) =>
    case StepJoin(s, room) =>
      forall m | m in st.sessions {
        LeaveKeepsUsers(st, s, m);
      }
    case StepRoomChat(_, _) =>
    case StepPrivateChat(_, _, _) =>
    case StepDisconnect(s) =>
      forall m | m in st.sessions {
        LeaveKeepsUsers(Unregister(st, s), s, m);
      }
  }

  /** A stale name stays registered, and so unavailable, however the run goes on. */
  lemma {:induction false} StaleForGood<S>(steps: seq<Step<S>>, more: seq<Step<S>>, name: string)
    requires Run(steps).Some? && Stale(Run(steps).value, name) && Run(steps + more).Some?
    ensures Stale(Run(steps + more).value, name)
    ensures forall s :: s in Run(steps + more).value.sessions ==>
              Login(Run(steps + more).value, s, name) == Run(steps + more).value
    decreases |more|
  {
    if more == [] {
      assert steps + more == steps;
    } else {
      var init, all := more[..|more| - 1], steps + more;
      assert all[..|all| - 1] == steps + init && all[|all| - 1] == more[|more| - 1];
      StaleForGood(steps, init, name);
      StaleStays(Run(steps + init).value, more[|more| - 1], name);
    }
  }

  /** A client that logs in as "a", then as "b", and leaves: "a" is still registered, to nobody. */
  lemma SecondLoginRun(connect: Step<int>, a: Step<int>, b: Step<int>, leave: Step<int>)
    requires connect == StepConnect(0) && a == StepLogin(0, "a") && b == StepLogin(0, "b") && leave == StepDisconnect(0)
    ensures Run([connect, a, b, leave]).Some?
    ensures var st := Run([connect, a, b, leave]).value;
            && "a" in st.loggedIn && st.loggedIn["a"] == 0 && "b" !in st.loggedIn
            && 0 in st.sessions && !st.sessions[0].connected
  {
    assert !IsBlank("a") && !IsBlank("b") by {
      assert 'a' in "a" && 'b' in "b";
    }
    assert [connect, a, b, leave][..3] == [connect, a, b] && [connect, a, b][..2] == [connect, a];
    assert [connect, a][..1] == [connect] && [connect][..0] == [];
    var st1 := Next(Initial(), connect);
    assert Run([connect]) == Some(st1);
    var st2 := Next(st1, a);
    assert Run([connect, a]) == Some(st2);
    var st3 := Next(st2, b);
    assert Run([connect, a, b]) == Some(st3);
    assert st3.loggedIn == map["a" := 0, "b" := 0];
  }

  // -- The server itself -----------------------------------------------------------------------

  class ClientSession {
    var connected: bool
    var username: Option<string>
    var currentRoom: Option<string>
    var inbox: seq<Event>

    constructor ()
      ensures Data() == SessionState(true, None, None, [])
    {
      connected, username, currentRoom, inbox := true, None, None, [];
    }

    function Data(): (d: SessionState)
      reads this
    {
      SessionState(connected, username, currentRoom, inbox)
    }
  }

  class Server {
    var loggedInUsers: map<string, ClientSession>
    var rooms: map<string, set<ClientSession>>
    ghost var sessions: set<ClientSession>

    /** The tables mention accepted sessions only. */
    ghost predicate Valid()
      reads this
    {
      && (forall n :: n in loggedInUsers ==> loggedInUsers[n] in sessions)
      && (forall r :: r in rooms ==> rooms[r] <= sessions)
    }

    ghost function Tables(): (st: State<ClientSession>)
      reads this, sessions
    {
      State(map s | s in sessions :: s.Data(), loggedInUsers, rooms)
    }

    constructor ()
      ensures Valid() && Tables() == Initial()
    {
      loggedInUsers, rooms, sessions := map[], map[], {};
    }

    method Accept() returns (session: ClientSession)
      requires Valid()
      modifies this
      ensures Valid() && fresh(session) && sessions == old(sessions) + {session}
      ensures Tables() == Connect(old(Tables()), session)
    {
      session := new ClientSession();
      sessions := sessions + {session};
    }

    /** The foreach loop around TrySendPacket; the receivers are told in some order. */
    method SendAll(to: set<ClientSession>, e: Event)
      requires Valid() && to <= sessions
      modifies sessions
      ensures Tables() == old(Tables()).(sessions := Send(old(Tables()).sessions, to, e))
    {
      ghost var before := Tables().sessions;
      var rest := to;
      while rest != {}
        invariant rest <= to
        invariant forall s :: s in sessions ==>
                    s.Data() == if s in to - rest then before[s].(inbox := before[s].inbox + [e]) else before[s]
        decreases |rest|
      {
        var m :| m in rest;
        m.inbox := m.inbox + [e];
        rest := rest - {m};
      }
    }

    method HandleLogin(session: ClientSession, username: string) returns (success: bool)
      requires Valid() && session in sessions
      modifies this`loggedInUsers, session
      ensures Valid()
      ensures Tables() == Login(old(Tables()), session, username)
      ensures success <==> !IsBlank(username) && username !in old(loggedInUsers)
    {
      if IsBlank(username) {
        success := false;
      } else if username in loggedInUsers {
        success := false;
      } else {
        success := true;
        session.username := Some(username);
        loggedInUsers := loggedInUsers[username := session];
      }
    }

    method SetCurrentRoom(session: ClientSession, room: Option<string>, told: seq<Event>)
      requires Valid() && session in sessions
      modifies session
      ensures Tables() == SetRoom(old(Tables()), session, room, told)
      ensures session.username == old(session.username)
    {
      session.currentRoom := room;
      session.inbox := session.inbox + told;
    }

    method RemoveFromRoom(session: ClientSession, name: string)
      requires Valid() && session in sessions && name in rooms
      modifies this`rooms, sessions
      ensures Valid() && Tables() == RemoveMember(old(Tables()), session, name)
    {
      var room: set<ClientSession> := rooms[name] - {session};
      SendAll(room, UserLeft(if session.username.Some? then session.username.value else ""));
      rooms := if room == {} then rooms - {name} else rooms[name := room];
    }

    method LeaveRoom(session: ClientSession)
      requires Valid() && session in sessions
      modifies this`rooms, sessions
      ensures Valid() && Tables() == LeaveCurrentRoom(old(Tables()), session)
    {
      if session.currentRoom.None? {
        return;
      }
      if session.currentRoom.value in rooms {
        RemoveFromRoom(session, session.currentRoom.value);
      }
      SetCurrentRoom(session, None, []);
    }

    method AddToRoom(session: ClientSession, roomName: string)
      requires Valid() && session in sessions
      modifies this`rooms, session
      ensures Valid() && Tables() == AddMember(old(Tables()), session, roomName)
    {
      ghost var st := Tables();
      var room: set<ClientSession> := if roomName in rooms then rooms[roomName] else {};
      var existingUsers := set s | s in room && s.username.Some? :: s.username.value;
      assert existingUsers == Names(st.sessions, room);
      rooms := rooms[roomName := room + {session}];
      SetCurrentRoom(session, Some(roomName), [Snapshot(existingUsers)]);
    }

    method HandleRoomJoin(session: ClientSession, roomName: string)
      requires Valid() && session in sessions
      modifies this`rooms, sessions
      ensures Valid() && Tables() == RoomJoin(old(Tables()), session, roomName)
    {
      LeaveRoom(session);
      AddToRoom(session, roomName);
      SendAll(rooms[roomName] - {session}, UserEntered(if session.username.Some? then session.username.value else ""));
    }

    method HandleRoomChat(session: ClientSession, message: string)
      requires Valid() && session in sessions
      modifies sessions
      ensures Valid() && Tables() == RoomMessage(old(Tables()), session, message)
      ensures RoomsAgree(old(Tables())) ==> forall m | m in sessions ::
                && m.connected == old(m.connected) && m.username == old(m.username) && m.currentRoom == old(m.currentRoom)
                && m.inbox == old(m.inbox) +
                     if old(session.currentRoom.Some? && m.currentRoom == session.currentRoom)
                     then [RoomChat(if old(session.username.Some?) then old(session.username.value) else "", message)]
                     else []
    {
      ghost var st := Tables();
      if RoomsAgree(st) {
        forall m | m in sessions {
          RoomMessageReceivers(st, session, message, m);
        }
      }
      if session.currentRoom.None? {
        return;
      }
      if session.currentRoom.value in rooms {
        SendAll(rooms[session.currentRoom.value], RoomChat(session.Data().Name(), message));
      }
    }

    method HandlePrivateChat(session: ClientSession, targetName: string, message: string)
      requires Valid() && session in sessions
      modifies sessions
      ensures Valid() && Tables() == PrivateMessage(old(Tables()), session, targetName, message)
      ensures var name := if old(session.username.Some?) then old(session.username.value) else "";
              var e := PrivateChat(name, targetName, message);
              forall m | m in sessions ::
                && m.connected == old(m.connected) && m.username == old(m.username) && m.currentRoom == old(m.currentRoom)
                && m.inbox == old(m.inbox) +
                     (if targetName in loggedInUsers && loggedInUsers[targetName] == m then [e] else []) +
                     if m == session then [e] else []
    {
      ghost var st := Tables();
      forall m | m in sessions {
        PrivateMessageReceivers(st, session, targetName, message, m);
      }
      var e := PrivateChat(session.Data().Name(), targetName, message);
      if targetName in loggedInUsers {
        SendAll({loggedInUsers[targetName]}, e);
      }
      SendAll({session}, e);
    }

    method CloseSession(session: ClientSession)
      requires Valid() && session in sessions
      modifies session
      ensures Tables() == Close(old(Tables()), session)
    {
      session.connected := false;
    }

    method HandleDisconnect(session: ClientSession)
      requires Valid() && session in sessions
      modifies this`loggedInUsers, this`rooms, sessions
      ensures Valid() && Tables() == Disconnect(old(Tables()), session)
    {
      if session.username.Some? {
        loggedInUsers := loggedInUsers - {session.username.value};
      }
      assert Tables() == Unregister(old(Tables()), session);
      LeaveRoom(session);
      CloseSession(session);
    }
  }
}
