/** The signalling relay (server/server.js): a registry from room id to
    {token, member connections, creation time}, driven by three per-connection
    events: a message arrives, the connection closes, a connection opens.
    Replies, forwards and server-initiated closes are recorded in an event log. */
module Server {
  import opened Common
  import Helpers

  /** VALID_ROOM_RE is `^[a-z0-9]{20}$`, VALID_TOKEN_RE is `^[a-z0-9]{32}$`. */
  const ROOM_ID_LENGTH: nat := 20
  const ROOM_TOKEN_LENGTH: nat := 32

  /** VALID_ROOM_RE.test(room) */
  predicate ValidRoom(room: string)
  {
    Helpers.IsAlnumOfLength(room, ROOM_ID_LENGTH)
  }

  /** VALID_TOKEN_RE.test(token) */
  predicate ValidToken(token: string)
  {
    Helpers.IsAlnumOfLength(token, ROOM_TOKEN_LENGTH)
  }

  /** The server's patterns and the pages' validators are the same pattern with the
      same lengths, so they accept exactly the same strings. */
  lemma ServerAndPagesAgree(s: string)
    ensures ValidRoom(s) <==> Helpers.IsValidSessionId(s)
    ensures ValidToken(s) <==> Helpers.IsValidToken(s)
  {
  }

  // ---------------------------------------------------------------------------
  // Registry, messages and events

  type ConnId = nat

  /** rooms[id] = { token, clients, createdAt } */
  datatype Room = Room(token: string, clients: seq<ConnId>, createdAt: int)

  /** What the server keeps per connection: `ws.room` (absent until a join
      succeeds) and whether `readyState` is OPEN. */
  datatype Conn = Conn(room: Option<string>, open: bool)

  datatype Registry = Registry(rooms: map<string, Room>, conns: map<ConnId, Conn>)

  /** The `type` of a JSON signalling message other than a join. */
  type SignalKind = k: string | k != "join" witness "ping"

  /** An incoming WebSocket message: a JSON object with type "join" (its `room`
      and `token` after `String(x || '')`), any other JSON object (offer, answer,
      candidate, ping, ...), a binary frame, or text that is not JSON. */
  datatype Message =
    | Join(room: string, token: string)
    | Signal(kind: SignalKind, body: string)
    | BinaryMessage
    | MalformedJson

  datatype ErrorCode = InvalidRoom | InvalidToken | TokenMismatch | NotInRoom

  datatype Reply = RoomInfo(clients: nat) | Error(code: ErrorCode) | Forward(kind: SignalKind, body: string)

  /** `ws.send(...)` to a connection, or `ws.close()` initiated by the server. */
  datatype Event = Sent(to: ConnId, reply: Reply) | Closed(conn: ConnId)

  datatype Outcome = Outcome(reg: Registry, events: seq<Event>)

  /** A room as the join handler leaves it: valid id, valid token, at least one
      member, every member a known connection. */
  ghost predicate RoomOk(id: string, room: Room, conns: map<ConnId, Conn>)
  {
    && ValidRoom(id)
    && ValidToken(room.token)
    && room.clients != []
    && (forall d :: d in room.clients ==> d in conns)
  }

  /** An open connection bound to a room is listed among that room's members. */
  ghost predicate BindingOk(reg: Registry, c: ConnId)
    requires c in reg.conns
  {
    reg.conns[c].open && reg.conns[c].room.Some? ==>
      reg.conns[c].room.value in reg.rooms && c in reg.rooms[reg.conns[c].room.value].clients
  }

  /** The registry invariant the handlers keep. */
  ghost predicate WellFormed(reg: Registry)
  {
    && (forall id :: id in reg.rooms ==> RoomOk(id, reg.rooms[id], reg.conns))
    && (forall c :: c in reg.conns ==> BindingOk(reg, c))
  }

  // ---------------------------------------------------------------------------
  // The handlers, as functions of the registry

  /** Send an error and close: the connection is no longer OPEN, nothing else changes. */
  function Reject(reg: Registry, c: ConnId, code: ErrorCode): Outcome
    requires c in reg.conns
  {
    Outcome(reg.(conns := reg.conns[c := reg.conns[c].(open := false)]), [Sent(c, Error(code)), Closed(c)])
  }

  /** The `data.type === 'join'` branch (server/server.js:74-104). */
  function JoinStep(reg: Registry, c: ConnId, room: string, token: string, now: int): (o: Outcome)
    requires c in reg.conns
    ensures o.reg.conns.Keys == reg.conns.Keys
  {
    var r := ToLower(room);
    var t := ToLower(token);
    if !ValidRoom(r) then Reject(reg, c, InvalidRoom)
    else if !ValidToken(t) then Reject(reg, c, InvalidToken)
    else if r in reg.rooms && reg.rooms[r].token != t then Reject(reg, c, TokenMismatch)
    else
      var before := if r in reg.rooms then reg.rooms[r] else Room(t, [], now);
      var after := before.(clients := before.clients + [c]);
      Outcome(Registry(reg.rooms[r := after], reg.conns[c := reg.conns[c].(room := Some(r))]),
              [Sent(c, RoomInfo(|after.clients|))])
  }

  /** The relay fan-out over `members`, in order: one forward to each member that is
      not the sender and is OPEN. */
  function Deliveries(members: seq<ConnId>, sender: ConnId, conns: map<ConnId, Conn>,
                      kind: SignalKind, body: string): seq<Event>
  {
    if members == [] then []
    else
      var d := members[|members| - 1];
      Deliveries(members[..|members| - 1], sender, conns, kind, body)
        + (if d != sender && d in conns && conns[d].open then [Sent(d, Forward(kind, body))] else [])
  }

  /** Every non-join JSON message (server/server.js:106-118). */
  function SignalStep(reg: Registry, c: ConnId, kind: SignalKind, body: string): Outcome
    requires c in reg.conns
  {
    var bound := reg.conns[c].room;
    if bound.None? || bound.value !in reg.rooms then Outcome(reg, [Sent(c, Error(NotInRoom))])
    else Outcome(reg, Deliveries(reg.rooms[bound.value].clients, c, reg.conns, kind, body))
  }

  /** One incoming message (server/server.js:60-119). */
  function MessageStep(reg: Registry, c: ConnId, msg: Message, now: int): Outcome
    requires c in reg.conns
  {
    match msg
    case Join(room, token) => JoinStep(reg, c, room, token, now)
    case Signal(kind, body) => SignalStep(reg, c, kind, body)
    case BinaryMessage => Outcome(reg, [])
    case MalformedJson => Outcome(reg, [])
  }

  /** `clients.filter(x => x !== c)`: every occurrence of c removed, the rest in order. */
  function Without(clients: seq<ConnId>, c: ConnId): (r: seq<ConnId>)
    ensures forall d :: d in r <==> d in clients && d != c
    ensures |r| <= |clients|
  {
    if clients == [] then []
    else
      var last := clients[|clients| - 1];
      Without(clients[..|clients| - 1], c) + (if last != c then [last] else [])
  }

  /** The 'close' handler (server/server.js:121-133); the connection also stops being OPEN. */
  function CloseStep(reg: Registry, c: ConnId): (after: Registry)
    requires c in reg.conns
    ensures after.conns.Keys == reg.conns.Keys
  {
    var conns := reg.conns[c := reg.conns[c].(open := false)];
    var bound := reg.conns[c].room;
    if bound.Some? && bound.value in reg.rooms then
      var room := reg.rooms[bound.value];
      var remaining := Without(room.clients, c);
      if remaining == [] then Registry(reg.rooms - {bound.value}, conns)
      else Registry(reg.rooms[bound.value := room.(clients := remaining)], conns)
    else Registry(reg.rooms, conns)
  }

  // ---------------------------------------------------------------------------
  // Properties of the handlers

  lemma JoinPreservesWellFormed(reg: Registry, c: ConnId, room: string, token: string, now: int)
    requires c in reg.conns && WellFormed(reg)
    ensures WellFormed(JoinStep(reg, c, room, token, now).reg)
    ensures JoinStep(reg, c, room, token, now).reg.conns.Keys == reg.conns.Keys
  {
    var r, t := ToLower(room), ToLower(token);
    var reg' := JoinStep(reg, c, room, token, now).reg;
    if ValidRoom(r) && ValidToken(t) && !(r in reg.rooms && reg.rooms[r].token != t) {
      forall id | id in reg'.rooms
        ensures RoomOk(id, reg'.rooms[id], reg'.conns)
      {
        if id != r {
          assert reg'.rooms[id] == reg.rooms[id];
          assert RoomOk(id, reg.rooms[id], reg.conns);
        }
      }
      forall d | d in reg'.conns
        ensures BindingOk(reg', d)
      {
        if d != c {
          assert reg'.conns[d] == reg.conns[d] && BindingOk(reg, d);
        }
      }
    } else {
      forall d | d in reg'.conns
        ensures BindingOk(reg', d)
      {
        if d != c {
          assert reg'.conns[d] == reg.conns[d] && BindingOk(reg, d);
        }
      }
    }
  }

  lemma {:induction false} WithoutOnlyOccurrences(clients: seq<ConnId>, c: ConnId)
    requires forall d :: d in clients ==> d == c
    ensures Without(clients, c) == []
  {
    if clients != [] {
      var init := clients[..|clients| - 1];
      assert forall d :: d in init ==> d in clients;
      WithoutOnlyOccurrences(init, c);
      assert clients[|clients| - 1] in clients;
    }
  }

  lemma ClosePreservesWellFormed(reg: Registry, c: ConnId)
    requires c in reg.conns && WellFormed(reg)
    ensures WellFormed(CloseStep(reg, c))
    ensures CloseStep(reg, c).conns.Keys == reg.conns.Keys
  {
    var reg' := CloseStep(reg, c);
    var bound := reg.conns[c].room;
    forall id | id in reg'.rooms
      ensures RoomOk(id, reg'.rooms[id], reg'.conns)
    {
      assert RoomOk(id, reg.rooms[id], reg.conns);
    }
    forall d | d in reg'.conns
      ensures BindingOk(reg', d)
    {
      if d != c {
        assert reg'.conns[d] == reg.conns[d] && BindingOk(reg, d);
        if reg.conns[d].open && reg.conns[d].room.Some? {
          var rd := reg.conns[d].room.value;
          if bound.Some? && bound.value == rd {
            assert d in Without(reg.rooms[rd].clients, c);
          }
        }
      }
    }
  }

  lemma MessagePreservesWellFormed(reg: Registry, c: ConnId, msg: Message, now: int)
    requires c in reg.conns && WellFormed(reg)
    ensures WellFormed(MessageStep(reg, c, msg, now).reg)
    ensures MessageStep(reg, c, msg, now).reg.conns.Keys == reg.conns.Keys
  {
    if msg.Join? {
      JoinPreservesWellFormed(reg, c, msg.room, msg.token, now);
    }
  }

  /** A join is rejected, in this order, for an invalid room id, then for an invalid
      token, then for a token that differs from the room's: an error reply is sent,
      the connection is closed, and nothing else changes. */
  lemma JoinRejections(reg: Registry, c: ConnId, room: string, token: string, now: int)
    requires c in reg.conns
    ensures var o := JoinStep(reg, c, room, token, now);
      var r, t := ToLower(room), ToLower(token);
      && (!ValidRoom(r) ==> o.events == [Sent(c, Error(InvalidRoom)), Closed(c)])
      && (ValidRoom(r) && !ValidToken(t) ==> o.events == [Sent(c, Error(InvalidToken)), Closed(c)])
      && (ValidRoom(r) && ValidToken(t) && r in reg.rooms && reg.rooms[r].token != t ==>
            o.events == [Sent(c, Error(TokenMismatch)), Closed(c)])
      && (o.events[0].reply.Error? ==>
            (o.reg.rooms == reg.rooms && !o.reg.conns[c].open && o.reg.conns[c].room == reg.conns[c].room))
      && (o.events[0].reply.Error? ==>
            o.reg == reg.(conns := reg.conns[c := reg.conns[c].(open := false)]))
  {
  }

  /** A join that passes validation against a missing room creates it with the joiner's
      token and the joiner as sole member; against an existing room with the same token
      it appends the joiner at the end. Either way the joiner is bound to the room and
      told the new member count, and no other room or connection is touched. */
  lemma JoinAdmits(reg: Registry, c: ConnId, room: string, token: string, now: int)
    requires c in reg.conns
    requires ValidRoom(ToLower(room)) && ValidToken(ToLower(token))
    requires ToLower(room) in reg.rooms ==> reg.rooms[ToLower(room)].token == ToLower(token)
    ensures var o := JoinStep(reg, c, room, token, now);
      var r := ToLower(room);
      && r in o.reg.rooms
      && o.reg.rooms[r].token == ToLower(token)
      && (r !in reg.rooms ==> o.reg.rooms[r] == Room(ToLower(token), [c], now))
      && (r in reg.rooms ==> o.reg.rooms[r].clients == reg.rooms[r].clients + [c]
                             && o.reg.rooms[r].createdAt == reg.rooms[r].createdAt)
      && o.reg.conns[c] == reg.conns[c].(room := Some(r))
      && o.events == [Sent(c, RoomInfo(|o.reg.rooms[r].clients|))]
      && (forall id :: id in reg.rooms && id != r ==> id in o.reg.rooms && o.reg.rooms[id] == reg.rooms[id])
      && (forall d :: d in reg.conns && d != c ==> d in o.reg.conns && o.reg.conns[d] == reg.conns[d])
  {
  }

  /** Token immutability: no event changes the token or creation time of a room
      that exists both before and after it. */
  lemma TokensNeverChange(reg: Registry, c: ConnId, msg: Message, now: int, id: string)
    requires c in reg.conns && id in reg.rooms
    ensures var after := MessageStep(reg, c, msg, now).reg;
      id in after.rooms ==> after.rooms[id].token == reg.rooms[id].token
                            && after.rooms[id].createdAt == reg.rooms[id].createdAt
    ensures var after := CloseStep(reg, c);
      id in after.rooms ==> after.rooms[id].token == reg.rooms[id].token
                            && after.rooms[id].createdAt == reg.rooms[id].createdAt
  {
  }

  /** The fan-out reaches exactly the members other than the sender that are OPEN,
      carries the message unchanged, and reaches no connection outside `members`. */
  lemma {:induction false} DeliveriesExactlyOpenPeers(members: seq<ConnId>, sender: ConnId,
                                                      conns: map<ConnId, Conn>, kind: SignalKind, body: string)
    ensures forall e :: e in Deliveries(members, sender, conns, kind, body) ==>
              && e.Sent? && e == Sent(e.to, Forward(kind, body))
              && e.to in members && e.to != sender && e.to in conns && conns[e.to].open
    ensures forall d :: d in members && d != sender && d in conns && conns[d].open ==>
              Sent(d, Forward(kind, body)) in Deliveries(members, sender, conns, kind, body)
  {
    if members != [] {
      var init := members[..|members| - 1];
      DeliveriesExactlyOpenPeers(init, sender, conns, kind, body);
      assert members == init + [members[|members| - 1]];
    }
  }

  /** Relay from a connection without a live room: only `not_in_room` to the sender.
      Relay from a bound connection: forwards to the other OPEN members of its room
      and to nobody else. Neither changes the registry. */
  lemma SignalIsolation(reg: Registry, c: ConnId, kind: SignalKind, body: string)
    requires c in reg.conns
    ensures var o := SignalStep(reg, c, kind, body);
      var bound := reg.conns[c].room;
      && o.reg == reg
      && (bound.None? || bound.value !in reg.rooms ==> o.events == [Sent(c, Error(NotInRoom))])
      && (bound.Some? && bound.value in reg.rooms ==>
            && (forall e :: e in o.events ==>
                  e.Sent? && e == Sent(e.to, Forward(kind, body)) && e.to != c
                  && e.to in reg.rooms[bound.value].clients && e.to in reg.conns && reg.conns[e.to].open)
            && (forall d :: d in reg.rooms[bound.value].clients && d != c && d in reg.conns && reg.conns[d].open ==>
                  Sent(d, Forward(kind, body)) in o.events))
  {
    var bound := reg.conns[c].room;
    if bound.Some? && bound.value in reg.rooms {
      DeliveriesExactlyOpenPeers(reg.rooms[bound.value].clients, c, reg.conns, kind, body);
    }
  }

  /** In a well-formed registry a connection that is OPEN and bound is never answered
      `not_in_room`: what it sends is relayed. */
  lemma BoundOpenConnectionIsRelayed(reg: Registry, c: ConnId, kind: SignalKind, body: string)
    requires WellFormed(reg) && c in reg.conns && reg.conns[c].open && reg.conns[c].room.Some?
    ensures SignalStep(reg, c, kind, body).events
            == Deliveries(reg.rooms[reg.conns[c].room.value].clients, c, reg.conns, kind, body)
  {
  }

  /** Binary frames and text that is not JSON are dropped: no reply, no state change. */
  lemma DropsBinaryAndMalformed(reg: Registry, c: ConnId, msg: Message, now: int)
    requires c in reg.conns && (msg.BinaryMessage? || msg.MalformedJson?)
    ensures MessageStep(reg, c, msg, now) == Outcome(reg, [])
  {
  }

  /** Closing changes only the closing connection's record, and only its open flag. */
  lemma CloseConns(reg: Registry, c: ConnId)
    requires c in reg.conns
    ensures CloseStep(reg, c).conns == reg.conns[c := reg.conns[c].(open := false)]
  {
  }

  /** A connection's transport starts closing, because the peer's close frame arrived or
      the socket failed: its readyState leaves OPEN at once, while the 'close' event, and
      with it the removal from its room, only comes later. */
  function Closing(reg: Registry, c: ConnId): (after: Registry)
    requires c in reg.conns
    ensures after.conns.Keys == reg.conns.Keys
  {
    reg.(conns := reg.conns[c := reg.conns[c].(open := false)])
  }

  /** A closing transport keeps the registry well formed: the member stays in its room,
      and a binding is only required of an open connection. */
  lemma ClosingPreservesWellFormed(reg: Registry, d: ConnId)
    requires WellFormed(reg) && d in reg.conns
    ensures WellFormed(Closing(reg, d))
  {
    var reg' := Closing(reg, d);
    forall id | id in reg'.rooms
      ensures RoomOk(id, reg'.rooms[id], reg'.conns)
    {
      assert RoomOk(id, reg.rooms[id], reg.conns);
    }
    forall e | e in reg'.conns
      ensures BindingOk(reg', e)
    {
      assert BindingOk(reg, e);
    }
  }

  /** While its transport is closing, a member keeps its place in the room but is skipped
      by the relay. */
  lemma ClosingPeerIsSkipped(reg: Registry, d: ConnId, c: ConnId, kind: SignalKind, body: string)
    requires d in reg.conns && c in reg.conns
    ensures Closing(reg, d).rooms == reg.rooms && !Closing(reg, d).conns[d].open
    ensures Sent(d, Forward(kind, body)) !in SignalStep(Closing(reg, d), c, kind, body).events
  {
    SignalIsolation(Closing(reg, d), c, kind, body);
  }

  /** On close every occurrence of the connection leaves its bound room; the room is
      deleted exactly when no member remains; all other rooms and connections are untouched. */
  lemma CloseRemovesMember(reg: Registry, c: ConnId)
    requires c in reg.conns
    ensures var after := CloseStep(reg, c);
      var bound := reg.conns[c].room;
      && !after.conns[c].open
      && (bound.Some? && bound.value in reg.rooms ==>
            && (bound.value in after.rooms <==> (exists d :: d in reg.rooms[bound.value].clients && d != c))
            && (bound.value in after.rooms ==>
                  after.rooms[bound.value].clients == Without(reg.rooms[bound.value].clients, c)))
      && (forall id :: id in reg.rooms && (bound.None? || id != bound.value) ==>
            id in after.rooms && after.rooms[id] == reg.rooms[id])
      && after.rooms.Keys <= reg.rooms.Keys
      && (forall d :: d in reg.conns && d != c ==> d in after.conns && after.conns[d] == reg.conns[d])
  {
    CloseConns(reg, c);
    var bound := reg.conns[c].room;
    if bound.Some? && bound.value in reg.rooms {
      var clients := reg.rooms[bound.value].clients;
      var remaining := Without(clients, c);
      if exists d :: d in clients && d != c {
        var d :| d in clients && d != c;
        assert d in remaining;
      }
      if remaining != [] {
        assert remaining[0] in clients && remaining[0] != c;
      }
    }
  }

  /** When the last member of a room, bound to it, disconnects the room is forgotten: a later join
      with the same id and a different token succeeds and makes that token authoritative. */
  lemma RejoinAfterLastLeaves(reg: Registry, a: ConnId, b: ConnId, room: string, token: string, now: int)
    requires WellFormed(reg) && a in reg.conns && b in reg.conns && a != b
    requires reg.conns[a].room == Some(room) && room in reg.rooms
    requires forall d :: d in reg.rooms[room].clients ==> d == a
    requires Helpers.IsValidToken(token) && token != reg.rooms[room].token
    ensures var closed := CloseStep(reg, a);
      var o := JoinStep(closed, b, room, token, now);
      && room !in closed.rooms
      && room in o.reg.rooms && o.reg.rooms[room] == Room(token, [b], now)
      && o.events == [Sent(b, RoomInfo(1))]
  {
    assert RoomOk(room, reg.rooms[room], reg.conns);
    ServerAndPagesAgree(token);
    ServerAndPagesAgree(room);
    LowerKeepsLowerAlnum(room);
    LowerKeepsLowerAlnum(token);
    WithoutOnlyOccurrences(reg.rooms[room].clients, a);
    var closed := CloseStep(reg, a);
    assert room !in closed.rooms;
    assert b in closed.conns;
  }

  /** A second join rebinds the connection without taking it out of its first room, and
      the close handler only filters the bound room. So a connection that joins r1, then
      r2, then closes leaves r1 behind holding only that closed connection: r1 is never
      deleted, and its token keeps refusing every join with another token. */
  lemma StaleMembershipAfterRebind(reg: Registry, c: ConnId, b: ConnId, r1: string, r2: string,
                                   t: string, t2: string, now: int)
    requires c in reg.conns && b in reg.conns && b != c
    requires ValidRoom(r1) && ValidRoom(r2) && r1 != r2 && r1 !in reg.rooms
    requires ValidToken(t) && ValidToken(t2) && t2 != t
    requires r2 in reg.rooms ==> reg.rooms[r2].token == t
    ensures var reg1 := JoinStep(reg, c, r1, t, now).reg;
      var reg2 := JoinStep(reg1, c, r2, t, now).reg;
      var reg3 := CloseStep(reg2, c);
      && reg2.conns[c].room == Some(r2)
      && r1 in reg3.rooms && reg3.rooms[r1].clients == [c] && !reg3.conns[c].open
      && JoinStep(reg3, b, r1, t2, now).events == [Sent(b, Error(TokenMismatch)), Closed(b)]
  {
    LowerKeepsLowerAlnum(r1);
    LowerKeepsLowerAlnum(r2);
    LowerKeepsLowerAlnum(t);
    LowerKeepsLowerAlnum(t2);
    var reg1 := JoinStep(reg, c, r1, t, now).reg;
    assert reg1.rooms[r1] == Room(t, [c], now);
    assert reg1.conns[c].room == Some(r1);
    var reg2 := JoinStep(reg1, c, r2, t, now).reg;
    assert reg2.rooms[r1] == Room(t, [c], now);
    assert reg2.conns[c].room == Some(r2) && r2 in reg2.rooms;
    var reg3 := CloseStep(reg2, c);
    assert reg3.rooms[r1] == Room(t, [c], now);
    assert b in reg3.conns;
  }

  // ---------------------------------------------------------------------------
  // The server object

  class SignalingServer {
    var rooms: map<string, Room>
    var conns: map<ConnId, Conn>
    var nextConn: ConnId
    var log: seq<Event>

    function State(): Registry
      reads this
    {
      Registry(rooms, conns)
    }

    ghost predicate Valid()
      reads this
    {
      WellFormed(State()) && forall c :: c in conns ==> c < nextConn
    }

    constructor ()
      ensures Valid() && rooms == map[] && conns == map[] && log == []
    {
      rooms, conns, nextConn, log := map[], map[], 0, [];
    }

    /** `wss.on('connection')`: a new, OPEN connection that is in no room. */
    method Connect() returns (c: ConnId)
      requires Valid()
      modifies this
      ensures Valid()
      ensures c !in old(conns) && conns == old(conns)[c := Conn(None, true)]
      ensures rooms == old(rooms) && log == old(log)
    {
      c := nextConn;
      conns := conns[c := Conn(None, true)];
      nextConn := nextConn + 1;
    }

    /** The transport of `c` starts closing before its 'close' event: it is no longer
        OPEN, and nothing else changes. */
    method TransportClosing(c: ConnId)
      requires Valid() && c in conns
      modifies this
      ensures Valid()
      ensures State() == Closing(old(State()), c)
      ensures nextConn == old(nextConn) && log == old(log)
    {
      ClosingPreservesWellFormed(State(), c);
      conns := conns[c := conns[c].(open := false)];
    }

    /** `ws.on('message')`. */
    method OnMessage(c: ConnId, msg: Message, now: int)
      requires Valid() && c in conns
      modifies this
      ensures Valid()
      ensures State() == MessageStep(old(State()), c, msg, now).reg
      ensures log == old(log) + MessageStep(old(State()), c, msg, now).events
    {
      MessagePreservesWellFormed(State(), c, msg, now);
      match msg {
        case Join(room, token) => HandleJoin(c, room, token, now);
        case Signal(kind, body) => HandleSignal(c, kind, body);
        case BinaryMessage =>
        case MalformedJson =>
      }
    }

    method HandleJoin(c: ConnId, room: string, token: string, now: int)
      requires Valid() && c in conns
      modifies this
      ensures Valid()
      ensures State() == JoinStep(old(State()), c, room, token, now).reg
      ensures log == old(log) + JoinStep(old(State()), c, room, token, now).events
    {
      JoinPreservesWellFormed(State(), c, room, token, now);
      ghost var o := JoinStep(State(), c, room, token, now);
      var r := ToLower(room);
      var t := ToLower(token);
      if !ValidRoom(r) {
        log := log + [Sent(c, Error(InvalidRoom)), Closed(c)];
        conns := conns[c := conns[c].(open := false)];
        assert State() == o.reg;
        return;
      }
      if !ValidToken(t) {
        log := log + [Sent(c, Error(InvalidToken)), Closed(c)];
        conns := conns[c := conns[c].(open := false)];
        assert State() == o.reg;
        return;
      }
      if r !in rooms {
        rooms := rooms[r := Room(t, [], now)];
      } else if rooms[r].token != t {
        log := log + [Sent(c, Error(TokenMismatch)), Closed(c)];
        conns := conns[c := conns[c].(open := false)];
        assert State() == o.reg;
        return;
      }
      rooms := rooms[r := rooms[r].(clients := rooms[r].clients + [c])];
      conns := conns[c := conns[c].(room := Some(r))];
      log := log + [Sent(c, RoomInfo(|rooms[r].clients|))];
      assert State() == o.reg;
    }

    method HandleSignal(c: ConnId, kind: SignalKind, body: string)
      requires Valid() && c in conns
      modifies this
      ensures Valid()
      ensures State() == old(State())
      ensures log == old(log) + SignalStep(old(State()), c, kind, body).events
    {
      if conns[c].room.None? || conns[c].room.value !in rooms {
        log := log + [Sent(c, Error(NotInRoom))];
        return;
      }
      var members := rooms[conns[c].room.value].clients;
      var i := 0;
      while i < |members|
        invariant 0 <= i <= |members|
        invariant rooms == old(rooms) && conns == old(conns) && nextConn == old(nextConn)
        invariant log == old(log) + Deliveries(members[..i], c, conns, kind, body)
      {
        var d := members[i];
        if d != c && d in conns && conns[d].open {
          log := log + [Sent(d, Forward(kind, body))];
        }
        assert members[..i + 1][..i] == members[..i];
        i := i + 1;
      }
      assert members[..|members|] == members;
    }

    /** `ws.on('close')`. */
    method OnClose(c: ConnId)
      requires Valid() && c in conns
      modifies this
      ensures Valid()
      ensures State() == CloseStep(old(State()), c)
      ensures log == old(log)
    {
      ClosePreservesWellFormed(State(), c);
      var bound := conns[c].room;
      conns := conns[c := conns[c].(open := false)];
      if bound.Some? && bound.value in rooms {
        var remaining := Without(rooms[bound.value].clients, c);
        if remaining == [] {
          rooms := rooms - {bound.value};
        } else {
          rooms := rooms[bound.value := rooms[bound.value].(clients := remaining)];
        }
      }
    }
  }
}
