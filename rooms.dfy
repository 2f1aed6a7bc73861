/** The server's room registry and its realtime event handlers.
    Each handler is a method of `Server`; what it sends is appended to a
    ghost log of emits, each naming its recipient (one connection or every
    member of a room), the event name and the payload.  The pure functions
    `Joined`, `MessageSent`, `Started` and `Disconnected` give the new
    registry after each event; the lemmas about them are the properties of
    the protocol. */
module Rooms {
  import Deck

  datatype Option<T> = None | Some(value: T)

  /** A member of a room: display name, avatar URL and connection id. */
  datatype User = User(username: string, pfpUrl: string, socketId: string)

  datatype ChatEntry = ChatEntry(username: string, pfpUrl: string, message: string)

  /** A room: its members in join order, the connection that created it, its
      chat log, and the cards left over once a round has been dealt. */
  datatype Room = Room(users: seq<User>, creator: string, chatHistory: seq<ChatEntry>, deck: Option<seq<Deck.Card>>)

  type Registry = map<string, Room>

  /** Who receives an emit: every connection in a room, or one connection. */
  datatype Target = ToRoom(roomId: string) | ToSocket(socketId: string)

  datatype Payload =
    | UserList(users: seq<User>)
    | Chat(entry: ChatEntry)
    | Cards(hand: seq<Deck.Card>)
    | SuitCode(suit: string)
    | Notice(text: string)

  datatype Emit = Emit(target: Target, event: string, payload: Payload)

  /** The answer of the room-status endpoint. */
  datatype Response = Found(room: Room) | NotFound(message: string)

  const GameStartedNotice: string := "The game has started!"

  // ---------------------------------------------------------------------
  // join-room
  // ---------------------------------------------------------------------

  /** A room as it is first created. */
  function NewRoom(creator: string): Room
  {
    Room([], creator, [], None)
  }

  function AddUser(room: Room, user: User): Room
  {
    room.(users := room.users + [user])
  }

  /** The registry after `user` joins `roomId`: the room is created if it is
      missing, with the joining connection as creator, then the user is
      appended to its members. */
  function Joined(rooms: Registry, roomId: string, user: User): (r: Registry)
    ensures r.Keys == rooms.Keys + {roomId}
    ensures forall id :: id in rooms && id != roomId ==> r[id] == rooms[id]
    ensures roomId !in rooms ==> r[roomId] == Room([user], user.socketId, [], None)
    ensures roomId in rooms ==> r[roomId].creator == rooms[roomId].creator
    ensures roomId in rooms ==> r[roomId].users == rooms[roomId].users + [user]
    ensures roomId in rooms ==> r[roomId].chatHistory == rooms[roomId].chatHistory && r[roomId].deck == rooms[roomId].deck
  {
    rooms[roomId := AddUser(if roomId in rooms then rooms[roomId] else NewRoom(user.socketId), user)]
  }

  /** The member list is kept in join order: after a series of joins of one
      room, the members are the earlier ones followed by every joiner, in
      call order, duplicates included. */
  function JoinAll(rooms: Registry, roomId: string, joiners: seq<User>): Registry
    decreases |joiners|
  {
    if joiners == [] then rooms
    else JoinAll(Joined(rooms, roomId, joiners[0]), roomId, joiners[1..])
  }

  lemma {:induction false} JoinAllInOrder(rooms: Registry, roomId: string, joiners: seq<User>)
    requires roomId in rooms || joiners != []
    ensures roomId in JoinAll(rooms, roomId, joiners)
    ensures JoinAll(rooms, roomId, joiners)[roomId].users
         == (if roomId in rooms then rooms[roomId].users else []) + joiners
    ensures JoinAll(rooms, roomId, joiners)[roomId].creator
         == if roomId in rooms then rooms[roomId].creator else joiners[0].socketId
    decreases |joiners|
  {
    if joiners != [] {
      var next := Joined(rooms, roomId, joiners[0]);
      JoinAllInOrder(next, roomId, joiners[1..]);
      assert [joiners[0]] + joiners[1..] == joiners;
    }
  }

  // ---------------------------------------------------------------------
  // send-message
  // ---------------------------------------------------------------------

  /** The registry after a chat message to `roomId`: nothing changes when the
      room does not exist; otherwise the entry is appended to its chat log. */
  function MessageSent(rooms: Registry, roomId: string, entry: ChatEntry): (r: Registry)
    ensures r.Keys == rooms.Keys
    ensures forall id :: id in rooms && id != roomId ==> r[id] == rooms[id]
    ensures roomId !in rooms ==> r == rooms
    ensures roomId in rooms ==> r[roomId].chatHistory == rooms[roomId].chatHistory + [entry]
    ensures roomId in rooms ==> r[roomId].users == rooms[roomId].users && r[roomId].creator == rooms[roomId].creator
    ensures roomId in rooms ==> r[roomId].deck == rooms[roomId].deck
  {
    if roomId in rooms then
      rooms[roomId := rooms[roomId].(chatHistory := rooms[roomId].chatHistory + [entry])]
    else rooms
  }

  // ---------------------------------------------------------------------
  // start-game
  // ---------------------------------------------------------------------

  /** Only the creator of an existing room may start its round. */
  predicate Authorized(rooms: Registry, roomId: string, socketId: string)
  {
    roomId in rooms && rooms[roomId].creator == socketId
  }

  /** The registry after a round is dealt in `roomId` from `shuffled`: the
      room keeps the cards left after one hand per member. */
  function Started(rooms: Registry, roomId: string, shuffled: seq<Deck.Card>): (r: Registry)
    requires roomId in rooms
    ensures r.Keys == rooms.Keys
    ensures forall id :: id in rooms && id != roomId ==> r[id] == rooms[id]
    ensures r[roomId].users == rooms[roomId].users && r[roomId].creator == rooms[roomId].creator
    ensures r[roomId].chatHistory == rooms[roomId].chatHistory
    ensures r[roomId].deck == Some(shuffled[Deck.Min(Deck.HandSize * |rooms[roomId].users|, |shuffled|)..])
  {
    rooms[roomId := rooms[roomId].(deck := Some(Deck.Remainder(shuffled, |rooms[roomId].users|)))]
  }

  /** One `deal-cards` emit per member, hand k addressed to member k's
      connection id. */
  function DealEmits(users: seq<User>, hands: seq<seq<Deck.Card>>): (es: seq<Emit>)
    requires |users| <= |hands|
    ensures |es| == |users|
  {
    seq(|users|, k requires 0 <= k < |users| => Emit(ToSocket(users[k].socketId), "deal-cards", Cards(hands[k])))
  }

  /** Everything a successful start sends: the hands, then the target suit and
      the start notice to the whole room. */
  function GameEmits(roomId: string, users: seq<User>, hands: seq<seq<Deck.Card>>, suit: string): seq<Emit>
    requires |users| <= |hands|
  {
    DealEmits(users, hands)
      + [Emit(ToRoom(roomId), "random-suit", SuitCode(suit)), Emit(ToRoom(roomId), "game-started", Notice(GameStartedNotice))]
  }

  /** Hands are addressed to single connections, hand k to member k's
      connection id; the room is addressed with exactly the suit and then the
      notice, and never with a hand.  This is about the target each emit
      names; who it reaches is `AudienceAsWritten`. */
  lemma GameEmitsConfidential(roomId: string, users: seq<User>, hands: seq<seq<Deck.Card>>, suit: string)
    requires |users| <= |hands|
    ensures |GameEmits(roomId, users, hands, suit)| == |users| + 2
    ensures forall k :: 0 <= k < |users| ==>
      GameEmits(roomId, users, hands, suit)[k] == Emit(ToSocket(users[k].socketId), "deal-cards", Cards(hands[k]))
    ensures GameEmits(roomId, users, hands, suit)[|users|] == Emit(ToRoom(roomId), "random-suit", SuitCode(suit))
    ensures GameEmits(roomId, users, hands, suit)[|users| + 1] == Emit(ToRoom(roomId), "game-started", Notice(GameStartedNotice))
    ensures forall e :: e in GameEmits(roomId, users, hands, suit) ==> (e.payload.Cards? <==> e.target.ToSocket?)
    ensures forall e :: e in GameEmits(roomId, users, hands, suit) && e.target.ToRoom? ==> e.target.roomId == roomId && !e.payload.Cards?
  {
    var es := GameEmits(roomId, users, hands, suit);
    forall e | e in es
      ensures (e.payload.Cards? <==> e.target.ToSocket?)
      ensures e.target.ToRoom? ==> e.target.roomId == roomId && !e.payload.Cards?
    {
      var k :| 0 <= k < |es| && es[k] == e;
      if k < |users| {
        assert e == DealEmits(users, hands)[k];
      }
    }
  }

  /** With at most ten members, a start from a full shuffled deck gives each
      member five cards no other member holds, and leaves 52 - 5n cards,
      none of them dealt, all from the canonical deck. */
  lemma StartedDeal(rooms: Registry, roomId: string, draws: seq<nat>)
    requires roomId in rooms && |rooms[roomId].users| <= 10
    requires Deck.ValidDraws(draws, 52)
    ensures var shuffled := Deck.Shuffled(Deck.CardDeck(), draws);
            var n := |rooms[roomId].users|;
            var hands := Deck.Hands(shuffled, n);
            && |hands| == n
            && (forall k :: 0 <= k < n ==> |hands[k]| == Deck.HandSize)
            && (forall k1, k2, c :: 0 <= k1 < k2 < n && c in hands[k1] ==> c !in hands[k2])
            && Started(rooms, roomId, shuffled)[roomId].deck.Some?
            && (forall k, c :: 0 <= k < n && c in hands[k] ==> c !in Started(rooms, roomId, shuffled)[roomId].deck.value)
            && |Started(rooms, roomId, shuffled)[roomId].deck.value| == 52 - Deck.HandSize * n
            && multiset(Started(rooms, roomId, shuffled)[roomId].deck.value) <= multiset(Deck.CardDeck())
  {
    var shuffled := Deck.Shuffled(Deck.CardDeck(), draws);
    var n := |rooms[roomId].users|;
    Deck.ShuffledCardDeck(draws);
    Deck.DealFullHands(shuffled, n);
    Deck.HandsDisjoint(shuffled, n);
    Deck.RemainderWithin(shuffled, n);
  }

  // ---------------------------------------------------------------------
  // disconnect
  // ---------------------------------------------------------------------

  /** The members of a room without the entries of one connection, the
      others in their order. */
  function WithoutSocket(users: seq<User>, socketId: string): (r: seq<User>)
    ensures |r| <= |users|
    ensures forall u :: u in r <==> u in users && u.socketId != socketId
  {
    if users == [] then []
    else if users[0].socketId == socketId then WithoutSocket(users[1..], socketId)
    else [users[0]] + WithoutSocket(users[1..], socketId)
  }

  /** Removing a connection commutes with concatenation, so the remaining
      members keep their relative order. */
  lemma {:induction false} WithoutSocketConcat(a: seq<User>, b: seq<User>, socketId: string)
    ensures WithoutSocket(a + b, socketId) == WithoutSocket(a, socketId) + WithoutSocket(b, socketId)
    decreases |a|
  {
    if a == [] {
      assert a + b == b;
    } else {
      assert (a + b)[0] == a[0] && (a + b)[1..] == a[1..] + b;
      WithoutSocketConcat(a[1..], b, socketId);
    }
  }

  /** A list without the connection is left as it is; removing twice is
      removing once. */
  lemma {:induction false} WithoutSocketAbsent(users: seq<User>, socketId: string)
    requires forall u :: u in users ==> u.socketId != socketId
    ensures WithoutSocket(users, socketId) == users
    decreases |users|
  {
    if users != [] {
      assert users[0] in users;
      assert forall u :: u in users[1..] ==> u in users;
      WithoutSocketAbsent(users[1..], socketId);
    }
  }

  lemma WithoutSocketIdempotent(users: seq<User>, socketId: string)
    ensures WithoutSocket(WithoutSocket(users, socketId), socketId) == WithoutSocket(users, socketId)
  {
    WithoutSocketAbsent(WithoutSocket(users, socketId), socketId);
  }

  /** The registry after a connection goes away: every room loses that
      connection's entries and keeps everything else. */
  function Disconnected(rooms: Registry, socketId: string): (r: Registry)
    ensures r.Keys == rooms.Keys
    ensures forall id :: id in rooms ==>
      && r[id].users == WithoutSocket(rooms[id].users, socketId)
      && r[id].creator == rooms[id].creator
      && r[id].chatHistory == rooms[id].chatHistory
      && r[id].deck == rooms[id].deck
  {
    map id | id in rooms :: rooms[id].(users := WithoutSocket(rooms[id].users, socketId))
  }

  /** One `room-update` per room in `order`, each with that room's members. */
  function RoomUpdates(order: seq<string>, rooms: Registry): (es: seq<Emit>)
    requires forall id :: id in order ==> id in rooms
    ensures |es| == |order|
  {
    seq(|order|, k requires 0 <= k < |order| => Emit(ToRoom(order[k]), "room-update", UserList(rooms[order[k]].users)))
  }

  lemma RoomUpdatesSnoc(order: seq<string>, id: string, rooms: Registry)
    requires forall x :: x in order ==> x in rooms
    requires id in rooms
    ensures RoomUpdates(order + [id], rooms) == RoomUpdates(order, rooms) + [Emit(ToRoom(id), "room-update", UserList(rooms[id].users))]
  {
  }

  /** One more visited room extends the log by its room-update. */
  lemma RoomUpdatesLogStep(base: seq<Emit>, order: seq<string>, id: string, rooms: Registry, log: seq<Emit>)
    requires forall x :: x in order ==> x in rooms
    requires id in rooms
    requires log == base + RoomUpdates(order, rooms) + [Emit(ToRoom(id), "room-update", UserList(rooms[id].users))]
    ensures log == base + RoomUpdates(order + [id], rooms)
  {
    RoomUpdatesSnoc(order, id, rooms);
  }

  lemma MapsAgree(a: Registry, b: Registry)
    requires a.Keys == b.Keys
    requires forall id :: id in a ==> a[id] == b[id]
    ensures a == b
  {
  }

  /** A visiting order of the rooms: every room once. */
  ghost predicate Enumerates(order: seq<string>, keys: set<string>)
  {
    && (forall id :: id in order <==> id in keys)
    && (forall a, b :: 0 <= a < b < |order| ==> order[a] != order[b])
  }

  /** When the rooms are visited each once, every room receives exactly one
      `room-update`, carrying its updated members. */
  lemma RoomUpdatesOnePerRoom(order: seq<string>, rooms: Registry)
    requires Enumerates(order, rooms.Keys)
    ensures forall id :: id in rooms ==> exists k :: 0 <= k < |order| && RoomUpdates(order, rooms)[k] == Emit(ToRoom(id), "room-update", UserList(rooms[id].users))
    ensures forall k1, k2 :: 0 <= k1 < |order| && 0 <= k2 < |order| && RoomUpdates(order, rooms)[k1].target == RoomUpdates(order, rooms)[k2].target ==> k1 == k2
  {
    var es := RoomUpdates(order, rooms);
    forall id | id in rooms
      ensures exists k :: 0 <= k < |order| && es[k] == Emit(ToRoom(id), "room-update", UserList(rooms[id].users))
    {
      var k :| 0 <= k < |order| && order[k] == id;
      assert es[k] == Emit(ToRoom(id), "room-update", UserList(rooms[id].users));
    }
    forall k1, k2 | 0 <= k1 < |order| && 0 <= k2 < |order| && es[k1].target == es[k2].target
      ensures k1 == k2
    {
      assert es[k1].target == ToRoom(order[k1]) && es[k2].target == ToRoom(order[k2]);
    }
  }

  // ---------------------------------------------------------------------
  // Room lookup on a plain object
  // ---------------------------------------------------------------------

  /** The property names that every plain object inherits.  The registry is
      such an object and is probed with a truthiness test, so a room id equal
      to one of these names reads an inherited value, never a room. */
  const InheritedKeys: set<string> := {
    "constructor", "__proto__", "toString", "toLocaleString", "valueOf",
    "hasOwnProperty", "isPrototypeOf", "propertyIsEnumerable",
    "__defineGetter__", "__defineSetter__", "__lookupGetter__", "__lookupSetter__"
  }

  datatype Outcome = Threw | Done(rooms: Registry)

  /** join-room as written: an id naming an inherited property passes the
      existence test, no room is created, and appending to the missing
      `users` list throws. */
  function JoinAsWritten(rooms: Registry, roomId: string, user: User): (o: Outcome)
    ensures o.Threw? <==> roomId !in rooms && roomId in InheritedKeys
    ensures o.Done? ==> o.rooms == Joined(rooms, roomId, user)
  {
    if roomId !in rooms && roomId in InheritedKeys then Threw
    else Done(Joined(rooms, roomId, user))
  }

  /** The first player to join a room named "constructor" makes the handler
      throw instead of creating the room. */
  lemma JoinConstructorThrows(user: User)
    ensures JoinAsWritten(map[], "constructor", user) == Threw
  {
  }

  /** With an own-key lookup, as `Joined` does, every join seats the joiner:
      the room exists afterwards and its last member is the joiner. */
  lemma JoinAlwaysSeats(rooms: Registry, roomId: string, user: User)
    ensures roomId in Joined(rooms, roomId, user)
    ensures var users := Joined(rooms, roomId, user)[roomId].users;
            |users| >= 1 && users[|users| - 1] == user
  {
  }

  // ---------------------------------------------------------------------
  // Who an emit reaches
  // ---------------------------------------------------------------------

  /** A connection's membership of a delivery group, as made by join-room. */
  datatype Membership = Membership(socketId: string, group: string)

  /** The group name an emit is addressed to.  The server addresses a hand by
      the member's connection id and a broadcast by the room id, and both go
      through the same call, so both are plain group names. */
  function GroupName(t: Target): (name: string)
    ensures t.ToRoom? ==> name == t.roomId
    ensures t.ToSocket? ==> name == t.socketId
  {
    match t
    case ToRoom(id) => id
    case ToSocket(id) => id
  }

  /** Delivery as the realtime library does it: a group reaches every
      connected socket that joined it, and every socket is also in the group
      named by its own id.  `joins` records the join-room calls so far. */
  function AudienceAsWritten(t: Target, sockets: set<string>, joins: set<Membership>): (r: set<string>)
    ensures forall s :: s in r <==> s in sockets && (s == GroupName(t) || Membership(s, GroupName(t)) in joins)
  {
    set s | s in sockets && (s == GroupName(t) || Membership(s, GroupName(t)) in joins)
  }

  /** Addressing a connection and addressing a room of the same name reach the
      same sockets. */
  lemma SocketAndRoomCollide(x: string, sockets: set<string>, joins: set<Membership>)
    ensures AudienceAsWritten(ToSocket(x), sockets, joins) == AudienceAsWritten(ToRoom(x), sockets, joins)
  {
  }

  /** A round in room "R1" with members A and B, where connection C has
      joined a room it named "A", A's connection id: A's hand reaches C. */
  lemma HandLeaksAsWritten(draws: seq<nat>, suitDraw: nat)
    requires Deck.ValidDraws(draws, 52) && suitDraw < 4
    ensures var users := [User("alice", "", "A"), User("bob", "", "B")];
            var hands := Deck.Hands(Deck.Shuffled(Deck.CardDeck(), draws), 2);
            var e := GameEmits("R1", users, hands, Deck.SuitCodes[suitDraw])[0];
            var joins := {Membership("A", "R1"), Membership("B", "R1"), Membership("C", "A")};
            && e.payload.Cards?
            && "C" in AudienceAsWritten(e.target, {"A", "B", "C"}, joins)
  {
    var users := [User("alice", "", "A"), User("bob", "", "B")];
    var hands := Deck.Hands(Deck.Shuffled(Deck.CardDeck(), draws), 2);
    GameEmitsConfidential("R1", users, hands, Deck.SuitCodes[suitDraw]);
  }

  /** Delivery with connections and rooms kept apart: a connection target
      reaches that connection only, a room target the sockets that joined the
      room. */
  function Audience(t: Target, sockets: set<string>, joins: set<Membership>): (r: set<string>)
    ensures t.ToSocket? ==> r == {t.socketId} * sockets
    ensures t.ToRoom? ==> forall s :: s in r <==> s in sockets && Membership(s, t.roomId) in joins
  {
    match t
    case ToSocket(id) => {id} * sockets
    case ToRoom(id) => set s | s in sockets && Membership(s, id) in joins
  }

  /** With that delivery, whatever rooms the connections have joined, the
      k-th hand of a start reaches at most member k's connection, and no
      emit that reaches the room carries cards. */
  lemma HandsReachOwnersOnly(roomId: string, users: seq<User>, hands: seq<seq<Deck.Card>>, suit: string,
                             sockets: set<string>, joins: set<Membership>)
    requires |users| <= |hands|
    ensures forall k :: 0 <= k < |users| ==>
      GameEmits(roomId, users, hands, suit)[k].payload.Cards? &&
      Audience(GameEmits(roomId, users, hands, suit)[k].target, sockets, joins) <= {users[k].socketId}
    ensures forall e :: e in GameEmits(roomId, users, hands, suit) && e.target.ToRoom? ==> !e.payload.Cards?
  {
    GameEmitsConfidential(roomId, users, hands, suit);
  }

  // ---------------------------------------------------------------------
  // Invariants over any series of events
  // ---------------------------------------------------------------------

  /** A room's remaining deck, once dealt, holds only canonical cards. */
  ghost predicate DecksFromCanonical(rooms: Registry)
  {
    forall id :: id in rooms ==> FromCanonical(rooms[id].deck)
  }

  /** A room's remaining deck, if any, holds cards of the canonical deck only. */
  ghost predicate FromCanonical(deck: Option<seq<Deck.Card>>)
  {
    deck.Some? ==> multiset(deck.value) <= multiset(Deck.CardDeck())
  }

  /** Part-way through disconnect: the rooms still `pending` are untouched,
      the others already hold their final value and were each visited once. */
  ghost predicate Visiting(cur: Registry, before: Registry, final: Registry, pending: set<string>, order: seq<string>)
  {
    && pending <= before.Keys
    && cur.Keys == before.Keys
    && final.Keys == before.Keys
    && (forall id :: id in cur ==> cur[id] == if id in pending then before[id] else final[id])
    && (forall id :: id in order <==> id in before && id !in pending)
    && (forall a, b :: 0 <= a < b < |order| ==> order[a] != order[b])
  }

  lemma VisitingStep(cur: Registry, before: Registry, socketId: string, pending: set<string>, order: seq<string>, id: string)
    requires Visiting(cur, before, Disconnected(before, socketId), pending, order)
    requires id in pending
    ensures var next := cur[id := cur[id].(users := WithoutSocket(cur[id].users, socketId))];
            Visiting(next, before, Disconnected(before, socketId), pending - {id}, order + [id])
    ensures forall x :: x in order ==> x in Disconnected(before, socketId)
    ensures cur[id] == before[id]
    ensures Disconnected(before, socketId)[id].users == WithoutSocket(cur[id].users, socketId)
  {
    var final := Disconnected(before, socketId);
    assert final[id] == before[id].(users := WithoutSocket(before[id].users, socketId));
    var next := cur[id := cur[id].(users := WithoutSocket(cur[id].users, socketId))];
    var order' := order + [id];
    forall a, b | 0 <= a < b < |order'|
      ensures order'[a] != order'[b]
    {
      if b == |order| {
        assert order[a] in order;
      }
    }
  }

  lemma DisconnectedKeepsDecks(rooms: Registry, socketId: string)
    requires DecksFromCanonical(rooms)
    ensures DecksFromCanonical(Disconnected(rooms, socketId))
  {
  }

  /** How the registry may change: rooms are never removed, a room's creator
      is never reassigned, and its chat log only grows at the end. */
  ghost predicate Evolves(before: Registry, after: Registry)
  {
    && before.Keys <= after.Keys
    && forall id :: id in before ==>
         after[id].creator == before[id].creator && before[id].chatHistory <= after[id].chatHistory
  }

  lemma EvolvesTransitive(a: Registry, b: Registry, c: Registry)
    requires Evolves(a, b) && Evolves(b, c)
    ensures Evolves(a, c)
  {
    forall id | id in a ensures a[id].chatHistory <= c[id].chatHistory {
      assert a[id].chatHistory <= b[id].chatHistory <= c[id].chatHistory;
    }
  }

  /** An inbound event, with the randomness of a start as its parameters. */
  datatype Event =
    | Join(socketId: string, roomId: string, username: string, pfpUrl: string)
    | Send(roomId: string, message: string, username: string, pfpUrl: string)
    | Start(socketId: string, roomId: string, draws: seq<nat>, suitDraw: nat)
    | Leave(socketId: string)

  ghost predicate WellFormed(e: Event)
  {
    e.Start? ==> Deck.ValidDraws(e.draws, 52) && e.suitDraw < 4
  }

  ghost function Step(rooms: Registry, e: Event): Registry
    requires WellFormed(e)
  {
    if e.Join? then Joined(rooms, e.roomId, User(e.username, e.pfpUrl, e.socketId))
    else if e.Send? then MessageSent(rooms, e.roomId, ChatEntry(e.username, e.pfpUrl, e.message))
    else if e.Start? then
      (if Authorized(rooms, e.roomId, e.socketId) then Started(rooms, e.roomId, Deck.Shuffled(Deck.CardDeck(), e.draws)) else rooms)
    else Disconnected(rooms, e.socketId)
  }

  ghost function Run(rooms: Registry, events: seq<Event>): Registry
    requires forall e :: e in events ==> WellFormed(e)
    decreases |events|
  {
    if events == [] then rooms else Run(Step(rooms, events[0]), events[1..])
  }

  /** Each event keeps the registry evolving as allowed and keeps remaining
      decks canonical. */
  lemma StepEvolves(rooms: Registry, e: Event)
    requires WellFormed(e)
    ensures Evolves(rooms, Step(rooms, e))
    ensures DecksFromCanonical(rooms) ==> DecksFromCanonical(Step(rooms, e))
  {
    if e.Start? && Authorized(rooms, e.roomId, e.socketId) {
      var shuffled := Deck.Shuffled(Deck.CardDeck(), e.draws);
      Deck.ShuffledCardDeck(e.draws);
      Deck.RemainderWithin(shuffled, |rooms[e.roomId].users|);
    }
  }

  /** Over any series of events: no room disappears, no creator changes (not
      even when the creator disconnects), chat logs only grow, and remaining
      decks hold only canonical cards. */
  lemma {:induction false} RunEvolves(rooms: Registry, events: seq<Event>)
    requires forall e :: e in events ==> WellFormed(e)
    ensures Evolves(rooms, Run(rooms, events))
    ensures DecksFromCanonical(rooms) ==> DecksFromCanonical(Run(rooms, events))
    decreases |events|
  {
    if events != [] {
      var next := Step(rooms, events[0]);
      StepEvolves(rooms, events[0]);
      assert forall e :: e in events[1..] ==> e in events;
      RunEvolves(next, events[1..]);
      EvolvesTransitive(rooms, next, Run(next, events[1..]));
    }
  }

  /** The two-player round: connection A ("alice") creates room R1, B ("bob")
      joins; B may not start the round, A may, and then each gets five cards
      of their own and 42 cards stay in the room. */
  lemma TwoPlayerRound(draws: seq<nat>)
    requires Deck.ValidDraws(draws, 52)
    ensures var alice := User("alice", "", "A");
            var bob := User("bob", "", "B");
            var r := Joined(Joined(map[], "R1", alice), "R1", bob);
            var shuffled := Deck.Shuffled(Deck.CardDeck(), draws);
            var hands := Deck.Hands(shuffled, 2);
            && r["R1"].users == [alice, bob]
            && r["R1"].creator == "A"
            && !Authorized(r, "R1", "B")
            && Authorized(r, "R1", "A")
            && |hands[0]| == 5 && |hands[1]| == 5
            && (forall c :: c in hands[0] ==> c !in hands[1])
            && |Started(r, "R1", shuffled)["R1"].deck.value| == 42
  {
    var alice := User("alice", "", "A");
    var bob := User("bob", "", "B");
    var r := Joined(Joined(map[], "R1", alice), "R1", bob);
    assert r["R1"].users == [alice] + [bob];
    StartedDeal(r, "R1", draws);
  }

  // ---------------------------------------------------------------------
  // The registry object and its handlers
  // ---------------------------------------------------------------------

  class Server {
    var rooms: Registry
    ghost var log: seq<Emit>

    ghost predicate Valid()
      reads this
    {
      DecksFromCanonical(rooms)
    }

    constructor ()
      ensures Valid() && rooms == map[] && log == []
    {
      rooms := map[];
      log := [];
    }

    /** The room-status endpoint: the room, or a not-found answer. */
    function RoomStatus(roomId: string): (r: Response)
      reads this
      ensures r.Found? <==> roomId in rooms
      ensures r.Found? ==> r.room == rooms[roomId]
      ensures r.NotFound? ==> r.message == "Room not found"
    {
      if roomId in rooms then Found(rooms[roomId]) else NotFound("Room not found")
    }

    /** join-room from connection `socketId`. */
    method JoinRoom(socketId: string, roomId: string, username: string, pfpUrl: string)
      requires Valid()
      modifies this
      ensures Valid()
      ensures rooms == Joined(old(rooms), roomId, User(username, pfpUrl, socketId))
      ensures log == old(log) + [Emit(ToRoom(roomId), "room-update", UserList(rooms[roomId].users))]
    {
      if roomId !in rooms {
        rooms := rooms[roomId := NewRoom(socketId)];
      }
      rooms := rooms[roomId := rooms[roomId].(users := rooms[roomId].users + [User(username, pfpUrl, socketId)])];
      log := log + [Emit(ToRoom(roomId), "room-update", UserList(rooms[roomId].users))];
    }

    /** send-message; silently ignored when the room does not exist. */
    method SendMessage(roomId: string, message: string, username: string, pfpUrl: string)
      requires Valid()
      modifies this
      ensures Valid()
      ensures rooms == MessageSent(old(rooms), roomId, ChatEntry(username, pfpUrl, message))
      ensures roomId !in old(rooms) ==> log == old(log)
      ensures roomId in old(rooms) ==> log == old(log) + [Emit(ToRoom(roomId), "chat-message", Chat(ChatEntry(username, pfpUrl, message)))]
    {
      if roomId in rooms {
        var entry := ChatEntry(username, pfpUrl, message);
        rooms := rooms[roomId := rooms[roomId].(chatHistory := rooms[roomId].chatHistory + [entry])];
        log := log + [Emit(ToRoom(roomId), "chat-message", Chat(entry))];
      }
    }

    /** Deal `players` hands from `deck` and keep the rest in the room. */
    method DealCards(deck: seq<Deck.Card>, players: nat, roomId: string) returns (hands: seq<seq<Deck.Card>>)
      requires Valid() && roomId in rooms
      requires multiset(deck) <= multiset(Deck.CardDeck())
      modifies this
      ensures Valid()
      ensures hands == Deck.Hands(deck, players)
      ensures rooms == old(rooms)[roomId := old(rooms)[roomId].(deck := Some(Deck.Remainder(deck, players)))]
      ensures log == old(log)
    {
      var rest;
      hands, rest := Deck.Deal(deck, players);
      Deck.RemainderWithin(deck, players);
      rooms := rooms[roomId := rooms[roomId].(deck := Some(rest))];
    }

    /** Send member k its hand k, on its own connection, in member order. */
    method SendHands(users: seq<User>, hands: seq<seq<Deck.Card>>)
      requires |users| <= |hands|
      modifies this
      ensures rooms == old(rooms)
      ensures log == old(log) + DealEmits(users, hands)
    {
      for k := 0 to |users|
        invariant rooms == old(rooms)
        invariant log == old(log) + DealEmits(users[..k], hands)
      {
        log := log + [Emit(ToSocket(users[k].socketId), "deal-cards", Cards(hands[k]))];
        assert DealEmits(users[..k + 1], hands) == DealEmits(users[..k], hands) + [Emit(ToSocket(users[k].socketId), "deal-cards", Cards(hands[k]))];
      }
      assert users[..|users|] == users;
    }

    /** start-game from connection `socketId`.  `draws` are the shuffle's
        random indices and `suitDraw` the index of the target suit. */
    method StartGame(socketId: string, roomId: string, draws: seq<nat>, suitDraw: nat)
      requires Valid()
      requires Deck.ValidDraws(draws, 52) && suitDraw < 4
      modifies this
      ensures Valid()
      ensures !Authorized(old(rooms), roomId, socketId) ==> rooms == old(rooms) && log == old(log)
      ensures Authorized(old(rooms), roomId, socketId) ==>
        var shuffled := Deck.Shuffled(Deck.CardDeck(), draws);
        var users := old(rooms)[roomId].users;
        && rooms == Started(old(rooms), roomId, shuffled)
        && log == old(log) + GameEmits(roomId, users, Deck.Hands(shuffled, |users|), Deck.SuitCodes[suitDraw])
    {
      if roomId in rooms && rooms[roomId].creator == socketId {
        var shuffled := Deck.ShuffleCopy(Deck.CardDeck(), draws);
        Deck.ShuffledCardDeck(draws);
        var users := rooms[roomId].users;
        var hands := DealCards(shuffled, |users|, roomId);
        SendHands(users, hands);
        var suit := Deck.SuitCodes[suitDraw];
        log := log + [Emit(ToRoom(roomId), "random-suit", SuitCode(suit))];
        log := log + [Emit(ToRoom(roomId), "game-started", Notice(GameStartedNotice))];
      }
    }

    /** One room's step of disconnect: drop the connection's entries and
        send the room its members. */
    method DropFromRoom(roomId: string, socketId: string)
      requires roomId in rooms
      modifies this
      ensures rooms == old(rooms)[roomId := old(rooms)[roomId].(users := WithoutSocket(old(rooms)[roomId].users, socketId))]
      ensures log == old(log) + [Emit(ToRoom(roomId), "room-update", UserList(rooms[roomId].users))]
    {
      rooms := rooms[roomId := rooms[roomId].(users := WithoutSocket(rooms[roomId].users, socketId))];
      log := log + [Emit(ToRoom(roomId), "room-update", UserList(rooms[roomId].users))];
    }

    /** disconnect of connection `socketId`: every room drops its entries and
        gets a `room-update`.  `order` is the order in which the rooms were
        visited. */
    method Disconnect(socketId: string) returns (ghost order: seq<string>)
      requires Valid()
      modifies this
      ensures Valid()
      ensures rooms == Disconnected(old(rooms), socketId)
      ensures Enumerates(order, rooms.Keys)
      ensures log == old(log) + RoomUpdates(order, rooms)
    {
      order := [];
      ghost var final := Disconnected(old(rooms), socketId);
      var pending := rooms.Keys;
      while pending != {}
        invariant Visiting(rooms, old(rooms), final, pending, order)
        invariant log == old(log) + RoomUpdates(order, final)
        decreases pending
      {
        var id :| id in pending;
        VisitingStep(rooms, old(rooms), socketId, pending, order, id);
        DropFromRoom(id, socketId);
        RoomUpdatesLogStep(old(log), order, id, final, log);
        order := order + [id];
        pending := pending - {id};
      }
      MapsAgree(rooms, final);
      DisconnectedKeepsDecks(old(rooms), socketId);
    }
  }

  /** A client of the handlers: what two connections observe in one round,
      derived from the handlers' contracts alone. */
  method PlayRound(draws: seq<nat>, suitDraw: nat)
    requires Deck.ValidDraws(draws, 52) && suitDraw < 4
  {
    var server := new Server();
    server.JoinRoom("A", "R1", "alice", "");
    server.JoinRoom("B", "R1", "bob", "");
    assert server.rooms["R1"].creator == "A";
    assert server.rooms["R1"].users == [User("alice", "", "A"), User("bob", "", "B")];
    var before := server.rooms;
    server.StartGame("B", "R1", draws, suitDraw);
    assert server.rooms == before && |server.log| == 2;
    ghost var users := server.rooms["R1"].users;
    ghost var hands := Deck.Hands(Deck.Shuffled(Deck.CardDeck(), draws), 2);
    server.StartGame("A", "R1", draws, suitDraw);
    GameEmitsConfidential("R1", users, hands, Deck.SuitCodes[suitDraw]);
    assert server.log[2..] == GameEmits("R1", users, hands, Deck.SuitCodes[suitDraw]);
    assert server.log[2].target == ToSocket("A") && server.log[3].target == ToSocket("B");
    assert server.log[5].payload == Notice(GameStartedNotice);
  }
}
