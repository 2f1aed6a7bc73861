# Liar's card game: room server and card face, in Dafny

This project models the core of a small multiplayer card game. A Node.js
server keeps an in-memory registry of rooms and answers four realtime events:

- **join-room** creates the room if it is missing, records the first joiner as its creator, and appends the joiner to the members.
- **send-message** appends to the room's chat log and broadcasts the message.
- **start-game** runs only when the creator asks. It shuffles a copy of the 52-card deck, deals five cards per member (fewer, down to none, past the tenth member), addresses each hand to its owner's connection id, and broadcasts a random target suit and a start notice.
- **disconnect** removes the connection from every room and sends every room its new member list.

A React component shows a card identifier (such as `"10D"`) as a rank, a colour and a suit glyph.

The project has three modules:

- `Deck` (`deck.dfy`) holds the canonical deck, the in-place Fisher–Yates shuffle and the dealing loop. The shuffle is a method on an `array`, proved equal to the recursive function `Shuffled`. Dealing is a method with a loop, proved equal to `Hands` and `Remainder`.
- `CardFace` (`card_face.dfy`) splits a card identifier into rank and suit and derives the colour and the glyph.
- `Rooms` (`rooms.dfy`) holds the registry:
  - A pure transition function per event: `Joined`, `MessageSent`, `Started`, `Disconnected`.
  - A class `Server` whose methods are the handlers. The methods update the `rooms` field and append every emit to a ghost `log`, so each emit's target, event name and payload can be checked.
  - Invariants over arbitrary runs of events.

The randomness of a start is a parameter:

- `draws[k]` is the index that the k-th swap of the shuffle picks. It lies in `0..n-1-k`.
- `suitDraw` picks one of the four suit codes.

## Model

| member | source | states |
|---|---|---|
| Deck.CardDeckSamples | backend/server.js:19-24 | the deck has 52 cards; sample entries: hearts first from "2H" to "AH", then diamonds, clubs and spades; "10H", "10C" and "AS" sit where the literal puts them |
| Deck.CardDeckDistinct | backend/server.js:19-24 | no card appears twice in the canonical deck |
| Deck.CardAtInjective | backend/server.js:19-24 | different deck positions hold different identifiers |
| Deck.Swap | backend/server.js:114 | the two positions are exchanged and every other position is unchanged |
| Deck.ShuffledPermutes | backend/server.js:111-117 | for any valid draws, the shuffle output has the same length and the same multiset of cards, and a deck without repeats stays without repeats |
| Deck.ShuffleFromPermutes | backend/server.js:112-115 | each remaining run of the shuffle loop permutes its input |
| Deck.ShuffledCardDeck | backend/server.js:88 | a shuffled copy of the canonical deck has 52 distinct cards, exactly the canonical ones |
| Deck.Shuffle | backend/server.js:111-117 | the in-place loop leaves the array equal to `Shuffled` of its old contents, and a permutation of them |
| Deck.ShuffleCopy | backend/server.js:88 | shuffling a fresh copy returns `Shuffled` of the input and leaves the input as it is |
| Deck.Slice | backend/server.js:124 | the slice has min(to, length) - from cards when from < to and from < length, and none otherwise; its k-th card is the deck's card at from + k |
| Deck.Deal | backend/server.js:119-130 | hand k is the clamped slice from 5k to 5k+5; the rest starts at the clamped 5n; the results are `Hands` and `Remainder` |
| Deck.DealPartition | backend/server.js:123-129 | the hands in order, followed by the rest, are exactly the deck |
| Deck.DealPrefix | backend/server.js:123-126 | the concatenated hands are the deck's prefix of length min(5n, length) |
| Deck.DealFullHands | backend/server.js:123-129 | with a full deck and at most ten players, every hand has five cards and 52 - 5n cards remain |
| Deck.DealOverflow | backend/server.js:123-129 | with more than ten players, the eleventh hand holds the last two cards, later hands are empty, and nothing remains |
| Deck.HandsDisjoint | backend/server.js:123-129 | from a deck without repeats, no card is in two hands, or in a hand and the rest |
| Deck.RemainderWithin | backend/server.js:129 | the stored rest is a sub-multiset of the deck it was cut from |
| CardFace.Suit | frontend/src/components/Card.tsx:9 | the suit is the last character, or empty for an empty identifier |
| CardFace.Rank | frontend/src/components/Card.tsx:10 | the rank is a prefix of the identifier, one character shorter, or empty |
| CardFace.SplitRoundTrip | frontend/src/components/Card.tsx:9-10 | rank followed by suit gives back the identifier; both parts are empty exactly when the identifier is |
| CardFace.ComposeRoundTrip | frontend/src/components/Card.tsx:9-10 | a rank followed by a one-character suit splits back into that rank and that suit |
| CardFace.IsRedIffRedSuit | frontend/src/components/Card.tsx:13 | red exactly for the first two suit codes of the deck, hearts and diamonds |
| CardFace.TextColor | frontend/src/components/Card.tsx:14 | the red style exactly when the suit is red, otherwise the black style |
| CardFace.SuitIconCases | frontend/src/components/Card.tsx:17-29 | a glyph is shown exactly for the four suit codes, and it is one character; anything else gives "" |
| CardFace.SuitIconInjective | frontend/src/components/Card.tsx:17-29 | different suits never share a glyph |
| CardFace.View | frontend/src/components/Card.tsx:9-29 | the rank shown followed by the last character gives back the identifier; a glyph is shown iff the last character is a suit code; the text is red iff it is "H" or "D"; the empty identifier shows an empty black face |
| CardFace.CanonicalDeckDecodes | frontend/src/components/Card.tsx:9-29 | every canonical card splits into its rank token and suit code; it is red iff it comes from the first 26 cards; its face shows that rank, colour and a non-empty glyph |
| Rooms.Joined | backend/server.js:54-63 | a missing room is created with the joiner as creator and only member; an existing room keeps its creator, chat log and deck, and gains the joiner at the end of its members; other rooms are unchanged |
| Rooms.JoinAllInOrder | backend/server.js:63 | after a series of joins, the members are the earlier members followed by every joiner in call order; the creator is the first joiner of a new room |
| Rooms.JoinAsWritten | backend/server.js:54-63 | the handler throws exactly for a missing id that names an inherited object property; otherwise it gives `Joined` |
| Rooms.JoinConstructorThrows | backend/server.js:54-63 | joining "constructor" on an empty registry throws |
| Rooms.JoinAlwaysSeats | backend/server.js:54-63 | with own-key lookup, every join leaves the room present, with the joiner as its last member |
| Rooms.MessageSent | backend/server.js:75-81 | an absent room leaves the registry unchanged; otherwise only that room's chat log grows by the entry at its end |
| Rooms.Started | backend/server.js:86-92 | only the started room changes; its deck becomes what follows the first 5n shuffled cards |
| Rooms.DealEmits | backend/server.js:95-97 | one deal-cards emit per member, hand k addressed to member k's connection id |
| Rooms.GameEmitsConfidential | backend/server.js:95-107 | a start sends n + 2 emits: n hands, each addressed to one connection id, then random-suit and game-started addressed to the room; an emit carries cards iff its target names a connection |
| Rooms.AudienceAsWritten | backend/server.js:96 | an emit reaches every connected socket whose own id is the target name or that joined a room of that name |
| Rooms.SocketAndRoomCollide | backend/server.js:96 | addressing connection x and addressing room x reach the same sockets |
| Rooms.HandLeaksAsWritten | backend/server.js:66-96 | with members A and B in R1 and connection C in a room it named "A", A's hand reaches C |
| Rooms.Audience | backend/server.js:96-107 | a connection target reaches only that connection; a room target reaches exactly the sockets that joined the room |
| Rooms.HandsReachOwnersOnly | backend/server.js:95-107 | whatever rooms the connections joined, hand k reaches at most member k's connection, and nothing reaching the room carries cards |
| Rooms.StartedDeal | backend/server.js:88-92 | with at most ten members: each hand has five cards, hands are disjoint, the room keeps 52 - 5n canonical cards, and no dealt card is among them |
| Rooms.WithoutSocket | backend/server.js:136 | a member stays iff its connection differs; the list never grows |
| Rooms.WithoutSocketConcat | backend/server.js:136 | the filter distributes over concatenation, so the remaining members keep their order |
| Rooms.WithoutSocketAbsent | backend/server.js:136 | a list without that connection is left as it is |
| Rooms.WithoutSocketIdempotent | backend/server.js:136 | filtering twice is filtering once |
| Rooms.Disconnected | backend/server.js:134-139 | every room keeps its creator, chat log and deck, and drops exactly the leaving connection's entries; no room is removed |
| Rooms.RoomUpdates | backend/server.js:137 | one room-update emit per visited room |
| Rooms.RoomUpdatesOnePerRoom | backend/server.js:135-138 | when each room is visited once, every room gets exactly one room-update, carrying its new member list |
| Rooms.StepEvolves | backend/server.js:50-139 | each event keeps every room, keeps every creator, only extends chat logs, and keeps remaining decks canonical |
| Rooms.RunEvolves | backend/server.js:50-139 | over any series of events, rooms are never removed, creators never change (even after the creator leaves), chat logs only grow, and remaining decks hold only canonical cards |
| Rooms.TwoPlayerRound | backend/server.js:50-109 | A create R1 and B joins; the members are [A, B] and the creator is A; B may not start, A may; each gets five private cards and 42 remain |
| Rooms.Server.RoomStatus | backend/server.js:36-43 | the room, exactly when it exists; otherwise the "Room not found" answer |
| Rooms.Server.JoinRoom | backend/server.js:50-70 | the registry becomes `Joined`; one room-update with the new member list is sent to the room |
| Rooms.Server.SendMessage | backend/server.js:72-82 | the registry becomes `MessageSent`; the message is broadcast iff the room exists, and nothing is sent otherwise |
| Rooms.Server.DealCards | backend/server.js:119-131 | returns `Hands`, stores `Remainder` as the room's deck and sends nothing |
| Rooms.Server.SendHands | backend/server.js:95-97 | appends `DealEmits`, in member order |
| Rooms.Server.StartGame | backend/server.js:85-109 | a non-creator or a missing room changes nothing and sends nothing; otherwise the registry becomes `Started` from the shuffled canonical deck, and the log grows by the hands, the drawn suit code and the start notice |
| Rooms.Server.DropFromRoom | backend/server.js:136-137 | one room loses the connection and gets its room-update |
| Rooms.Server.Disconnect | backend/server.js:134-139 | the registry becomes `Disconnected`; the visiting order lists every room once, and the log grows by one room-update per room in that order |

## Left out

- The Socket.IO transport, connection set-up and Express/CORS/static serving/`listen` are not modelled. Emits are recorded in a ghost log with the target each names. Delivery is modelled only by `Rooms.AudienceAsWritten` and `Rooms.Audience`, over a given set of sockets and recorded `socket.join` calls; the handlers do not keep that set.
- `Rooms.GameEmitsConfidential`: states which target each emit names, not who receives it. `ToSocket(x)` and `ToRoom(x)` stand for the names passed to `io.to`, and when x is the same string both address one Socket.IO group (see Findings).
- `Math.random` is not modelled. The shuffle's draws and the suit draw are parameters constrained to their ranges. Nothing is stated about their distribution or about the shuffle being uniform.
- `Object.keys` order in disconnect is not modelled. `Rooms.Server.Disconnect` visits the rooms in an unspecified order and returns it as a ghost value.
- `console.log` calls and the React/JSX markup of the card (lines 32 onward of `Card.tsx`) are not modelled. So are the lobby, profile and app components, which are not part of this model.
- The HTTP status code, JSON serialisation of the room (`res.json`), and the GET route's behaviour for inherited property names are not modelled.
- `Deck.CardDeck`: the 52-entry literal is stated through its layout: rank token `i % 13` followed by suit code `i / 13`. Sample entries are spelled out in `Deck.CardDeckSamples`.
- `Rooms.Server.DealCards`: requires that its deck come from the canonical one, which is what its only caller passes. This keeps the class invariant (remaining decks hold canonical cards).
- Card identifiers are JavaScript strings of UTF-16 code units. Here they are `seq<char>` of code points, so for an identifier ending in a character outside the Basic Multilingual Plane, `CardFace.Suit` yields that whole character where `slice(-1)` yields a lone low surrogate.
- The `|| ""` fallback on the rank in `Card.tsx` is not modelled separately, because `slice` already returns a string and the fallback can only replace "" with "".
- `Rooms.MessageSent`: uses the own-key test. send-message has the same inherited-name lookup as join-room (see Findings), so as written it too throws for such ids.

## Findings

| source | as written | input that shows it | evidently intended | confidence | as-written member | corrected member |
|---|---|---|---|---|---|---|
| backend/server.js:54-63 | the registry is a plain object and "room exists" is `rooms[roomId]` being truthy, so an id that names an inherited property passes the test, no room is created, and `rooms[roomId].users.push` throws | join-room with roomId "constructor" (or "toString", "__proto__") on an empty registry | a registry with no inherited keys (a `Map` or `Object.create(null)`), as the model's `map` is: create the room and seat the joiner for every id | not executed | Rooms.JoinAsWritten, Rooms.JoinConstructorThrows | Rooms.Joined, Rooms.JoinAlwaysSeats |
| backend/server.js:96 | a hand is sent with `io.to(user.socketId)`, which addresses the group named by that string; join-room lets any connection join a group of any name (:66), and room-update lists every member's connection id (:69), so a connection that joins the group named by another member's id receives that member's hand | members A and B in room R1, a connection C that joins a room named "A", then A starts R1 | the hand reaches its owner's connection only (for example `socket.emit` on that connection), whatever groups exist | not executed | Rooms.AudienceAsWritten, Rooms.SocketAndRoomCollide, Rooms.HandLeaksAsWritten | Rooms.Audience, Rooms.HandsReachOwnersOnly |
