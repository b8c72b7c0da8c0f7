# AuxServer room registry in Dafny

AuxServer is a small Node.js socket.io server that hosts "listening rooms".
Its whole state is one in-memory dictionary, `activeServers`. It maps a
six-digit room code to `{ users: [...] }`, where each user is `{ id, username }`.
Four socket handlers read or change that dictionary:

- `createServer` draws a code and stores a room holding only the creator.
- `joinServer` appends a user when the room exists and has fewer than 5 users.
  Otherwise it replies `serverFull`.
- `leaveServer` removes every user with the given id and deletes the room once it is empty.
- `getUsers` replies to the caller with the room's users.

This project models that registry and proves its properties:

- `room_codes.dfy` (module `RoomCodes`) models `generateUniqueCode`.
  The random draw becomes an integer parameter `r` in `[0, 900000)`.
  The code is the decimal rendering of `100000 + r`. The rendering and its
  inverse are written out, so the six-digit shape of a code is proved.
- `registry.dfy` (module `AuxServer`) models the registry.
  Class `ServerRegistry` has the field `servers: map<string, seq<User>>`, and
  each handler is a method that updates it in place. Each method returns the
  events the handler emits, as a sequence of `Emit` values. Each value names a
  target (the calling socket, or every socket in a room) and an event with its
  payload. Every method keeps the object invariant `Valid()`: every stored
  room has a six-digit code and holds between 1 and 5 users. Every method also
  states that no entry other than its own `serverCode` changes.

The repository's documentation also describes a host record, heartbeats, phase timers and voting. None of these is in index.js, and where the documentation and index.js disagree, the model follows the code:

- The capacity is the literal 5 of `joinServer`.
- There is no host record. The creator is an ordinary first entry of `users`.
  The room lives until its list is empty, whoever leaves.
- A missing room and a full room both get `serverFull`. There is no separate "not found" reply.
- `leaveServer` on a missing room emits nothing.
- Code generation makes one draw and has no collision check (see Findings).

## Model

| member | source | states |
|---|---|---|
| `RoomCodes.Decimal` | index.js:61 | the string form of a non-negative integer is a non-empty digit string whose first digit is '0' exactly when the number is 0 |
| `RoomCodes.ValueOfDecimal` | index.js:61 | reading back the decimal string of `n` gives `n` |
| `RoomCodes.DecimalOfValue` | index.js:61 | a digit string with no leading zero is the decimal string of the number it denotes (the other direction of the round trip) |
| `RoomCodes.DecimalLength` | index.js:60-61 | a number in `[10^(k-1), 10^k)` is rendered as exactly `k` characters |
| `RoomCodes.ValueLeadingDigit` | index.js:60-61 | a digit string with a non-zero leading digit denotes at least `10^(len-1)` |
| `RoomCodes.GenerateUniqueCode` | index.js:59-62 | the code for draw `r` is six decimal digits without a leading zero, and its value is `100000 + r`, so it lies in 100000..999999 |
| `RoomCodes.EveryRoomCodeGenerated` | index.js:59-62 | every six-digit string without a leading zero is the code of exactly the draw `value - 100000`, so the codes are precisely those strings |
| `AuxServer.Without` | index.js:43 | the filter keeps no user whose id equals `userId`, keeps every other user with its multiplicity, and is never longer than the input |
| `AuxServer.WithoutAppend` | index.js:43 | the filter distributes over concatenation, so it keeps the relative order of the users it keeps |
| `AuxServer.WithoutAbsent` | index.js:43 | leaving with an id that no user in the room carries leaves the user list unchanged |
| `AuxServer.WithoutIdempotent` | index.js:43 | a second `leaveServer` with the same id changes nothing more |
| `AuxServer.WithoutCommutes` | index.js:43 | two leaves with different ids give the same list in either order |
| `AuxServer.JoinThenLeave` | index.js:32-43 | a user appended by `joinServer` and then removed by `leaveServer` with the same id leaves the filter of the earlier list |
| `AuxServer.ServerRegistry.constructor` | index.js:9 | the registry starts empty and valid |
| `AuxServer.ServerRegistry.CreateServer` | index.js:19-26 | the room under the drawn code becomes exactly `[{id: userId, username}]` and replaces any room with that code. No other entry changes. The caller gets `serverCreated` and the room gets `userJoined` with the one-user list. The 1..5 invariant holds afterwards |
| `AuxServer.ServerRegistry.JoinServer` | index.js:28-38 | it succeeds exactly when the room exists and holds fewer than 5 users. On success the user is appended at the end with no duplicate-id check, and the room gets `userJoined` with the new list. Otherwise the registry is unchanged and the caller alone gets `serverFull`. Only the entry for `serverCode` may change, and the invariant holds |
| `AuxServer.ServerRegistry.LeaveServer` | index.js:40-49 | on a missing room nothing changes and nothing is emitted. On an existing room the room gets `userLeft` with the filtered list, and the room is deleted exactly when that list is empty. Otherwise the room stores that list. Only that entry may change, and the invariant holds |
| `AuxServer.ServerRegistry.GetUsers` | index.js:51-56 | the caller alone gets `userList` with the room's users when the room exists, and nothing otherwise. It changes nothing, since it has no `modifies` clause |
| `AuxServer.FullRoomRefusesJoin` | index.js:28-38 | after the creator and four joins the room holds 5 users with the creator first, and a sixth join is answered with `serverFull` |
| `AuxServer.CollidingCreateDropsRoom` | index.js:19-22 | two `createServer` calls whose draws coincide leave only the second creator in the room, so the first room's users are lost |
| `AuxServer.FirstFree` | index.js:59-62 | a result is the code of some draw `j` that is well-formed and not in use, and the code of every draw before `j` is already in use, so it is the first free draw. The result is "none" exactly when every draw's code is already taken |
| `AuxServer.ServerRegistry.CreateServerFresh` | index.js:19-26 | the collision-checked create. It takes `FirstFree` of the draws, so it never replaces an existing room. It inserts the one-user room under that code and emits as `createServer` does. When every draw collides it changes nothing and emits nothing |

## Left out

- The Express app, the `/activeServers` HTTP route, `server.listen` and its console output (index.js:1-16, 64-69): bootstrap and I/O.
- Socket subscription (`socket.join`, index.js:23, 33). The model does not track which sockets belong to which room. It only records that an emit goes to a room. A leaving socket is never unsubscribed in the source either.
- `Math.random` and the floating-point arithmetic of index.js:60 become the integer draw `r` with `0 <= r < 900000`. `r` is the value of the drawn code minus 100000; the floating-point rounding of `100000 + Math.random() * 900000` is not modelled, and every value in that range is treated as a possible draw.
- Dictionary keys inherited from `Object.prototype` (`toString`, `constructor`, `__proto__`, …) are not modelled. A client could send such a key as `serverCode` and find a truthy non-room value. The model treats the registry as a map of its own keys only.
- User ids and codes are modelled as strings compared by value. Payloads whose `userId` has another JavaScript type, and the loose conversion of a numeric `serverCode` to a property name, are not modelled.
- CreateServerFresh: the unbounded retry of a collision-free generator is cut at the given sequence of draws. When all of them collide, it reports "none".
- Heartbeats, phase timers, song requests, vote tallies, a separate host record and the queue list are not in index.js, so they are not modelled.

## Findings

| source | as written | input that shows it | evidently intended | confidence | as-written member | corrected member |
|---|---|---|---|---|---|---|
| index.js:20-21 | `generateUniqueCode` never consults `activeServers`, and `createServer` assigns `activeServers[serverCode]` unconditionally | a room "123456" holding alice and bob, then a `createServer` by carol whose draw yields the code "123456" again (`r = 23456`): the room now holds only carol | a code unique among active rooms, as the function's name says; an existing room is never replaced | medium, not executed | `AuxServer.CollidingCreateDropsRoom` | `AuxServer.ServerRegistry.CreateServerFresh` |
