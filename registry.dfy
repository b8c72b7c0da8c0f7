/**
 * The in-memory room registry of the AuxServer socket server: the
 * `activeServers` dictionary, which maps a room code to the ordered list of
 * users in that room, and the four socket handlers that read or change it.
 * Every emit of a handler is returned as an `Emit` value instead of being sent.
 */
module AuxServer {
  import opened RoomCodes

  /** Largest number of users a room admits (the `< 5` test of joinServer). */
  const Capacity: nat := 5

  /** An entry of a room's `users` list: `{ id: userId, username }`. */
  datatype User = User(id: string, username: string)

  /** The content of `activeServers`: room code to user list. */
  type Rooms = map<string, seq<User>>

  /** Where an emit goes: the calling socket only, or every socket joined to a room. */
  datatype Target = Caller | Room(code: string)

  /** The socket events the handlers emit, with their payloads. */
  datatype Event =
    | ServerCreated(serverCode: string)
    | UserJoined(users: seq<User>)
    | ServerFull
    | UserLeft(users: seq<User>)
    | UserList(users: seq<User>)

  datatype Emit = Emit(target: Target, event: Event)

  datatype Option<T> = None | Some(value: T)

  /** Every stored room has a well-formed code and holds between 1 and Capacity users. */
  predicate RoomsValid(rooms: Rooms) {
    forall code :: code in rooms ==> IsRoomCode(code) && 1 <= |rooms[code]| <= Capacity
  }

  /** The guard of joinServer: the room exists and has room for one more user. */
  predicate CanJoin(rooms: Rooms, code: string) {
    code in rooms && |rooms[code]| < Capacity
  }

  /**
   * The filter of leaveServer: the users whose id differs from `userId`, in
   * their original order. Multiplicities of the kept users are unchanged and
   * every user with that id is gone.
   */
  function Without(users: seq<User>, userId: string): (rest: seq<User>)
    ensures |rest| <= |users|
    ensures forall u :: multiset(rest)[u] == if u.id == userId then 0 else multiset(users)[u]
  {
    if users == [] then []
    else
      assert users == [users[0]] + users[1..];
      var tail := Without(users[1..], userId);
      if users[0].id == userId then tail else [users[0]] + tail
  }

  /** Filtering distributes over concatenation: the relative order of kept users is preserved. */
  lemma {:induction false} WithoutAppend(a: seq<User>, b: seq<User>, userId: string)
    ensures Without(a + b, userId) == Without(a, userId) + Without(b, userId)
    decreases |a|
  {
    if a == [] {
      assert a + b == b;
    } else {
      var ab := a + b;
      assert ab[0] == a[0] && ab[1..] == a[1..] + b;
      WithoutAppend(a[1..], b, userId);
      if a[0].id == userId {
        assert Without(ab, userId) == Without(a[1..], userId) + Without(b, userId);
      } else {
        calc {
          Without(ab, userId);
          [a[0]] + Without(a[1..] + b, userId);
          [a[0]] + (Without(a[1..], userId) + Without(b, userId));
          ([a[0]] + Without(a[1..], userId)) + Without(b, userId);
        }
      }
    }
  }

  /** Filtering out an id no user carries leaves the list as it was. */
  lemma {:induction false} WithoutAbsent(users: seq<User>, userId: string)
    requires forall i :: 0 <= i < |users| ==> users[i].id != userId
    ensures Without(users, userId) == users
    decreases |users|
  {
    if users != [] {
      WithoutAbsent(users[1..], userId);
    }
  }

  /** Leaving twice is the same as leaving once. */
  lemma {:induction false} WithoutIdempotent(users: seq<User>, userId: string)
    ensures Without(Without(users, userId), userId) == Without(users, userId)
  {
    var rest := Without(users, userId);
    forall i | 0 <= i < |rest| ensures rest[i].id != userId {
      assert rest[i] in multiset(rest);
    }
    WithoutAbsent(rest, userId);
  }

  /** Leaves by two ids commute: the outcome does not depend on their order. */
  lemma {:induction false} WithoutCommutes(users: seq<User>, a: string, b: string)
    ensures Without(Without(users, a), b) == Without(Without(users, b), a)
    decreases |users|
  {
    if users != [] {
      WithoutCommutes(users[1..], a, b);
      var u := users[0];
      var ta := Without(users[1..], a);
      var tb := Without(users[1..], b);
      if u.id != a {
        WithoutAppend([u], ta, b);
      }
      if u.id != b {
        WithoutAppend([u], tb, a);
      }
    }
  }

  /** A user who joins and then leaves by the same id leaves the room as the filter of the earlier list. */
  lemma {:induction false} JoinThenLeave(users: seq<User>, userId: string, username: string)
    ensures Without(users + [User(userId, username)], userId) == Without(users, userId)
  {
    WithoutAppend(users, [User(userId, username)], userId);
    assert Without([User(userId, username)], userId) == [];
  }

  /**
   * The first draw, in order, whose code is not already a key of `rooms`:
   * the retry loop a collision-free createServer needs.
   */
  function FirstFree(rooms: Rooms, draws: seq<int>): (code: Option<string>)
    requires forall i :: 0 <= i < |draws| ==> 0 <= draws[i] < CodeSpan
    ensures code.Some? ==> IsRoomCode(code.value) && code.value !in rooms
    ensures code.None? <==> forall i :: 0 <= i < |draws| ==> GenerateUniqueCode(draws[i]) in rooms
    ensures code.Some? ==>
      exists j :: 0 <= j < |draws| && code.value == GenerateUniqueCode(draws[j])
                  && forall i :: 0 <= i < j ==> GenerateUniqueCode(draws[i]) in rooms
    decreases |draws|
  {
    if draws == [] then None
    else
      var code := GenerateUniqueCode(draws[0]);
      if code !in rooms then Some(code)
      else
        var rest := FirstFree(rooms, draws[1..]);
        assert forall i :: 1 <= i < |draws| ==> draws[i] == draws[1..][i - 1];
        assert rest.Some? ==> exists j :: 1 <= j < |draws| && rest.value == GenerateUniqueCode(draws[j])
                                 && forall i :: 0 <= i < j ==> GenerateUniqueCode(draws[i]) in rooms;
        rest
  }

  /** The `activeServers` dictionary together with the handlers that update it in place. */
  class ServerRegistry {
    var servers: Rooms

    ghost predicate Valid()
      reads this
    {
      RoomsValid(servers)
    }

    /** `const activeServers = {}`. */
    constructor ()
      ensures Valid() && servers == map[]
    {
      servers := map[];
    }

    /**
     * createServer: stores a room holding only the creator under a freshly
     * drawn code, replacing whatever room had that code, and announces it.
     */
    method CreateServer(username: string, userId: string, r: int) returns (serverCode: string, emits: seq<Emit>)
      requires Valid()
      requires 0 <= r < CodeSpan
      modifies this
      ensures Valid()
      ensures serverCode == GenerateUniqueCode(r)
      ensures servers == old(servers)[serverCode := [User(userId, username)]]
      ensures servers - {serverCode} == old(servers) - {serverCode}
      ensures emits == [Emit(Caller, ServerCreated(serverCode)),
                        Emit(Room(serverCode), UserJoined([User(userId, username)]))]
    {
      serverCode := GenerateUniqueCode(r);
      servers := servers[serverCode := []];
      servers := servers[serverCode := servers[serverCode] + [User(userId, username)]];
      assert [] + [User(userId, username)] == [User(userId, username)];
      emits := [Emit(Caller, ServerCreated(serverCode)), Emit(Room(serverCode), UserJoined(servers[serverCode]))];
    }

    /**
     * joinServer: appends the user to an existing room that holds fewer than
     * Capacity users; a missing room and a full room both get `serverFull`.
     * No duplicate-id check is made.
     */
    method JoinServer(serverCode: string, username: string, userId: string) returns (emits: seq<Emit>)
      requires Valid()
      modifies this
      ensures Valid()
      ensures CanJoin(old(servers), serverCode) ==>
        && servers == old(servers)[serverCode := old(servers)[serverCode] + [User(userId, username)]]
        && emits == [Emit(Room(serverCode), UserJoined(servers[serverCode]))]
      ensures !CanJoin(old(servers), serverCode) ==>
        servers == old(servers) && emits == [Emit(Caller, ServerFull)]
      ensures servers - {serverCode} == old(servers) - {serverCode}
    {
      if serverCode in servers && |servers[serverCode]| < Capacity {
        servers := servers[serverCode := servers[serverCode] + [User(userId, username)]];
        emits := [Emit(Room(serverCode), UserJoined(servers[serverCode]))];
      } else {
        emits := [Emit(Caller, ServerFull)];
      }
    }

    /**
     * leaveServer: drops every user with the given id from an existing room,
     * tells the room, and deletes the room once no user is left. A missing
     * room is left alone and nothing is emitted.
     */
    method LeaveServer(serverCode: string, userId: string) returns (emits: seq<Emit>)
      requires Valid()
      modifies this
      ensures Valid()
      ensures serverCode !in old(servers) ==> servers == old(servers) && emits == []
      ensures serverCode in old(servers) ==>
        var rest := Without(old(servers)[serverCode], userId);
        && emits == [Emit(Room(serverCode), UserLeft(rest))]
        && (serverCode !in servers <==> rest == [])
        && (rest != [] ==> servers[serverCode] == rest)
      ensures servers - {serverCode} == old(servers) - {serverCode}
    {
      if serverCode in servers {
        servers := servers[serverCode := Without(servers[serverCode], userId)];
        emits := [Emit(Room(serverCode), UserLeft(servers[serverCode]))];
        if |servers[serverCode]| == 0 {
          servers := servers - {serverCode};
        }
      } else {
        emits := [];
      }
    }

    /** getUsers: replies to the caller alone with the room's users; a missing room gets no reply. */
    method GetUsers(serverCode: string) returns (emits: seq<Emit>)
      ensures serverCode in servers ==> emits == [Emit(Caller, UserList(servers[serverCode]))]
      ensures serverCode !in servers ==> emits == []
    {
      if serverCode in servers {
        emits := [Emit(Caller, UserList(servers[serverCode]))];
      } else {
        emits := [];
      }
    }

    /**
     * createServer with the collision check its helper's name promises: each
     * draw of `draws` is a retry, and the first code not already in use is
     * taken. No existing room is ever replaced; when every draw collides,
     * nothing changes and nothing is emitted.
     */
    method CreateServerFresh(username: string, userId: string, draws: seq<int>)
      returns (serverCode: Option<string>, emits: seq<Emit>)
      requires Valid()
      requires forall i :: 0 <= i < |draws| ==> 0 <= draws[i] < CodeSpan
      modifies this
      ensures Valid()
      ensures serverCode == FirstFree(old(servers), draws)
      ensures serverCode.Some? ==>
        && serverCode.value !in old(servers)
        && servers == old(servers)[serverCode.value := [User(userId, username)]]
        && emits == [Emit(Caller, ServerCreated(serverCode.value)),
                     Emit(Room(serverCode.value), UserJoined([User(userId, username)]))]
      ensures serverCode.None? ==> servers == old(servers) && emits == []
    {
      var i := 0;
      while i < |draws|
        invariant 0 <= i <= |draws|
        invariant servers == old(servers)
        invariant FirstFree(servers, draws[i..]) == FirstFree(servers, draws)
      {
        var code := GenerateUniqueCode(draws[i]);
        if code !in servers {
          servers := servers[code := [User(userId, username)]];
          serverCode := Some(code);
          emits := [Emit(Caller, ServerCreated(code)), Emit(Room(code), UserJoined([User(userId, username)]))];
          return;
        }
        assert draws[i..][1..] == draws[i + 1..];
        i := i + 1;
      }
      serverCode := None;
      emits := [];
    }
  }

  /**
   * Two createServer calls whose draws give the same code: the second one
   * silently replaces the first room, and the users who were in it are gone.
   */
  method CollidingCreateDropsRoom() returns (survivors: seq<User>)
    ensures survivors == [User("c", "carol")]
  {
    var registry := new ServerRegistry();
    var code, _ := registry.CreateServer("alice", "a", 23456);
    var _ := registry.JoinServer(code, "bob", "b");
    assert registry.servers[code] == [User("a", "alice"), User("b", "bob")];
    var again, _ := registry.CreateServer("carol", "c", 23456);
    survivors := registry.servers[code];
  }

  /** A room filled to Capacity by its creator and four joins refuses the next join with `serverFull`. */
  method FullRoomRefusesJoin() returns (reply: seq<Emit>, users: seq<User>)
    ensures reply == [Emit(Caller, ServerFull)]
    ensures |users| == Capacity && users[0] == User("u1", "host")
  {
    var registry := new ServerRegistry();
    var code, _ := registry.CreateServer("host", "u1", 0);
    var _ := registry.JoinServer(code, "two", "u2");
    var _ := registry.JoinServer(code, "three", "u3");
    var _ := registry.JoinServer(code, "four", "u4");
    var _ := registry.JoinServer(code, "five", "u5");
    reply := registry.JoinServer(code, "six", "u6");
    users := registry.servers[code];
  }
}
