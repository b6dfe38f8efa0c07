/** The lobby registry of server.js: the `lobbies` dictionary of `Lobby`
    objects and the functions that push to, filter and read their member
    lists (server.js:29-35, server.js:122-125, server.js:139-166,
    server.js:352-359). The membership predicates are modelled as the code
    writes them; the identity comparison they evidently meant is defined
    separately below (AddedIfAbsent, RemovedByOpenId). */
module Lobbies {
  import opened Wrappers
  import opened Users

  /** `Array.prototype.find`: the first element satisfying `p`. */
  function Find(us: seq<User>, p: User -> bool): (r: Option<User>)
    ensures r.None? <==> forall i :: 0 <= i < |us| ==> !p(us[i])
    ensures r.Some? ==> exists i :: 0 <= i < |us| && us[i] == r.value && p(us[i])
                                    && forall j :: 0 <= j < i ==> !p(us[j])
  {
    if us == [] then None
    else if p(us[0]) then Some(us[0])
    else Find(us[1..], p)
  }

  /** `Array.prototype.filter`: the elements satisfying `p`, in order. */
  function Filter(us: seq<User>, p: User -> bool): (r: seq<User>)
    ensures |r| <= |us|
    ensures forall u :: u in r <==> u in us && p(u)
    ensures forall u {:trigger multiset(r)[u]} :: multiset(r)[u] == if p(u) then multiset(us)[u] else 0
  {
    if us == [] then []
    else
      assert us == [us[0]] + us[1..];
      (if p(us[0]) then [us[0]] else []) + Filter(us[1..], p)
  }

  /** With `FilterAppend`, this fixes the order of what `filter` keeps: an
      element stays where it was, or goes. */
  lemma FilterSingleton(u: User, p: User -> bool)
    ensures Filter([u], p) == if p(u) then [u] else []
  {
    assert [u][1..] == [];
  }

  lemma {:induction false} FilterKeepsAll(us: seq<User>, p: User -> bool)
    requires forall i :: 0 <= i < |us| ==> p(us[i])
    ensures Filter(us, p) == us
  {
    if us != [] {
      FilterKeepsAll(us[1..], p);
    }
  }

  lemma {:induction false} FilterAppend(a: seq<User>, b: seq<User>, p: User -> bool)
    ensures Filter(a + b, p) == Filter(a, p) + Filter(b, p)
  {
    if a == [] {
      assert a + b == b;
    } else {
      assert (a + b)[1..] == a[1..] + b;
      FilterAppend(a[1..], b, p);
    }
  }

  /** The predicate of server.js:150-151 and server.js:162 as written: the
      parameter of the function expression (server.js:150) and of the arrow
      (server.js:162) shadows the user argument, so every element is
      compared with itself. */
  predicate SelfComparedOpenId(u: User) {
    u.openId == u.openId
  }

  /** `addUserToLobbyIfNeeded` on one member list, as written: `find` with
      the self-comparison returns the first member whenever there is one, so
      the user is appended only to an empty list. */
  function AddedIfNeededAsWritten(us: seq<User>, user: User): (r: seq<User>)
    ensures r == if us == [] then [user] else us
  {
    if Find(us, SelfComparedOpenId).None? then us + [user] else us
  }

  /** `removeUserFromLobby` on one member list, as written: every member is
      "found", so the list is cleared exactly when it has one member, and the
      `user` argument plays no part. */
  function RemovedAsWritten(us: seq<User>, user: User): (r: seq<User>)
    ensures r == if |us| == 1 then [] else us
  {
    var found := Filter(us, SelfComparedOpenId);
    FilterKeepsAll(us, SelfComparedOpenId);
    if |found| == 1 then Filter(us, (u: User) => u != found[0]) else us
  }

  /** Re-adding as written is idempotent. */
  lemma AddedIfNeededAsWrittenIdempotent(us: seq<User>, user: User)
    ensures AddedIfNeededAsWritten(AddedIfNeededAsWritten(us, user), user)
         == AddedIfNeededAsWritten(us, user)
  {
  }

  /** `getLobbyUserNicknames` on one member list: the usernames, in order. */
  function Nicknames(us: seq<User>): (nicks: seq<string>)
    ensures |nicks| == |us|
    ensures forall i :: 0 <= i < |us| ==> nicks[i] == us[i].username
  {
    if us == [] then [] else [us[0].username] + Nicknames(us[1..])
  }

  /** The nickname broadcast after a join lists the newcomer last. */
  lemma NicknamesAppend(us: seq<User>, user: User)
    ensures Nicknames(us + [user]) == Nicknames(us) + [user.username]
  {
  }

  // ---------------------------------------------------------------------
  // The identity comparison the code evidently meant: the candidate's
  // openId against the argument's.

  /** `addUserToLobbyIfNeeded` with `u.openId == user.openId`. */
  function AddedIfAbsent(us: seq<User>, user: User): (r: seq<User>)
    ensures (exists i :: 0 <= i < |us| && us[i].openId == user.openId) ==> r == us
    ensures (forall i :: 0 <= i < |us| ==> us[i].openId != user.openId) ==> r == us + [user]
  {
    if Find(us, (u: User) => u.openId == user.openId).None? then us + [user] else us
  }

  /** The filter predicate of `removeUserFromLobby`: every member except
      the one found. */
  function IsNot(found: User): User -> bool {
    (u: User) => u != found
  }

  /** `removeUserFromLobby` with `u.openId == user.openId`. */
  function RemovedByOpenId(us: seq<User>, user: User): (r: seq<User>)
  {
    var found := Matching(us, user.openId);
    if |found| == 1 then Filter(us, IsNot(found[0])) else us
  }

  /** Joining under the intended comparison keeps identities unique in the
      lobby and is idempotent. */
  lemma AddedIfAbsentKeepsUnique(us: seq<User>, user: User)
    requires UniqueOpenIds(us)
    ensures UniqueOpenIds(AddedIfAbsent(us, user))
    ensures AddedIfAbsent(AddedIfAbsent(us, user), user) == AddedIfAbsent(us, user)
    ensures user.openId in set u | u in AddedIfAbsent(us, user) :: u.openId
  {
    var r := AddedIfAbsent(us, user);
    if forall i :: 0 <= i < |us| ==> us[i].openId != user.openId {
      assert r == us + [user];
      assert r[|us|] == user;
    } else {
      var i :| 0 <= i < |us| && us[i].openId == user.openId;
      assert r[i] == us[i];
    }
  }

  /** Leaving under the intended comparison removes exactly the members with
      the leaver's identity, whoever else is in the lobby. */
  lemma RemovedByOpenIdRemovesLeaver(us: seq<User>, user: User)
    requires UniqueOpenIds(us)
    ensures forall u :: u in RemovedByOpenId(us, user) <==> u in us && u.openId != user.openId
  {
    UniqueMatchesAtMostOne(us, user.openId);
    var found := Matching(us, user.openId);
    forall u | u in us && u.openId == user.openId ensures u in found {
      var i :| 0 <= i < |us| && us[i] == u;
    }
    if |found| == 1 {
      assert found[0] in found;
    }
  }

  /** A join followed by the same user's leave restores the lobby. */
  lemma RemoveUndoesAdd(us: seq<User>, user: User)
    requires forall i :: 0 <= i < |us| ==> us[i].openId != user.openId
    ensures RemovedByOpenId(AddedIfAbsent(us, user), user) == us
  {
    var added := us + [user];
    var p := IsNot(user);
    assert AddedIfAbsent(us, user) == added;
    MatchingAppend(us, [user], user.openId);
    NoMatchWhenAbsent(us, user.openId);
    assert Matching(added, user.openId) == [user];
    assert RemovedByOpenId(added, user) == Filter(added, p);
    FilterAppend(us, [user], p);
    FilterSingleton(user, p);
    assert forall i :: 0 <= i < |us| ==> p(us[i]);
    FilterKeepsAll(us, p);
  }

  /** The bug in the leave predicate: with two members, the one leaving
      stays in the lobby, where the intended comparison removes them. */
  lemma RemovedAsWrittenKeepsLeaver(leaver: User, other: User)
    requires leaver.openId != other.openId
    ensures RemovedAsWritten([leaver, other], leaver) == [leaver, other]
    ensures RemovedByOpenId([leaver, other], leaver) == [other]
  {
    var us := [leaver, other];
    assert us[1..] == [other];
    assert Matching(us, leaver.openId) == [leaver];
    assert Filter(us, IsNot(leaver)) == [other] by {
      assert Filter([other], IsNot(leaver)) == [other];
    }
  }

  /** The bug in the re-join predicate: a second member reconnecting is not
      re-added, where the intended comparison adds them. */
  lemma AddedIfNeededAsWrittenDropsNewcomer(member: User, newcomer: User)
    requires member.openId != newcomer.openId
    ensures AddedIfNeededAsWritten([member], newcomer) == [member]
    ensures AddedIfAbsent([member], newcomer) == [member, newcomer]
  {
  }

  // ---------------------------------------------------------------------
  // The registry itself, with the member lists updated in place.

  /** `class Lobby`. */
  class Lobby {
    const id: string
    var users: seq<User>

    constructor (id: string)
      ensures this.id == id && users == []
    {
      this.id := id;
      users := [];
    }
  }

  /** The `lobbies` dictionary. */
  class Registry {
    var lobbies: map<string, Lobby>

    /** Every lobby is filed under its own id, so two ids never share a
        `Lobby` object. */
    ghost predicate Valid()
      reads this
    {
      forall k :: k in lobbies ==> lobbies[k].id == k
    }

    /** The member list of every lobby. */
    ghost function Members(): map<string, seq<User>>
      reads this, lobbies.Values
    {
      map k | k in lobbies :: lobbies[k].users
    }

    constructor ()
      ensures Valid() && lobbies == map[]
    {
      lobbies := map[];
    }

    /** The `/` route's `lobbies[id] = new Lobby(id)`; the random id is a
        parameter here. */
    method CreateLobby(id: string) returns (lobby: Lobby)
      requires Valid()
      modifies this
      ensures Valid() && fresh(lobby) && lobbies == old(lobbies)[id := lobby]
      ensures Members() == old(Members())[id := []]
    {
      lobby := new Lobby(id);
      lobbies := lobbies[id := lobby];
    }

    /** `assignUserToLobby`: pushes the user onto a known lobby's list, with
        no check for a member already there; an unknown lobby is left as
        it is. */
    method AssignUserToLobby(lobbyId: string, user: User)
      requires Valid()
      modifies if lobbyId in lobbies then {lobbies[lobbyId]} else {}
      ensures Valid() && lobbies == old(lobbies)
      ensures Members() == if lobbyId in old(lobbies)
                           then old(Members())[lobbyId := old(Members())[lobbyId] + [user]]
                           else old(Members())
    {
      if lobbyId in lobbies {
        var lobby := lobbies[lobbyId];
        lobby.users := lobby.users + [user];
      }
    }

    /** `removeUserFromLobby` as written: clears a known lobby that holds
        exactly one member, whoever `user` is, and otherwise changes nothing. */
    method RemoveUserFromLobby(lobbyId: string, user: User)
      requires Valid()
      modifies if lobbyId in lobbies then {lobbies[lobbyId]} else {}
      ensures Valid() && lobbies == old(lobbies)
      ensures Members() == if lobbyId in old(lobbies) && |old(Members())[lobbyId]| == 1
                           then old(Members())[lobbyId := []]
                           else old(Members())
    {
      if lobbyId in lobbies {
        var lobby := lobbies[lobbyId];
        var remaining := RemovedAsWritten(lobby.users, user);
        assert remaining == if |lobby.users| == 1 then [] else lobby.users;
        lobby.users := remaining;
      }
    }

    /** `addUserToLobbyIfNeeded` as written: appends the user only to a known
        lobby whose list is empty. */
    method AddUserToLobbyIfNeeded(lobbyId: string, user: User)
      requires Valid()
      modifies if lobbyId in lobbies then {lobbies[lobbyId]} else {}
      ensures Valid() && lobbies == old(lobbies)
      ensures Members() == if lobbyId in old(lobbies) && old(Members())[lobbyId] == []
                           then old(Members())[lobbyId := [user]]
                           else old(Members())
    {
      if lobbyId in lobbies {
        var lobby := lobbies[lobbyId];
        lobby.users := AddedIfNeededAsWritten(lobby.users, user);
      }
    }

    /** `addUserToLobbyIfNeeded` with the intended comparison: appends the
        user to a known lobby that has no member with the user's `openId`. */
    method AddUserToLobbyIfAbsent(lobbyId: string, user: User)
      requires Valid()
      modifies if lobbyId in lobbies then {lobbies[lobbyId]} else {}
      ensures Valid() && lobbies == old(lobbies)
      ensures Members() == if lobbyId in old(lobbies)
                           then old(Members())[lobbyId := AddedIfAbsent(old(Members())[lobbyId], user)]
                           else old(Members())
    {
      if lobbyId in lobbies {
        var lobby := lobbies[lobbyId];
        lobby.users := AddedIfAbsent(lobby.users, user);
      }
    }

    /** `removeUserFromLobby` with the intended comparison: removes the
        leaver's record from a known lobby. */
    method RemoveUserByOpenId(lobbyId: string, user: User)
      requires Valid()
      modifies if lobbyId in lobbies then {lobbies[lobbyId]} else {}
      ensures Valid() && lobbies == old(lobbies)
      ensures Members() == if lobbyId in old(lobbies)
                           then old(Members())[lobbyId := RemovedByOpenId(old(Members())[lobbyId], user)]
                           else old(Members())
    {
      if lobbyId in lobbies {
        var lobby := lobbies[lobbyId];
        lobby.users := RemovedByOpenId(lobby.users, user);
      }
    }

    /** `getLobbyUserNicknames`: the usernames of a known lobby's members in
        order, or no names for an unknown lobby. */
    function GetLobbyUserNicknames(lobbyId: string): (nicks: seq<string>)
      reads this, lobbies.Values
      ensures lobbyId !in lobbies ==> nicks == []
      ensures lobbyId in lobbies ==>
        |nicks| == |lobbies[lobbyId].users| &&
        forall i :: 0 <= i < |nicks| ==> nicks[i] == lobbies[lobbyId].users[i].username
    {
      if lobbyId in lobbies then Nicknames(lobbies[lobbyId].users) else []
    }
  }
}
