/** The user records of server.js and the find-or-create/update that the
    passport verify callback performs on the user store
    (server.js:37-45, server.js:52-74). */
module Users {
  import opened Wrappers

  /** The part of the identity provider's profile the server reads:
      `displayName` here, `_json.steamid` when the owned games are fetched. */
  datatype Profile = Profile(displayName: string, steamId: string)

  /** One entry of the owned-games list the Steam API returns for a user;
      the common-games computation reads only `appid`. */
  datatype OwnedGame = OwnedGame(appid: nat, name: string)

  /** `new User(openId, username, profilePicture, games, profile)`. */
  datatype User = User(openId: string, username: string, profilePicture: string,
                       games: seq<OwnedGame>, profile: Profile)

  /** The record the verify callback creates for an identifier it has never
      seen: no picture and no games yet. */
  function NewUser(identifier: string, profile: Profile): User {
    User(identifier, profile.displayName, "", [], profile)
  }

  /** `db.users.find({openId: identifier})`: the stored documents whose
      `openId` is the identifier, in store order. */
  function Matching(users: seq<User>, openId: string): (docs: seq<User>)
    ensures |docs| <= |users|
    ensures forall u :: u in docs ==> u in users && u.openId == openId
    ensures forall i :: 0 <= i < |users| && users[i].openId == openId ==> users[i] in docs
  {
    if users == [] then []
    else (if users[0].openId == openId then [users[0]] else []) + Matching(users[1..], openId)
  }

  /** `db.users.update({openId: identifier}, doc)`: every document matching
      the query is replaced by `doc`. */
  function ReplaceMatching(users: seq<User>, openId: string, doc: User): (r: seq<User>)
    ensures |r| == |users|
    ensures forall i :: 0 <= i < |users| ==> r[i] == if users[i].openId == openId then doc else users[i]
  {
    if users == [] then []
    else [if users[0].openId == openId then doc else users[0]] + ReplaceMatching(users[1..], openId, doc)
  }

  /** No two stored users share an `openId`. */
  predicate UniqueOpenIds(users: seq<User>) {
    forall i, j :: 0 <= i < j < |users| ==> users[i].openId != users[j].openId
  }

  /** The store after the verify callback and the user it hands to `done`
      (`None` when it calls `done` without a user). */
  datatype Verified = Verified(users: seq<User>, user: Option<User>)

  /** The verify callback (server.js:52-74): one matching document is
      updated with the new profile and display name; none creates a fresh
      user; more than one is refused and the store is left alone. */
  function VerifyUser(users: seq<User>, identifier: string, profile: Profile): (r: Verified)
    ensures r.user.Some? <==> |Matching(users, identifier)| <= 1
    ensures r.user.None? ==> r.users == users
    ensures r.user.Some? ==>
      && r.user.value.openId == identifier
      && r.user.value.username == profile.displayName
      && r.user.value.profile == profile
      && Matching(r.users, identifier) == [r.user.value]
    ensures Matching(users, identifier) == [] ==>
      && r.user == Some(User(identifier, profile.displayName, "", [], profile))
      && r.users == users + [r.user.value]
    ensures |Matching(users, identifier)| == 1 ==>
      && |r.users| == |users|
      && r.user.value.games == Matching(users, identifier)[0].games
      && r.user.value.profilePicture == Matching(users, identifier)[0].profilePicture
    ensures forall o :: o != identifier ==> Matching(r.users, o) == Matching(users, o)
  {
    var docs := Matching(users, identifier);
    if |docs| == 1 then
      var user := docs[0].(profile := profile, username := profile.displayName);
      var updated := ReplaceMatching(users, identifier, user);
      MatchingReplaced(users, identifier, user);
      assert Matching(updated, identifier) == [user];
      Verified(updated, Some(user))
    else if |docs| == 0 then
      var user := NewUser(identifier, profile);
      MatchingAppend(users, [user], identifier);
      forall o | o != identifier ensures Matching(users + [user], o) == Matching(users, o) {
        MatchingAppend(users, [user], o);
      }
      Verified(users + [user], Some(user))
    else
      Verified(users, None)
  }

  lemma {:induction false} MatchingAppend(a: seq<User>, b: seq<User>, openId: string)
    ensures Matching(a + b, openId) == Matching(a, openId) + Matching(b, openId)
  {
    if a != [] {
      assert (a + b)[1..] == a[1..] + b;
      MatchingAppend(a[1..], b, openId);
    } else {
      assert a + b == b;
    }
  }

  /** Replacing the documents that match `openId` by `doc` (which carries
      that id) turns every match into `doc` and leaves other queries alone. */
  lemma {:induction false} MatchingReplaced(users: seq<User>, openId: string, doc: User)
    requires doc.openId == openId
    ensures Matching(ReplaceMatching(users, openId, doc), openId)
         == seq(|Matching(users, openId)|, _ => doc)
    ensures forall o :: o != openId ==>
      Matching(ReplaceMatching(users, openId, doc), o) == Matching(users, o)
  {
    if users != [] {
      MatchingReplaced(users[1..], openId, doc);
      var r := ReplaceMatching(users, openId, doc);
      assert r[1..] == ReplaceMatching(users[1..], openId, doc);
    }
  }

  lemma {:induction false} NoMatchWhenAbsent(users: seq<User>, openId: string)
    requires forall i :: 0 <= i < |users| ==> users[i].openId != openId
    ensures Matching(users, openId) == []
  {
    if users != [] {
      NoMatchWhenAbsent(users[1..], openId);
    }
  }

  /** With unique identifiers a query finds at most one document. */
  lemma {:induction false} UniqueMatchesAtMostOne(users: seq<User>, openId: string)
    requires UniqueOpenIds(users)
    ensures |Matching(users, openId)| <= 1
  {
    if users != [] {
      var rest := users[1..];
      assert UniqueOpenIds(rest) by {
        forall i, j | 0 <= i < j < |rest| ensures rest[i].openId != rest[j].openId {
          assert rest[i] == users[i + 1] && rest[j] == users[j + 1];
        }
      }
      UniqueMatchesAtMostOne(rest, openId);
      if users[0].openId == openId {
        forall k | 0 <= k < |rest| ensures rest[k].openId != openId {
          assert rest[k] == users[k + 1];
        }
        NoMatchWhenAbsent(rest, openId);
      }
    }
  }

  /** The verify callback keeps `openId` unique in the store, and on such a
      store it always authenticates. */
  lemma VerifyKeepsOpenIdsUnique(users: seq<User>, identifier: string, profile: Profile)
    requires UniqueOpenIds(users)
    ensures VerifyUser(users, identifier, profile).user.Some?
    ensures UniqueOpenIds(VerifyUser(users, identifier, profile).users)
  {
    UniqueMatchesAtMostOne(users, identifier);
    var r := VerifyUser(users, identifier, profile);
    if Matching(users, identifier) == [] {
      assert r.users == users + [NewUser(identifier, profile)];
    } else {
      var docs := Matching(users, identifier);
      assert docs[0] in docs;
      var user := docs[0].(profile := profile, username := profile.displayName);
      assert r.users == ReplaceMatching(users, identifier, user);
      forall i | 0 <= i < |users| ensures r.users[i].openId == users[i].openId {
      }
    }
  }

  /** Replacing the only match by itself changes nothing. */
  lemma {:induction false} ReplaceBySelf(users: seq<User>, openId: string, doc: User)
    requires forall u :: u in Matching(users, openId) ==> u == doc
    ensures ReplaceMatching(users, openId, doc) == users
  {
    var r := ReplaceMatching(users, openId, doc);
    forall i | 0 <= i < |users| ensures r[i] == users[i] {
      if users[i].openId == openId { assert users[i] in Matching(users, openId); }
    }
  }

  /** Logging in twice with the same profile leaves the store as one login
      does; a refused login refuses again on the unchanged store. */
  lemma VerifyIdempotent(users: seq<User>, identifier: string, profile: Profile)
    ensures var once := VerifyUser(users, identifier, profile);
            VerifyUser(once.users, identifier, profile) == once
  {
    var once := VerifyUser(users, identifier, profile);
    if |Matching(users, identifier)| <= 1 {
      var u := once.user.value;
      assert Matching(once.users, identifier) == [u];
      assert u.(profile := profile, username := profile.displayName) == u;
      ReplaceBySelf(once.users, identifier, u);
    }
  }

  /** The user store (`db.users`), in memory. */
  class UserStore {
    var users: seq<User>

    /** The store as loaded from its file. */
    constructor (persisted: seq<User>)
      ensures users == persisted
    {
      users := persisted;
    }

    /** The verify callback of server.js:52-74 with the store lookups done
        in place; the returned user is what is passed to `done`. */
    method Verify(identifier: string, profile: Profile) returns (user: Option<User>)
      modifies this
      ensures Verified(users, user) == VerifyUser(old(users), identifier, profile)
    {
      var docs := Matching(users, identifier);
      if |docs| == 1 {
        var updated := docs[0].(profile := profile, username := profile.displayName);
        users := ReplaceMatching(users, identifier, updated);
        user := Some(updated);
      } else if |docs| == 0 {
        var created := NewUser(identifier, profile);
        users := users + [created];
        user := Some(created);
      } else {
        user := None;
      }
    }
  }
}
