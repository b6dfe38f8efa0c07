/** `getCommonGames` (server.js:313-336): every lobby member's owned games
    are flattened to appids, the occurrences of each appid are counted in a
    dictionary, the appids counted as often as there are members are kept
    in the dictionary's key order, and the first three are resolved. */
module CommonGames {
  import opened Wrappers
  import opened GameRecord
  import opened Users
  import opened GameCache

  /** The `.slice(0, 3)` applied before resolution. */
  const MaxResolved: nat := 3

  /** `p.flatMap(c => c.appid)` for one member's list. */
  function OwnedAppIds(games: seq<OwnedGame>): (ids: seq<nat>)
    ensures |ids| == |games| && forall i :: 0 <= i < |games| ==> ids[i] == games[i].appid
  {
    if games == [] then [] else [games[0].appid] + OwnedAppIds(games[1..])
  }

  /** `games.flatMap(p => p.flatMap(c => c.appid))`: all members' appids. */
  function AllAppIds(memberGames: seq<seq<OwnedGame>>): seq<nat> {
    if memberGames == [] then [] else OwnedAppIds(memberGames[0]) + AllAppIds(memberGames[1..])
  }

  /** The total number of times `appId` occurs across all members' lists. */
  function Occurrences(memberGames: seq<seq<OwnedGame>>, appId: nat): nat {
    multiset(AllAppIds(memberGames))[appId]
  }

  /** The `count` dictionary once the `forEach` is done. */
  function Tally(all: seq<nat>): map<nat, nat> {
    map x | x in all :: multiset(all)[x]
  }

  /** The `forEach` of server.js:317: `count[i] = (count[i] || 0) + 1` for
      every appid, in order. */
  method CountOccurrences(all: seq<nat>) returns (count: map<nat, nat>)
    ensures forall x :: x in count <==> x in all
    ensures forall x :: x in count ==> count[x] == multiset(all)[x]
  {
    count := map[];
    for i := 0 to |all|
      invariant forall x :: x in count <==> x in all[..i]
      invariant forall x :: x in count ==> count[x] == multiset(all[..i])[x]
    {
      var id := all[i];
      assert all[..i + 1] == all[..i] + [id];
      count := count[id := (if id in count then count[id] else 0) + 1];
    }
    assert all[..|all|] == all;
  }

  predicate Increasing(s: seq<nat>) {
    forall i, j :: 0 <= i < j < |s| ==> s[i] < s[j]
  }

  predicate IsLeast(m: nat, s: set<nat>) {
    m in s && forall y :: y in s ==> m <= y
  }

  lemma {:induction false} HasLeast(s: set<nat>)
    requires s != {}
    ensures exists m :: IsLeast(m, s)
    decreases |s|
  {
    var x :| x in s;
    if s == {x} {
      assert IsLeast(x, s);
    } else {
      var rest := s - {x};
      HasLeast(rest);
      var m :| IsLeast(m, rest);
      var lo := if x < m then x else m;
      forall y | y in s ensures lo <= y {
        if y != x { assert y in rest; }
      }
      assert IsLeast(lo, s);
    }
  }

  function SetMin(s: set<nat>): (m: nat)
    requires s != {}
    ensures IsLeast(m, s)
  {
    HasLeast(s);
    var m :| IsLeast(m, s); m
  }

  /** `Object.keys(count)`: for keys that are array indices, as appids are,
      the keys in ascending numeric order. */
  function SortedKeys(keys: set<nat>): (r: seq<nat>)
    ensures forall x :: x in r <==> x in keys
    ensures Increasing(r)
    decreases |keys|
  {
    if keys == {} then []
    else
      var m := SetMin(keys);
      [m] + SortedKeys(keys - {m})
  }

  /** `.filter(id => count[id] == n)`. */
  function KeepCounted(ids: seq<nat>, count: map<nat, nat>, n: nat): (r: seq<nat>)
    ensures forall x :: x in r <==> x in ids && x in count && count[x] == n
    ensures Increasing(ids) ==> Increasing(r)
  {
    if ids == [] then []
    else
      var rest := KeepCounted(ids[1..], count, n);
      var head := if ids[0] in count && count[ids[0]] == n then [ids[0]] else [];
      assert Increasing(ids) ==> Increasing(head + rest) by {
        if Increasing(ids) {
          assert Increasing(ids[1..]);
          forall y | y in rest ensures ids[0] < y {
            var k :| 0 <= k < |ids[1..]| && ids[1..][k] == y;
            assert ids[k + 1] == y;
          }
          ConsIncreasing(head, rest);
        }
      }
      head + rest
  }

  lemma ConsIncreasing(head: seq<nat>, rest: seq<nat>)
    requires |head| <= 1 && Increasing(rest)
    requires forall x, y :: x in head && y in rest ==> x < y
    ensures Increasing(head + rest)
  {
    if |head| == 1 {
      forall i, j | 0 <= i < j < |head + rest| ensures (head + rest)[i] < (head + rest)[j] {
        assert (head + rest)[j] == rest[j - 1] && rest[j - 1] in rest;
        if i == 0 {
          assert (head + rest)[0] == head[0] && head[0] in head;
        } else {
          assert (head + rest)[i] == rest[i - 1];
        }
      }
    }
  }

  /** `.slice(0, 3)`. */
  function FirstResolved(ids: seq<nat>): (r: seq<nat>)
    ensures r <= ids && |r| <= MaxResolved
    ensures |r| < MaxResolved ==> r == ids
  {
    if |ids| < MaxResolved then ids else ids[..MaxResolved]
  }

  /** `Object.keys(count).filter(id => count[id] == games.length)`. */
  function CountedAsMembers(memberGames: seq<seq<OwnedGame>>): seq<nat> {
    var count := Tally(AllAppIds(memberGames));
    KeepCounted(SortedKeys(count.Keys), count, |memberGames|)
  }

  /** The appids `getCommonGames` passes to `resolveGameInfos`. */
  function CommonAppIds(memberGames: seq<seq<OwnedGame>>): seq<nat> {
    FirstResolved(CountedAsMembers(memberGames))
  }

  /** Before the slice: exactly the appids occurring as many times as there
      are member lists, in ascending order; none for an empty lobby. */
  lemma CountedAsMembersIff(memberGames: seq<seq<OwnedGame>>)
    ensures Increasing(CountedAsMembers(memberGames))
    ensures forall x :: x in CountedAsMembers(memberGames) <==>
      |memberGames| > 0 && Occurrences(memberGames, x) == |memberGames|
  {
    var all := AllAppIds(memberGames);
    forall x ensures x in CountedAsMembers(memberGames) <==>
      |memberGames| > 0 && Occurrences(memberGames, x) == |memberGames|
    {
      if Occurrences(memberGames, x) > 0 { assert x in all; }
    }
  }

  /** The slice of an ascending list keeps at most three of its ids, in
      order; an id it drops comes after three smaller kept ones. */
  lemma FirstResolvedOfIncreasing(ids: seq<nat>)
    requires Increasing(ids)
    ensures var r := FirstResolved(ids);
      && |r| <= MaxResolved
      && Increasing(r)
      && (forall x :: x in r ==> x in ids)
      && (forall x :: x in ids && x !in r ==> |r| == MaxResolved && forall y :: y in r ==> y < x)
  {
    var r := FirstResolved(ids);
    forall x | x in ids && x !in r
      ensures |r| == MaxResolved && forall y :: y in r ==> y < x
    {
      var k :| 0 <= k < |ids| && ids[k] == x;
      assert k >= MaxResolved;
      forall y | y in r ensures y < x {
        var j :| 0 <= j < |r| && r[j] == y;
        assert ids[j] == y;
      }
    }
  }

  /** An appid counted as often as there are member lists, which is what
      `getCommonGames` tests. It is not ownership: a library that lists an
      appid twice counts twice (`CountIsIntersection` says when the two
      agree). */
  predicate CountedPerMember(memberGames: seq<seq<OwnedGame>>, x: nat) {
    |memberGames| > 0 && Occurrences(memberGames, x) == |memberGames|
  }

  /** An appid is selected for resolution only when it occurs as many
      times as there are member lists, and then only if it is among the
      three smallest such appids; the selection is in ascending order, so an
      empty lobby selects nothing. */
  lemma CommonAppIdsSelection(memberGames: seq<seq<OwnedGame>>)
    ensures var r := CommonAppIds(memberGames);
      && |r| <= MaxResolved
      && Increasing(r)
      && (forall x :: x in r ==> CountedPerMember(memberGames, x))
      && (forall x :: CountedPerMember(memberGames, x) && x !in r ==>
            |r| == MaxResolved && forall y :: y in r ==> y < x)
  {
    var common := CountedAsMembers(memberGames);
    CountedAsMembersIff(memberGames);
    FirstResolvedOfIncreasing(common);
  }

  lemma {:induction false} AllAppIdsOfMember(memberGames: seq<seq<OwnedGame>>, x: nat)
    ensures multiset(AllAppIds(memberGames))[x] ==
      if memberGames == [] then 0
      else multiset(OwnedAppIds(memberGames[0]))[x] + multiset(AllAppIds(memberGames[1..]))[x]
  {
  }

  predicate NoDuplicates(s: seq<nat>) {
    forall i, j :: 0 <= i < j < |s| ==> s[i] != s[j]
  }

  lemma {:induction false} NoDuplicatesCountsOnce(s: seq<nat>, x: nat)
    requires NoDuplicates(s)
    ensures multiset(s)[x] == if x in s then 1 else 0
  {
    if s != [] {
      assert s == [s[0]] + s[1..];
      assert NoDuplicates(s[1..]) by {
        forall i, j | 0 <= i < j < |s[1..]| ensures s[1..][i] != s[1..][j] {
          assert s[1..][i] == s[i + 1] && s[1..][j] == s[j + 1];
        }
      }
      NoDuplicatesCountsOnce(s[1..], x);
      if s[0] == x {
        forall k | 0 <= k < |s[1..]| ensures s[1..][k] != x {
          assert s[1..][k] == s[k + 1];
        }
      }
    }
  }

  /** When no member lists an appid twice, "counted as often as there are
      members" means "owned by every member": the count is the set
      intersection of the libraries. */
  lemma {:induction false} CountIsIntersection(memberGames: seq<seq<OwnedGame>>, x: nat)
    requires forall k :: 0 <= k < |memberGames| ==> NoDuplicates(OwnedAppIds(memberGames[k]))
    ensures Occurrences(memberGames, x) <= |memberGames|
    ensures Occurrences(memberGames, x) == |memberGames| <==>
      forall k :: 0 <= k < |memberGames| ==> x in OwnedAppIds(memberGames[k])
  {
    if memberGames != [] {
      var rest := memberGames[1..];
      AllAppIdsOfMember(memberGames, x);
      NoDuplicatesCountsOnce(OwnedAppIds(memberGames[0]), x);
      assert forall k :: 0 <= k < |rest| ==> rest[k] == memberGames[k + 1];
      CountIsIntersection(rest, x);
      if forall k :: 0 <= k < |rest| ==> x in OwnedAppIds(rest[k]) {
        if x in OwnedAppIds(memberGames[0]) {
          forall k | 0 <= k < |memberGames| ensures x in OwnedAppIds(memberGames[k]) {
            if k > 0 { assert memberGames[k] == rest[k - 1]; }
          }
        }
      }
    }
  }

  /** The callback of `getCommonGames` gets one record per selected appid:
      at most three, each for an appid counted as often as there are
      members. */
  lemma CommonGamesDelivered(memberGames: seq<seq<OwnedGame>>, store: map<nat, Game>, fetch: Fetcher)
    requires WellKeyed(store)
    requires Resolve(store, CommonAppIds(memberGames), fetch).delivered.Some?
    ensures var games := Resolve(store, CommonAppIds(memberGames), fetch).delivered.value;
      && |games| <= MaxResolved
      && forall g :: g in games ==> CountedPerMember(memberGames, g.appId)
  {
    CommonAppIdsSelection(memberGames);
    DeliveredAreRequested(store, CommonAppIds(memberGames), fetch);
  }

  /** When no library lists an appid twice, every record the callback of
      `getCommonGames` gets is for a game that every member owns. */
  lemma CommonGamesOwnedByEveryMember(memberGames: seq<seq<OwnedGame>>, store: map<nat, Game>, fetch: Fetcher)
    requires WellKeyed(store)
    requires forall k :: 0 <= k < |memberGames| ==> NoDuplicates(OwnedAppIds(memberGames[k]))
    requires Resolve(store, CommonAppIds(memberGames), fetch).delivered.Some?
    ensures var games := Resolve(store, CommonAppIds(memberGames), fetch).delivered.value;
      forall g, k :: g in games && 0 <= k < |memberGames| ==> g.appId in OwnedAppIds(memberGames[k])
  {
    var games := Resolve(store, CommonAppIds(memberGames), fetch).delivered.value;
    CommonGamesDelivered(memberGames, store, fetch);
    forall g, k | g in games && 0 <= k < |memberGames|
      ensures g.appId in OwnedAppIds(memberGames[k])
    {
      CountIsIntersection(memberGames, g.appId);
    }
  }

  /** `getCommonGames(games, callback)` over the members' owned-games lists:
      the appids it selects, the ids fetched, what the callback receives
      (`None`: never called), with the store updated by the resolution. */
  method GetCommonGames(memberGames: seq<seq<OwnedGame>>, store: GameStore, fetch: Fetcher)
    returns (selected: seq<nat>, fetched: seq<nat>, delivered: Option<seq<Game>>)
    requires store.Valid()
    modifies store
    ensures store.Valid()
    ensures selected == CommonAppIds(memberGames)
    ensures Resolution(fetched, delivered, store.games) == Resolve(old(store.games), selected, fetch)
  {
    var allGames := AllAppIds(memberGames);
    var count := CountOccurrences(allGames);
    assert count == Tally(allGames);
    var keys := SortedKeys(count.Keys);
    var common := KeepCounted(keys, count, |memberGames|);
    assert common == CountedAsMembers(memberGames);
    selected := FirstResolved(common);
    fetched, delivered := store.ResolveGameInfos(selected, fetch);
  }
}
