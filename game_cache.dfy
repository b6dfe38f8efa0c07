/** `resolveGameInfos` (server.js:203-251): each requested appid is looked
    up in the games store; hits are collected in request order, misses are
    handed to the fetcher, and once every fetch has succeeded the fetched
    records are inserted and the callback receives the cached records
    followed by the fetched ones. */
module GameCache {
  import opened Wrappers
  import opened GameRecord
  import opened AppDetails

  /** The throttled `getGameInfoApi` request with its `JSON.parse`: the
      parsed `data` of the response, or `None` when the request fails. */
  type Fetcher = nat -> Option<AppData>

  /** The settled `getGameInfoApi(id)` promise. */
  function GameInfoApi(id: nat, fetch: Fetcher): (r: Option<Game>)
    ensures r.Some? <==> fetch(id).Some?
    ensures r.Some? ==> r.value.appId == id && r.value.name == fetch(id).value.name
  {
    match fetch(id)
    case None => None
    case Some(data) => Some(GameFromAppData(id, data))
  }

  /** The store is looked up by the `appId` field of its documents
      (`db.games.find({appId: id})`); keying the map by that field is sound
      when every record sits under its own appId. */
  predicate WellKeyed(store: map<nat, Game>) {
    forall k :: k in store ==> store[k].appId == k
  }

  /** `cachedEntities`: the stored records of the requested ids that hit. */
  function Hits(store: map<nat, Game>, ids: seq<nat>): seq<Game> {
    if ids == [] then []
    else
      var id := ids[|ids| - 1];
      Hits(store, ids[..|ids| - 1]) + (if id in store then [store[id]] else [])
  }

  /** The ids pushed to `promisedEntities`, i.e. handed to the fetcher. */
  function Misses(store: map<nat, Game>, ids: seq<nat>): seq<nat> {
    if ids == [] then []
    else
      var id := ids[|ids| - 1];
      Misses(store, ids[..|ids| - 1]) + (if id in store then [] else [id])
  }

  /** `Promise.all(promisedEntities)`: every record in request order, or
      `None` as soon as one fetch fails. */
  function FetchAll(ids: seq<nat>, fetch: Fetcher): (r: Option<seq<Game>>)
    ensures r.None? <==> exists i :: 0 <= i < |ids| && fetch(ids[i]).None?
    ensures r.Some? ==> |r.value| == |ids|
    ensures r.Some? ==> forall i :: 0 <= i < |ids| ==> r.value[i] == GameFromAppData(ids[i], fetch(ids[i]).value)
  {
    if ids == [] then Some([])
    else
      var init := ids[..|ids| - 1];
      var id := ids[|ids| - 1];
      match FetchAll(init, fetch)
      case None =>
        assert exists i :: 0 <= i < |init| && fetch(init[i]).None?;
        None
      case Some(records) =>
        match GameInfoApi(id, fetch)
        case None => None
        case Some(game) => Some(records + [game])
  }

  /** The `db.games.insert` of each fetched record, in order. */
  function WriteBack(store: map<nat, Game>, records: seq<Game>): map<nat, Game> {
    if records == [] then store
    else
      var g := records[|records| - 1];
      WriteBack(store, records[..|records| - 1])[g.appId := g]
  }

  /** What one call of `resolveGameInfos` does: the ids it fetched, what it
      passed to the callback (`None`: the callback is never called), and the
      store afterwards. */
  datatype Resolution = Resolution(fetched: seq<nat>, delivered: Option<seq<Game>>, store: map<nat, Game>)

  function Resolve(store: map<nat, Game>, ids: seq<nat>, fetch: Fetcher): Resolution {
    var misses := Misses(store, ids);
    if |misses| > 0 then
      match FetchAll(misses, fetch)
      case None => Resolution(misses, None, store)
      case Some(result) => Resolution(misses, Some(Hits(store, ids) + result), WriteBack(store, result))
    else
      Resolution(misses, Some(Hits(store, ids)), store)
  }

  /** The appids of a list of records, in order. */
  function AppIds(games: seq<Game>): seq<nat> {
    seq(|games|, i requires 0 <= i < |games| => games[i].appId)
  }

  // ---------------------------------------------------------------------
  // Properties of the cache partition.

  /** A cached id is never fetched; an uncached id is fetched once for each
      time it is requested, so exactly once when the ids are distinct. */
  lemma {:induction false} MissesAreTheUncached(store: map<nat, Game>, ids: seq<nat>, id: nat)
    ensures multiset(Misses(store, ids))[id] == if id in store then 0 else multiset(ids)[id]
  {
    if ids != [] {
      var init := ids[..|ids| - 1];
      MissesAreTheUncached(store, init, id);
      assert ids == init + [ids[|ids| - 1]];
    }
  }

  /** Every cached record handed back is the stored record of a requested
      id. */
  lemma {:induction false} HitsAreStored(store: map<nat, Game>, ids: seq<nat>)
    requires WellKeyed(store)
    ensures forall g :: g in Hits(store, ids) ==> g.appId in store && store[g.appId] == g
  {
    if ids != [] {
      HitsAreStored(store, ids[..|ids| - 1]);
    }
  }

  lemma AppIdsAppend(a: seq<Game>, b: seq<Game>)
    ensures AppIds(a + b) == AppIds(a) + AppIds(b)
  {
  }

  /** Together with the misses, the hits of `ids` account for every
      requested id once. */
  predicate Partitioned(store: map<nat, Game>, ids: seq<nat>) {
    multiset(AppIds(Hits(store, ids))) + multiset(Misses(store, ids)) == multiset(ids)
  }

  lemma PartitionStep(h: seq<nat>, m: seq<nat>, init: seq<nat>, h': seq<nat>, m': seq<nat>, id: nat)
    requires multiset(h) + multiset(m) == multiset(init)
    requires (h' == h + [id] && m' == m) || (h' == h && m' == m + [id])
    ensures multiset(h') + multiset(m') == multiset(init + [id])
  {
  }

  lemma PartitionedHit(store: map<nat, Game>, init: seq<nat>, id: nat)
    requires WellKeyed(store) && id in store && Partitioned(store, init)
    ensures Partitioned(store, init + [id])
  {
    var ids := init + [id];
    assert ids[..|ids| - 1] == init;
    var hi := Hits(store, init);
    assert Hits(store, ids) == hi + [store[id]];
    AppIdsAppend(hi, [store[id]]);
    var h' := AppIds(Hits(store, ids));
    assert h' == AppIds(hi) + [id];
    PartitionStep(AppIds(hi), Misses(store, init), init, h', Misses(store, ids), id);
  }

  lemma PartitionedMiss(store: map<nat, Game>, init: seq<nat>, id: nat)
    requires id !in store && Partitioned(store, init)
    ensures Partitioned(store, init + [id])
  {
    var ids := init + [id];
    assert ids[..|ids| - 1] == init;
    assert Hits(store, ids) == Hits(store, init);
    var m' := Misses(store, ids);
    assert m' == Misses(store, init) + [id];
    PartitionStep(AppIds(Hits(store, init)), Misses(store, init), init, AppIds(Hits(store, ids)), m', id);
  }

  lemma {:induction false} HitsAndMissesPartition(store: map<nat, Game>, ids: seq<nat>)
    requires WellKeyed(store)
    ensures multiset(AppIds(Hits(store, ids))) + multiset(Misses(store, ids)) == multiset(ids)
  {
    if ids != [] {
      var init := ids[..|ids| - 1];
      var id := ids[|ids| - 1];
      HitsAndMissesPartition(store, init);
      assert ids == init + [id];
      if id in store {
        PartitionedHit(store, init, id);
      } else {
        PartitionedMiss(store, init, id);
      }
      assert Partitioned(store, ids);
    }
  }

  /** Writing the fetched records back files each fetched id under its
      record and leaves every other entry as it was. */
  lemma {:induction false} WriteBackStoresFetched(store: map<nat, Game>, ids: seq<nat>, fetch: Fetcher)
    requires FetchAll(ids, fetch).Some?
    ensures WriteBack(store, FetchAll(ids, fetch).value).Keys == store.Keys + set id | id in ids
    ensures forall id :: id in ids ==>
      id in WriteBack(store, FetchAll(ids, fetch).value) &&
      WriteBack(store, FetchAll(ids, fetch).value)[id] == GameFromAppData(id, fetch(id).value)
    ensures forall k :: k in store && k !in ids ==>
      k in WriteBack(store, FetchAll(ids, fetch).value) &&
      WriteBack(store, FetchAll(ids, fetch).value)[k] == store[k]
  {
    if ids != [] {
      var records := FetchAll(ids, fetch).value;
      var init := ids[..|ids| - 1];
      var id := ids[|ids| - 1];
      assert FetchAll(init, fetch).Some?;
      WriteBackStoresFetched(store, init, fetch);
      assert records[..|records| - 1] == FetchAll(init, fetch).value;
      assert records[|records| - 1] == GameFromAppData(id, fetch(id).value);
      assert ids == init + [id];
      assert forall x :: x in ids <==> x in init || x == id;
    }
  }

  lemma WriteBackKeepsWellKeyed(store: map<nat, Game>, records: seq<Game>)
    requires WellKeyed(store)
    ensures WellKeyed(WriteBack(store, records))
  {
  }

  // ---------------------------------------------------------------------
  // Properties of one resolution.

  /** The three ways a resolution ends: no misses (the cached records are
      delivered, nothing is fetched, so an empty request delivers `[]`); a
      failed fetch (no callback, nothing written); every fetch succeeded
      (cached records, then the fetched ones in request order). */
  lemma ResolveOutcomes(store: map<nat, Game>, ids: seq<nat>, fetch: Fetcher)
    ensures var r := Resolve(store, ids, fetch);
      && (ids == [] ==> r.fetched == [] && r.delivered == Some([]) && r.store == store)
      && (r.delivered.None? <==> exists i :: 0 <= i < |r.fetched| && fetch(r.fetched[i]).None?)
      && (r.delivered.None? ==> r.store == store)
      && (r.delivered.Some? ==>
            r.delivered.value == Hits(store, ids)
              + seq(|r.fetched|, j requires 0 <= j < |r.fetched| =>
                      GameFromAppData(r.fetched[j], fetch(r.fetched[j]).value)))
  {
    var r := Resolve(store, ids, fetch);
    if |r.fetched| > 0 && r.delivered.Some? {
      var records := FetchAll(r.fetched, fetch).value;
      assert records == seq(|r.fetched|, j requires 0 <= j < |r.fetched| =>
                              GameFromAppData(r.fetched[j], fetch(r.fetched[j]).value));
    }
  }

  /** The fetched records carry the fetched ids, in order. */
  lemma FetchedAppIds(ids: seq<nat>, fetch: Fetcher)
    requires FetchAll(ids, fetch).Some?
    ensures AppIds(FetchAll(ids, fetch).value) == ids
  {
  }

  /** The callback receives exactly one record per requested id, and each
      is the record for that id. */
  lemma ResolveDeliversEveryRequestedId(store: map<nat, Game>, ids: seq<nat>, fetch: Fetcher)
    requires WellKeyed(store)
    requires Resolve(store, ids, fetch).delivered.Some?
    ensures multiset(AppIds(Resolve(store, ids, fetch).delivered.value)) == multiset(ids)
  {
    HitsAndMissesPartition(store, ids);
    var hits := Hits(store, ids);
    var misses := Misses(store, ids);
    var delivered := Resolve(store, ids, fetch).delivered.value;
    if |misses| > 0 {
      var records := FetchAll(misses, fetch).value;
      assert delivered == hits + records;
      FetchedAppIds(misses, fetch);
      AppIdsAppend(hits, records);
      assert AppIds(delivered) == AppIds(hits) + misses;
    } else {
      assert misses == [];
      assert delivered == hits;
    }
  }

  /** The callback receives as many records as ids were requested, each
      for one of the requested ids. */
  lemma DeliveredAreRequested(store: map<nat, Game>, ids: seq<nat>, fetch: Fetcher)
    requires WellKeyed(store)
    requires Resolve(store, ids, fetch).delivered.Some?
    ensures var games := Resolve(store, ids, fetch).delivered.value;
      && |games| == |ids|
      && forall g :: g in games ==> g.appId in ids
  {
    var games := Resolve(store, ids, fetch).delivered.value;
    ResolveDeliversEveryRequestedId(store, ids, fetch);
    var appIds := AppIds(games);
    assert |games| == |appIds| == |multiset(appIds)| == |multiset(ids)| == |ids|;
    forall g | g in games ensures g.appId in ids {
      var i :| 0 <= i < |games| && games[i] == g;
      assert appIds[i] == g.appId;
      assert g.appId in multiset(appIds);
    }
  }

  /** After a delivered resolution every requested id is cached, the older
      entries are untouched, and resolving the same ids again fetches
      nothing. */
  lemma ResolveWarmsCache(store: map<nat, Game>, ids: seq<nat>, fetch: Fetcher)
    requires Resolve(store, ids, fetch).delivered.Some?
    ensures var s := Resolve(store, ids, fetch).store;
      && (forall id :: id in ids ==> id in s)
      && (forall k :: k in store ==> k in s && s[k] == store[k])
      && Resolve(s, ids, fetch).fetched == []
  {
    var r := Resolve(store, ids, fetch);
    var misses := Misses(store, ids);
    forall id | id in ids && id !in store ensures id in misses {
      MissesAreTheUncached(store, ids, id);
    }
    forall k | k in misses ensures k !in store {
      MissesAreTheUncached(store, ids, k);
    }
    if |misses| > 0 {
      WriteBackStoresFetched(store, misses, fetch);
    }
    var s := r.store;
    var again := Misses(s, ids);
    if again != [] {
      assert again[0] in multiset(again);
      MissesAreTheUncached(s, ids, again[0]);
    }
  }

  /** The games store (`db.games`), in memory. */
  class GameStore {
    var games: map<nat, Game>

    ghost predicate Valid()
      reads this
    {
      WellKeyed(games)
    }

    /** The store as loaded from its file. */
    constructor (persisted: map<nat, Game>)
      requires WellKeyed(persisted)
      ensures Valid() && games == persisted
    {
      games := persisted;
    }

    /** `resolveGameInfos(ids, callback)`: returns the ids handed to the
        fetcher and what the callback receives (`None`: it is never called),
        and leaves the store as `Resolve` says. */
    method ResolveGameInfos(ids: seq<nat>, fetch: Fetcher) returns (fetched: seq<nat>, delivered: Option<seq<Game>>)
      requires Valid()
      modifies this
      ensures Valid()
      ensures Resolution(fetched, delivered, games) == Resolve(old(games), ids, fetch)
    {
      var cachedEntities: seq<Game> := [];
      var promisedEntities: seq<nat> := [];
      for i := 0 to |ids|
        invariant cachedEntities == Hits(games, ids[..i])
        invariant promisedEntities == Misses(games, ids[..i])
      {
        var id := ids[i];
        assert ids[..i + 1][..i] == ids[..i];
        if id in games {
          cachedEntities := cachedEntities + [games[id]];
        } else {
          promisedEntities := promisedEntities + [id];
        }
      }
      assert ids[..|ids|] == ids;
      fetched := promisedEntities;
      if |promisedEntities| > 0 {
        var result := FetchAll(promisedEntities, fetch);
        if result.None? {
          delivered := None;
        } else {
          var records := result.value;
          WriteBackKeepsWellKeyed(games, records);
          for i := 0 to |records|
            invariant games == WriteBack(old(games), records[..i])
          {
            assert records[..i + 1][..i] == records[..i];
            games := games[records[i].appId := records[i]];
          }
          assert records[..|records|] == records;
          delivered := Some(cachedEntities + records);
        }
      } else {
        delivered := Some(cachedEntities);
      }
    }
  }
}
