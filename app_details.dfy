/** The record `getGameInfoApi` builds from the store's `appdetails`
    response (server.js:292-311); the request and `JSON.parse` are left to
    the caller, which supplies the parsed `data` object. */
module AppDetails {
  import opened Wrappers
  import opened GameRecord

  /** One entry of `data.categories`. */
  datatype Category = Category(id: nat, description: string)

  /** The fields of `JSON.parse(body)[appId].data` that are read. */
  datatype AppData = AppData(name: string, headerImage: string, categories: seq<Category>)

  /** Category ids the store uses for multiplayer and co-op games. */
  const MultiplayerCategory: nat := 1
  const CoopCategory: nat := 9

  /** `categories.find(c => c.id == id)`. */
  function FindCategory(categories: seq<Category>, id: nat): (r: Option<Category>)
    ensures r.None? <==> forall i :: 0 <= i < |categories| ==> categories[i].id != id
    ensures r.Some? ==> exists i :: 0 <= i < |categories| && categories[i] == r.value && r.value.id == id
                                    && forall j :: 0 <= j < i ==> categories[j].id != id
  {
    if categories == [] then None
    else if categories[0].id == id then Some(categories[0])
    else FindCategory(categories[1..], id)
  }

  /** True when some category of the game carries `id`. */
  predicate HasCategory(data: AppData, id: nat) {
    exists i :: 0 <= i < |data.categories| && data.categories[i].id == id
  }

  /** The record resolved for `appId`: name and header image copied, the two
      flags set exactly when the matching category is listed. */
  function GameFromAppData(appId: nat, data: AppData): (g: Game)
    ensures g.appId == appId && g.name == data.name && g.image == data.headerImage
    ensures g.multiplayer <==> HasCategory(data, MultiplayerCategory)
    ensures g.coop <==> HasCategory(data, CoopCategory)
  {
    var multiplayer := FindCategory(data.categories, MultiplayerCategory);
    var coop := FindCategory(data.categories, CoopCategory);
    Game(appId, data.name, data.headerImage, multiplayer != None, coop != None)
  }
}
