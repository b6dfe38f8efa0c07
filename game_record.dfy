/** The game record shared by the metadata cache, the store API mapping and
    the steamdb scraper: `{appId, name, image, multiplayer, coop}`
    (steamdb-scraper.js:5-13, server.js:302-308). */
module GameRecord {
  datatype Game = Game(appId: nat, name: string, image: string, multiplayer: bool, coop: bool)
}
