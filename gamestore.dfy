/** The game store of game_store.go: the key/value store plus a pool of the
    games already loaded, so that every hash is served by one shared `Game`
    instance. JSON is modelled by a pair of functions over `GameRecord`. */
module GameStore {
  import opened Wrappers
  import opened Bytes
  import Store
  import GameHasher
  import Game

  /** Every object of `after` was in `before` or has been allocated since. */
  twostate predicate Grown(before: set<object>, new after: set<object>)
  {
    forall o :: o in after ==> o in before || fresh(o)
  }

  class GameStore {
    const hasher: GameHasher.GameHasher
    var activeGames: map<string, Game.Game>
    /** `json.MarshalIndent` of a game. */
    const marshal: Game.GameRecord -> seq<byte>
    /** `json.Unmarshal` into a game. */
    const unmarshal: seq<byte> -> Result<Game.GameRecord>

    /** The key/value store; the hasher checks new names against it. */
    function store(): Store.Store
    {
      hasher.store
    }

    /** `NewGameStore`: an empty pool. */
    constructor (hasher: GameHasher.GameHasher, marshal: Game.GameRecord -> seq<byte>,
                 unmarshal: seq<byte> -> Result<Game.GameRecord>)
      ensures this.hasher == hasher && this.marshal == marshal && this.unmarshal == unmarshal
      ensures activeGames == map[]
    {
      this.hasher := hasher;
      this.marshal := marshal;
      this.unmarshal := unmarshal;
      activeGames := map[];
    }

    /** The store holds a record under `hash` that decodes. */
    ghost predicate Loadable(hash: string)
      reads store()
    {
      hash in store().files && unmarshal(store().files[hash]).Ok?
    }

    /** The record a loadable `hash` decodes to. */
    ghost function Stored(hash: string): Game.GameRecord
      requires Loadable(hash)
      reads store()
    {
      unmarshal(store().files[hash]).value
    }

    /** Every player of a pooled game. */
    ghost function PooledPlayers(): set<object>
      reads this, activeGames.Values
    {
      set g, p | g in activeGames.Values && p in g.Players :: p
    }

    /** Every pooled game. */
    ghost function PooledGames(): set<object>
      reads this
    {
      set g | g in activeGames.Values :: g
    }

    /** A game pooled under a non-empty hash caches that hash. */
    ghost predicate Valid()
      reads this, activeGames.Values
    {
      forall h :: h in activeGames && h != "" ==> activeGames[h].hash == h
    }

    /** `NewGame` (game_store.go:57-59), with the two arguments `Game.Game`'s
        constructor takes. */
    method NewGame(hostingPlayerName: string, wikiUrl: string) returns (g: Game.Game)
      ensures fresh(g) && g.Valid()
      ensures g.Host == hostingPlayerName && g.WikiUrl == wikiUrl && g.hash == ""
      ensures |g.Players| == 1 && g.Players[0].Name == hostingPlayerName && g.Players[0].Path == []
    {
      g := new Game.Game(hostingPlayerName, wikiUrl);
    }

    /** `GetGameByHash` (game_store.go:61-85). */
    method GetGameByHash(hash: string) returns (r: Result<Game.Game>)
      modifies this
      ensures hash in old(activeGames) ==> r == Ok(old(activeGames)[hash]) && activeGames == old(activeGames)
      ensures hash !in old(activeGames) && (hash !in store().files || unmarshal(store().files[hash]).Err?)
        ==> r.Err? && activeGames == old(activeGames)
      ensures hash !in old(activeGames) && hash in store().files && unmarshal(store().files[hash]).Ok? ==>
        && r.Ok? && fresh(r.value) && r.value.Valid()
        && (forall p :: p in r.value.Players ==> fresh(p))
        && activeGames == old(activeGames)[hash := r.value]
        && r.value.hash == hash
        && r.value.Record() == unmarshal(store().files[hash]).value
      ensures r.Ok? ==> hash in activeGames && activeGames[hash] == r.value
      ensures old(Valid()) ==> Valid()
      ensures old(Valid()) && r.Ok? && hash != "" ==> r.value.hash == hash
      ensures Grown(old(PooledGames()), PooledGames()) && Grown(old(PooledPlayers()), PooledPlayers())
    {
      if hash in activeGames {
        return Ok(activeGames[hash]);
      }
      r := Fetch(hash);
      if r.Ok? {
        Pool(hash, r.value);
      }
    }

    /** The part of `GetGameByHash` that reads a game the pool does not hold:
        an empty game overwritten by the stored record, with the requested
        hash cached. */
    method Fetch(hash: string) returns (r: Result<Game.Game>)
      ensures (hash !in store().files || unmarshal(store().files[hash]).Err?) ==> r.Err?
      ensures hash in store().files && unmarshal(store().files[hash]).Ok? ==>
        && r.Ok? && fresh(r.value) && r.value.Valid()
        && (forall p :: p in r.value.Players ==> fresh(p))
        && r.value.hash == hash
        && r.value.Record() == unmarshal(store().files[hash]).value
    {
      var loaded := store().GetMarshal(hash, unmarshal);
      if loaded.Err? {
        return Err(loaded.msg);
      }
      var game := new Game.Game.Load(loaded.value);
      game.hash := hash;
      return Ok(game);
    }

    /** The pool insertion of `GetGameByHash`. */
    method Pool(hash: string, game: Game.Game)
      requires hash !in activeGames && game !in activeGames.Values
      requires game.hash == hash
      modifies this
      ensures activeGames == old(activeGames)[hash := game]
      ensures old(Valid()) ==> Valid()
      ensures PooledGames() <= old(PooledGames()) + {game}
      ensures PooledPlayers() <= old(PooledPlayers()) + set p | p in game.Players :: p
    {
      activeGames := activeGames[hash := game];
      forall g | g in activeGames.Values && g != game
        ensures g in old(activeGames.Values)
      {
        var h :| h in activeGames && activeGames[h] == g;
        assert h in old(activeGames) && old(activeGames)[h] == g;
      }
    }

    /** `gameSaveHandler` (game_store.go:47-55): stores the game under its
        hash; a failed write panics, which is the `Err` result. */
    method GameSaveHandler(game: Game.Game, writeFailure: Option<string>) returns (r: Result<()>)
      requires game.CanHash(hasher)
      modifies game, hasher, store()
      ensures r.Ok? <==> writeFailure.None?
      ensures writeFailure.Some? ==> r == Err(writeFailure.value)
      ensures game.hash != "" && (old(game.hash) != "" ==> game.hash == old(game.hash))
      ensures old(game.hash) == "" ==> game.hash !in old(store().files)
      ensures writeFailure.None? ==> store().files == old(store().files)[game.hash := marshal(old(game.Record()))]
      ensures writeFailure.Some? ==> store().files == old(store().files) - {game.hash}
      ensures game.Record() == old(game.Record()) && game.Players == old(game.Players)
      ensures game.Winner == old(game.Winner)
    {
      var h := game.Hash(hasher);
      var err := store().PutMarshal(h, Ok(marshal(game.Record())), writeFailure);
      if err.Some? {
        return Err(err.value);
      }
      return Ok(());
    }
  }
}
