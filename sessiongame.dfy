/** The two operations that tie a session to the game store: `GetGame`
    (session.go:61-63) and `PlayerFromSession` (player.go:17-34). */
module SessionGame {
  import opened Wrappers
  import Session
  import Game
  import GameStore

  /** `GetGame`: the pooled game named by the session's hash; a session
      without a string hash panics, which is the `Err` result. */
  method GetGame(session: Session.GameSession, gs: GameStore.GameStore) returns (r: Result<Game.Game>)
    modifies gs
    ensures session.GameHash().Err? ==> r.Err? && gs.activeGames == old(gs.activeGames)
    ensures session.GameHash().Ok? ==> var hash := session.GameHash().value;
      && (hash in old(gs.activeGames) ==> r == Ok(old(gs.activeGames)[hash]) && gs.activeGames == old(gs.activeGames))
      && (r.Ok? ==> hash in gs.activeGames && gs.activeGames[hash] == r.value)
      && (r.Err? ==> gs.activeGames == old(gs.activeGames))
      && (hash !in old(gs.activeGames) && r.Ok? ==>
            fresh(r.value) && gs.activeGames == old(gs.activeGames)[hash := r.value])
      && (hash !in old(gs.activeGames) ==>
            (r.Ok? <==> hash in gs.store().files && gs.unmarshal(gs.store().files[hash]).Ok?))
      && (hash !in old(gs.activeGames) && r.Ok? ==> gs.Loadable(hash) && r.value.Record() == gs.Stored(hash))
    ensures r.Ok? ==> r.value in old(gs.activeGames.Values) || (fresh(r.value) && forall p :: p in r.value.Players ==> fresh(p))
    ensures GameStore.Grown(old(gs.PooledGames()), gs.PooledGames())
    ensures GameStore.Grown(old(gs.PooledPlayers()), gs.PooledPlayers())
    ensures old(gs.Valid()) ==> gs.Valid()
  {
    var hash := session.GameHash();
    if hash.Err? {
      return Err(hash.msg);
    }
    r := gs.GetGameByHash(hash.value);
  }

  /** What the look-ups of `PlayerFromSession` establish, given the pool
      `pool` they started from: `game` is the pooled game the session's hash
      names (taken from `pool`, or loaded from the store), and `r` is its
      first roster entry carrying the session's player name. */
  ghost predicate Found(session: Session.GameSession, gs: GameStore.GameStore, pool: map<string, Game.Game>,
                        r: Result<Game.Player>, game: Game.Game?)
    reads session, gs, gs.store(), game
  {
    && (game != null ==> && session.GameHash().Ok?
                         && session.GameHash().value in gs.activeGames
                         && gs.activeGames[session.GameHash().value] == game)
    && (session.GameHash().Ok? && session.GameHash().value in pool ==>
          game == pool[session.GameHash().value] && gs.activeGames == pool)
    && (r.Ok? ==> game != null && session.PlayerName().Ok? && r.value.Name == session.PlayerName().value)
    && (session.GameHash().Ok? ==> var hash := session.GameHash().value;
          && (game != null <==> hash in gs.activeGames)
          && (hash in gs.activeGames <==> hash in pool || gs.Loadable(hash)))
    && (game != null && session.PlayerName().Ok? ==>
          var i := Game.IndexOfName(game.Players, session.PlayerName().value);
          && (r.Ok? <==> i >= 0)
          && (r.Ok? ==> r.value == game.Players[i]))
  }

  /** `PlayerFromSession`: the session's game, then the first roster entry
      carrying the session's player name, which is then bound to the session
      and the game. The entry itself is returned, not a copy. A game loaded
      on the spot has the stored record, so the entry's record is the first
      stored one carrying the name. */
  method PlayerFromSession(session: Session.GameSession, gs: GameStore.GameStore)
    returns (r: Result<Game.Player>, ghost game: Game.Game?)
    modifies gs, gs.PooledPlayers()
    ensures Found(session, gs, old(gs.activeGames), r, game)
    ensures r.Ok? ==> r.value.Session == session && r.value.game == game
    ensures session.GameHash().Ok? && session.GameHash().value in old(gs.activeGames) ==>
      game.Record() == old(game.Record())
    ensures session.GameHash().Ok? && session.GameHash().value !in old(gs.activeGames) && game != null ==>
      gs.Loadable(session.GameHash().value) && game.Record() == gs.Stored(session.GameHash().value)
    ensures game != null && session.PlayerName().Ok? ==>
      var i := Game.IndexOfRecord(game.Record().Players, session.PlayerName().value);
      && (r.Ok? <==> i >= 0)
      && (r.Ok? ==> r.value.Record() == game.Record().Players[i])
    ensures GameStore.Grown(old(gs.PooledGames()), gs.PooledGames())
    ensures GameStore.Grown(old(gs.PooledPlayers()), gs.PooledPlayers())
    ensures game != null ==> game in old(gs.PooledGames()) || fresh(game)
    ensures forall p: Game.Player :: p in old(gs.PooledPlayers()) ==> p.Path == old(p.Path)
    ensures old(gs.Valid()) ==> gs.Valid()
  {
    ghost var pool := gs.activeGames;
    var g;
    r, g := Locate(session, gs);
    game := g;
    if r.Ok? {
      Claim(gs, r.value, session, g, pool, r);
    }
  }

  /** The look-ups of `PlayerFromSession` (player.go:18-28), before the entry
      found is bound. */
  method Locate(session: Session.GameSession, gs: GameStore.GameStore)
    returns (r: Result<Game.Player>, game: Game.Game?)
    modifies gs
    ensures Found(session, gs, old(gs.activeGames), r, game)
    ensures session.GameHash().Ok? && session.GameHash().value in old(gs.activeGames) ==>
      game.Record() == old(game.Record())
    ensures session.GameHash().Ok? && session.GameHash().value !in old(gs.activeGames) && game != null ==>
      gs.Loadable(session.GameHash().value) && game.Record() == gs.Stored(session.GameHash().value)
    ensures game != null && session.PlayerName().Ok? ==>
      var i := Game.IndexOfRecord(game.Record().Players, session.PlayerName().value);
      && (r.Ok? <==> i >= 0)
      && (r.Ok? ==> r.value.Record() == game.Record().Players[i])
    ensures GameStore.Grown(old(gs.PooledGames()), gs.PooledGames())
    ensures GameStore.Grown(old(gs.PooledPlayers()), gs.PooledPlayers())
    ensures game != null ==> game in old(gs.PooledGames()) || fresh(game)
    ensures r.Ok? ==> r.value in old(gs.PooledPlayers()) || fresh(r.value)
    ensures old(gs.Valid()) ==> gs.Valid()
  {
    game := null;
    var found := GetGame(session, gs);
    if found.Err? {
      return Err(found.msg), game;
    }
    var g := found.value;
    game := g;
    r := FindPlayer(session, g);
    if r.Ok? {
      var p := r.value;
      assert p in g.Players;
      if g in old(gs.activeGames.Values) {
        assert p in old(g.Players);
        assert p in old(gs.PooledPlayers());
      }
    }
    if session.PlayerName().Ok? {
      Game.IndexOfStoredRoster(g.Players, session.PlayerName().value);
    }
  }

  /** The two assignments at the end of `PlayerFromSession` (player.go:30-31):
      the entry found is bound to the session and the game; the pool and
      every record are left as they were. */
  method Claim(gs: GameStore.GameStore, p: Game.Player, session: Session.GameSession, g: Game.Game,
               ghost pool: map<string, Game.Game>, ghost r: Result<Game.Player>)
    modifies p`Session, p`game
    ensures p.Session == session && p.game == g
    ensures Found(session, gs, pool, r, g) == old(Found(session, gs, pool, r, g))
    ensures p.Record() == old(p.Record()) && g.Record() == old(g.Record())
    ensures gs.PooledGames() == old(gs.PooledGames()) && gs.PooledPlayers() == old(gs.PooledPlayers())
    ensures gs.Valid() == old(gs.Valid())
    ensures forall q: Game.Player :: q in old(gs.PooledPlayers()) ==> q.Path == old(q.Path)
  {
    label before:
    p.Bind(session, g);
    Game.RecordKept@before(g);
  }

  /** The look-up in the second half of `PlayerFromSession` (player.go:24-28):
      the first roster entry with the session's player name; an unknown name
      is an error naming the game. */
  method FindPlayer(session: Session.GameSession, g: Game.Game) returns (r: Result<Game.Player>)
    ensures r.Ok? ==> session.PlayerName().Ok?
    ensures session.PlayerName().Ok? ==>
      var i := Game.IndexOfName(g.Players, session.PlayerName().value);
      && (r.Ok? <==> i >= 0)
      && (r.Ok? ==> r.value == g.Players[i])
    ensures r.Ok? ==> r.value.Name == session.PlayerName().value
  {
    var name := session.PlayerName();
    if name.Err? {
      return Err(name.msg);
    }
    var p := g.GetPlayer(name.value);
    if p == null {
      return Err("Player " + name.value + " is not in the game " + g.hash + ".");
    }
    r := Ok(p);
  }
}
