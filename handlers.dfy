/** The decision logic of the HTTP handlers in main.go: the visit link a page
    is served under, admission to a game (`joinHandler`) and the
    visit-evaluate-broadcast step (`visitHandler`). Requests, responses,
    templates and the cookie round trip are outside the model; a handler's
    panic, which its deferred error handler turns into an error page, is the
    `Panicked` outcome. */
module Handlers {
  import opened Wrappers
  import opened Bytes
  import PageCipher
  import Session
  import Game
  import GameStore
  import SessionGame
  import Messages
  import Socket

  const VisitPrefix := "/visit?page="

  /** `serviceVisitUrl` (main.go:68-76): the link to the visit handler that
      carries the page's token. */
  function ServiceVisitUrl(c: PageCipher.Cipher, page: string): (r: Result<string>)
  {
    if |page| == 0 then Err("Empty page. This is quite likely a bug.")
    else match PageCipher.PageToken(c, page)
      case Ok(token) => Ok(VisitPrefix + token)
      case Err(e) => Err(e)
  }

  /** The empty page panics; any other page gets a link whose token decrypts
      back to the page. */
  lemma VisitUrlCarriesPage(c: PageCipher.Cipher, page: string)
    requires IsByteString(page)
    ensures ServiceVisitUrl(c, page).Err? <==> page == ""
    ensures page != "" ==> exists token ::
      ServiceVisitUrl(c, page) == Ok(VisitPrefix + token) && PageCipher.PagePlain(c, token) == Ok(page)
  {
    if page != "" {
      PageCipher.DecryptEncrypt(c, page);
      var token := PageCipher.PageToken(c, page).value;
      assert ServiceVisitUrl(c, page) == Ok(VisitPrefix + token);
    }
  }

  datatype JoinOutcome = RedirectHome | JoinForm | Joined | Panicked(reason: string)

  /** `joinHandler` (main.go:230-285) from the query values on. The call to
      the game store's `Save`, which game_store.go does not define, is
      modelled as `gameSaveHandler`; `writeFailure` is what the disk reports. */
  method Join(gs: GameStore.GameStore, session: Session.GameSession, gameId: string, playerName: string,
              writeFailure: Option<string>)
    returns (out: JoinOutcome, ghost game: Game.Game?, ghost roster: seq<Game.Player>)
    requires gs.Valid()
    modifies gs, gs.PooledGames(), gs.hasher, gs.store(), session
    ensures gameId == "" ==> out == RedirectHome
    ensures gameId != "" && playerName == "" ==> out == JoinForm
    ensures gameId != "" && playerName != "" && gameId !in old(gs.store().files) ==> out == Panicked("No such game")
    ensures out == RedirectHome || out == JoinForm || (out.Panicked? && game == null) ==>
      && gs.activeGames == old(gs.activeGames) && gs.store().files == old(gs.store().files)
      && session.Values == old(session.Values)
    ensures game != null <==> && gameId != "" && playerName != "" && gameId in old(gs.store().files)
                              && (gameId in old(gs.activeGames) || old(gs.Loadable(gameId)))
    ensures game != null ==> gameId in gs.activeGames && gs.activeGames[gameId] == game && game.hash == gameId
    ensures game != null && gameId in old(gs.activeGames) ==>
      game == old(gs.activeGames[gameId]) && roster == old(gs.activeGames[gameId].Players)
    ensures game != null && gameId !in old(gs.activeGames) ==>
      && old(gs.Loadable(gameId))
      && Game.Records(roster) == old(gs.Stored(gameId).Players) && game.Winner == old(gs.Stored(gameId).Winner)
      && Game.IndexOfName(roster, playerName) == Game.IndexOfRecord(old(gs.Stored(gameId).Players), playerName)
    ensures game != null && Game.IndexOfName(roster, playerName) >= 0 ==>
      && out == Panicked("Player name already taken.") && game.Players == roster
      && session.Values == old(session.Values) && gs.store().files == old(gs.store().files)
    ensures game != null && Game.IndexOfName(roster, playerName) < 0 && game.Winner != "" ==>
      && out == Panicked("Game is locked as it has already a winner.") && game.Players == roster
      && session.Values == old(session.Values) && gs.store().files == old(gs.store().files)
    ensures out == Joined <==> game != null && Game.IndexOfName(roster, playerName) < 0 && game.Winner == ""
                               && writeFailure.None?
    ensures game != null && Game.IndexOfName(roster, playerName) < 0 && game.Winner == "" ==>
      && |game.Players| == |roster| + 1 && game.Players[..|roster|] == roster
      && game.Players[|roster|].Name == playerName && game.Players[|roster|].Path == []
      && session.Values == Session.Initial(old(session.Values), playerName, gameId)
      && (writeFailure.None? ==> gs.store().files == old(gs.store().files)[gameId := gs.marshal(game.Record())])
      && (writeFailure.Some? ==>
            out == Panicked(writeFailure.value) && gs.store().files == old(gs.store().files) - {gameId})
    ensures gs.Valid()
  {
    game, roster := null, [];
    if |gameId| == 0 {
      return RedirectHome, game, roster;
    }
    if |playerName| == 0 {
      return JoinForm, game, roster;
    }
    var stored := gs.store().Contains(gameId);
    if !stored {
      return Panicked("No such game"), game, roster;
    }
    var found;
    found, roster := Open(gs, gameId, playerName);
    if found.Err? {
      return Panicked(found.msg), game, roster;
    }
    var g := found.value;
    game := g;
    out := Admit(gs, session, g, gameId, playerName, writeFailure);
  }

  /** The game look-up of `joinHandler` (main.go:259-263): the pooled game, or
      the stored one, now pooled; `roster` is its roster as found. */
  method Open(gs: GameStore.GameStore, gameId: string, playerName: string)
    returns (r: Result<Game.Game>, ghost roster: seq<Game.Player>)
    requires gs.Valid() && gameId != ""
    modifies gs
    ensures r.Ok? <==> gameId in old(gs.activeGames) || old(gs.Loadable(gameId))
    ensures r.Err? ==> gs.activeGames == old(gs.activeGames)
    ensures r.Ok? ==> && gameId in gs.activeGames && gs.activeGames[gameId] == r.value
                      && r.value.hash == gameId && roster == r.value.Players
    ensures r.Ok? ==> r.value in old(gs.PooledGames()) || fresh(r.value)
    ensures gameId in old(gs.activeGames) ==>
      r.value == old(gs.activeGames[gameId]) && roster == old(gs.activeGames[gameId].Players)
    ensures r.Ok? && gameId !in old(gs.activeGames) ==>
      && old(gs.Loadable(gameId))
      && Game.Records(roster) == old(gs.Stored(gameId).Players) && r.value.Winner == old(gs.Stored(gameId).Winner)
      && Game.IndexOfName(roster, playerName) == Game.IndexOfRecord(old(gs.Stored(gameId).Players), playerName)
    ensures gs.Valid()
  {
    roster := [];
    r := gs.GetGameByHash(gameId);
    if r.Ok? {
      assert gameId in old(gs.activeGames) ==> r.value in old(gs.activeGames.Values);
      roster := r.value.Players;
      Game.IndexOfStoredRoster(roster, playerName);
    }
  }

  /** The second half of `joinHandler` (main.go:265-284), once the game is
      loaded: refuse a taken name or a won game, otherwise bind the session,
      add the player and save the game. */
  method Admit(gs: GameStore.GameStore, session: Session.GameSession, game: Game.Game, gameId: string,
               playerName: string, writeFailure: Option<string>)
    returns (out: JoinOutcome)
    requires gameId != "" && game.hash == gameId
    requires gameId in gs.activeGames && gs.activeGames[gameId] == game
    ensures out.Joined? || out.Panicked?
    modifies game, gs.hasher, gs.store(), session
    ensures game.hash == gameId && game.Winner == old(game.Winner)
    ensures old(gs.Valid()) ==> gs.Valid()
    ensures Game.Records(old(game.Players)) == old(Game.Records(game.Players))
    ensures Game.IndexOfName(old(game.Players), playerName) >= 0 ==>
      && out == Panicked("Player name already taken.") && game.Players == old(game.Players)
      && session.Values == old(session.Values) && gs.store().files == old(gs.store().files)
    ensures Game.IndexOfName(old(game.Players), playerName) < 0 && game.Winner != "" ==>
      && out == Panicked("Game is locked as it has already a winner.") && game.Players == old(game.Players)
      && session.Values == old(session.Values) && gs.store().files == old(gs.store().files)
    ensures out == Joined <==> Game.IndexOfName(old(game.Players), playerName) < 0 && game.Winner == ""
                               && writeFailure.None?
    ensures Game.IndexOfName(old(game.Players), playerName) < 0 && game.Winner == "" ==>
      && |game.Players| == |old(game.Players)| + 1 && game.Players[..|old(game.Players)|] == old(game.Players)
      && game.Players[|old(game.Players)|].Name == playerName && game.Players[|old(game.Players)|].Path == []
      && session.Values == Session.Initial(old(session.Values), playerName, gameId)
      && (writeFailure.None? ==> gs.store().files == old(gs.store().files)[gameId := gs.marshal(game.Record())])
      && (writeFailure.Some? ==>
            out == Panicked(writeFailure.value) && gs.store().files == old(gs.store().files) - {gameId})
  {
    ghost var roster := game.Players;
    label before:
    var taken := game.HasPlayer(playerName);
    if taken {
      return Panicked("Player name already taken.");
    }
    if |game.Winner| > 0 {
      return Panicked("Game is locked as it has already a winner.");
    }
    out := Enrol(gs, session, game, gameId, playerName, writeFailure);
    Game.RecordsKept@before(roster);
  }

  /** The admission at the end of `joinHandler` (main.go:275-284): bind the
      session, add the player and save the game; a failed write panics and
      leaves the game's file gone. */
  method Enrol(gs: GameStore.GameStore, session: Session.GameSession, game: Game.Game, gameId: string,
               playerName: string, writeFailure: Option<string>)
    returns (out: JoinOutcome)
    requires gameId != "" && game.hash == gameId
    modifies game, gs.hasher, gs.store(), session
    ensures game.hash == gameId && game.Winner == old(game.Winner)
    ensures |game.Players| == |old(game.Players)| + 1 && game.Players[..|old(game.Players)|] == old(game.Players)
    ensures game.Players[|old(game.Players)|].Name == playerName && game.Players[|old(game.Players)|].Path == []
    ensures session.Values == Session.Initial(old(session.Values), playerName, gameId)
    ensures writeFailure.None? ==>
      out == Joined && gs.store().files == old(gs.store().files)[gameId := gs.marshal(game.Record())]
    ensures writeFailure.Some? ==>
      out == Panicked(writeFailure.value) && gs.store().files == old(gs.store().files) - {gameId}
  {
    session.Init(playerName, gameId);
    game.AddPlayer(playerName);
    var saved := gs.GameSaveHandler(game, writeFailure);
    if saved.Err? {
      return Panicked(saved.msg);
    }
    out := Joined;
  }

  datatype VisitOutcome =
    | Moved(page: string)
    | AtGoal(isWinner: bool, isTempWinner: bool, recordedWinner: bool)
    | Refused(reason: string)

  /** Every send carries a message of the given type whose base names `name`. */
  predicate AllOfType(sends: seq<Socket.Send>, typeNum: int, name: string)
    reads set i | 0 <= i < |sends| :: sends[i].message.base
  {
    forall i :: 0 <= i < |sends| ==>
      sends[i].message.base.Type == typeNum && sends[i].message.base.PlayerName == name
  }

  /** A page other than the goal: every client of the game is sent a visit
      message naming the player and the page. */
  ghost predicate Announced(handler: Socket.SocketHandler, game: Game.Game, player: Game.Player, page: string,
                            out: VisitOutcome, sends: seq<Socket.Send>)
    reads handler, set i | 0 <= i < |sends| :: sends[i].message.base
  {
    && out == Moved(page)
    && AllOfType(sends, Messages.Visit, player.Name)
    && (forall i :: 0 <= i < |sends| ==> sends[i].message.VisitMessage? && sends[i].message.base.Message == page)
    && Socket.Reached(sends) == handler.ClientsOf(game)
  }

  /** The leader a game records: `Winner` and `WinnerPath`. */
  datatype Lead = Lead(winner: string, winnerPath: seq<string>)

  /** The lead the game records now. */
  function LeadOf(game: Game.Game): Lead
    reads game
  {
    Lead(game.Winner, game.WinnerPath)
  }

  /** The goal: the player is judged against the recorded winner path; a new
      leader is recorded and every client of the game is sent a finish
      message counting the player's visits; otherwise nothing is sent and the
      recorded lead stands. */
  ghost predicate Finished(handler: Socket.SocketHandler, game: Game.Game, player: Game.Player,
                           before: Lead, out: VisitOutcome, sends: seq<Socket.Send>)
    reads handler, game, player, set i | 0 <= i < |sends| :: sends[i].message.base
  {
    && out.AtGoal?
    && !out.isWinner
    && Game.Verdict(out.isWinner, out.isTempWinner) == Game.Judge(before.winnerPath, player.Path)
    && out.recordedWinner == (game.Winner == player.Name)
    && (out.isTempWinner ==>
          && LeadOf(game) == Lead(player.Name, player.Path)
          && AllOfType(sends, Messages.Finish, player.Name)
          && (forall i :: 0 <= i < |sends| ==>
                sends[i].message.FinishMessage? && sends[i].message.Visits == |player.Path|)
          && Socket.Reached(sends) == handler.ClientsOf(game))
    && (!out.isTempWinner ==> sends == [] && LeadOf(game) == before)
  }

  /** The effect of a visit once the player is known: the page is appended to
      the player's path, then the visit is announced, leaving the lead alone,
      or the goal judged. */
  ghost predicate Arrived(handler: Socket.SocketHandler, game: Game.Game, player: Game.Player, page: string,
                          pathBefore: seq<string>, before: Lead,
                          out: VisitOutcome, sends: seq<Socket.Send>)
    reads handler, game, player, set i | 0 <= i < |sends| :: sends[i].message.base
  {
    && player.Path == Game.AfterVisit(pathBefore, page)
    && (page == game.Goal ==> Finished(handler, game, player, before, out, sends))
    && (page != game.Goal ==> Announced(handler, game, player, page, out, sends) && LeadOf(game) == before)
  }

  /** The session's hash names a pooled game whose roster holds the session's
      player name. */
  ghost predicate OnRoster(gs: GameStore.GameStore, session: Session.GameSession)
    reads gs, session, gs.activeGames.Values
  {
    && session.GameHash().Ok? && session.PlayerName().Ok?
    && session.GameHash().value in gs.activeGames
    && Game.IndexOfName(gs.activeGames[session.GameHash().value].Players, session.PlayerName().value) >= 0
  }

  /** The session names a pooled game and one of its players. */
  ghost predicate Located(gs: GameStore.GameStore, session: Session.GameSession, game: Game.Game, player: Game.Player)
    reads gs, session, game
  {
    && session.GameHash().Ok? && session.PlayerName() == Ok(player.Name)
    && session.GameHash().value in gs.activeGames && gs.activeGames[session.GameHash().value] == game
    && Game.IndexOfName(game.Players, player.Name) >= 0
    && player == game.Players[Game.IndexOfName(game.Players, player.Name)]
  }

  /** What `visitHandler` does once the player is known (main.go:136-165):
      record the visit, then judge the goal or announce the visit. */
  method Arrive(gs: GameStore.GameStore, handler: Socket.SocketHandler, session: Session.GameSession,
                game: Game.Game, player: Game.Player, page: string)
    returns (out: VisitOutcome, ghost sends: seq<Socket.Send>)
    requires Located(gs, session, game, player)
    modifies game, player, gs, gs.PooledPlayers()
    ensures Arrived(handler, game, player, page, old(player.Path), old(LeadOf(game)), out, sends)
    ensures Located(gs, session, game, player) && gs.store().files == old(gs.store().files)
    ensures gs.activeGames == old(gs.activeGames)
    ensures game.Players == old(game.Players) && game.Settings() == old(game.Settings())
    ensures game.hash == old(game.hash)
    ensures old(gs.Valid()) ==> gs.Valid()
  {
    player.Visited(page);
    if page == game.Goal {
      out, sends := JudgeGoal(gs, handler, session, game, player);
    } else {
      out, sends := Announce(handler, session, game, player, page);
    }
  }

  /** The goal branch of `visitHandler` (main.go:141-158): evaluate the
      player, then announce the verdict. */
  method JudgeGoal(gs: GameStore.GameStore, handler: Socket.SocketHandler, session: Session.GameSession,
                   game: Game.Game, player: Game.Player)
    returns (out: VisitOutcome, ghost sends: seq<Socket.Send>)
    requires Located(gs, session, game, player)
    modifies game, gs, gs.PooledPlayers()
    ensures Finished(handler, game, player, old(LeadOf(game)), out, sends)
    ensures Located(gs, session, game, player)
    ensures player.Path == old(player.Path) && gs.store().files == old(gs.store().files)
    ensures gs.activeGames == old(gs.activeGames)
    ensures game.Players == old(game.Players) && game.Settings() == old(game.Settings())
    ensures game.hash == old(game.hash)
    ensures old(gs.Valid()) ==> gs.Valid()
  {
    var isWinner, isTempWinner := game.EvaluateWinner(player);
    sends := Proclaim(gs, handler, session, game, player, isWinner, isTempWinner);
    out := AtGoal(isWinner, isTempWinner, game.Winner == player.Name);
  }

  /** The `switch` of `visitHandler` (main.go:143-148): a winner makes every
      client of the game receive a game-over message, a new leader a finish
      message counting the player's visits; otherwise nothing is sent.
      `evaluateWinner` never declares a winner, so `JudgeGoal` never reaches
      the first case. */
  method Proclaim(gs: GameStore.GameStore, handler: Socket.SocketHandler, session: Session.GameSession,
                  game: Game.Game, player: Game.Player, isWinner: bool, isTempWinner: bool)
    returns (ghost sends: seq<Socket.Send>)
    requires Located(gs, session, game, player)
    modifies gs, gs.PooledPlayers()
    ensures isWinner ==>
      && AllOfType(sends, Messages.GameOver, player.Name)
      && (forall i :: 0 <= i < |sends| ==> sends[i].message.GameOverMessage?)
      && Socket.Reached(sends) == handler.ClientsOf(game)
    ensures !isWinner && isTempWinner ==>
      && AllOfType(sends, Messages.Finish, player.Name)
      && (forall i :: 0 <= i < |sends| ==>
            sends[i].message.FinishMessage? && sends[i].message.Visits == |player.Path|)
      && Socket.Reached(sends) == handler.ClientsOf(game)
    ensures !isWinner && !isTempWinner ==> sends == []
    ensures Located(gs, session, game, player)
    ensures player.Path == old(player.Path) && gs.store().files == old(gs.store().files)
    ensures gs.activeGames == old(gs.activeGames)
  {
    if isWinner {
      sends := GameOver(handler, session, game, player);
    } else if isTempWinner {
      sends := NewLeader(gs, handler, session, game, player);
    } else {
      sends := [];
    }
  }

  /** `game.Broadcast(GameMessage(NewGameOverMessage(session)))` (main.go:145). */
  method GameOver(handler: Socket.SocketHandler, session: Session.GameSession, game: Game.Game, player: Game.Player)
    returns (ghost sends: seq<Socket.Send>)
    requires session.PlayerName() == Ok(player.Name)
    ensures AllOfType(sends, Messages.GameOver, player.Name)
    ensures forall i :: 0 <= i < |sends| ==> sends[i].message.GameOverMessage?
    ensures Socket.Reached(sends) == handler.ClientsOf(game)
  {
    var msg := Messages.NewGameOverMessage(session);
    sends := handler.Broadcast(game, msg.value);
  }

  /** `game.Broadcast(GameMessage(NewFinishMessage(session)))` (main.go:147). */
  method NewLeader(gs: GameStore.GameStore, handler: Socket.SocketHandler, session: Session.GameSession,
                   game: Game.Game, player: Game.Player)
    returns (ghost sends: seq<Socket.Send>)
    requires Located(gs, session, game, player)
    modifies gs, gs.PooledPlayers()
    ensures AllOfType(sends, Messages.Finish, player.Name)
    ensures forall i :: 0 <= i < |sends| ==>
      sends[i].message.FinishMessage? && sends[i].message.Visits == |player.Path|
    ensures Socket.Reached(sends) == handler.ClientsOf(game)
    ensures Located(gs, session, game, player)
    ensures player.Path == old(player.Path) && gs.store().files == old(gs.store().files)
    ensures gs.activeGames == old(gs.activeGames)
  {
    var msg := FinishOf(gs, session, game, player);
    label made:
    sends := handler.Broadcast(game, msg);
    assert old@made(Located(gs, session, game, player)) && unchanged@made(gs, session, game);
  }

  /** `NewFinishMessage(session)` for a located player, which it cannot fail
      to find. */
  method FinishOf(gs: GameStore.GameStore, session: Session.GameSession, game: Game.Game, player: Game.Player)
    returns (msg: Messages.GameMessage)
    requires Located(gs, session, game, player)
    modifies gs, gs.PooledPlayers()
    ensures msg.FinishMessage? && msg.Visits == |player.Path| && fresh(msg.base)
    ensures msg.base.Type == Messages.Finish && msg.base.PlayerName == player.Name
    ensures Located(gs, session, game, player)
    ensures player.Path == old(player.Path) && gs.store().files == old(gs.store().files)
    ensures gs.activeGames == old(gs.activeGames)
  {
    var found, finisher := Messages.NewFinishMessage(session, gs);
    msg := found.value;
  }

  /** The other branch of `visitHandler` (main.go:160-164): every client of
      the game learns of the visit. */
  method Announce(handler: Socket.SocketHandler, session: Session.GameSession,
                  game: Game.Game, player: Game.Player, page: string)
    returns (out: VisitOutcome, ghost sends: seq<Socket.Send>)
    requires session.PlayerName() == Ok(player.Name)
    ensures Announced(handler, game, player, page, out, sends)
  {
    var msg := Messages.NewVisitMessage(session, page, player);
    sends := handler.Broadcast(game, msg.value);
    out := Moved(page);
  }

  /** For a game loaded from the store by the visit: the visit is refused
      unless the stored roster carries the session's player name, and then
      the player's earlier path and the game's earlier lead are the stored
      ones. */
  ghost predicate FromStore(gs: GameStore.GameStore, session: Session.GameSession, refused: bool,
                            pathBefore: seq<string>, before: Lead)
    reads session, gs.store()
  {
    session.GameHash().Ok? && session.PlayerName().Ok? ==>
      var hash := session.GameHash().value;
      if gs.Loadable(hash) then
        var rec := gs.Stored(hash);
        var i := Game.IndexOfRecord(rec.Players, session.PlayerName().value);
        && (!refused <==> i >= 0)
        && (!refused ==> pathBefore == rec.Players[i].Path && before == Lead(rec.Winner, rec.WinnerPath))
      else refused
  }

  /** The part of `visitHandler` after the session check (main.go:124-165):
      find the session's game and player, then `Arrive`. */
  method Play(gs: GameStore.GameStore, handler: Socket.SocketHandler, session: Session.GameSession, page: string)
    returns (out: VisitOutcome, ghost game: Game.Game?, ghost player: Game.Player?,
             ghost pathBefore: seq<string>, ghost before: Lead, ghost sends: seq<Socket.Send>)
    modifies gs, gs.PooledGames(), gs.PooledPlayers()
    ensures session.GameHash().Err? ==> out.Refused? && gs.activeGames == old(gs.activeGames)
    ensures session.GameHash().Ok? ==> var hash := session.GameHash().value;
      && (hash in gs.activeGames <==> hash in old(gs.activeGames) || gs.Loadable(hash))
      && (hash in old(gs.activeGames) ==> gs.activeGames == old(gs.activeGames))
    ensures !out.Refused? <==> OnRoster(gs, session)
    ensures !out.Refused? && session.GameHash().value in old(gs.activeGames) ==>
      && game == old(gs.activeGames[session.GameHash().value])
      && player in old(game.Players) && pathBefore == old(player.Path) && before == old(LeadOf(game))
    ensures session.GameHash().Ok? && session.GameHash().value in old(gs.activeGames) && session.PlayerName().Ok? ==>
      (!out.Refused? <==>
         Game.IndexOfName(old(gs.activeGames[session.GameHash().value].Players), session.PlayerName().value) >= 0)
    ensures session.GameHash().Ok? && session.GameHash().value !in old(gs.activeGames) ==>
      FromStore(gs, session, out.Refused?, pathBefore, before)
    ensures !out.Refused? ==>
      && game != null && player != null
      && Located(gs, session, game, player)
      && Arrived(handler, game, player, page, pathBefore, before, out, sends)
    ensures old(gs.Valid()) ==> gs.Valid()
  {
    game, player, pathBefore, before, sends := null, null, [], Lead("", []), [];
    var found;
    found, pathBefore, before := Prepare(gs, session);
    if found.Err? {
      return Refused(found.msg), game, player, pathBefore, before, sends;
    }
    var (g, pl) := found.value;
    game, player := g, pl;
    label found:
    out, sends := Arrive(gs, handler, session, g, pl, page);
    assert gs.activeGames == old@found(gs.activeGames) && g.Players == old@found(g.Players);
  }

  /** `Lookup`, with the player's path and the game's lead as found. */
  method Prepare(gs: GameStore.GameStore, session: Session.GameSession)
    returns (r: Result<(Game.Game, Game.Player)>, ghost pathBefore: seq<string>, ghost before: Lead)
    modifies gs, gs.PooledPlayers()
    ensures session.GameHash().Err? ==> r.Err? && gs.activeGames == old(gs.activeGames)
    ensures session.GameHash().Ok? ==> var hash := session.GameHash().value;
      && (hash in gs.activeGames <==> hash in old(gs.activeGames) || gs.Loadable(hash))
      && (hash in old(gs.activeGames) ==> gs.activeGames == old(gs.activeGames))
    ensures r.Ok? <==> OnRoster(gs, session)
    ensures r.Ok? ==> r.value.0 in old(gs.PooledGames()) || fresh(r.value.0)
    ensures r.Ok? ==> r.value.1 in old(gs.PooledPlayers()) || fresh(r.value.1)
    ensures r.Ok? && session.GameHash().value in old(gs.activeGames) ==>
      && r.value.0 == old(gs.activeGames[session.GameHash().value])
      && r.value.1 in old(gs.activeGames[session.GameHash().value].Players)
      && pathBefore == old(r.value.1.Path) && before == old(LeadOf(gs.activeGames[session.GameHash().value]))
    ensures session.GameHash().Ok? && session.GameHash().value in old(gs.activeGames) && session.PlayerName().Ok? ==>
      (r.Ok? <==>
         Game.IndexOfName(old(gs.activeGames[session.GameHash().value].Players), session.PlayerName().value) >= 0)
    ensures session.GameHash().Ok? && session.GameHash().value !in old(gs.activeGames) ==>
      FromStore(gs, session, r.Err?, pathBefore, before)
    ensures r.Ok? ==> && Located(gs, session, r.value.0, r.value.1)
                      && pathBefore == r.value.1.Path && before == LeadOf(r.value.0)
    ensures GameStore.Grown(old(gs.PooledPlayers()), gs.PooledPlayers())
    ensures old(gs.Valid()) ==> gs.Valid()
  {
    pathBefore, before := [], Lead("", []);
    r := Lookup(gs, session);
    if r.Ok? {
      pathBefore, before := r.value.1.Path, LeadOf(r.value.0);
    }
  }

  /** The look-ups of `visitHandler` (main.go:124-134): the session's game,
      then the session's player in it. */
  method Lookup(gs: GameStore.GameStore, session: Session.GameSession)
    returns (r: Result<(Game.Game, Game.Player)>)
    modifies gs, gs.PooledPlayers()
    ensures session.GameHash().Err? ==> r.Err? && gs.activeGames == old(gs.activeGames)
    ensures session.GameHash().Ok? ==> var hash := session.GameHash().value;
      && (hash in gs.activeGames <==> hash in old(gs.activeGames) || gs.Loadable(hash))
      && (hash in old(gs.activeGames) ==> gs.activeGames == old(gs.activeGames))
    ensures r.Ok? <==> OnRoster(gs, session)
    ensures session.GameHash().Ok? && session.GameHash().value in old(gs.activeGames) && session.PlayerName().Ok? ==>
      (r.Ok? <==>
         Game.IndexOfName(old(gs.activeGames[session.GameHash().value].Players), session.PlayerName().value) >= 0)
    ensures r.Ok? ==> Located(gs, session, r.value.0, r.value.1)
    ensures r.Ok? ==> r.value.0 in old(gs.PooledGames()) || fresh(r.value.0)
    ensures r.Ok? ==> r.value.1 in old(gs.PooledPlayers()) || fresh(r.value.1)
    ensures r.Ok? && session.GameHash().value in old(gs.activeGames) ==>
      && r.value.0 == old(gs.activeGames[session.GameHash().value])
      && r.value.1 in old(r.value.0.Players) && r.value.1.Path == old(r.value.1.Path)
    ensures session.GameHash().Ok? && session.GameHash().value !in old(gs.activeGames) && session.PlayerName().Ok? ==>
      var hash := session.GameHash().value;
      if gs.Loadable(hash) then
        var i := Game.IndexOfRecord(gs.Stored(hash).Players, session.PlayerName().value);
        && (r.Ok? <==> i >= 0)
        && (r.Ok? ==> r.value.0.Record() == gs.Stored(hash) && r.value.1.Record() == gs.Stored(hash).Players[i])
      else r.Err?
    ensures GameStore.Grown(old(gs.PooledGames()), gs.PooledGames())
    ensures GameStore.Grown(old(gs.PooledPlayers()), gs.PooledPlayers())
    ensures old(gs.Valid()) ==> gs.Valid()
  {
    var found := SessionGame.GetGame(session, gs);
    if found.Err? {
      return Err(found.msg);
    }
    var g := found.value;
    ghost var rec := g.Record();
    ghost var loaded := session.GameHash().value !in old(gs.activeGames);
    assert loaded ==> gs.Loadable(session.GameHash().value) && rec == gs.Stored(session.GameHash().value);
    r := Identify(gs, session, g);
    assert g.Record() == rec;
  }

  /** The second look-up of `visitHandler` (main.go:130-134), once the
      session's game is pooled: the session's player in it. */
  method Identify(gs: GameStore.GameStore, session: Session.GameSession, g: Game.Game)
    returns (r: Result<(Game.Game, Game.Player)>)
    requires session.GameHash().Ok? && session.GameHash().value in gs.activeGames
    requires gs.activeGames[session.GameHash().value] == g
    modifies gs, gs.PooledPlayers()
    ensures gs.activeGames == old(gs.activeGames) && g.Players == old(g.Players)
    ensures gs.PooledPlayers() == old(gs.PooledPlayers())
    ensures gs.store().files == old(gs.store().files)
    ensures r.Ok? <==> OnRoster(gs, session)
    ensures r.Ok? ==> Located(gs, session, r.value.0, r.value.1) && r.value.0 == g && r.value.1 in old(g.Players)
    ensures r.Ok? ==> r.value.1.Path == old(r.value.1.Path)
    ensures g.Record() == old(g.Record())
    ensures session.PlayerName().Ok? ==>
      var i := Game.IndexOfRecord(g.Record().Players, session.PlayerName().value);
      && (r.Ok? <==> i >= 0)
      && (r.Ok? ==> r.value.1.Record() == g.Record().Players[i])
    ensures old(gs.Valid()) ==> gs.Valid()
  {
    var who, g2 := SessionGame.PlayerFromSession(session, gs);
    if who.Err? {
      return Err(who.msg);
    }
    var pl := who.value;
    assert g2 == g;
    assert pl in g.Players;
    r := Ok((g, pl));
  }

  /** `visitHandler` (main.go:100-171) from the query value on: decrypt the
      token, unescape the page, check the session, then `Play`. `unescape`
      is `url.QueryUnescape`. */
  method Visit(c: PageCipher.Cipher, unescape: string -> Result<string>, gs: GameStore.GameStore,
               handler: Socket.SocketHandler, session: Session.GameSession, token: string)
    returns (out: VisitOutcome, ghost game: Game.Game?, ghost player: Game.Player?, ghost page: string,
             ghost pathBefore: seq<string>, ghost before: Lead, ghost sends: seq<Socket.Send>)
    modifies gs, gs.PooledGames(), gs.PooledPlayers()
    ensures PageCipher.PagePlain(c, token).Err? ==> out.Refused? && gs.activeGames == old(gs.activeGames)
    ensures PageCipher.PagePlain(c, token).Ok? && unescape(PageCipher.PagePlain(c, token).value).Err? ==>
      out.Refused? && gs.activeGames == old(gs.activeGames)
    ensures !session.IsInitialized() ==> out.Refused? && gs.activeGames == old(gs.activeGames)
    ensures !out.Refused? <==>
      && PageCipher.PagePlain(c, token).Ok? && unescape(PageCipher.PagePlain(c, token).value).Ok?
      && session.IsInitialized() && OnRoster(gs, session)
    ensures && PageCipher.PagePlain(c, token).Ok? && unescape(PageCipher.PagePlain(c, token).value).Ok?
            && session.IsInitialized() && session.GameHash().Ok? ==>
      var hash := session.GameHash().value;
      hash in gs.activeGames <==> hash in old(gs.activeGames) || gs.Loadable(hash)
    ensures session.GameHash().Ok? && session.GameHash().value in old(gs.activeGames) ==>
      gs.activeGames == old(gs.activeGames)
    ensures !out.Refused? && session.GameHash().value in old(gs.activeGames) ==>
      && game == old(gs.activeGames[session.GameHash().value])
      && player in old(game.Players) && pathBefore == old(player.Path) && before == old(LeadOf(game))
    ensures && PageCipher.PagePlain(c, token).Ok? && unescape(PageCipher.PagePlain(c, token).value).Ok?
            && session.IsInitialized() && session.GameHash().Ok? && session.GameHash().value !in old(gs.activeGames) ==>
      FromStore(gs, session, out.Refused?, pathBefore, before)
    ensures !out.Refused? ==>
      && PageCipher.PagePlain(c, token).Ok? && unescape(PageCipher.PagePlain(c, token).value) == Ok(page)
      && game != null && player != null
      && Located(gs, session, game, player)
      && Arrived(handler, game, player, page, pathBefore, before, out, sends)
    ensures old(gs.Valid()) ==> gs.Valid()
  {
    game, player, page, pathBefore, before, sends := null, null, "", [], Lead("", []), [];
    var plain := PageCipher.DecryptPage(c, token);
    if plain.Err? {
      return Refused(plain.msg), game, player, page, pathBefore, before, sends;
    }
    var unescaped := unescape(plain.value);
    if unescaped.Err? {
      return Refused(unescaped.msg), game, player, page, pathBefore, before, sends;
    }
    var p := unescaped.value;
    page := p;
    if !session.IsInitialized() {
      return Refused("Invalid session, sorry :/ (Error: <nil>)"), game, player, page, pathBefore, before, sends;
    }
    out, game, player, pathBefore, before, sends := Play(gs, handler, session, p);
  }
}
