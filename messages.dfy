/** The websocket messages of message.go. Every message shares one mutable
    `BaseGameMessage` that `AddressTo` re-addresses before each send. */
module Messages {
  import opened Wrappers
  import Session
  import Game
  import GameStore
  import SessionGame

  /** The type codes, in `iota` order. */
  const Visit := 0
  const Join := 1
  const Leave := 2
  const Finish := 3
  const GameOver := 4
  const FatalStuff := 5

  class BaseGameMessage {
    var RecipientName: string
    var PlayerName: string
    var Message: string
    var Type: int

    /** `createMessage` (message.go:68-70): not yet addressed to anyone. */
    constructor (typeNum: int, playerName: string, message: string)
      ensures RecipientName == "" && PlayerName == playerName && Message == message && Type == typeNum
    {
      RecipientName := "";
      PlayerName := playerName;
      Message := message;
      Type := typeNum;
    }

    /** `AddressTo` (message.go:29-31): only the recipient changes. */
    method AddressTo(name: string)
      modifies this
      ensures RecipientName == name
      ensures PlayerName == old(PlayerName) && Message == old(Message) && Type == old(Type)
    {
      RecipientName := name;
    }
  }

  /** The message kinds: each wraps the shared base message. */
  datatype GameMessage =
    | JoinMessage(base: BaseGameMessage, player: Game.Player)
    | LeaveMessage(base: BaseGameMessage)
    | VisitMessage(base: BaseGameMessage, player: Game.Player)
    | FinishMessage(base: BaseGameMessage, Visits: int)
    | GameOverMessage(base: BaseGameMessage)
    | FatalStuffMessage(base: BaseGameMessage)

  /** `NewJoinMessage` (message.go:72-74). */
  method NewJoinMessage(player: Game.Player) returns (m: GameMessage)
    ensures m.JoinMessage? && m.player == player && fresh(m.base)
    ensures m.base.Type == Join && m.base.PlayerName == player.Name && m.base.Message == "joined"
    ensures m.base.RecipientName == ""
  {
    var base := new BaseGameMessage(Join, player.Name, "joined");
    m := JoinMessage(base, player);
  }

  /** `NewLeaveMessage` (message.go:76-78): a session without a string name
      panics. */
  method NewLeaveMessage(session: Session.GameSession) returns (r: Result<GameMessage>)
    ensures r.Ok? <==> session.PlayerName().Ok?
    ensures r.Ok? ==> r.value.LeaveMessage? && fresh(r.value.base)
    ensures r.Ok? ==> var b := r.value.base;
      b.Type == Leave && b.PlayerName == session.PlayerName().value
      && b.Message == session.PlayerName().value && b.RecipientName == ""
  {
    var name := session.PlayerName();
    if name.Err? {
      return Err(name.msg);
    }
    var base := new BaseGameMessage(Leave, name.value, name.value);
    r := Ok(LeaveMessage(base));
  }

  /** `NewFinishMessage` (message.go:80-94): panics when the session's player
      cannot be found; counts the finisher's visits. */
  method NewFinishMessage(session: Session.GameSession, gs: GameStore.GameStore)
    returns (r: Result<GameMessage>, ghost player: Game.Player?)
    modifies gs, gs.PooledPlayers()
    ensures r.Ok? ==> player != null && r.value.FinishMessage? && fresh(r.value.base)
    ensures r.Ok? ==> var b := r.value.base;
      b.Type == Finish && b.PlayerName == player.Name && b.Message == player.Name
      && b.RecipientName == "" && r.value.Visits == |player.Path|
    ensures r.Ok? ==> session.PlayerName() == Ok(player.Name) && player.Session == session
    ensures session.GameHash().Ok? && session.GameHash().value in old(gs.activeGames) && session.PlayerName().Ok? ==>
      var g := old(gs.activeGames)[session.GameHash().value];
      var i := Game.IndexOfName(g.Players, session.PlayerName().value);
      && (r.Ok? <==> i >= 0)
      && (r.Ok? ==> player == g.Players[i])
    ensures session.GameHash().Ok? && session.GameHash().value in old(gs.activeGames) ==>
      gs.activeGames == old(gs.activeGames)
    ensures forall p: Game.Player :: p in old(gs.PooledPlayers()) ==> p.Path == old(p.Path)
    ensures session.GameHash().Ok? ==> var hash := session.GameHash().value;
      hash in gs.activeGames <==> hash in old(gs.activeGames) || gs.Loadable(hash)
    ensures session.GameHash().Ok? && session.PlayerName().Ok? && session.GameHash().value in gs.activeGames ==>
      var i := Game.IndexOfName(gs.activeGames[session.GameHash().value].Players, session.PlayerName().value);
      && (r.Ok? <==> i >= 0)
      && (r.Ok? ==> player == gs.activeGames[session.GameHash().value].Players[i])
    ensures session.GameHash().Ok? && session.GameHash().value !in old(gs.activeGames) && session.PlayerName().Ok? ==>
      var hash := session.GameHash().value;
      if gs.Loadable(hash) then
        var i := Game.IndexOfRecord(gs.Stored(hash).Players, session.PlayerName().value);
        && (r.Ok? <==> i >= 0)
        && (r.Ok? ==> player.Record() == gs.Stored(hash).Players[i])
      else r.Err?
    ensures old(gs.Valid()) ==> gs.Valid()
  {
    var found, game := SessionGame.PlayerFromSession(session, gs);
    if found.Err? {
      return Err(found.msg), null;
    }
    var p := found.value;
    player := p;
    var base := new BaseGameMessage(Finish, p.Name, p.Name);
    r := Ok(FinishMessage(base, |p.Path|));
  }

  /** `NewVisitMessage` (message.go:96-101): the text is the page visited. */
  method NewVisitMessage(session: Session.GameSession, page: string, player: Game.Player)
    returns (r: Result<GameMessage>)
    ensures r.Ok? <==> session.PlayerName().Ok?
    ensures r.Ok? ==> r.value.VisitMessage? && r.value.player == player && fresh(r.value.base)
    ensures r.Ok? ==> var b := r.value.base;
      b.Type == Visit && b.PlayerName == session.PlayerName().value && b.Message == page
      && b.RecipientName == ""
  {
    var name := session.PlayerName();
    if name.Err? {
      return Err(name.msg);
    }
    var base := new BaseGameMessage(Visit, name.value, page);
    r := Ok(VisitMessage(base, player));
  }

  /** `NewGameOverMessage` (message.go:103-105). */
  method NewGameOverMessage(session: Session.GameSession) returns (r: Result<GameMessage>)
    ensures r.Ok? <==> session.PlayerName().Ok?
    ensures r.Ok? ==> r.value.GameOverMessage? && fresh(r.value.base)
    ensures r.Ok? ==> var b := r.value.base;
      b.Type == GameOver && b.PlayerName == session.PlayerName().value
      && b.Message == session.PlayerName().value && b.RecipientName == ""
  {
    var name := session.PlayerName();
    if name.Err? {
      return Err(name.msg);
    }
    var base := new BaseGameMessage(GameOver, name.value, name.value);
    r := Ok(GameOverMessage(base));
  }
}
