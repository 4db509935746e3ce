/** A game and its players (game.go, player.go). A `Game` keeps an
    append-only roster of players and the recorded winner with the path that
    winner took; a `Player` keeps the pages visited. Go's `Players []Player`
    holds values that `GetPlayer` hands out by address; here the roster is a
    sequence of `Player` objects, so a roster entry and the pointer
    `GetPlayer` returns are the same object. The winner lock is left out: the
    model is sequential. */
module Game {
  import opened Wrappers
  import GameHasher
  import Session
  import Bytes

  /** The JSON form of a player: `Session` is `json:"-"` and `game` is
      unexported, so neither is stored. */
  datatype PlayerRecord = PlayerRecord(Path: seq<string>, Name: string, LeftGame: bool)

  /** The JSON form of a game: the cached hash is unexported and not stored. */
  datatype GameRecord = GameRecord(
    Host: string,
    Players: seq<PlayerRecord>,
    Winner: string,
    WinnerPath: seq<string>,
    Start: string,
    Goal: string,
    WikiUrl: string)

  /** The path after visiting `page`: a reload of the current page is not
      counted, any other page is appended. */
  function AfterVisit(path: seq<string>, page: string): (r: seq<string>)
    ensures |r| > 0 && r[|r| - 1] == page
    ensures path <= r && |r| <= |path| + 1
  {
    if |path| > 0 && path[|path| - 1] == page then path else path + [page]
  }

  /** A reload leaves the path as it is. */
  lemma VisitReload(path: seq<string>, page: string)
    requires |path| > 0 && path[|path| - 1] == page
    ensures AfterVisit(path, page) == path
  {
  }

  /** Any other page is appended exactly once. */
  lemma VisitAppends(path: seq<string>, page: string)
    requires |path| == 0 || path[|path| - 1] != page
    ensures AfterVisit(path, page) == path + [page]
    ensures |AfterVisit(path, page)| == |path| + 1
  {
  }

  /** No page follows itself. */
  ghost predicate NoRepeats(path: seq<string>)
  {
    forall i :: 0 < i < |path| ==> path[i - 1] != path[i]
  }

  /** A path built by visits only never holds the same page twice in a row. */
  lemma VisitKeepsNoRepeats(path: seq<string>, page: string)
    requires NoRepeats(path)
    ensures NoRepeats(AfterVisit(path, page))
  {
  }

  /** Folding a series of visits over the empty path. */
  function VisitAll(pages: seq<string>): (r: seq<string>)
  {
    if |pages| == 0 then [] else AfterVisit(VisitAll(pages[..|pages| - 1]), pages[|pages| - 1])
  }

  lemma {:induction false} VisitAllNoRepeats(pages: seq<string>)
    ensures NoRepeats(VisitAll(pages))
    ensures |VisitAll(pages)| <= |pages|
  {
    if |pages| > 0 {
      VisitAllNoRepeats(pages[..|pages| - 1]);
      VisitKeepsNoRepeats(VisitAll(pages[..|pages| - 1]), pages[|pages| - 1]);
    }
  }

  /** What `evaluateWinner` reports. */
  datatype Verdict = Verdict(isWinner: bool, isTempWinner: bool)

  /** `evaluateWinner` on the recorded winner path and the player's path: the
      player leads when no path is recorded yet or when theirs is strictly
      shorter. A full winner is never declared, and the goal is not looked at. */
  function Judge(recorded: seq<string>, path: seq<string>): (v: Verdict)
    ensures !v.isWinner
    ensures v.isWinner ==> v.isTempWinner
    ensures v.isTempWinner <==> |recorded| == 0 || |path| < |recorded|
  {
    Verdict(false, |recorded| == 0 || |recorded| > |path|)
  }

  /** The winner path after an evaluation. */
  function Recorded(recorded: seq<string>, path: seq<string>): seq<string>
  {
    if Judge(recorded, path).isTempWinner then path else recorded
  }

  /** Once a winner path is recorded it only ever gets strictly shorter. */
  lemma RecordedPathShrinks(recorded: seq<string>, path: seq<string>)
    requires |recorded| > 0
    ensures |Recorded(recorded, path)| <= |recorded|
    ensures Recorded(recorded, path) != recorded ==> |Recorded(recorded, path)| < |recorded|
  {
  }

  /** Re-evaluating the recorded winner with an unchanged path is refused, so
      evaluation is not idempotent: the first call reported a lead. */
  lemma ReevaluationRefused(path: seq<string>)
    requires |path| > 0
    ensures Judge(path, path) == Verdict(false, false)
  {
  }

  /** The first player to be evaluated always leads, whatever their path. */
  lemma FirstEvaluationLeads(path: seq<string>)
    ensures Judge([], path) == Verdict(false, true)
  {
  }

  /** The lowest roster index holding a player called `name`, or -1. */
  function IndexOfName(players: seq<Player>, name: string): (i: int)
    ensures -1 <= i < |players|
    ensures i >= 0 ==> players[i].Name == name
    ensures i >= 0 ==> forall k :: 0 <= k < i ==> players[k].Name != name
    ensures i == -1 <==> forall k :: 0 <= k < |players| ==> players[k].Name != name
  {
    if |players| == 0 then -1
    else if players[0].Name == name then 0
    else
      var k := IndexOfName(players[1..], name);
      if k < 0 then -1 else k + 1
  }

  /** The stored form of a roster. */
  function Records(players: seq<Player>): (r: seq<PlayerRecord>)
    reads players
    ensures |r| == |players|
    ensures forall i :: 0 <= i < |players| ==> r[i] == players[i].Record()
  {
    if |players| == 0 then [] else [players[0].Record()] + Records(players[1..])
  }

  /** The lowest index of a stored roster entry called `name`, or -1. */
  function IndexOfRecord(records: seq<PlayerRecord>, name: string): (i: int)
    ensures -1 <= i < |records|
    ensures i >= 0 ==> records[i].Name == name
    ensures i >= 0 ==> forall k :: 0 <= k < i ==> records[k].Name != name
    ensures i == -1 <==> forall k :: 0 <= k < |records| ==> records[k].Name != name
  {
    if |records| == 0 then -1
    else if records[0].Name == name then 0
    else
      var k := IndexOfRecord(records[1..], name);
      if k < 0 then -1 else k + 1
  }

  /** A roster and its stored form find a name at the same index, and the
      entry found stores as the record found. */
  lemma IndexOfStoredRoster(players: seq<Player>, name: string)
    ensures IndexOfName(players, name) == IndexOfRecord(Records(players), name)
    ensures IndexOfName(players, name) >= 0 ==>
      players[IndexOfName(players, name)].Record() == Records(players)[IndexOfName(players, name)]
  {
    var i, j := IndexOfName(players, name), IndexOfRecord(Records(players), name);
    if i >= 0 {
      assert Records(players)[i].Name == name;
    }
    if j >= 0 {
      assert players[j].Name == name;
    }
  }

  /** A roster keeps its stored form while no entry's path or leave flag
      changes. */
  twostate lemma RecordsKept(players: seq<Player>)
    requires forall p :: p in players ==> p.Path == old(p.Path) && p.LeftGame == old(p.LeftGame)
    ensures Records(players) == old(Records(players))
  {
  }

  /** A game's record survives any change that leaves the game object and
      its players' paths and flags alone. */
  twostate lemma RecordKept(g: Game)
    requires unchanged(g)
    requires forall p :: p in g.Players ==> p.Path == old(p.Path) && p.LeftGame == old(p.LeftGame)
    ensures g.Record() == old(g.Record())
  {
    RecordsKept(g.Players);
  }

  /** No player appears twice in a roster. */
  ghost predicate Distinct(players: seq<Player>)
  {
    forall i, j :: 0 <= i < j < |players| ==> players[i] != players[j]
  }

  /** The roster `json.Unmarshal` builds: one new player per stored record,
      in order, none bound to a session or a game. */
  method NewPlayers(rs: seq<PlayerRecord>) returns (players: seq<Player>)
    ensures Records(players) == rs
    ensures forall p :: p in players ==> fresh(p)
    ensures forall p :: p in players ==> p.Session == null && p.game == null
    ensures Distinct(players)
  {
    players := [];
    var i := 0;
    while i < |rs|
      invariant 0 <= i <= |rs| && |players| == i
      invariant forall k :: 0 <= k < i ==> fresh(players[k])
      invariant forall k :: 0 <= k < i ==> players[k].Record() == rs[k]
      invariant forall k :: 0 <= k < i ==> players[k].Session == null && players[k].game == null
      invariant forall a, b :: 0 <= a < b < i ==> players[a] != players[b]
    {
      var p := new Player.FromRecord(rs[i]);
      players := players + [p];
      i := i + 1;
    }
    assert Records(players) == rs;
  }

  class Player {
    var Path: seq<string>
    const Name: string
    var Session: Session.GameSession?
    var LeftGame: bool
    var game: Game?

    /** `Player{Name: name}`. */
    constructor (name: string)
      ensures Name == name && Path == [] && !LeftGame
      ensures Session == null && game == null
    {
      Name := name;
      Path := [];
      LeftGame := false;
      Session := null;
      game := null;
    }

    /** A player as stored: loaded players have no session and no game. */
    constructor FromRecord(r: PlayerRecord)
      ensures Record() == r
      ensures Session == null && game == null
    {
      Name := r.Name;
      Path := r.Path;
      LeftGame := r.LeftGame;
      Session := null;
      game := null;
    }

    /** Attaches the player to a session and a game (the two assignments at
        the end of `PlayerFromSession`, player.go:30-31). */
    method Bind(session: Session.GameSession, g: Game)
      modifies this`Session, this`game
      ensures Session == session && game == g
    {
      Session := session;
      game := g;
    }

    /** A copy of a player, as a `Player` passed by value. */
    constructor Copy(p: Player)
      ensures Name == p.Name && Path == p.Path && LeftGame == p.LeftGame
      ensures Session == p.Session && game == p.game
    {
      Name := p.Name;
      Path := p.Path;
      LeftGame := p.LeftGame;
      Session := p.Session;
      game := p.game;
    }

    function Record(): PlayerRecord
      reads this
    {
      PlayerRecord(Path, Name, LeftGame)
    }

    /** `Visited` (player.go:36-46). */
    method Visited(page: string)
      modifies this
      ensures Path == AfterVisit(old(Path), page)
      ensures LeftGame == old(LeftGame) && Session == old(Session) && game == old(game)
    {
      if |Path| > 0 && Path[|Path| - 1] == page {
        return;
      }
      Path := Path + [page];
    }

    /** `LastVisited` (player.go:48-56): the game's start page before the first
        visit; a player without a game dereferences nil. */
    function LastVisited(): (r: Result<string>)
      reads this, game
      ensures |Path| > 0 ==> r == Ok(Path[|Path| - 1])
      ensures |Path| == 0 ==> (r.Ok? <==> game != null)
      ensures |Path| == 0 && game != null ==> r == Ok(game.Start)
    {
      if |Path| == 0 then
        if game == null then Err("invalid memory address or nil pointer dereference")
        else Ok(game.Start)
      else Ok(Path[|Path| - 1])
    }
  }

  /** `SortablePlayers.Less`: players compare by path length only. */
  predicate Less(players: array<Player>, i: int, j: int)
    requires 0 <= i < players.Length && 0 <= j < players.Length
    reads players, players[i], players[j]
  {
    |players[i].Path| < |players[j].Path|
  }

  /** `Less` is a strict order: irreflexive, asymmetric and transitive. */
  lemma LessIsStrictOrder(players: array<Player>, i: int, j: int, k: int)
    requires 0 <= i < players.Length && 0 <= j < players.Length && 0 <= k < players.Length
    ensures !Less(players, i, i)
    ensures Less(players, i, j) ==> !Less(players, j, i)
    ensures Less(players, i, j) && Less(players, j, k) ==> Less(players, i, k)
  {
  }

  /** `SortablePlayers.Swap`. */
  method Swap(players: array<Player>, i: int, j: int)
    requires 0 <= i < players.Length && 0 <= j < players.Length
    modifies players
    ensures players[i] == old(players[j]) && players[j] == old(players[i])
    ensures forall k :: 0 <= k < players.Length && k != i && k != j ==> players[k] == old(players[k])
    ensures multiset(players[..]) == multiset(old(players[..]))
  {
    players[i], players[j] := players[j], players[i];
  }

  class Game {
    /** Cache for the game hash. */
    var hash: string
    var Host: string
    var Players: seq<Player>
    var Winner: string
    var WinnerPath: seq<string>
    var Start: string
    var Goal: string
    var WikiUrl: string

    /** Roster entries are distinct players. */
    ghost predicate Valid()
      reads this
    {
      Distinct(Players)
    }

    /** The fields nothing but `Hash`, `Load` and the winner bookkeeping touch. */
    function Settings(): (string, string, string, string)
      reads this
    {
      (Host, Start, Goal, WikiUrl)
    }

    function Record(): GameRecord
      reads this, Players
    {
      GameRecord(Host, Records(Players), Winner, WinnerPath, Start, Goal, WikiUrl)
    }

    /** `NewGame` (game.go:33-42): the host is the only player. */
    constructor (hostingPlayerName: string, wikiUrl: string)
      ensures Valid()
      ensures Host == hostingPlayerName && WikiUrl == wikiUrl
      ensures |Players| == 1 && fresh(Players[0])
      ensures Players[0].Name == hostingPlayerName && Players[0].Path == [] && !Players[0].LeftGame
      ensures Players[0].Session == null && Players[0].game == null
      ensures hash == "" && Winner == "" && WinnerPath == [] && Start == "" && Goal == ""
    {
      hash := "";
      Host := hostingPlayerName;
      Players := [];
      Winner := "";
      WinnerPath := [];
      Start := "";
      Goal := "";
      WikiUrl := wikiUrl;
      new;
      AddPlayer(hostingPlayerName);
    }

    /** `AddPlayer` (game.go:56-60): appends one new player, with no check for
        a name already taken. */
    method AddPlayer(name: string)
      modifies this
      ensures |Players| == |old(Players)| + 1 && Players[..|old(Players)|] == old(Players)
      ensures fresh(Players[|Players| - 1])
      ensures Players[|Players| - 1].Name == name && Players[|Players| - 1].Path == []
      ensures !Players[|Players| - 1].LeftGame
      ensures Players[|Players| - 1].Session == null && Players[|Players| - 1].game == null
      ensures hash == old(hash) && Winner == old(Winner) && WinnerPath == old(WinnerPath)
      ensures Settings() == old(Settings())
      ensures old(Valid()) ==> Valid()
    {
      var p := new Player(name);
      Players := Players + [p];
    }

    /** `GetPlayer` (game.go:62-69): the first roster entry with that name. */
    method GetPlayer(name: string) returns (p: Player?)
      ensures p == null <==> IndexOfName(Players, name) == -1
      ensures p != null ==> p == Players[IndexOfName(Players, name)]
    {
      var i := 0;
      while i < |Players|
        invariant 0 <= i <= |Players|
        invariant forall k :: 0 <= k < i ==> Players[k].Name != name
      {
        if Players[i].Name == name {
          return Players[i];
        }
        i := i + 1;
      }
      return null;
    }

    /** `HasPlayer` (game.go:71-78). */
    method HasPlayer(name: string) returns (b: bool)
      ensures b <==> exists k :: 0 <= k < |Players| && Players[k].Name == name
      ensures b <==> IndexOfName(Players, name) >= 0
    {
      var i := 0;
      while i < |Players|
        invariant 0 <= i <= |Players|
        invariant forall k :: 0 <= k < i ==> Players[k].Name != name
      {
        if Players[i].Name == name {
          return true;
        }
        i := i + 1;
      }
      return false;
    }

    /** `setWinner` (game.go:80-86). */
    method SetWinner(player: Player)
      modifies this
      ensures Winner == player.Name && WinnerPath == player.Path
      ensures hash == old(hash) && Players == old(Players) && Settings() == old(Settings())
    {
      Winner := player.Name;
      WinnerPath := player.Path;
    }

    /** `evaluateWinner` (game.go:88-98). */
    function EvaluateWinnerOf(player: Player): (v: Verdict)
      reads this, player
      ensures !v.isWinner
      ensures v.isTempWinner <==> |WinnerPath| == 0 || |player.Path| < |WinnerPath|
    {
      Judge(WinnerPath, player.Path)
    }

    /** `EvaluateWinner` (game.go:106-114): a lead is recorded as the winner;
        nothing else changes. */
    method EvaluateWinner(player: Player) returns (isWinner: bool, isTempWinner: bool)
      modifies this
      ensures Verdict(isWinner, isTempWinner) == Judge(old(WinnerPath), player.Path)
      ensures isTempWinner ==> Winner == player.Name && WinnerPath == player.Path
      ensures !isTempWinner ==> Winner == old(Winner) && WinnerPath == old(WinnerPath)
      ensures WinnerPath == Recorded(old(WinnerPath), player.Path)
      ensures hash == old(hash) && Players == old(Players) && Settings() == old(Settings())
    {
      var v := EvaluateWinnerOf(player);
      isWinner, isTempWinner := v.isWinner, v.isTempWinner;
      if isTempWinner || isWinner {
        SetWinner(player);
      }
    }

    /** `GetWinner` (game.go:117-126): none while no winner is recorded. */
    method GetWinner() returns (p: Player?)
      ensures Winner == "" ==> p == null
      ensures Winner != "" ==> (p == null <==> IndexOfName(Players, Winner) == -1)
      ensures p != null ==> p == Players[IndexOfName(Players, Winner)] && p.Name == Winner
    {
      if |Winner| == 0 {
        return null;
      }
      p := GetPlayer(Winner);
    }

    /** The cached hash, or a new name from the generator when none is cached:
        `hasher` can mint one in the latter case. */
    ghost predicate CanHash(hasher: GameHasher.GameHasher)
      reads this, hasher, hasher.store
    {
      hash != "" || hasher.CanMint(Host)
    }

    /** `Hash` (game.go:48-54): the generator is asked only while the cache is
        empty; afterwards the cached value is returned unchanged. */
    method Hash(hasher: GameHasher.GameHasher) returns (h: string)
      requires CanHash(hasher)
      modifies this, hasher
      ensures h == hash && h != ""
      ensures old(hash) != "" ==> h == old(hash) && hasher.written == old(hasher.written)
      ensures old(hash) == "" ==> h !in hasher.store.files && |h| == 2 * GameHasher.DigestSize
      ensures old(hash) == "" ==> h == GameHasher.Hex(hasher.sum(hasher.written))
      ensures old(hash) == "" ==> exists n: nat ::
        && hasher.written == old(hasher.written) + Bytes.ToBytes(Host) + GameHasher.RetryBytes(n)
        && forall k: nat :: k < n ==>
             GameHasher.Taken(hasher.store.files, hasher.sum, old(hasher.written) + Bytes.ToBytes(Host), k)
      ensures Players == old(Players) && Winner == old(Winner) && WinnerPath == old(WinnerPath)
      ensures Settings() == old(Settings())
    {
      if |hash| == 0 {
        hash := hasher.NewGameHash(Host);
      }
      h := hash;
    }

    /** `json.Unmarshal` into a blank game: every stored field comes from the
        record, the roster as new players; the hash is not stored, so the
        cache stays empty. */
    constructor Load(r: GameRecord)
      ensures Record() == r
      ensures Valid()
      ensures forall p :: p in Players ==> fresh(p)
      ensures forall p :: p in Players ==> p.Session == null && p.game == null
      ensures hash == ""
    {
      var players := NewPlayers(r.Players);
      hash := "";
      Host, Players, Winner, WinnerPath := r.Host, players, r.Winner, r.WinnerPath;
      Start, Goal, WikiUrl := r.Start, r.Goal, r.WikiUrl;
    }
  }
}
