/** The websocket registry of socket.go: for every game, the set of client
    connections to notify. A send on a client's channel is recorded as a
    `Send`; the channels, the socket loop and the goroutines are not part of
    this model. */
module Socket {
  import opened Wrappers
  import Game
  import GameHasher
  import GameStore
  import Messages

  /** A client connection; the websocket and the channel are pointers in Go
      and are identified by number here. */
  datatype ClientConn = ClientConn(websocket: nat, clientIP: string, inputChan: nat, playerName: string)

  /** One message put on one client's channel. */
  datatype Send = Send(to: ClientConn, message: Messages.GameMessage)

  /** The clients a list of sends reached. */
  function Reached(sends: seq<Send>): set<ClientConn>
  {
    set i | 0 <= i < |sends| :: sends[i].to
  }

  lemma ReachedAppend(sends: seq<Send>, s: Send)
    ensures Reached(sends + [s]) == Reached(sends) + {s.to}
  {
    var t := sends + [s];
    forall c | c in Reached(t)
      ensures c in Reached(sends) + {s.to}
    {
      var i :| 0 <= i < |t| && t[i].to == c;
      if i < |sends| {
        assert sends[i].to == c;
      }
    }
    forall c | c in Reached(sends) + {s.to}
      ensures c in Reached(t)
    {
      if c != s.to {
        var i :| 0 <= i < |sends| && sends[i].to == c;
        assert t[i].to == c;
      } else {
        assert t[|sends|].to == c;
      }
    }
  }

  /** One more send keeps the loop's bookkeeping: the clients reached and the
      clients left partition the registered set. */
  lemma BroadcastStep(sends: seq<Send>, s: Send, all: set<ClientConn>, remaining: set<ClientConn>)
    requires remaining <= all && s.to in remaining
    requires Reached(sends) == all - remaining && |sends| + |remaining| == |all|
    ensures Reached(sends + [s]) == all - (remaining - {s.to})
    ensures |sends + [s]| + |remaining - {s.to}| == |all|
  {
    ReachedAppend(sends, s);
  }

  /** The last send's client is among those reached. */
  lemma LastReached(sends: seq<Send>)
    requires sends != []
    ensures LastTo(sends) in Reached(sends)
  {
  }

  /** Every send carries `msg`. */
  predicate AllCarry(sends: seq<Send>, msg: Messages.GameMessage)
  {
    forall i :: 0 <= i < |sends| ==> sends[i].message == msg
  }

  /** Appending a send of `msg` keeps every send carrying it and ends with
      the new one. */
  lemma CarryAppend(sends: seq<Send>, s: Send)
    requires AllCarry(sends, s.message)
    ensures AllCarry(sends + [s], s.message) && LastTo(sends + [s]) == s.to
  {
  }

  /** The client of the last send. */
  function LastTo(sends: seq<Send>): ClientConn
    requires sends != []
  {
    sends[|sends| - 1].to
  }

  class SocketHandler {
    var clients: map<Game.Game, set<ClientConn>>

    constructor ()
      ensures clients == map[]
    {
      clients := map[];
    }

    /** The clients registered for `game`; none when the game has no entry. */
    function ClientsOf(game: Game.Game): set<ClientConn>
      reads this
    {
      if game in clients then clients[game] else {}
    }

    /** `Broadcast` (socket.go:35-42): one send of `msg` per client registered
        for `game`, each preceded by addressing the shared message to that
        client; the message ends up addressed to the last one. */
    method Broadcast(game: Game.Game, msg: Messages.GameMessage) returns (sends: seq<Send>)
      modifies msg.base
      ensures Reached(sends) == ClientsOf(game) && |sends| == |ClientsOf(game)|
      ensures forall i :: 0 <= i < |sends| ==> sends[i].message == msg
      ensures ClientsOf(game) == {} ==> msg.base.RecipientName == old(msg.base.RecipientName)
      ensures sends != [] ==> msg.base.RecipientName == LastTo(sends).playerName
      ensures ClientsOf(game) != {} ==> exists c :: c in ClientsOf(game) && msg.base.RecipientName == c.playerName
      ensures msg.base.PlayerName == old(msg.base.PlayerName) && msg.base.Message == old(msg.base.Message)
      ensures msg.base.Type == old(msg.base.Type)
    {
      ghost var name, text, kind := msg.base.PlayerName, msg.base.Message, msg.base.Type;
      var all := ClientsOf(game);
      var remaining := all;
      sends := [];
      while remaining != {}
        invariant remaining <= all
        invariant Reached(sends) == all - remaining
        invariant |sends| + |remaining| == |all|
        invariant AllCarry(sends, msg)
        invariant sends == [] ==> msg.base.RecipientName == old(msg.base.RecipientName)
        invariant sends != [] ==> msg.base.RecipientName == LastTo(sends).playerName
        invariant msg.base.PlayerName == name && msg.base.Message == text && msg.base.Type == kind
        decreases remaining
      {
        var client :| client in remaining;
        msg.base.AddressTo(client.playerName);
        var s := Send(client, msg);
        BroadcastStep(sends, s, all, remaining);
        CarryAppend(sends, s);
        sends := sends + [s];
        remaining := remaining - {client};
      }
      if sends != [] {
        LastReached(sends);
      }
    }

    /** `LazyRemoveClient` (socket.go:45-49): drops the connection from the
        game's set if both exist; the game's entry stays even when empty. */
    method LazyRemoveClient(game: Game.Game, con: ClientConn)
      modifies this
      ensures game in old(clients) ==> clients == old(clients)[game := old(clients)[game] - {con}]
      ensures game !in old(clients) ==> clients == old(clients)
    {
      if game in clients {
        clients := clients[game := clients[game] - {con}];
      }
    }

    /** `NewConnection` (socket.go:51-64): registers the connection in the
        process-wide handler `global`, whatever the receiver, and only when the
        store holds the game's hash. */
    method NewConnection(global: SocketHandler, game: Game.Game, con: ClientConn, gs: GameStore.GameStore)
      requires game.CanHash(gs.hasher)
      modifies global, game, gs.hasher
      ensures game.hash !in gs.store().files ==> global.clients == old(global.clients)
      ensures game.hash in gs.store().files ==>
        global.clients == old(global.clients)[game := old(global.ClientsOf(game)) + {con}]
      ensures game.hash != "" && (old(game.hash) != "" ==> game.hash == old(game.hash))
      ensures this != global ==> clients == old(clients)
    {
      var h := game.Hash(gs.hasher);
      var stored := gs.store().Contains(h);
      if !stored {
        return;
      }
      if game !in global.clients {
        assert global.ClientsOf(game) + {con} == {con};
        global.clients := global.clients[game := {con}];
      } else {
        global.clients := global.clients[game := global.clients[game] + {con}];
      }
    }
  }

  /** Registering a connection twice registers it once. */
  lemma AddIdempotent(clients: map<Game.Game, set<ClientConn>>, game: Game.Game, con: ClientConn)
    ensures var once := clients[game := (if game in clients then clients[game] else {}) + {con}];
      once[game := once[game] + {con}] == once
  {
  }
}
