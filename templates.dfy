/** The functions the page templates call (templates.go): the formatter that
    shows a wiki page name with spaces, and the two winner tests, which run
    the game's stateful `EvaluateWinner` on a copy of the player. Parsing and
    executing the templates is outside the model. */
module Templates {
  import Game

  /** `format_wikiurl` (templates.go:25-27): every underscore becomes a
      space. */
  function FormatWikiUrl(s: string): (r: string)
    ensures |r| == |s|
    ensures forall i :: 0 <= i < |s| ==> r[i] == if s[i] == '_' then ' ' else s[i]
  {
    if s == "" then ""
    else (if s[0] == '_' then " " else [s[0]]) + FormatWikiUrl(s[1..])
  }

  /** No underscore is left, and every other character stays in place. */
  lemma FormattedHasNoUnderscore(s: string)
    ensures '_' !in FormatWikiUrl(s)
    ensures forall i :: 0 <= i < |s| && s[i] != '_' ==> FormatWikiUrl(s)[i] == s[i]
  {
    var r := FormatWikiUrl(s);
    forall c | c in r
      ensures c != '_'
    {
      var i :| 0 <= i < |r| && r[i] == c;
    }
  }

  /** Formatting twice is formatting once. */
  lemma FormatIdempotent(s: string)
    ensures FormatWikiUrl(FormatWikiUrl(s)) == FormatWikiUrl(s)
  {
    FormattedHasNoUnderscore(s);
    var r := FormatWikiUrl(s);
    assert forall i :: 0 <= i < |r| ==> r[i] != '_' by {
      forall i | 0 <= i < |r|
        ensures r[i] != '_'
      {
        assert r[i] in r;
      }
    }
  }

  /** `is_winner` (templates.go:28-31): the first answer of `EvaluateWinner`
      on a copy of the player, which is never true. The evaluation still
      records a lead, so rendering a page can change the winner. */
  method IsWinner(g: Game.Game, p: Game.Player) returns (b: bool)
    modifies g
    ensures !b && b == Game.Judge(old(g.WinnerPath), p.Path).isWinner
    ensures g.WinnerPath == Game.Recorded(old(g.WinnerPath), p.Path)
    ensures Game.Judge(old(g.WinnerPath), p.Path).isTempWinner ==> g.Winner == p.Name
    ensures !Game.Judge(old(g.WinnerPath), p.Path).isTempWinner ==> g.Winner == old(g.Winner)
    ensures g.Players == old(g.Players) && g.hash == old(g.hash) && g.Settings() == old(g.Settings())
  {
    var copy := new Game.Player.Copy(p);
    var isTemp;
    b, isTemp := g.EvaluateWinner(copy);
  }

  /** `is_temporary_winner` (templates.go:32-35): the second answer of
      `EvaluateWinner` on a copy of the player, true when the player leads;
      the lead is recorded as the winner. */
  method IsTemporaryWinner(g: Game.Game, p: Game.Player) returns (b: bool)
    modifies g
    ensures b <==> |old(g.WinnerPath)| == 0 || |p.Path| < |old(g.WinnerPath)|
    ensures b ==> g.Winner == p.Name && g.WinnerPath == p.Path
    ensures !b ==> g.Winner == old(g.Winner) && g.WinnerPath == old(g.WinnerPath)
    ensures g.Players == old(g.Players) && g.hash == old(g.hash) && g.Settings() == old(g.Settings())
  {
    var copy := new Game.Player.Copy(p);
    var isWinner;
    isWinner, b := g.EvaluateWinner(copy);
  }
}
