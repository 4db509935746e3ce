/** The cookie session of session.go: a map of loosely typed values under the
    keys "hash", "name" and "initialized". Cookie encoding and the HTTP
    request are outside the model. */
module Session {
  import opened Wrappers

  /** A session value: Go stores `interface{}`; the model tells strings and
      booleans apart and lumps every other dynamic type together. */
  datatype Value = Str(s: string) | Bool(b: bool) | Other

  const HashKey := "hash"
  const NameKey := "name"
  const InitializedKey := "initialized"

  /** The `.(bool)` read of `IsInitialized`: absent or not a bool reads false. */
  function Initialized(values: map<string, Value>): (b: bool)
    ensures b <==> InitializedKey in values && values[InitializedKey] == Bool(true)
  {
    InitializedKey in values && values[InitializedKey].Bool? && values[InitializedKey].b
  }

  /** The `.(string)` type assertion: an absent or non-string value panics. */
  function StringAt(values: map<string, Value>, key: string): (r: Result<string>)
    ensures r.Ok? <==> key in values && values[key].Str?
    ensures r.Ok? ==> values[key] == Str(r.value)
  {
    if key in values && values[key].Str? then Ok(values[key].s)
    else Err("interface conversion: interface {} is not string")
  }

  /** The values after `Init(player, game)`. */
  function Initial(values: map<string, Value>, player: string, game: string): (v: map<string, Value>)
    ensures v.Keys == values.Keys + {HashKey, NameKey, InitializedKey}
    ensures forall k :: k in values && k !in {HashKey, NameKey, InitializedKey} ==> v[k] == values[k]
  {
    values[HashKey := Str(game)][NameKey := Str(player)][InitializedKey := Bool(true)]
  }

  /** The values after `Invalidate()`. */
  function Invalidated(values: map<string, Value>): (v: map<string, Value>)
    ensures v.Keys == values.Keys + {HashKey, NameKey, InitializedKey}
    ensures forall k :: k in values && k !in {HashKey, NameKey, InitializedKey} ==> v[k] == values[k]
  {
    values[HashKey := Str("")][NameKey := Str("")][InitializedKey := Bool(false)]
  }

  /** After `Init(p, g)` the session is initialised and names `p` and `g`. */
  lemma InitEstablishes(values: map<string, Value>, player: string, game: string)
    ensures var v := Initial(values, player, game);
      Initialized(v) && StringAt(v, NameKey) == Ok(player) && StringAt(v, HashKey) == Ok(game)
  {
  }

  /** After `Invalidate()` the session is not initialised and both names are empty. */
  lemma InvalidateClears(values: map<string, Value>)
    ensures var v := Invalidated(values);
      !Initialized(v) && StringAt(v, NameKey) == Ok("") && StringAt(v, HashKey) == Ok("")
  {
  }

  class GameSession {
    var Values: map<string, Value>

    constructor (values: map<string, Value>)
      ensures Values == values
    {
      Values := values;
    }

    method Init(player: string, game: string)
      modifies this
      ensures Values == Initial(old(Values), player, game)
    {
      Values := Values[HashKey := Str(game)];
      Values := Values[NameKey := Str(player)];
      Values := Values[InitializedKey := Bool(true)];
    }

    method Invalidate()
      modifies this
      ensures Values == Invalidated(old(Values))
    {
      Values := Values[HashKey := Str("")];
      Values := Values[NameKey := Str("")];
      Values := Values[InitializedKey := Bool(false)];
    }

    function IsInitialized(): (b: bool)
      reads this
      ensures b == Initialized(Values)
    {
      InitializedKey in Values && Values[InitializedKey].Bool? && Values[InitializedKey].b
    }

    function PlayerName(): (r: Result<string>)
      reads this
      ensures r == StringAt(Values, NameKey)
    {
      StringAt(Values, NameKey)
    }

    function GameHash(): (r: Result<string>)
      reads this
      ensures r == StringAt(Values, HashKey)
    {
      StringAt(Values, HashKey)
    }
  }
}
