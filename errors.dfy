/** The error reporting of the HTTP handlers (errors.go): the message of a
    missing game, the translation of an error into a message for the user,
    and the chain of deferred handlers that turns a handler's panic into an
    error page or a crash report. Logging, stack traces and writing the
    response are outside the model. */
module Errors {
  import opened Wrappers

  const NoSuchGamePrefix := "Game "
  const NoSuchGameSuffix := " could not be found in game store."

  /** `ErrNoSuchGame.Error` (errors.go:22-24). */
  function NoSuchGameMessage(id: string): string
  {
    NoSuchGamePrefix + id + NoSuchGameSuffix
  }

  /** The game id can be read back from the message, so distinct ids give
      distinct messages. */
  lemma NoSuchGameMessageNamesGame(id: string, other: string)
    ensures var m := NoSuchGameMessage(id);
      m[|NoSuchGamePrefix|..|m| - |NoSuchGameSuffix|] == id
    ensures NoSuchGameMessage(id) == NoSuchGameMessage(other) ==> id == other
  {
    var m := NoSuchGameMessage(id);
    assert m[|NoSuchGamePrefix|..|m| - |NoSuchGameSuffix|] == id;
    var m' := NoSuchGameMessage(other);
    assert m'[|NoSuchGamePrefix|..|m'| - |NoSuchGameSuffix|] == other;
  }

  /** The dynamic value behind a non-nil Go `error`: an `ErrNoSuchGame`, or
      any other error with its message. */
  datatype Error = NoSuchGame(id: string) | Failure(message: string)

  /** `e.Error()`. */
  function Message(e: Error): string
  {
    match e
    case NoSuchGame(id) => NoSuchGameMessage(id)
    case Failure(message) => message
  }

  /** The type a case of `userFriendlyError`'s type switch names.
      `ErrStartAndGoal`, `ErrMalformedQuery`, `ErrGameMarshal`,
      `ErrGetGameSession` and `ErrGetGame` are declared as the interface
      type `error` (errors.go:10-18), which every error satisfies;
      `ErrNoSuchGame` is a named string type (errors.go:20). */
  datatype CaseType = ErrorInterface | NoSuchGameType

  predicate Matches(t: CaseType, e: Error)
  {
    t == ErrorInterface || e.NoSuchGame?
  }

  const StartAndGoalText := "I could not find where the wiki is in the intertubes."
  const NoSuchGameText := "Pretty much what it says, there does not seem to be such a game. " +
    "Maybe your game expired or there's an error on our side."

  /** The cases of the switch in the order they are listed (errors.go:29-40). */
  const Cases: seq<(CaseType, string)> := [
    (ErrorInterface, StartAndGoalText),
    (ErrorInterface, "The stuff you typed in the URI I don't understand."),
    (ErrorInterface, "I could not save th1s game! M4ybe m_ disks a-re f-f-f---aulll-.."),
    (ErrorInterface, "Tried to get your game session but failed. Maybe you threw away your cookies? " +
                     "Who would do that to his cookies?!"),
    (NoSuchGameType, NoSuchGameText),
    (ErrorInterface, "I failed to retrieve this game, maybe there's something wrong?")
  ]

  /** A type switch: the text of the first case whose type the error has; a
      nil error, or one no case matches, panics. */
  function FirstMatch(cases: seq<(CaseType, string)>, e: Option<Error>): (r: Result<string>)
    ensures r.Ok? <==> e.Some? && exists i :: 0 <= i < |cases| && Matches(cases[i].0, e.value)
    ensures r.Ok? ==> exists i ::
      && 0 <= i < |cases| && Matches(cases[i].0, e.value) && r.value == cases[i].1
      && forall j :: 0 <= j < i ==> !Matches(cases[j].0, e.value)
  {
    if e.None? || |cases| == 0 then Err("no case matched")
    else if Matches(cases[0].0, e.value) then Ok(cases[0].1)
    else
      var r := FirstMatch(cases[1..], e);
      assert r.Ok? ==> exists i :: 0 <= i < |cases[1..]| && Matches(cases[1..][i].0, e.value);
      assert r.Ok? ==> forall i :: 0 <= i < |cases[1..]| ==> cases[1..][i] == cases[i + 1];
      r
  }

  /** `userFriendlyError` (errors.go:27-46); `None` is the nil error. */
  function UserFriendlyError(e: Option<Error>): Result<string>
  {
    FirstMatch(Cases, e)
  }

  /** Every error takes the first case, so every user sees the intertubes
      message and the `ErrNoSuchGame` case is never reached; a nil error
      panics. */
  lemma EveryErrorIsStartAndGoal(e: Error)
    ensures UserFriendlyError(Some(e)) == Ok(StartAndGoalText)
    ensures UserFriendlyError(Some(e)) != Ok(NoSuchGameText)
    ensures UserFriendlyError(None).Err?
  {
    var r := UserFriendlyError(Some(e));
    var i :| 0 <= i < |Cases| && Matches(Cases[i].0, e) && r.value == Cases[i].1
      && forall j :: 0 <= j < i ==> !Matches(Cases[j].0, e);
    assert Matches(Cases[0].0, e);
    assert i == 0;
  }

  /** What `recover()` hands to a deferred handler. */
  datatype Recovered = NoPanic | PanicError(e: Error) | PanicValue(text: string)

  /** What `userFriendlyErrorHandler` does: nothing, render the error page,
      or panic again with the value. */
  datatype Handling = Returned | ErrorPage(message: string, friendly: string) | Repanic(value: Recovered)

  /** `userFriendlyErrorHandler` (errors.go:71-96) before its deferred
      `commonErrorHandler`. A panic inside `userFriendlyError` re-panics with
      the error itself. */
  function UserFriendlyErrorHandler(recovered: Recovered): (h: Handling)
  {
    match recovered
    case NoPanic => Returned
    case PanicError(e) =>
      (match UserFriendlyError(Some(e))
       case Ok(friendly) => ErrorPage(Message(e), friendly)
       case Err(_) => Repanic(recovered))
    case PanicValue(_) => Repanic(recovered)
  }

  /** The response a handler wrapped by `errorHandler` produces. */
  datatype Response = Normal | Page(message: string, friendly: string) | CrashReport(status: int, body: string)

  const CrashPrefix := "Oh...:(\n\n"

  /** `commonErrorHandler` (errors.go:55-69), without the stack trace. */
  function CommonErrorHandler(recovered: Recovered): Response
  {
    match recovered
    case NoPanic => Normal
    case PanicError(e) => CrashReport(401, CrashPrefix + Message(e))
    case PanicValue(text) => CrashReport(401, CrashPrefix + text)
  }

  /** `errorHandler` (errors.go:105-110): the handler's panic, if any, goes
      first through `userFriendlyErrorHandler`, then through the
      `commonErrorHandler` it defers, which sees only a re-panic. */
  function ErrorHandler(recovered: Recovered): Response
  {
    match UserFriendlyErrorHandler(recovered)
    case Returned => CommonErrorHandler(NoPanic)
    case ErrorPage(message, friendly) => Page(message, friendly)
    case Repanic(value) => CommonErrorHandler(value)
  }

  /** No panic escapes the chain: without a panic the response is the
      handler's own; a panicking error always gets the error page with its
      message and the intertubes text; any other panic value gets a 401 crash
      report naming it. */
  lemma ErrorHandlerCatchesEverything(recovered: Recovered)
    ensures recovered == NoPanic ==> ErrorHandler(recovered) == Normal
    ensures recovered.PanicError? ==>
      ErrorHandler(recovered) == Page(Message(recovered.e), StartAndGoalText)
    ensures recovered.PanicValue? ==>
      ErrorHandler(recovered) == CrashReport(401, CrashPrefix + recovered.text)
    ensures !ErrorHandler(recovered).CrashReport? <==> !recovered.PanicValue?
  {
    if recovered.PanicError? {
      EveryErrorIsStartAndGoal(recovered.e);
    }
  }
}
