/** `ProtectedView`, the gate in front of the protected pages. A path either
    needs no secret, and its children are shown straight away, or names the
    environment variable holding its password. For a protected path the view
    looks up a stored token, has it checked once, and then shows nothing, the
    login modal, or the children.

    The browser storage is a map parameter, and the verdict of the
    token-checking endpoint is an event carrying a boolean. */
module ProtectedView {
  import opened Optional

  /** `routeTokens[pathname]`. */
  function RouteSecret(path: string): (name: Option<string>)
    ensures path == "/" ==> name == Some("NEXT_PUBLIC_SITE_PASS")
    ensures path == "/fd-command" ==> name == Some("NEXT_PUBLIC_FTD_COMMAND_PASS")
    ensures name.Some? <==> path == "/" || path == "/fd-command"
  {
    if path == "/" then Some("NEXT_PUBLIC_SITE_PASS")
    else if path == "/fd-command" then Some("NEXT_PUBLIC_FTD_COMMAND_PASS")
    else None
  }

  /** The storage key of a protected path's token. */
  function TokenKey(path: string): (key: string)
    ensures path == "/" ==> key == "public_jwt_token"
    ensures path != "/" ==> key == "command_jwt_token"
  {
    if path == "/" then "public_jwt_token" else "command_jwt_token"
  }

  /** The two pieces of component state. */
  datatype State = State(checked: bool, loggedIn: bool)

  const Initial := State(false, false)

  /** What the effect does on mount: nothing, mark the path checked because
      there is no token, or send the token for verification. */
  datatype Effect = NoCheck | MarkChecked | Verify(token: string, route: string)

  function StartVerify(path: string, storage: map<string, string>): (e: Effect)
    ensures RouteSecret(path).None? <==> e.NoCheck?
    ensures e.MarkChecked? <==>
      RouteSecret(path).Some? && (TokenKey(path) !in storage || storage[TokenKey(path)] == "")
    ensures e.Verify? ==> e.route == path && TokenKey(path) in storage && e.token == storage[TokenKey(path)] != ""
  {
    if RouteSecret(path).None? then NoCheck
    else
      var key := TokenKey(path);
      if key !in storage || storage[key] == "" then MarkChecked
      else Verify(storage[key], path)
  }

  /** The state changes the component makes: `setChecked(true)` without a
      token; the endpoint's verdict, which logs in when valid and marks the
      path checked either way; and `onUnlockAction` from the login modal. */
  datatype Event = NoToken | Verified(valid: bool) | Unlocked

  function Step(s: State, e: Event): (t: State)
    ensures s.loggedIn ==> t.loggedIn
    ensures s.checked ==> t.checked
    ensures t.loggedIn <==> s.loggedIn || e == Verified(true) || e == Unlocked
    ensures t.checked <==> s.checked || e.NoToken? || e.Verified?
  {
    match e
    case NoToken => s.(checked := true)
    case Verified(valid) => State(true, s.loggedIn || valid)
    case Unlocked => s.(loggedIn := true)
  }

  /** The event the effect ends with, given the endpoint's verdict. */
  function EffectEvent(e: Effect, valid: bool): (ev: Option<Event>)
    ensures e.NoCheck? <==> ev.None?
    ensures e.MarkChecked? ==> ev == Some(NoToken)
    ensures e.Verify? ==> ev == Some(Verified(valid))
  {
    match e
    case NoCheck => None
    case MarkChecked => Some(NoToken)
    case Verify(_, _) => Some(Verified(valid))
  }

  function Run(s: State, events: seq<Event>): State
    decreases |events|
  {
    if |events| == 0 then s else Run(Step(s, events[0]), events[1..])
  }

  /** What the view renders. */
  datatype View = Children | Nothing | Login(expectedToken: string, route: string)

  function Render(path: string, s: State): (v: View)
    ensures RouteSecret(path).None? ==> v == Children
    ensures RouteSecret(path).Some? ==>
      (v == Nothing <==> !s.checked) &&
      (v.Login? <==> s.checked && !s.loggedIn) &&
      (v == Children <==> s.checked && s.loggedIn)
    ensures v.Login? ==> v.route == path && Some(v.expectedToken) == RouteSecret(path)
  {
    match RouteSecret(path)
    case None => Children
    case Some(name) =>
      if !s.checked then Nothing
      else if !s.loggedIn then Login(name, path)
      else Children
  }

  /** Once logged in, never logged out; once checked, never unchecked. */
  lemma {:induction false} RunMonotone(s: State, events: seq<Event>)
    ensures s.loggedIn ==> Run(s, events).loggedIn
    ensures s.checked ==> Run(s, events).checked
    decreases |events|
  {
    if |events| > 0 {
      RunMonotone(Step(s, events[0]), events[1..]);
    }
  }

  /** From the initial state the view logs in exactly when a valid verdict or
      an unlock has happened. */
  lemma {:induction false} LoggedInExactlyAfterGrant(s: State, events: seq<Event>)
    ensures Run(s, events).loggedIn <==>
      s.loggedIn || exists i :: 0 <= i < |events| && (events[i] == Verified(true) || events[i] == Unlocked)
    decreases |events|
  {
    if |events| > 0 {
      LoggedInExactlyAfterGrant(Step(s, events[0]), events[1..]);
      var rest := events[1..];
      if exists i :: 0 <= i < |rest| && (rest[i] == Verified(true) || rest[i] == Unlocked) {
        var i :| 0 <= i < |rest| && (rest[i] == Verified(true) || rest[i] == Unlocked);
        assert events[i + 1] == rest[i];
      }
      if exists i :: 0 <= i < |events| && (events[i] == Verified(true) || events[i] == Unlocked) {
        var i :| 0 <= i < |events| && (events[i] == Verified(true) || events[i] == Unlocked);
        if i > 0 { assert rest[i - 1] == events[i]; }
      }
    }
  }

  /** An unprotected path shows its children in every state, and its effect
      does nothing. */
  lemma UnprotectedPath(path: string, s: State, storage: map<string, string>)
    requires path != "/" && path != "/fd-command"
    ensures Render(path, s) == Children
    ensures StartVerify(path, storage) == NoCheck
  {
  }

  /** A protected path without a stored token ends checked, not logged in, and
      showing the login modal for its secret. */
  lemma NoTokenShowsLogin(path: string, storage: map<string, string>, valid: bool)
    requires RouteSecret(path).Some?
    requires TokenKey(path) !in storage
    ensures var ev := EffectEvent(StartVerify(path, storage), valid);
      && ev == Some(NoToken)
      && Step(Initial, ev.value) == State(true, false)
      && Render(path, Step(Initial, ev.value)) == Login(RouteSecret(path).value, path)
  {
  }

  /** A valid stored token shows the children; an invalid one shows the
      login modal, which shows the children once unlocked. */
  lemma VerdictDecides(path: string, storage: map<string, string>, valid: bool)
    requires RouteSecret(path).Some?
    requires TokenKey(path) in storage && storage[TokenKey(path)] != ""
    ensures var s := Step(Initial, EffectEvent(StartVerify(path, storage), valid).value);
      && (valid ==> Render(path, s) == Children)
      && (!valid ==> Render(path, s).Login? && Render(path, Step(s, Unlocked)) == Children)
  {
  }
}
