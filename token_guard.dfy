/** The access-token guard that wraps every public operation of a source
    management session (`refresh_access_token`), as a transition on the
    session's token state. Time is whole seconds; one guarded call reads
    the clock once, as `now`. */
module TokenGuard {
  import opened Errors

  /** Nine and a half minutes: the session renews its installation token
      thirty seconds before the token's ten-minute life ends. */
  const RefreshInterval := 9 * 60 + 30

  /** The part of a session the guard reads and writes: whether it
      authenticates as a GitHub App installation, its token, and the
      instant after which the token is renewed. */
  datatype TokenState = TokenState(installation: bool, token: Option<string>, deadline: int)

  /** The guard renews the token: an installation session whose deadline
      has passed. The comparison is strict: at the deadline itself the
      token is still used. */
  predicate Expired(s: TokenState, now: int) {
    s.installation && now > s.deadline
  }

  /** What the guard does with the wrapped call: run it, skip it (the
      wrapper then returns `None`), or propagate the exception the token
      exchange raised. */
  datatype Admission = Run | Skip | Abort(error: Error)

  /** The outcome of a guarded call: skipped by the guard (`None`), raised,
      or returned a value. */
  datatype Call<+T> = Skipped | Raised(error: Error) | Returned(value: T)

  function FromResult<T>(r: Result<T>): Call<T> {
    match r
    case Ok(v) => Returned(v)
    case Err(e) => Raised(e)
  }

  /** The outcome of a guarded call given the guard's admission and the
      outcome the wrapped body would have. */
  function Lift<T>(a: Admission, body: Call<T>): (c: Call<T>)
    ensures a.Run? ==> c == body
    ensures c.Skipped? <==> a.Skip? || (a.Run? && body.Skipped?)
    ensures a.Abort? ==> c == Raised(a.error)
  {
    match a
    case Skip => Skipped
    case Abort(e) => Raised(e)
    case Run => body
  }

  /** One pass through the guard at time `now`; `fetched` is what the
      session's authenticator would return or raise if asked for a token. */
  function GuardStep(s: TokenState, now: int, fetched: Result<Option<string>>): (step: (Admission, TokenState))
    ensures step.0.Skip? <==> !s.installation
    ensures step.0.Abort? <==> Expired(s, now) && fetched.Err?
    ensures step.0.Abort? ==> step.0.error == fetched.error
    ensures !step.0.Run? ==> step.1 == s
    // the wrapped call always sees a session token whose deadline has not
    // passed (the issue library keeps the token it was opened with)
    ensures step.0.Run? ==> now <= step.1.deadline
    // the state changes only when the token expired, and then to the
    // fetched token and a deadline nine and a half minutes away
    ensures step.1 != s ==> Expired(s, now) && fetched == Ok(step.1.token)
                            && step.1.deadline == now + RefreshInterval
    ensures Expired(s, now) && fetched.Ok? ==> step.1.token == fetched.value && step.1.deadline == now + RefreshInterval
    ensures step.1.installation == s.installation
  {
    if !s.installation then (Skip, s)
    else if now > s.deadline then
      match fetched
      case Err(e) => (Abort(e), s)
      case Ok(t) => (Run, TokenState(true, t, now + RefreshInterval))
    else (Run, s)
  }

  /** A guarded call that calls another guarded one at the same instant:
      the inner guard runs the inner call and neither refreshes nor asks
      for a token, so nested guards refresh at most once. */
  lemma NestedGuardStable(s: TokenState, now: int, f: Result<Option<string>>, g: Result<Option<string>>)
    requires GuardStep(s, now, f).0.Run?
    ensures !Expired(GuardStep(s, now, f).1, now)
    ensures GuardStep(GuardStep(s, now, f).1, now, g) == (Run, GuardStep(s, now, f).1)
  {
  }

  /** A refresh never moves the deadline back. */
  lemma GuardDeadlineMonotone(s: TokenState, now: int, f: Result<Option<string>>)
    ensures GuardStep(s, now, f).1.deadline >= s.deadline
  {
  }

  /** One guarded call of a sequence: when it happens, and what the token
      exchange would give at that moment. */
  datatype GuardedCall = GuardedCall(now: int, fetched: Result<Option<string>>)

  /** The guard's state after a sequence of guarded calls. */
  function GuardRun(s: TokenState, calls: seq<GuardedCall>): TokenState
    decreases |calls|
  {
    if calls == [] then s
    else GuardRun(GuardStep(s, calls[0].now, calls[0].fetched).1, calls[1..])
  }

  /** The number of those calls that renewed the token. */
  function Refreshes(s: TokenState, calls: seq<GuardedCall>): (n: nat)
    ensures n <= |calls|
    decreases |calls|
  {
    if calls == [] then 0
    else
      var next := GuardStep(s, calls[0].now, calls[0].fetched).1;
      (if next != s then 1 else 0) + Refreshes(next, calls[1..])
  }

  /** Calls made no later than the deadline leave the token alone. */
  lemma {:induction false} NoRefreshBeforeDeadline(s: TokenState, calls: seq<GuardedCall>)
    requires forall i :: 0 <= i < |calls| ==> calls[i].now <= s.deadline
    ensures GuardRun(s, calls) == s
    ensures Refreshes(s, calls) == 0
  {
    if calls != [] {
      assert GuardStep(s, calls[0].now, calls[0].fetched).1 == s;
      NoRefreshBeforeDeadline(s, calls[1..]);
    }
  }

  /** Within any window of nine and a half minutes the guard renews the
      token at most once, whatever the order of the calls and however often
      the token exchange fails. */
  lemma {:induction false} AtMostOneRefreshPerInterval(s: TokenState, calls: seq<GuardedCall>, t: int)
    requires forall i :: 0 <= i < |calls| ==> t <= calls[i].now <= t + RefreshInterval
    ensures Refreshes(s, calls) <= 1
  {
    if calls != [] {
      var next := GuardStep(s, calls[0].now, calls[0].fetched).1;
      if next != s {
        NoRefreshBeforeDeadline(next, calls[1..]);
      } else {
        AtMostOneRefreshPerInterval(s, calls[1..], t);
      }
    }
  }

  /** A session that does not authenticate as an installation never
      changes its token state. */
  lemma {:induction false} StaticSessionUnchanged(s: TokenState, calls: seq<GuardedCall>)
    requires !s.installation
    ensures GuardRun(s, calls) == s && Refreshes(s, calls) == 0
  {
    if calls != [] {
      StaticSessionUnchanged(s, calls[1..]);
    }
  }
}
