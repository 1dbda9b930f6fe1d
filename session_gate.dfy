/**
  `SessionInvalidationMiddleware` (`core/middleware.py`): before a request by
  an authenticated user reaches the view, the session is closed when it is
  older than the user's "log out everywhere" mark
  (`perfil.session_invalidated_at`).

  Times are integers in microseconds, the resolution of a Django `datetime`.
  What the middleware asks its surroundings is made explicit: the request's
  user, profile and session key; the stored session's `expire_date` when the
  `Session` lookup succeeds (`None` when it raises); the clock; the
  `SESSION_COOKIE_AGE` setting; and whether the view (`get_response`) raises.
 */
module SessionGate {
  import opened Options

  const Second: int := 1000000

  /** Django's default `SESSION_COOKIE_AGE`: two weeks, in seconds. */
  const DefaultSessionAge: int := 1209600

  /** The fallback window: a mark newer than 5 minutes logs the session out. */
  const RecentWindow: int := 300 * Second

  /** The profile's mark; `None` when it is unset. */
  datatype Profile = Profile(invalidatedAt: Option<int>)

  /** What `__call__` reads from the request; `profile` is `None` when `request.user.perfil` raises. */
  datatype Request = Request(authenticated: bool, profile: Option<Profile>, sessionKey: Option<string>)

  /** What the middleware does, in order. */
  datatype Event = Logout | Handle

  /** The middleware's answer: the view's response, or an exception leaving it. */
  datatype Answer = Response | Raised

  /** The checks that only a marked profile with a live session key gets past. */
  predicate Marked(r: Request) {
    r.authenticated && r.profile.Some? && r.profile.value.invalidatedAt.Some? &&
    r.sessionKey.Some? && r.sessionKey.value != ""
  }

  /**
    The decision: with a stored session, log out when its estimated creation
    time (`expire_date - SESSION_COOKIE_AGE`) is strictly before the mark;
    without one, when the mark is less than 5 minutes old.
   */
  predicate ShouldLogout(r: Request, session: Option<int>, now: int, sessionAge: int): (b: bool)
    ensures b ==> Marked(r)
  {
    Marked(r) &&
    var mark := r.profile.value.invalidatedAt.value;
    match session
    case Some(expireDate) => expireDate - sessionAge * Second < mark
    case None => now - mark < RecentWindow
  }

  /**
    The decision in full: unauthenticated requests, profiles without a mark or
    that cannot be read, and sessionless requests are never logged out; a
    stored session is logged out iff its estimated creation is strictly before
    the mark; otherwise iff the mark is strictly less than 5 minutes old.
   */
  lemma ShouldLogoutCases(r: Request, session: Option<int>, now: int, sessionAge: int)
    ensures !r.authenticated || r.profile.None? ==> !ShouldLogout(r, session, now, sessionAge)
    ensures r.profile.Some? && r.profile.value.invalidatedAt.None? ==> !ShouldLogout(r, session, now, sessionAge)
    ensures r.sessionKey.None? || r.sessionKey == Some("") ==> !ShouldLogout(r, session, now, sessionAge)
    ensures Marked(r) && session.Some? ==>
      (ShouldLogout(r, session, now, sessionAge) <==>
         session.value - sessionAge * Second < r.profile.value.invalidatedAt.value)
    ensures Marked(r) && session.None? ==>
      (ShouldLogout(r, session, now, sessionAge) <==> now - r.profile.value.invalidatedAt.value < 300 * Second)
  {
  }

  /** Both comparisons are strict: a session created exactly at the mark, or a mark exactly 5 minutes old, stays. */
  lemma StrictBoundaries(mark: int, key: string)
    requires key != ""
    ensures var r := Request(true, Some(Profile(Some(mark))), Some(key));
      && !ShouldLogout(r, Some(mark + DefaultSessionAge * Second), 0, DefaultSessionAge)
      && ShouldLogout(r, Some(mark + DefaultSessionAge * Second - 1), 0, DefaultSessionAge)
      && !ShouldLogout(r, None, mark + RecentWindow, DefaultSessionAge)
      && ShouldLogout(r, None, mark + RecentWindow - 1, DefaultSessionAge)
  {
  }

  /**
    `__call__` as the middleware should behave: log out when the decision
    says so, then hand the request to the view once; the view's exception,
    if any, leaves the middleware.
   */
  function Intended(r: Request, session: Option<int>, now: int, sessionAge: int, viewRaises: bool): (o: (Answer, seq<Event>))
    ensures o.1 != [] && o.1[|o.1| - 1] == Handle && (o.0 == Raised <==> viewRaises)
    ensures |o.1| <= 2
  {
    ((if viewRaises then Raised else Response),
     (if ShouldLogout(r, session, now, sessionAge) then [Logout] else []) + [Handle])
  }

  /**
    `__call__` as written: the calls to `get_response` after a logout sit
    inside the `try` blocks, so an exception from the view is caught by the
    `except` clauses and the view runs again on their fall-back paths.
   */
  function AsWritten(r: Request, session: Option<int>, now: int, sessionAge: int, viewRaises: bool): (o: (Answer, seq<Event>))
    ensures o.1 != [] && o.1[|o.1| - 1] == Handle && (o.0 == Raised <==> viewRaises)
    ensures Logout in o.1 ==> Marked(r)
  {
    var answer := if viewRaises then Raised else Response;
    if !Marked(r) then (answer, [Handle])
    else
      var mark := r.profile.value.invalidatedAt.value;
      var recent := now - mark < RecentWindow;
      // Run by the inner `except`: log out and call the view inside the outer
      // `try`, whose `except` falls through to the last call; or fall through.
      var fallback: seq<Event> :=
        if recent then (if viewRaises then [Logout, Handle, Handle] else [Logout, Handle]) else [Handle];
      match session
      case None => (answer, fallback)
      case Some(expireDate) =>
        if expireDate - sessionAge * Second < mark then
          (answer, if viewRaises then [Logout, Handle] + fallback else [Logout, Handle])
        else (answer, [Handle])
  }

  /** How many times the view runs. */
  function Handles(trace: seq<Event>): (n: nat)
    ensures n <= |trace|
  {
    if trace == [] then 0 else (if trace[0] == Handle then 1 else 0) + Handles(trace[1..])
  }

  /**
    The intended middleware hands every request to the view exactly once, as
    the last thing it does, after the logout when there is one; and it logs
    out exactly when the decision says so.
   */
  lemma IntendedCallsViewOnce(r: Request, session: Option<int>, now: int, sessionAge: int, viewRaises: bool)
    ensures var (answer, trace) := Intended(r, session, now, sessionAge, viewRaises);
      && Handles(trace) == 1 && trace[|trace| - 1] == Handle
      && (Logout in trace <==> ShouldLogout(r, session, now, sessionAge))
      && (Logout in trace ==> trace[0] == Logout)
      && (answer == Raised <==> viewRaises)
  {
    var trace := Intended(r, session, now, sessionAge, viewRaises).1;
    if ShouldLogout(r, session, now, sessionAge) {
      assert trace == [Logout, Handle];
      assert Handles(trace) == Handles([Handle]);
    } else {
      assert trace == [Handle];
    }
  }

  /** While the view does not raise, the middleware as written does what was intended. */
  lemma AsWrittenAgreesWhileViewSucceeds(r: Request, session: Option<int>, now: int, sessionAge: int)
    ensures AsWritten(r, session, now, sessionAge, false) == Intended(r, session, now, sessionAge, false)
  {
    var none: seq<Event> := [];
    assert none + [Handle] == [Handle];
    assert [Logout] + [Handle] == [Logout, Handle];
  }

  /**
    When the view raises for a session older than the mark, the middleware
    as written swallows the exception and runs the view a second time (and,
    when the mark is under 5 minutes old, logs out twice and runs it three times).
   */
  lemma AsWrittenRunsFailingViewAgain(mark: int, key: string)
    requires key != ""
    ensures var r := Request(true, Some(Profile(Some(mark))), Some(key));
      var session := Some(mark + DefaultSessionAge * Second - 1);
      && AsWritten(r, session, mark + RecentWindow, DefaultSessionAge, true).1 == [Logout, Handle, Handle]
      && AsWritten(r, session, mark, DefaultSessionAge, true).1 == [Logout, Handle, Logout, Handle, Handle]
      && Handles(Intended(r, session, mark, DefaultSessionAge, true).1) == 1
  {
    var r := Request(true, Some(Profile(Some(mark))), Some(key));
    assert Handles([Logout, Handle]) == 1;
  }

  /**
    The middleware object: it holds `get_response` (here, whether the view
    raises) and the settings it reads, and every call appends what it did to
    `events`.
   */
  class SessionInvalidationMiddleware {
    const viewRaises: bool
    const sessionAge: int
    var events: seq<Event>

    constructor (viewRaises: bool, sessionAge: int)
      ensures this.viewRaises == viewRaises && this.sessionAge == sessionAge && events == []
    {
      this.viewRaises := viewRaises;
      this.sessionAge := sessionAge;
      events := [];
    }

    /** Hands the request to the view (`self.get_response(request)`). */
    method GetResponse() returns (answer: Answer)
      modifies this`events
      ensures events == old(events) + [Handle] && answer == (if viewRaises then Raised else Response)
    {
      events := events + [Handle];
      answer := if viewRaises then Raised else Response;
    }

    /** `__call__`, with the view called once, outside the checks. */
    method Call(r: Request, session: Option<int>, now: int) returns (answer: Answer)
      modifies this`events
      ensures var (a, trace) := Intended(r, session, now, sessionAge, viewRaises);
        answer == a && events == old(events) + trace
    {
      if r.authenticated && r.profile.Some? && r.profile.value.invalidatedAt.Some? &&
         r.sessionKey.Some? && r.sessionKey.value != "" {
        var mark := r.profile.value.invalidatedAt.value;
        var logout := match session
          case Some(expireDate) => expireDate - sessionAge * Second < mark
          case None => now - mark < RecentWindow;
        if logout {
          events := events + [Logout];
        }
      }
      answer := GetResponse();
    }
  }
}
