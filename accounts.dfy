/**
  The account-security services of `core/auth_services.py`: requesting and
  confirming a password reset, changing the password from the profile, and
  requesting and confirming an email change, over the user table and the two
  token tables (`PasswordResetToken`, `EmailChangeToken`).

  What the services get from outside is a parameter: the clock (`now`, in
  seconds), the token value `create_token` settles on (`value`), whether
  `settings.DEBUG` is on, and what the mail helper did (`Send`). Passwords are
  compared as given: `check_password` against the stored hash is modelled as
  equality with the stored password.
 */
module Accounts {
  import opened Options
  import opened Catalog

  /** The parts of a `User` the services read and write. */
  datatype Account = Account(email: string, password: string)

  /**
    One token row. `newEmail` is the pending address of an `EmailChangeToken`
    and is absent on a `PasswordResetToken`.
   */
  datatype Token = Token(value: string, user: UserId, used: bool, expiresAt: int, newEmail: Option<string>)

  /** The user table and the two token tables. */
  datatype Store = Store(users: map<UserId, Account>, resets: seq<Token>, changes: seq<Token>)

  /** What a mail helper did: returned true, returned false, or raised. */
  datatype Send = Sent | NotSent | SendRaised(errorType: string, errorMessage: string)

  /** The second result of the password-reset request: nothing, a message, or the `DEBUG` dictionary. */
  datatype ErrorInfo = NoError | Message(text: string) | DebugInfo(errorType: string, errorMessage: string, userEmail: string, subject: string)

  /** `(token, error)` */
  datatype TokenReply = TokenReply(token: Option<string>, error: ErrorInfo)

  /** `(user, error)` */
  datatype UserReply = UserReply(user: Option<UserId>, error: Option<string>)

  /** `(user, old_email, new_email, error)` */
  datatype EmailReply = EmailReply(user: Option<UserId>, oldEmail: Option<string>, newEmail: Option<string>, error: Option<string>)

  /** A token's lifetime: 24 hours. */
  const TokenLifetime: int := 86400

  const UserNotFoundMessage := "Usuario no encontrado"
  const SendFailedMessage := "Error al enviar email"
  const ResetSubject := "Cambio de contrasena - Biblioteca Colectiva"
  const ResetLinkUnknownMessage := "El enlace de cambio de contrase\U{F1}a es inv\U{E1}lido o ha expirado"
  const ResetLinkSpentMessage := "El enlace de cambio de contrase\U{F1}a ha expirado o ya fue utilizado"
  const PasswordChangeFailedMessage := "Error al cambiar contrase\U{F1}a"
  const WrongCurrentPasswordMessage := "La contrase\U{F1}a actual es incorrecta"
  const WrongPasswordMessage := "La contrase\U{F1}a es incorrecta"
  const EmailInUseMessage := "Este correo electr\U{F3}nico ya est\U{E1} en uso"
  const EmailLinkUnknownMessage := "El enlace de cambio de correo electr\U{F3}nico es inv\U{E1}lido o ha expirado"
  const EmailLinkSpentMessage := "El enlace de cambio de correo electr\U{F3}nico ha expirado o ya fue utilizado"
  const EmailChangeFailedMessage := "Error al cambiar email"

  // ---------------------------------------------------------------------------
  // The token lifecycle
  // ---------------------------------------------------------------------------

  /** `is_valid()`: a fresh token is valid, an expired or a used one is not. */
  predicate IsValid(t: Token, now: int): (b: bool)
    ensures t.used ==> !b
    ensures now > t.expiresAt ==> !b
    ensures !t.used && now <= t.expiresAt ==> b
  {
    !t.used && now <= t.expiresAt
  }

  /** No value is used by two tokens (the `token` column is unique). */
  predicate DistinctValues(ts: seq<Token>) {
    forall i, j :: 0 <= i < |ts| && 0 <= j < |ts| && ts[i].value == ts[j].value ==> i == j
  }

  /** A value no token carries yet, as `create_token` guarantees. */
  predicate Fresh(ts: seq<Token>, value: string) {
    forall i :: 0 <= i < |ts| ==> ts[i].value != value
  }

  /** Each user has at most one unused token of a kind. */
  predicate AtMostOneUnused(ts: seq<Token>) {
    forall i, j :: (0 <= i < |ts| && 0 <= j < |ts| && !ts[i].used && !ts[j].used && ts[i].user == ts[j].user) ==> i == j
  }

  /** `objects.get(token=value)`: the position of the token with that value, if any. */
  function Find(ts: seq<Token>, value: string): (r: Option<nat>)
    ensures r.Some? ==> r.value < |ts| && ts[r.value].value == value
    ensures r.None? <==> Fresh(ts, value)
  {
    if ts == [] then None
    else if ts[|ts| - 1].value == value then Some(|ts| - 1)
    else Find(ts[..|ts| - 1], value)
  }

  /** With unique values, the token found is the only one with that value. */
  lemma FindUnique(ts: seq<Token>, value: string, k: nat)
    requires DistinctValues(ts) && k < |ts| && ts[k].value == value
    ensures Find(ts, value) == Some(k)
  {
  }

  /**
    `create_token(user[, new_email])`: every earlier token of the user is
    marked used, and a new unused token expiring 24 hours from now is added.
   */
  function Issue(ts: seq<Token>, user: UserId, value: string, now: int, newEmail: Option<string>): (r: seq<Token>)
    ensures |r| == |ts| + 1
  {
    seq(|ts|, i requires 0 <= i < |ts| => if ts[i].user == user then ts[i].(used := true) else ts[i])
      + [Token(value, user, false, now + TokenLifetime, newEmail)]
  }

  /**
    A new token is the last one, unused, valid from now until its expiry
    24 hours later, and found by its value; the user's earlier tokens are all
    used, so none is valid any more; other users' tokens are untouched.
   */
  lemma IssueFacts(ts: seq<Token>, user: UserId, value: string, now: int, newEmail: Option<string>)
    requires Fresh(ts, value)
    ensures var r := Issue(ts, user, value, now, newEmail);
      && r[|ts|] == Token(value, user, false, now + TokenLifetime, newEmail)
      && (forall at :: now <= at <= now + TokenLifetime ==> IsValid(r[|ts|], at))
      && !IsValid(r[|ts|], now + TokenLifetime + 1)
      && Find(r, value) == Some(|ts|)
      && (forall i, at :: 0 <= i < |ts| && ts[i].user == user ==> r[i].used && !IsValid(r[i], at))
      && (forall i :: 0 <= i < |ts| && ts[i].user != user ==> r[i] == ts[i])
      && (forall i :: 0 <= i < |ts| ==> r[i].value == ts[i].value && r[i].user == ts[i].user && r[i].newEmail == ts[i].newEmail)
  {
  }

  /** Issuing keeps values unique and leaves at most one unused token per user. */
  lemma IssueKeepsInvariants(ts: seq<Token>, user: UserId, value: string, now: int, newEmail: Option<string>)
    requires Fresh(ts, value) && DistinctValues(ts) && AtMostOneUnused(ts)
    ensures DistinctValues(Issue(ts, user, value, now, newEmail))
    ensures AtMostOneUnused(Issue(ts, user, value, now, newEmail))
  {
    IssueFacts(ts, user, value, now, newEmail);
  }

  /** `mark_as_used()` on the token at `k`. */
  function MarkUsed(ts: seq<Token>, k: nat): (r: seq<Token>)
    requires k < |ts|
    ensures |r| == |ts| && r[k].used && !IsValid(r[k], 0) && r[k].value == ts[k].value
    ensures forall i :: 0 <= i < |ts| && i != k ==> r[i] == ts[i]
  {
    ts[k := ts[k].(used := true)]
  }

  /** Marking a token used keeps values unique and at most one unused token per user. */
  lemma MarkUsedKeepsInvariants(ts: seq<Token>, k: nat)
    requires k < |ts| && DistinctValues(ts) && AtMostOneUnused(ts)
    ensures DistinctValues(MarkUsed(ts, k)) && AtMostOneUnused(MarkUsed(ts, k))
  {
  }

  /**
    What the database guarantees: every token belongs to a user in the table
    (the foreign key), change tokens carry their new address and reset tokens
    none, and values are unique (the `token` column).
   */
  predicate Stored(s: Store) {
    && (forall i :: 0 <= i < |s.resets| ==> s.resets[i].user in s.users && s.resets[i].newEmail.None?)
    && (forall i :: 0 <= i < |s.changes| ==> s.changes[i].user in s.users && s.changes[i].newEmail.Some?)
    && DistinctValues(s.resets) && DistinctValues(s.changes)
  }

  /**
    What the services keep on top of that: each user has at most one unused
    token of each kind, since `create_token` marks the earlier ones used.
   */
  predicate Sound(s: Store) {
    Stored(s) && AtMostOneUnused(s.resets) && AtMostOneUnused(s.changes)
  }

  /** Some user other than `me` has the address. */
  predicate EmailTaken(users: map<UserId, Account>, email: string, me: UserId) {
    exists u :: u in users && u != me && users[u].email == email
  }

  /** The users with an address. */
  function WithEmail(users: map<UserId, Account>, email: string): (r: set<UserId>)
    ensures forall u :: u in r <==> u in users && users[u].email == email
  {
    set u | u in users && users[u].email == email
  }

  /** The element of a one-element set. */
  function TheOne(s: set<UserId>): (u: UserId)
    requires |s| == 1
    ensures s == {u}
  {
    var u :| u in s;
    assert |s - {u}| == 0;
    assert s == {u} + (s - {u});
    u
  }

  // ---------------------------------------------------------------------------
  // `solicitar_cambio_password_service`
  // ---------------------------------------------------------------------------

  /** How the request goes on once the user is known: token first, then the mail. */
  function ResetFor(s: Store, u: UserId, value: string, now: int, send: Send, debug: bool): (Store, TokenReply)
    requires u in s.users
  {
    var s' := s.(resets := Issue(s.resets, u, value, now, None));
    match send
    case Sent => (s', TokenReply(Some(value), NoError))
    case NotSent => (s', TokenReply(None, Message(SendFailedMessage)))
    case SendRaised(kind, text) =>
      if debug then (s', TokenReply(None, DebugInfo(kind, text, s.users[u].email, ResetSubject)))
      else (s', TokenReply(None, Message(SendFailedMessage)))
  }

  /**
    `solicitar_cambio_password_service(user, email)`. Without a user, the
    email is looked up: no match answers `(None, None)`, two matches make
    `User.objects.get` raise (`None` here: the exception leaves the service).
    With neither, `"Usuario no encontrado"`.
   */
  function AfterResetRequest(s: Store, user: Option<UserId>, email: Option<string>, value: string, now: int, send: Send, debug: bool)
    : (o: Option<(Store, TokenReply)>)
    requires user.Some? ==> user.value in s.users
    ensures o.Some? ==> o.value.0.users == s.users && o.value.0.changes == s.changes
    ensures o.Some? ==> o.value.0.resets == s.resets || |o.value.0.resets| == |s.resets| + 1
    ensures o.Some? && o.value.1.token.Some? ==> o.value.1.token == Some(value) && o.value.1.error == NoError
  {
    if user.None? && email.Some? && email.value != "" then
      var matches := WithEmail(s.users, email.value);
      if |matches| == 0 then Some((s, TokenReply(None, NoError)))
      else if |matches| > 1 then None
      else Some(ResetFor(s, TheOne(matches), value, now, send, debug))
    else if user.None? then Some((s, TokenReply(None, Message(UserNotFoundMessage))))
    else Some(ResetFor(s, user.value, value, now, send, debug))
  }

  /**
    The outcomes of a reset request: the quiet answer to an unknown address
    and the "not found" answer change nothing; otherwise a token is issued
    for the user before the mail is sent, and stays issued whatever the mail
    did; the token value is returned only when the mail went out; a raising
    mail helper gives the `DEBUG` dictionary exactly when `DEBUG` is on.
   */
  lemma ResetRequestOutcomes(s: Store, user: Option<UserId>, email: Option<string>, value: string, now: int, send: Send, debug: bool)
    requires user.Some? ==> user.value in s.users
    ensures var o := AfterResetRequest(s, user, email, value, now, send, debug);
      var byEmail := user.None? && email.Some? && email.value != "";
      && (o.None? <==> byEmail && |WithEmail(s.users, email.value)| > 1)
      && (o == Some((s, TokenReply(None, NoError))) <==> byEmail && WithEmail(s.users, email.value) == {})
      && (o == Some((s, TokenReply(None, Message(UserNotFoundMessage)))) <==> user.None? && !byEmail)
      && (user.Some? || (byEmail && |WithEmail(s.users, email.value)| == 1) ==>
            o.Some? && exists u ::
              && u in s.users && (user.Some? ==> u == user.value) && (byEmail ==> s.users[u].email == email.value)
              && o.value.0 == s.(resets := Issue(s.resets, u, value, now, None))
              && (o.value.1.token.Some? <==> send == Sent)
              && (o.value.1.token.Some? ==> o.value.1.token == Some(value))
              && (o.value.1.error.DebugInfo? <==> send.SendRaised? && debug)
              && (send == NotSent || (send.SendRaised? && !debug) ==> o.value.1.error == Message(SendFailedMessage)))
  {
    var byEmail := user.None? && email.Some? && email.value != "";
    if byEmail && |WithEmail(s.users, email.value)| == 1 {
      var u := TheOne(WithEmail(s.users, email.value));
      assert u in WithEmail(s.users, email.value);
    }
  }

  // ---------------------------------------------------------------------------
  // `confirmar_cambio_password_service`
  // ---------------------------------------------------------------------------

  /**
    `confirmar_cambio_password_service(token_value, new_password)`: the
    password is set and the token used, then the confirmation mail is sent; a
    raising mail helper turns the answer into an error after both changes.
   */
  function AfterResetConfirm(s: Store, value: string, newPassword: string, now: int, send: Send): (r: (Store, UserReply))
    requires Stored(s)
    ensures r.0.changes == s.changes && r.0.users.Keys == s.users.Keys && |r.0.resets| == |s.resets|
    ensures forall u :: u in s.users ==> r.0.users[u].email == s.users[u].email
    ensures r.1.user.Some? <==> r.1.error.None?
  {
    match Find(s.resets, value)
    case None => (s, UserReply(None, Some(ResetLinkUnknownMessage)))
    case Some(k) =>
      if !IsValid(s.resets[k], now) then (s, UserReply(None, Some(ResetLinkSpentMessage)))
      else
        var u := s.resets[k].user;
        var s' := s.(users := s.users[u := s.users[u].(password := newPassword)], resets := MarkUsed(s.resets, k));
        if send.SendRaised? then (s', UserReply(None, Some(PasswordChangeFailedMessage)))
        else (s', UserReply(Some(u), None))
  }

  /**
    An unknown value and a spent token each get their message and change
    nothing; a valid token sets its owner's password, only that, and is used
    up; a confirmation mail that returned false is ignored.
   */
  lemma ResetConfirmOutcomes(s: Store, value: string, newPassword: string, now: int, send: Send)
    requires Stored(s)
    ensures var (s', r) := AfterResetConfirm(s, value, newPassword, now, send);
      && (r.error == Some(ResetLinkUnknownMessage) <==> Fresh(s.resets, value))
      && (r.error == Some(ResetLinkSpentMessage) <==>
            exists k :: 0 <= k < |s.resets| && s.resets[k].value == value && !IsValid(s.resets[k], now))
      && (r.error == Some(ResetLinkUnknownMessage) || r.error == Some(ResetLinkSpentMessage) ==> s' == s && r.user == None)
      && (forall k :: 0 <= k < |s.resets| && s.resets[k].value == value && IsValid(s.resets[k], now) ==>
            var u := s.resets[k].user;
            && s'.users == s.users[u := s.users[u].(password := newPassword)]
            && s'.resets == MarkUsed(s.resets, k) && s'.changes == s.changes
            && (r == UserReply(Some(u), None) <==> !send.SendRaised?)
            && (r == UserReply(None, Some(PasswordChangeFailedMessage)) <==> send.SendRaised?))
  {
    var (s', r) := AfterResetConfirm(s, value, newPassword, now, send);
    match Find(s.resets, value)
    case None =>
    case Some(k) =>
      forall j | 0 <= j < |s.resets| && s.resets[j].value == value
        ensures j == k
      {
      }
  }

  /** A reset link works once: confirming again with it is refused and changes nothing. */
  lemma ResetConfirmOnce(s: Store, value: string, p1: string, p2: string, now: int, later: int, send1: Send, send2: Send)
    requires Sound(s)
    requires AfterResetConfirm(s, value, p1, now, send1).0 != s
    ensures var s1 := AfterResetConfirm(s, value, p1, now, send1).0;
      Sound(s1) && AfterResetConfirm(s1, value, p2, later, send2) == (s1, UserReply(None, Some(ResetLinkSpentMessage)))
  {
    var k := Find(s.resets, value).value;
    MarkUsedKeepsInvariants(s.resets, k);
    var s1 := AfterResetConfirm(s, value, p1, now, send1).0;
    FindUnique(s1.resets, value, k);
  }

  /**
    The whole reset: a request whose mail went out, then a confirmation with
    the mailed value within 24 hours, sets the user's password.
   */
  lemma ResetRoundTrip(s: Store, u: UserId, value: string, now: int, later: int, newPassword: string, send: Send, debug: bool)
    requires Sound(s) && u in s.users && Fresh(s.resets, value)
    requires now <= later <= now + TokenLifetime && !send.SendRaised?
    ensures var o := AfterResetRequest(s, Some(u), None, value, now, Sent, debug);
      && o.Some? && o.value.1 == TokenReply(Some(value), NoError) && Sound(o.value.0)
      && var (s2, r) := AfterResetConfirm(o.value.0, value, newPassword, later, send);
      r == UserReply(Some(u), None) && s2.users == s.users[u := s.users[u].(password := newPassword)]
  {
    IssueFacts(s.resets, u, value, now, None);
    IssueKeepsInvariants(s.resets, u, value, now, None);
  }

  // ---------------------------------------------------------------------------
  // `cambiar_password_desde_perfil_service`
  // ---------------------------------------------------------------------------

  /** `cambiar_password_desde_perfil_service(user, old_password, new_password)` */
  function AfterProfileChange(s: Store, u: UserId, oldPassword: string, newPassword: string, send: Send): (r: (Store, UserReply))
    requires u in s.users
    ensures r.0.resets == s.resets && r.0.changes == s.changes && r.0.users.Keys == s.users.Keys
    ensures forall v :: v in s.users && v != u ==> r.0.users[v] == s.users[v]
    ensures r.0.users[u].email == s.users[u].email
    ensures r.1.user.Some? ==> r.1.user == Some(u) && r.0.users[u].password == newPassword
  {
    if s.users[u].password != oldPassword then (s, UserReply(None, Some(WrongCurrentPasswordMessage)))
    else
      var s' := s.(users := s.users[u := s.users[u].(password := newPassword)]);
      if send.SendRaised? then (s', UserReply(None, Some(PasswordChangeFailedMessage)))
      else (s', UserReply(Some(u), None))
  }

  /**
    A wrong current password changes nothing; the right one sets the new
    password and nothing else, answered by the user unless the mail raised.
   */
  lemma ProfileChangeOutcomes(s: Store, u: UserId, oldPassword: string, newPassword: string, send: Send)
    requires u in s.users
    ensures var (s', r) := AfterProfileChange(s, u, oldPassword, newPassword, send);
      && (r.error == Some(WrongCurrentPasswordMessage) <==> s.users[u].password != oldPassword)
      && (s.users[u].password != oldPassword ==> s' == s && r.user == None)
      && (s.users[u].password == oldPassword ==>
            && s' == s.(users := s.users[u := Account(s.users[u].email, newPassword)])
            && (r.user == Some(u) <==> !send.SendRaised?))
      && (Sound(s) ==> Sound(s'))
  {
  }

  // ---------------------------------------------------------------------------
  // `solicitar_cambio_email_service`
  // ---------------------------------------------------------------------------

  /** `solicitar_cambio_email_service(user, new_email, password)` */
  function AfterEmailRequest(s: Store, u: UserId, newEmail: string, password: string, value: string, now: int, send: Send): (r: (Store, TokenReply))
    requires u in s.users
    ensures r.0.users == s.users && r.0.resets == s.resets
    ensures r.0.changes == s.changes || |r.0.changes| == |s.changes| + 1
    ensures r.1.token.Some? ==> r.1.token == Some(value) && |r.0.changes| == |s.changes| + 1
  {
    if s.users[u].password != password then (s, TokenReply(None, Message(WrongPasswordMessage)))
    else if EmailTaken(s.users, newEmail, u) then (s, TokenReply(None, Message(EmailInUseMessage)))
    else
      var s' := s.(changes := Issue(s.changes, u, value, now, Some(newEmail)));
      if send == Sent then (s', TokenReply(Some(value), NoError))
      else (s', TokenReply(None, Message(SendFailedMessage)))
  }

  /**
    The password is checked before the address; either refusal changes
    nothing; otherwise a change token carrying the new address is issued,
    whatever the mail then does, and its value is returned iff the mail went out.
   */
  lemma EmailRequestOutcomes(s: Store, u: UserId, newEmail: string, password: string, value: string, now: int, send: Send)
    requires u in s.users
    ensures var (s', r) := AfterEmailRequest(s, u, newEmail, password, value, now, send);
      && (r.error == Message(WrongPasswordMessage) <==> s.users[u].password != password)
      && (r.error == Message(EmailInUseMessage) <==> s.users[u].password == password && EmailTaken(s.users, newEmail, u))
      && (s.users[u].password != password || EmailTaken(s.users, newEmail, u) ==> s' == s && r.token == None)
      && (s.users[u].password == password && !EmailTaken(s.users, newEmail, u) ==>
            && s' == s.(changes := Issue(s.changes, u, value, now, Some(newEmail)))
            && s'.changes[|s.changes|].newEmail == Some(newEmail)
            && (r.token == Some(value) <==> send == Sent)
            && (r.token.None? ==> r.error == Message(SendFailedMessage)))
  {
  }

  // ---------------------------------------------------------------------------
  // `confirmar_cambio_email_service`
  // ---------------------------------------------------------------------------

  /**
    `confirmar_cambio_email_service(token_value)`: the address is checked
    again; then the email is set and the token used, and the confirmation mail
    is sent, a raising helper turning the answer into an error after both changes.
   */
  function AfterEmailConfirm(s: Store, value: string, now: int, send: Send): (r: (Store, EmailReply))
    requires Stored(s)
    ensures r.0.resets == s.resets && r.0.users.Keys == s.users.Keys && |r.0.changes| == |s.changes|
    ensures forall u :: u in s.users ==> r.0.users[u].password == s.users[u].password
    ensures r.1.user.Some? <==> r.1.error.None?
    ensures r.1.user.Some? ==> r.1.newEmail.Some? && r.1.user.value in r.0.users && r.0.users[r.1.user.value].email == r.1.newEmail.value
  {
    match Find(s.changes, value)
    case None => (s, EmailReply(None, None, None, Some(EmailLinkUnknownMessage)))
    case Some(k) =>
      if !IsValid(s.changes[k], now) then (s, EmailReply(None, None, None, Some(EmailLinkSpentMessage)))
      else
        var t := s.changes[k];
        var old_ := s.users[t.user].email;
        var new_ := t.newEmail.value;
        if EmailTaken(s.users, new_, t.user) then (s, EmailReply(None, None, None, Some(EmailInUseMessage)))
        else
          var s' := s.(users := s.users[t.user := s.users[t.user].(email := new_)], changes := MarkUsed(s.changes, k));
          if send.SendRaised? then (s', EmailReply(None, None, None, Some(EmailChangeFailedMessage)))
          else (s', EmailReply(Some(t.user), Some(old_), Some(new_), None))
  }

  /**
    An unknown value or a spent token is refused and nothing changes; an
    address taken meanwhile by another user is refused and the token stays
    unused; otherwise the owner's email becomes the token's address, the
    token is used up, and the answer names the old and the new address.
   */
  lemma EmailConfirmOutcomes(s: Store, value: string, now: int, send: Send)
    requires Stored(s)
    ensures var (s', r) := AfterEmailConfirm(s, value, now, send);
      && (r.error == Some(EmailLinkUnknownMessage) <==> Fresh(s.changes, value))
      && (r.error in {Some(EmailLinkUnknownMessage), Some(EmailLinkSpentMessage), Some(EmailInUseMessage)} ==> s' == s)
      && (forall k :: 0 <= k < |s.changes| && s.changes[k].value == value ==>
            var t := s.changes[k];
            && (r.error == Some(EmailLinkSpentMessage) <==> !IsValid(t, now))
            && (r.error == Some(EmailInUseMessage) <==> IsValid(t, now) && EmailTaken(s.users, t.newEmail.value, t.user))
            && (IsValid(t, now) && !EmailTaken(s.users, t.newEmail.value, t.user) ==>
                  && s'.users == s.users[t.user := s.users[t.user].(email := t.newEmail.value)]
                  && s'.changes == MarkUsed(s.changes, k) && s'.resets == s.resets
                  && (!send.SendRaised? ==> r == EmailReply(Some(t.user), Some(s.users[t.user].email), t.newEmail, None))
                  && (send.SendRaised? ==> r.error == Some(EmailChangeFailedMessage))))
  {
    match Find(s.changes, value)
    case None =>
    case Some(k) =>
      forall j | 0 <= j < |s.changes| && s.changes[j].value == value
        ensures j == k
      {
      }
  }

  /** No two users share an address. */
  predicate EmailsDistinct(users: map<UserId, Account>) {
    forall u, v :: u in users && v in users && users[u].email == users[v].email ==> u == v
  }

  /** Confirming an email change keeps the store sound. */
  lemma EmailConfirmKeepsSound(s: Store, value: string, now: int, send: Send)
    requires Sound(s)
    ensures Sound(AfterEmailConfirm(s, value, now, send).0)
  {
    match Find(s.changes, value)
    case None =>
    case Some(k) =>
      MarkUsedKeepsInvariants(s.changes, k);
  }

  /** Confirming an email change never gives two users the same address, and keeps the store sound. */
  lemma EmailConfirmKeepsInvariants(s: Store, value: string, now: int, send: Send)
    requires Sound(s) && EmailsDistinct(s.users)
    ensures Sound(AfterEmailConfirm(s, value, now, send).0)
    ensures EmailsDistinct(AfterEmailConfirm(s, value, now, send).0.users)
  {
    EmailConfirmKeepsSound(s, value, now, send);
  }

  /**
    The whole email change: a request whose mail went out, then a
    confirmation within 24 hours while nobody else took the address, gives the
    user the new address.
   */
  lemma EmailChangeRoundTrip(s: Store, u: UserId, newEmail: string, value: string, now: int, later: int, send: Send)
    requires Sound(s) && u in s.users && Fresh(s.changes, value) && !EmailTaken(s.users, newEmail, u)
    requires now <= later <= now + TokenLifetime && !send.SendRaised?
    ensures var (s1, r1) := AfterEmailRequest(s, u, newEmail, s.users[u].password, value, now, Sent);
      && r1 == TokenReply(Some(value), NoError) && Sound(s1)
      && var (s2, r2) := AfterEmailConfirm(s1, value, later, send);
      && r2 == EmailReply(Some(u), Some(s.users[u].email), Some(newEmail), None)
      && s2.users == s.users[u := s.users[u].(email := newEmail)]
  {
    IssueFacts(s.changes, u, value, now, Some(newEmail));
    IssueKeepsInvariants(s.changes, u, value, now, Some(newEmail));
  }

  /** Issuing either kind of token keeps the store sound. */
  lemma RequestsKeepSound(s: Store, u: UserId, newEmail: string, password: string, value: string, now: int, send: Send, debug: bool)
    requires Sound(s) && u in s.users && Fresh(s.resets, value) && Fresh(s.changes, value)
    ensures Sound(AfterEmailRequest(s, u, newEmail, password, value, now, send).0)
    ensures Sound(ResetFor(s, u, value, now, send, debug).0)
  {
    IssueFacts(s.resets, u, value, now, None);
    IssueKeepsInvariants(s.resets, u, value, now, None);
    IssueFacts(s.changes, u, value, now, Some(newEmail));
    IssueKeepsInvariants(s.changes, u, value, now, Some(newEmail));
  }

  /** Confirming a reset keeps the store sound. */
  lemma ResetConfirmKeepsSound(s: Store, value: string, newPassword: string, now: int, send: Send)
    requires Sound(s)
    ensures Sound(AfterResetConfirm(s, value, newPassword, now, send).0)
  {
    match Find(s.resets, value)
    case None =>
    case Some(k) =>
      MarkUsedKeepsInvariants(s.resets, k);
  }

  // ---------------------------------------------------------------------------
  // The services over the tables, updated in place
  // ---------------------------------------------------------------------------

  class AccountServices {
    var users: map<UserId, Account>
    var resets: seq<Token>
    var changes: seq<Token>

    function Snapshot(): Store
      reads this
    {
      Store(users, resets, changes)
    }

    constructor (s: Store)
      ensures Snapshot() == s
    {
      users, resets, changes := s.users, s.resets, s.changes;
    }

    /** `create_token` on the table of reset tokens. */
    method CreateResetToken(u: UserId, value: string, now: int)
      modifies this
      ensures Snapshot() == old(Snapshot()).(resets := Issue(old(resets), u, value, now, None))
    {
      resets := Issue(resets, u, value, now, None);
    }

    /** `solicitar_cambio_password_service`; `None` when `User.objects.get` raises. */
    method RequestPasswordReset(user: Option<UserId>, email: Option<string>, value: string, now: int, send: Send, debug: bool)
      returns (reply: Option<TokenReply>)
      requires user.Some? ==> user.value in users
      modifies this
      ensures var o := AfterResetRequest(old(Snapshot()), user, email, value, now, send, debug);
        reply == (if o.Some? then Some(o.value.1) else None) && (o.Some? ==> Snapshot() == o.value.0)
      ensures reply.None? ==> Snapshot() == old(Snapshot())
      ensures old(Sound(Snapshot()) && Fresh(resets, value)) ==> Sound(Snapshot())
    {
      var who := user;
      if user.None? && email.Some? && email.value != "" {
        var matches := WithEmail(users, email.value);
        if |matches| == 0 {
          return Some(TokenReply(None, NoError));
        }
        if |matches| > 1 {
          return None;
        }
        who := Some(TheOne(matches));
      }
      if who.None? {
        return Some(TokenReply(None, Message(UserNotFoundMessage)));
      }
      var u := who.value;
      if Sound(Snapshot()) && Fresh(resets, value) {
        IssueKeepsInvariants(resets, u, value, now, None);
        IssueFacts(resets, u, value, now, None);
      }
      CreateResetToken(u, value, now);
      match send
      case Sent => reply := Some(TokenReply(Some(value), NoError));
      case NotSent => reply := Some(TokenReply(None, Message(SendFailedMessage)));
      case SendRaised(kind, text) =>
        if debug {
          reply := Some(TokenReply(None, DebugInfo(kind, text, users[u].email, ResetSubject)));
        } else {
          reply := Some(TokenReply(None, Message(SendFailedMessage)));
        }
    }

    /** `confirmar_cambio_password_service` */
    method ConfirmPasswordReset(value: string, newPassword: string, now: int, send: Send) returns (reply: UserReply)
      requires Stored(Snapshot())
      modifies this
      ensures (Snapshot(), reply) == AfterResetConfirm(old(Snapshot()), value, newPassword, now, send)
      ensures old(Sound(Snapshot())) ==> Sound(Snapshot())
    {
      if Sound(Snapshot()) {
        ResetConfirmKeepsSound(Snapshot(), value, newPassword, now, send);
      }
      var found := Find(resets, value);
      if found.None? {
        return UserReply(None, Some(ResetLinkUnknownMessage));
      }
      var k := found.value;
      if !IsValid(resets[k], now) {
        return UserReply(None, Some(ResetLinkSpentMessage));
      }
      var u := resets[k].user;
      users := users[u := users[u].(password := newPassword)];
      resets := MarkUsed(resets, k);
      if send.SendRaised? {
        return UserReply(None, Some(PasswordChangeFailedMessage));
      }
      return UserReply(Some(u), None);
    }

    /** `cambiar_password_desde_perfil_service` */
    method ChangePasswordFromProfile(u: UserId, oldPassword: string, newPassword: string, send: Send) returns (reply: UserReply)
      requires u in users
      modifies this
      ensures (Snapshot(), reply) == AfterProfileChange(old(Snapshot()), u, oldPassword, newPassword, send)
    {
      if users[u].password != oldPassword {
        return UserReply(None, Some(WrongCurrentPasswordMessage));
      }
      users := users[u := users[u].(password := newPassword)];
      if send.SendRaised? {
        return UserReply(None, Some(PasswordChangeFailedMessage));
      }
      return UserReply(Some(u), None);
    }

    /** `solicitar_cambio_email_service` */
    method RequestEmailChange(u: UserId, newEmail: string, password: string, value: string, now: int, send: Send)
      returns (reply: TokenReply)
      requires u in users
      modifies this
      ensures (Snapshot(), reply) == AfterEmailRequest(old(Snapshot()), u, newEmail, password, value, now, send)
      ensures old(Sound(Snapshot()) && Fresh(changes, value)) ==> Sound(Snapshot())
    {
      if users[u].password != password {
        return TokenReply(None, Message(WrongPasswordMessage));
      }
      if exists v :: v in users && v != u && users[v].email == newEmail {
        return TokenReply(None, Message(EmailInUseMessage));
      }
      if Sound(Snapshot()) && Fresh(changes, value) {
        IssueKeepsInvariants(changes, u, value, now, Some(newEmail));
        IssueFacts(changes, u, value, now, Some(newEmail));
      }
      changes := Issue(changes, u, value, now, Some(newEmail));
      if send == Sent {
        return TokenReply(Some(value), NoError);
      }
      return TokenReply(None, Message(SendFailedMessage));
    }

    /** `confirmar_cambio_email_service` */
    method ConfirmEmailChange(value: string, now: int, send: Send) returns (reply: EmailReply)
      requires Stored(Snapshot())
      modifies this
      ensures (Snapshot(), reply) == AfterEmailConfirm(old(Snapshot()), value, now, send)
      ensures old(Sound(Snapshot())) ==> Sound(Snapshot())
      ensures old(Sound(Snapshot()) && EmailsDistinct(users)) ==> EmailsDistinct(users)
    {
      if Sound(Snapshot()) && EmailsDistinct(users) {
        EmailConfirmKeepsInvariants(Snapshot(), value, now, send);
      } else if Sound(Snapshot()) {
        EmailConfirmKeepsSound(Snapshot(), value, now, send);
      }
      var found := Find(changes, value);
      if found.None? {
        return EmailReply(None, None, None, Some(EmailLinkUnknownMessage));
      }
      var k := found.value;
      if !IsValid(changes[k], now) {
        return EmailReply(None, None, None, Some(EmailLinkSpentMessage));
      }
      var u := changes[k].user;
      var oldEmail := users[u].email;
      var newEmail := changes[k].newEmail.value;
      if exists v :: v in users && v != u && users[v].email == newEmail {
        return EmailReply(None, None, None, Some(EmailInUseMessage));
      }
      users := users[u := users[u].(email := newEmail)];
      changes := MarkUsed(changes, k);
      if send.SendRaised? {
        return EmailReply(None, None, None, Some(EmailChangeFailedMessage));
      }
      return EmailReply(Some(u), Some(oldEmail), Some(newEmail), None);
    }
  }
}
