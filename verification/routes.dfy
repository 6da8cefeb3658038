/**
 * The HTTP routes of the server, one method per route, each taking the
 * session store, the database and the request. Values the server draws from
 * `SecureRandomString` (CSRF tokens, session ids, salts) and the clock are
 * parameters. A handler's result is the response it produces: what it
 * renders or answers, and what it does to the `id` cookie.
 */
module Routes {
  import opened Wrappers
  import opened Base64
  import opened Schema
  import opened Auth
  import opened Feed
  import opened Sessions

  const Home := "/"
  const UsernameField := "username"
  const PasswordField := "password"
  const PseudoField := "pseudo"
  const MessageField := "message"

  datatype Outcome =
    | RenderTimeline(csrfToken: string, name: Option<string>)  // templates/timeline.html
    | RenderIndex(csrfToken: string)                           // templates/index.html
    | AuthorsJson(authors: seq<AuthorRow>)
    | TimelineJson(messages: seq<TimeMessage>)
    | Redirect(location: string)
    | Created
    | BadRequest
    | Unauthorized
    | Forbidden
    | ForbiddenInvalid                                         // 403 with the body "Invalid"
    | ServerError(error: Error)

  function Status(o: Outcome): int {
    match o
    case RenderTimeline(_, _) => 200
    case RenderIndex(_) => 200
    case AuthorsJson(_) => 200
    case TimelineJson(_) => 200
    case Redirect(_) => 302
    case Created => 201
    case BadRequest => 400
    case Unauthorized => 401
    case Forbidden => 403
    case ForbiddenInvalid => 403
    case ServerError(_) => 500
  }

  datatype CookieEffect = KeepCookie | SetSessionCookie(id: string) | RemoveSessionCookie

  datatype Response = Response(outcome: Outcome, cookie: CookieEffect)

  /** The exception handlers: a CSRF failure answers 401, an invalid session
      403; any other exception reaches the framework's default handler, 500. */
  function Rejection(f: Refusal): (r: Response)
    ensures r.cookie == KeepCookie
    ensures f == CsrfRejected <==> Status(r.outcome) == 401
    ensures f == SessionInvalid <==> Status(r.outcome) == 403
    ensures f.Crash? <==> Status(r.outcome) == 500
  {
    match f
    case CsrfRejected => Response(Unauthorized, KeepCookie)
    case SessionInvalid => Response(Forbidden, KeepCookie)
    case Crash(e) => Response(ServerError(e), KeepCookie)
  }

  /** The cookies a browser sends after applying the response's cookie effect. */
  function BrowserCookies(cookies: map<string, string>, effect: CookieEffect): map<string, string> {
    match effect
    case KeepCookie => cookies
    case SetSessionCookie(id) => cookies[SessionCookie := id]
    case RemoveSessionCookie => cookies - {SessionCookie}
  }

  /** The browser's next request after `resp`, carrying `form` and `headers`. */
  function NextRequest(ctx: Context, resp: Response, form: map<string, string>, headers: map<string, string>): Context {
    Context(BrowserCookies(ctx.cookies, resp.cookie), form, headers)
  }

  /**
   * `GET /`: a logged-in session gets the timeline page and a fresh CSRF
   * token written into its session; anyone else gets the index page, a new
   * anonymous session holding the token, and its id in the cookie. Either
   * way, the page's token posted back with the cookie the browser then holds
   * is the only one that passes the CSRF check, and the visitor is exactly
   * as logged in as before.
   */
  method GetIndex(store: InMemorySessionStore, ctx: Context, csrfToken: string, freshId: string)
    returns (resp: Response)
    requires store.Valid()
    modifies store
    ensures store.Valid()
    ensures var v := old(RetrieveValidSession(ctx, store));
      if v.Success? then
        && resp == Response(RenderTimeline(csrfToken, v.value.author.value.name), KeepCookie)
        && store.sessions == old(store.sessions)[v.value.id := v.value.(csrf := Some(csrfToken))]
      else
        && resp == Response(RenderIndex(csrfToken), SetSessionCookie(freshId))
        && store.sessions == old(store.sessions)[freshId := Session(freshId, None, Some(csrfToken))]
    ensures CheckCsrf(NextRequest(ctx, resp, map[CsrfField := csrfToken], map[]), store) == Pass
    ensures forall t :: t != csrfToken ==>
      CheckCsrf(NextRequest(ctx, resp, map[CsrfField := t], map[]), store) == Fail(CsrfRejected)
    ensures RetrieveValidSession(NextRequest(ctx, resp, map[], map[]), store).Success?
        == old(RetrieveValidSession(ctx, store)).Success?
  {
    var v := RetrieveValidSession(ctx, store);
    if v.Success? {
      resp := Response(RenderTimeline(csrfToken, v.value.author.value.name), KeepCookie);
      store.Add(v.value.(csrf := Some(csrfToken)));
    } else {
      resp := Response(RenderIndex(csrfToken), SetSessionCookie(freshId));
      store.Add(Session(freshId, None, Some(csrfToken)));
    }
  }

  /** `GET /autocomplete/:pattern`: for a logged-in session only, the authors
      whose name matches the pattern. */
  method GetAutocomplete(store: InMemorySessionStore, db: Database, ctx: Context, pattern: string)
    returns (resp: Response)
    ensures var v := RetrieveValidSession(ctx, store);
      v.Failure? ==> resp == Rejection(SessionInvalid)
    ensures var v := RetrieveValidSession(ctx, store);
      v.Success? ==> resp == Response(AuthorsJson(Autocomplete(db.State(), pattern)), KeepCookie)
    ensures resp.outcome.AuthorsJson? ==>
      && |resp.outcome.authors| <= AutocompleteLimit
      && forall a :: a in resp.outcome.authors ==> a in db.authors && NameLike(a, pattern)
  {
    var v := RetrieveValidSession(ctx, store);
    if v.Failure? {
      return Rejection(v.error);
    }
    resp := Response(AuthorsJson(Autocomplete(db.State(), pattern)), KeepCookie);
  }

  /**
   * `POST /register`: the form token must pass `checkCsrf`, then the account
   * is registered with the given salt; a failed registration is an unhandled
   * exception. The route does not log the visitor in.
   */
  method PostRegister(store: InMemorySessionStore, db: Database, ctx: Context, salt: string, bcrypt: Hasher)
    returns (resp: Response)
    requires db.Valid()
    modifies db
    ensures db.Valid()
    ensures old(db.State().Paired()) ==> db.State().Paired()
    ensures var c := CheckCsrf(ctx, store);
      c.Fail? ==> resp == Rejection(c.refusal) && db.State() == old(db.State())
    ensures var c := CheckCsrf(ctx, store);
      var username, pseudo, password := ctx.FormParam(UsernameField), ctx.FormParam(PseudoField), ctx.FormParam(PasswordField);
      c == Pass ==>
        if Registers(old(db.State()), username, pseudo, password, salt) then
          && resp == Response(Redirect(Home), KeepCookie)
          && db.State() == WithAccount(old(db.State()), username,
                                       HashOf(password.value, StdDecode(salt).value, bcrypt), salt, pseudo)
        else
          && resp.outcome.ServerError? && resp.cookie == KeepCookie
          && db.State() == old(db.State()).(loginSeq := db.loginSeq)
  {
    var c := CheckCsrf(ctx, store);
    if c.Fail? {
      return Rejection(c.refusal);
    }
    var r := Register(db, ctx.FormParam(UsernameField), ctx.FormParam(PseudoField), ctx.FormParam(PasswordField),
                      salt, bcrypt);
    if r.Failure? {
      return Rejection(Crash(r.error));
    }
    resp := Response(Redirect(Home), KeepCookie);
  }

  /** `GET /logout`: only the cookie is dropped; the session stays in the
      store, but the browser's next request no longer names it. */
  method GetLogout(store: InMemorySessionStore, ctx: Context) returns (resp: Response)
    ensures resp == Response(Redirect(Home), RemoveSessionCookie)
    ensures RetrieveValidSession(NextRequest(ctx, resp, map[], map[]), store) == Failure(SessionInvalid)
  {
    resp := Response(Redirect(Home), RemoveSessionCookie);
  }

  /**
   * `POST /login`: the form token must pass `checkCsrf`; then valid
   * credentials open a new session for the Author under a fresh id and set
   * the cookie, and invalid ones answer 403 "Invalid". The new session holds
   * no CSRF token, so it passes no CSRF check until `GET /` issues one.
   */
  method PostLogin(store: InMemorySessionStore, db: Database, ctx: Context, freshId: string, bcrypt: Hasher)
    returns (resp: Response)
    requires store.Valid()
    modifies store
    ensures store.Valid()
    ensures var c := old(CheckCsrf(ctx, store));
      c.Fail? ==> resp == Rejection(c.refusal) && store.sessions == old(store.sessions)
    ensures var c := old(CheckCsrf(ctx, store));
      c == Pass ==>
        match Login(db.State(), ctx.FormParam(UsernameField), ctx.FormParam(PasswordField), bcrypt)
        case Failure(e) => resp == Rejection(Crash(e)) && store.sessions == old(store.sessions)
        case Success(None) => resp == Response(ForbiddenInvalid, KeepCookie) && store.sessions == old(store.sessions)
        case Success(Some(a)) =>
          && resp == Response(Redirect(Home), SetSessionCookie(freshId))
          && store.sessions == old(store.sessions)[freshId := Session(freshId, Some(a), None)]
          && RetrieveValidSession(NextRequest(ctx, resp, map[], map[]), store) == Success(Session(freshId, Some(a), None))
          && forall form :: CheckCsrf(NextRequest(ctx, resp, form, map[]), store) == Fail(CsrfRejected)
  {
    var c := CheckCsrf(ctx, store);
    if c.Fail? {
      return Rejection(c.refusal);
    }
    var login := Login(db.State(), ctx.FormParam(UsernameField), ctx.FormParam(PasswordField), bcrypt);
    match login
    case Failure(e) =>
      resp := Rejection(Crash(e));
    case Success(None) =>
      resp := Response(ForbiddenInvalid, KeepCookie);
    case Success(Some(a)) =>
      store.Add(Session(freshId, Some(a), None));
      resp := Response(Redirect(Home), SetSessionCookie(freshId));
  }

  /**
   * `POST /message`: a logged-in session whose form token matches may post;
   * the message is stored under the session's Author with the given time.
   * The session is checked before the token, so a visitor without a session
   * gets 403, not 401.
   */
  method PostMessage(store: InMemorySessionStore, db: Database, ctx: Context, now: int)
    returns (resp: Response)
    requires db.Valid()
    modifies db
    ensures db.Valid()
    ensures old(db.State().Paired()) ==> db.State().Paired()
    ensures var v := RetrieveValidSession(ctx, store);
      v.Failure? ==> resp == Rejection(SessionInvalid) && db.State() == old(db.State())
    ensures var v := RetrieveValidSession(ctx, store);
      v.Success? && CheckCsrfForm(ctx, v.value).Fail? ==>
        resp == Rejection(CsrfRejected) && db.State() == old(db.State())
    ensures var v := RetrieveValidSession(ctx, store);
      var body := ctx.FormParam(MessageField);
      v.Success? && CheckCsrfForm(ctx, v.value) == Pass ==>
        && db.messageSeq == old(db.messageSeq) + 1
        && (Fits(body) ==>
              && resp == Response(Redirect(Home), KeepCookie)
              && db.State() == old(db.State()).(
                   messages := old(db.messages) + [MessageRow(old(db.messageSeq), v.value.author.value.id, body, now)],
                   messageSeq := db.messageSeq))
        && (!Fits(body) ==>
              && resp == Rejection(Crash(ValueTooLong))
              && db.State() == old(db.State()).(messageSeq := db.messageSeq))
  {
    var v := RetrieveValidSession(ctx, store);
    if v.Failure? {
      return Rejection(v.error);
    }
    var c := CheckCsrfForm(ctx, v.value);
    if c.Fail? {
      return Rejection(c.refusal);
    }
    var r := SaveMessage(db, v.value.author.value.id, ctx.FormParam(MessageField), now);
    if r.Failure? {
      return Rejection(Crash(r.error));
    }
    resp := Response(Redirect(Home), KeepCookie);
  }

  /** `GET /timeline`: for a logged-in session only, the merged timeline of
      its Author, every entry of which is the Author's own or a followed
      author's message. */
  method GetTimeline(store: InMemorySessionStore, db: Database, ctx: Context) returns (resp: Response)
    ensures var v := RetrieveValidSession(ctx, store);
      v.Failure? ==> resp == Rejection(SessionInvalid)
    ensures var v := RetrieveValidSession(ctx, store);
      v.Success? ==> resp == Response(TimelineJson(Timeline(db.State(), v.value.author.value.id)), KeepCookie)
    ensures var v := RetrieveValidSession(ctx, store);
      resp.outcome.TimelineJson? ==>
        && v.Success?
        && |resp.outcome.messages| <= TimelineLimit
        && SortedDesc(resp.outcome.messages)
        && forall x :: x in resp.outcome.messages ==> Qualifies(db.State(), v.value.author.value.id, x)
  {
    var v := RetrieveValidSession(ctx, store);
    if v.Failure? {
      return Rejection(v.error);
    }
    resp := Response(TimelineJson(Timeline(db.State(), v.value.author.value.id)), KeepCookie);
  }

  /**
   * `POST /follow/:id`: a logged-in session whose `anti-csrf-token` header
   * matches makes its Author follow author `id`. `pathId` is the path
   * parameter read as an integer, None when it is not one (answered 400).
   */
  method PostFollow(store: InMemorySessionStore, db: Database, ctx: Context, pathId: Option<int>)
    returns (resp: Response)
    requires db.Valid()
    modifies db
    ensures db.Valid()
    ensures old(db.State().Paired()) ==> db.State().Paired()
    ensures var v := RetrieveValidSession(ctx, store);
      v.Failure? ==> resp == Rejection(SessionInvalid) && db.State() == old(db.State())
    ensures var v := RetrieveValidSession(ctx, store);
      v.Success? && CheckCsrfHeader(ctx, v.value).Fail? ==>
        resp == Rejection(CsrfRejected) && db.State() == old(db.State())
    ensures var v := RetrieveValidSession(ctx, store);
      v.Success? && CheckCsrfHeader(ctx, v.value) == Pass && pathId.None? ==>
        resp == Response(BadRequest, KeepCookie) && db.State() == old(db.State())
    ensures var v := RetrieveValidSession(ctx, store);
      v.Success? && CheckCsrfHeader(ctx, v.value) == Pass && pathId.Some? ==>
        && resp == Response(Created, KeepCookie)
        && db.State() == old(db.State()).(follows := old(db.follows) + [FollowRow(pathId.value, v.value.author.value.id)])
  {
    var v := RetrieveValidSession(ctx, store);
    if v.Failure? {
      return Rejection(v.error);
    }
    var c := CheckCsrfHeader(ctx, v.value);
    if c.Fail? {
      return Rejection(c.refusal);
    }
    if pathId.None? {
      return Response(BadRequest, KeepCookie);
    }
    SaveFollow(db, FollowRow(pathId.value, v.value.author.value.id));
    resp := Response(Created, KeepCookie);
  }
}
