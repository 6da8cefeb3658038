/**
 * Sessions, the in-memory session store, and the request checks built on
 * them. A request is reduced to what the checks read: its cookies, its form
 * fields and its headers.
 */
module Sessions {
  import opened Wrappers
  import opened Schema

  const SessionCookie := "id"
  const CsrfField := "csrf"
  const CsrfHeader := "anti-csrf-token"

  /** The parts of a Javalin `Context` the handlers read. */
  datatype Context = Context(cookies: map<string, string>, formParams: map<string, string>, headers: map<string, string>)
  {
    function Cookie(name: string): Option<string> {
      if name in cookies then Some(cookies[name]) else None
    }

    function FormParam(name: string): Option<string> {
      if name in formParams then Some(formParams[name]) else None
    }

    function Header(name: string): Option<string> {
      if name in headers then Some(headers[name]) else None
    }
  }

  /** `Session`: an id, the logged-in Author (None for an anonymous visitor)
      and the last CSRF token issued to it (None until one is issued). */
  datatype Session = Session(id: string, author: Option<AuthorRow>, csrf: Option<string>)
  {
    /** `invalid()`: the session has no Author. */
    predicate Invalid() {
      author.None?
    }

    /** `verifyCsrf(submitted)`: fails closed. Without an issued token nothing
        passes; with one, only a submitted token equal to it passes, so a
        missing submission fails too. */
    function VerifyCsrf(submitted: Option<string>): (ok: bool)
      ensures ok ==> csrf.Some? && submitted.Some?
      ensures csrf.Some? && submitted.Some? ==> (ok <==> submitted.value == csrf.value)
    {
      match csrf
      case None => false
      case Some(token) => submitted == Some(token)
    }
  }

  /** The map after `add`ing each session of `adds` in turn to an empty store. */
  function Stored(adds: seq<Session>): map<string, Session>
  {
    if adds == [] then map[]
    else
      var last := adds[|adds| - 1];
      Stored(adds[..|adds| - 1])[last.id := last]
  }

  /** Every session is stored under its own id. */
  lemma {:induction false} StoredUnderOwnId(adds: seq<Session>)
    ensures forall k :: k in Stored(adds) ==> Stored(adds)[k].id == k
  {
    if adds != [] {
      StoredUnderOwnId(adds[..|adds| - 1]);
    }
  }

  /** A session added and not later replaced under its id is what that id retrieves. */
  lemma {:induction false} StoredLatest(adds: seq<Session>, i: nat)
    requires i < |adds|
    requires forall j :: i < j < |adds| ==> adds[j].id != adds[i].id
    ensures adds[i].id in Stored(adds) && Stored(adds)[adds[i].id] == adds[i]
  {
    if i < |adds| - 1 {
      StoredLatest(adds[..|adds| - 1], i);
    }
  }

  /** An id no added session carries retrieves nothing. */
  lemma {:induction false} StoredNeverAdded(adds: seq<Session>, id: string)
    requires forall j :: 0 <= j < |adds| ==> adds[j].id != id
    ensures id !in Stored(adds)
  {
    if adds != [] {
      StoredNeverAdded(adds[..|adds| - 1], id);
    }
  }

  /** `InMemorySessionStore`: a map from session id to session, written in
      place by `add`. `added` records every session added so far. */
  class InMemorySessionStore {
    var sessions: map<string, Session>
    ghost var added: seq<Session>

    ghost predicate Valid()
      reads this
    {
      sessions == Stored(added)
    }

    constructor ()
      ensures Valid() && added == [] && sessions == map[]
    {
      sessions := map[];
      added := [];
    }

    /** `retrieve(id)`: the session stored under `id`, if any. */
    function Retrieve(id: string): (r: Option<Session>)
      reads this
      ensures Valid() && r.Some? ==> r.value.id == id
    {
      StoredUnderOwnId(added);
      if id in sessions then Some(sessions[id]) else None
    }

    /** `add(session)`: put the session under its id, replacing any session
        already there; every other id keeps what it retrieved. */
    method Add(session: Session)
      requires Valid()
      modifies this
      ensures Valid() && added == old(added) + [session]
      ensures sessions == old(sessions)[session.id := session]
      ensures Retrieve(session.id) == Some(session)
      ensures forall id :: id != session.id ==> Retrieve(id) == old(Retrieve(id))
    {
      sessions := sessions[session.id := session];
      added := added + [session];
      assert added[..|added| - 1] == old(added);
    }
  }

  /** Why a request is turned away. */
  datatype Refusal =
    | CsrfRejected          // CsrfException
    | SessionInvalid        // InvalidSessionException
    | Crash(error: Error)   // any other exception

  datatype Check = Pass | Fail(refusal: Refusal)

  /** `checkCsrf(ctx, session)`: the form field `csrf` against the session's token. */
  function CheckCsrfForm(ctx: Context, s: Session): (r: Check)
    ensures r == Pass || r == Fail(CsrfRejected)
    ensures r == Pass ==> s.csrf.Some? && ctx.FormParam(CsrfField) == s.csrf
    ensures s.csrf.Some? && ctx.FormParam(CsrfField) == s.csrf ==> r == Pass
  {
    if s.VerifyCsrf(ctx.FormParam(CsrfField)) then Pass else Fail(CsrfRejected)
  }

  /** `checkCsrfHeader(ctx, session)`: the `anti-csrf-token` header against the
      session's token. */
  function CheckCsrfHeader(ctx: Context, s: Session): (r: Check)
    ensures r == Pass || r == Fail(CsrfRejected)
    ensures r == Pass ==> s.csrf.Some? && ctx.Header(CsrfHeader) == s.csrf
    ensures s.csrf.Some? && ctx.Header(CsrfHeader) == s.csrf ==> r == Pass
  {
    if s.VerifyCsrf(ctx.Header(CsrfHeader)) then Pass else Fail(CsrfRejected)
  }

  /**
   * `checkCsrf(ctx, sessionStore)`: the session named by the `id` cookie, then
   * the form token. The cookie goes straight to the map lookup, which throws
   * on a missing key, so no cookie is a crash rather than a CSRF failure. An
   * anonymous session passes when its token matches.
   */
  function CheckCsrf(ctx: Context, store: InMemorySessionStore): (r: Check)
    reads store
    ensures ctx.Cookie(SessionCookie).None? ==> r == Fail(Crash(NullPointer))
    ensures ctx.Cookie(SessionCookie).Some? ==> r == Pass || r == Fail(CsrfRejected)
    ensures r == Pass <==>
      && ctx.Cookie(SessionCookie).Some?
      && store.Retrieve(ctx.Cookie(SessionCookie).value).Some?
      && CheckCsrfForm(ctx, store.Retrieve(ctx.Cookie(SessionCookie).value).value) == Pass
  {
    match ctx.Cookie(SessionCookie)
    case None => Fail(Crash(NullPointer))
    case Some(key) =>
      match store.Retrieve(key)
      case None => Fail(CsrfRejected)
      case Some(s) => CheckCsrfForm(ctx, s)
  }

  /**
   * `retrieveValidSession`: the session named by the `id` cookie, provided
   * the cookie is present, the id is known and the session has an Author;
   * otherwise InvalidSessionException.
   */
  function RetrieveValidSession(ctx: Context, store: InMemorySessionStore): (r: Result<Session, Refusal>)
    reads store
    ensures r.Failure? ==> r.error == SessionInvalid
    ensures r.Success? ==> !r.value.Invalid()
    ensures r.Success? <==>
      && ctx.Cookie(SessionCookie).Some?
      && store.Retrieve(ctx.Cookie(SessionCookie).value).Some?
      && !store.Retrieve(ctx.Cookie(SessionCookie).value).value.Invalid()
    ensures r.Success? ==> store.Retrieve(ctx.Cookie(SessionCookie).value) == Some(r.value)
    ensures r.Success? && store.Valid() ==> r.value.id == ctx.Cookie(SessionCookie).value
  {
    match ctx.Cookie(SessionCookie)
    case None => Failure(SessionInvalid)
    case Some(key) =>
      match store.Retrieve(key)
      case None => Failure(SessionInvalid)
      case Some(s) => if s.Invalid() then Failure(SessionInvalid) else Success(s)
  }
}
