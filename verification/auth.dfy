/**
 * Registration and login over the Login and Author tables. BCrypt is a
 * parameter (`Hasher`): a deterministic function of password, salt bytes and
 * cost that yields 24 bytes; the stored hash is its standard Base64 text.
 */
module Auth {
  import opened Wrappers
  import opened Base64
  import opened SqlLike
  import opened Schema

  /** The BCrypt work factor, fixed in both `register` and `login`. */
  const Cost := 6
  const DigestLength := 24

  type Digest = s: seq<byte> | |s| == DigestLength witness seq(DigestLength, _ => 0)
  type Hasher = (string, seq<byte>, nat) -> Digest

  /** The password column: Base64 of BCrypt at cost 6. It is 32 characters of
      the standard alphabet, so `LIKE` against it is plain equality, and two
      hashes are equal exactly when the digests are. */
  function HashOf(password: string, salt: seq<byte>, bcrypt: Hasher): (h: string)
    ensures |h| == 32 && NoWildcards(h)
  {
    var d := bcrypt(password, salt, Cost);
    StdEncodeAlphabet(d);
    StdEncode(d)
  }

  lemma HashOfInjective(p: string, q: string, salt: seq<byte>, bcrypt: Hasher)
    ensures HashOf(p, salt, bcrypt) == HashOf(q, salt, bcrypt) <==> bcrypt(p, salt, Cost) == bcrypt(q, salt, Cost)
  {
    StdEncodeInjective(bcrypt(p, salt, Cost), bcrypt(q, salt, Cost));
  }

  /** Rows of `SELECT id, salt FROM Login WHERE username LIKE :name`, in table order. */
  function LoginsNamed(logins: seq<LoginRow>, name: string): (r: seq<LoginRow>)
    ensures forall l :: l in r <==> l in logins && l.username.Some? && Like(l.username.value, name)
  {
    if logins == [] then []
    else
      var last := logins[|logins| - 1];
      assert logins == logins[..|logins| - 1] + [last];
      LoginsNamed(logins[..|logins| - 1], name)
      + (if last.username.Some? && Like(last.username.value, name) then [last] else [])
  }

  /** Rows of `SELECT id FROM Login WHERE id = :id AND password LIKE :pwd`. */
  function LoginsWithHash(logins: seq<LoginRow>, id: int, pwd: string): (r: seq<LoginRow>)
    ensures forall l :: l in r <==> l in logins && l.id == id && Like(l.password, pwd)
  {
    if logins == [] then []
    else
      var last := logins[|logins| - 1];
      assert logins == logins[..|logins| - 1] + [last];
      LoginsWithHash(logins[..|logins| - 1], id, pwd)
      + (if last.id == id && Like(last.password, pwd) then [last] else [])
  }

  /** Rows of `SELECT id, name FROM Author WHERE id LIKE :id`; the decimal text
      of an id holds no wildcard, so the match is equality. */
  function AuthorsWithId(authors: seq<AuthorRow>, id: int): (r: seq<AuthorRow>)
    ensures forall a :: a in r <==> a in authors && a.id == id
  {
    if authors == [] then []
    else
      var last := authors[|authors| - 1];
      assert authors == authors[..|authors| - 1] + [last];
      AuthorsWithId(authors[..|authors| - 1], id) + (if last.id == id then [last] else [])
  }

  /** `login(name, password)`: look up the salt by user name, rehash at cost 6,
      match id and hash, then load the Author. A NULL name matches no row. */
  function Login(t: Db, name: Option<string>, password: Option<string>, bcrypt: Hasher)
    : (r: Result<Option<AuthorRow>, Error>)
    ensures name.None? ==> r == Success(None)
    ensures r.Success? && r.value.Some? ==> name.Some? && password.Some? && r.value.value in t.authors
  {
    var byName := if name.None? then [] else LoginsNamed(t.logins, name.value);
    match FindOne(byName)
    case Failure(e) => Failure(e)
    case Success(None) => Success(None)
    case Success(Some(row)) =>
      if password.None? then Failure(NullPointer)
      else match StdDecode(row.salt)
        case None => Failure(IllegalArgument)
        case Some(saltBytes) =>
          var pwd := HashOf(password.value, saltBytes, bcrypt);
          var matched := LoginsWithHash(t.logins, row.id, pwd);
          match FindOne(matched)
          case Failure(e) => Failure(e)
          case Success(None) => Success(None)
          case Success(Some(m)) =>
            FindOne(AuthorsWithId(t.authors, row.id))
  }

  /** Login lets in only an Author whose id carries a Login row whose user
      name matches the given name and whose stored hash is the hash of the
      given password under that row's salt. */
  lemma LoginSound(t: Db, name: Option<string>, password: Option<string>, bcrypt: Hasher)
    requires t.Valid()
    requires Login(t, name, password, bcrypt).Success? && Login(t, name, password, bcrypt).value.Some?
    ensures var a := Login(t, name, password, bcrypt).value.value;
      && name.Some? && password.Some? && a in t.authors
      && exists l :: l in t.logins && l.id == a.id
           && l.username.Some? && Like(l.username.value, name.value)
           && StdDecode(l.salt).Some?
           && l.password == HashOf(password.value, StdDecode(l.salt).value, bcrypt)
  {
    var row := FindOne(LoginsNamed(t.logins, name.value)).value.value;
    assert row in LoginsNamed(t.logins, name.value);
    var pwd := HashOf(password.value, StdDecode(row.salt).value, bcrypt);
    var m := FindOne(LoginsWithHash(t.logins, row.id, pwd)).value.value;
    assert m in LoginsWithHash(t.logins, row.id, pwd);
    LikeLiteral(m.password, pwd);
    // Login ids are distinct, so the row matched by id is the row found by name.
    var i :| 0 <= i < |t.logins| && t.logins[i] == row;
    var j :| 0 <= j < |t.logins| && t.logins[j] == m;
    assert i == j;
  }

  /** The tables after the two inserts of a successful registration: the Login
      row under the next identity, and the Author row under that same id. */
  function WithAccount(t: Db, username: Option<string>, hash: string, salt: string, pseudo: Option<string>): (t': Db)
    ensures t.Valid() ==> t'.Valid()
    ensures t.Valid() && t.Paired() ==> t'.Paired()
  {
    t.(logins := t.logins + [LoginRow(t.loginSeq, username, hash, salt)],
       authors := t.authors + [AuthorRow(t.loginSeq, pseudo)],
       loginSeq := t.loginSeq + 1)
  }

  /** The conditions under which both inserts of `register` go through. */
  predicate Registers(t: Db, username: Option<string>, pseudo: Option<string>, password: Option<string>, salt: string) {
    && password.Some? && StdDecode(salt).Some?
    && Fits(username) && |salt| <= VarcharLength && Fits(pseudo)
    && !HasAuthor(t.authors, t.loginSeq)
  }

  /**
   * `register`: one transaction. The salt comes from `generate`, outside it.
   * The Login insert draws the next identity; the Author insert reuses it. A
   * failure of either insert rolls back both rows, but the identity counter,
   * like any sequence, is not rolled back.
   */
  method Register(db: Database, username: Option<string>, pseudo: Option<string>, password: Option<string>,
                  salt: string, bcrypt: Hasher)
    returns (r: Result<AuthorRow, Error>)
    modifies db
    ensures r.Success? <==> Registers(old(db.State()), username, pseudo, password, salt)
    ensures r.Success? ==>
      && r.value == AuthorRow(old(db.loginSeq), pseudo)
      && db.State() == WithAccount(old(db.State()), username,
                                   HashOf(password.value, StdDecode(salt).value, bcrypt), salt, pseudo)
    ensures r.Failure? ==> db.State() == old(db.State()).(loginSeq := db.loginSeq)
    ensures r.Failure? ==>
      db.loginSeq == old(db.loginSeq) + (if password.Some? && StdDecode(salt).Some? then 1 else 0)
    ensures password.None? ==> r == Failure(NullPointer)
    ensures old(db.Valid()) ==> db.Valid() && r != Failure(DuplicateKey)
    ensures old(db.Valid() && db.State().Paired()) ==> db.State().Paired()
  {
    if password.None? {
      return Failure(NullPointer);
    }
    var saltBytes := StdDecode(salt);
    if saltBytes.None? {
      return Failure(IllegalArgument);
    }
    var pwd := HashOf(password.value, saltBytes.value, bcrypt);
    ghost var before := db.State();
    // INSERT INTO Login: the identity is drawn before the row is checked.
    var id := db.loginSeq;
    db.loginSeq := db.loginSeq + 1;
    if !Fits(username) || |salt| > VarcharLength {
      return Failure(ValueTooLong);
    }
    var savedLogins := db.logins;
    db.logins := db.logins + [LoginRow(id, username, pwd, salt)];
    // INSERT INTO Author(id, name) with the same id.
    if !Fits(pseudo) {
      db.logins := savedLogins;
      return Failure(ValueTooLong);
    }
    if exists a :: a in db.authors && a.id == id {
      db.logins := savedLogins;
      return Failure(DuplicateKey);
    }
    db.authors := db.authors + [AuthorRow(id, pseudo)];
    r := Success(AuthorRow(id, pseudo));
    assert db.State() == WithAccount(before, username, pwd, salt, pseudo);
  }

  lemma LoginsNamedAppend(logins: seq<LoginRow>, x: LoginRow, name: string)
    ensures LoginsNamed(logins + [x], name)
         == LoginsNamed(logins, name) + (if x.username.Some? && Like(x.username.value, name) then [x] else [])
  {
    assert (logins + [x])[..|logins|] == logins;
  }

  lemma LoginsWithHashAppend(logins: seq<LoginRow>, x: LoginRow, id: int, pwd: string)
    ensures LoginsWithHash(logins + [x], id, pwd)
         == LoginsWithHash(logins, id, pwd) + (if x.id == id && Like(x.password, pwd) then [x] else [])
  {
    assert (logins + [x])[..|logins|] == logins;
  }

  lemma AuthorsWithIdAppend(authors: seq<AuthorRow>, x: AuthorRow, id: int)
    ensures AuthorsWithId(authors + [x], id) == AuthorsWithId(authors, id) + (if x.id == id then [x] else [])
  {
    assert (authors + [x])[..|authors|] == authors;
  }

  /**
   * Register/login round trip. After a registration of a wildcard-free user
   * name that no Login row had, logging in with that name succeeds with the
   * registered Author (same id, same name) exactly when BCrypt gives the same
   * digest for the submitted password as for the registered one; otherwise it
   * returns empty.
   */
  lemma {:induction false} LoginAfterRegister(t: Db, u: string, pseudo: Option<string>, pw: string,
                                               salt: string, saltBytes: seq<byte>, attempt: string, bcrypt: Hasher)
    requires t.Valid()
    requires NoWildcards(u)
    requires forall l :: l in t.logins ==> l.username != Some(u)
    requires StdDecode(salt) == Some(saltBytes)
    ensures Login(WithAccount(t, Some(u), HashOf(pw, saltBytes, bcrypt), salt, pseudo), Some(u), Some(attempt), bcrypt)
         == if bcrypt(attempt, saltBytes, Cost) == bcrypt(pw, saltBytes, Cost)
            then Success(Some(AuthorRow(t.loginSeq, pseudo)))
            else Success(None)
  {
    var id := t.loginSeq;
    var hash := HashOf(pw, saltBytes, bcrypt);
    var row := LoginRow(id, Some(u), hash, salt);
    var t' := WithAccount(t, Some(u), hash, salt, pseudo);
    // The name finds only the new row.
    LoginsNamedAppend(t.logins, row, u);
    forall l | l in t.logins ensures !(l.username.Some? && Like(l.username.value, u)) {
      if l.username.Some? { LikeLiteral(l.username.value, u); }
    }
    NoMemberEmpty(LoginsNamed(t.logins, u));
    LikeLiteral(u, u);
    assert LoginsNamed(t'.logins, u) == [row];
    // The hash check sees only the new row, and succeeds when the digests agree.
    var pwd := HashOf(attempt, saltBytes, bcrypt);
    LoginsWithHashAppend(t.logins, row, id, pwd);
    NoMemberEmpty(LoginsWithHash(t.logins, id, pwd));
    LikeLiteral(hash, pwd);
    HashOfInjective(pw, attempt, saltBytes, bcrypt);
    // The Author with that id is the one just inserted.
    AuthorsWithIdAppend(t.authors, AuthorRow(id, pseudo), id);
    NoMemberEmpty(AuthorsWithId(t.authors, id));
  }

  /** Login with a name no row matches is empty, whatever the password. */
  lemma LoginUnknownUser(t: Db, name: string, password: Option<string>, bcrypt: Hasher)
    requires forall l :: l in t.logins ==> !(l.username.Some? && Like(l.username.value, name))
    ensures Login(t, Some(name), password, bcrypt) == Success(None)
  {
    NoMemberEmpty(LoginsNamed(t.logins, name));
  }

  /** H2's default escape makes a name holding `\` a pattern that need not
      match itself: `a\b` as a pattern asks for the two characters `ab`. */
  lemma EscapedNameMismatch()
    ensures !Like("a\\b", "a\\b")
  {
  }

  /** A name that does not LIKE-match itself finds no row of its own: after
      registering it, logging in under the name as registered finds nothing
      unless some other row matches it. */
  lemma LoginSelfMismatch(t: Db, u: string, hash: string, salt: string, pseudo: Option<string>,
                          password: Option<string>, bcrypt: Hasher)
    requires !Like(u, u)
    requires forall l :: l in t.logins ==> !(l.username.Some? && Like(l.username.value, u))
    ensures Login(WithAccount(t, Some(u), hash, salt, pseudo), Some(u), password, bcrypt) == Success(None)
  {
    var t' := WithAccount(t, Some(u), hash, salt, pseudo);
    assert forall l :: l in t'.logins ==> l in t.logins || l == LoginRow(t.loginSeq, Some(u), hash, salt);
    LoginUnknownUser(t', u, password, bcrypt);
  }

  /**
   * Nothing makes user names unique: registering the same wildcard-free name
   * twice succeeds both times, and from then on every login with that name
   * fails with `findOne`'s multiple-rows exception.
   */
  lemma {:induction false} LoginAfterDuplicateRegister(t: Db, u: string, h1: string, s1: string, p1: Option<string>,
                                                        h2: string, s2: string, p2: Option<string>,
                                                        password: Option<string>, bcrypt: Hasher)
    requires NoWildcards(u)
    ensures Login(WithAccount(WithAccount(t, Some(u), h1, s1, p1), Some(u), h2, s2, p2), Some(u), password, bcrypt)
         == Failure(MultipleRows)
  {
    var t1 := WithAccount(t, Some(u), h1, s1, p1);
    var t2 := WithAccount(t1, Some(u), h2, s2, p2);
    LikeLiteral(u, u);
    LoginsNamedAppend(t.logins, LoginRow(t.loginSeq, Some(u), h1, s1), u);
    LoginsNamedAppend(t1.logins, LoginRow(t1.loginSeq, Some(u), h2, s2), u);
    assert |LoginsNamed(t2.logins, u)| >= 2;
  }
}
