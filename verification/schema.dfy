/**
 * The relational state the service reaches through Jdbi: the four tables
 * created by `init` and the identity counters of the two auto-increment
 * keys it draws from. SQL NULL is `None`.
 */
module Schema {
  import opened Wrappers

  /** Declared width of every varchar column. */
  const VarcharLength := 140

  datatype AuthorRow = AuthorRow(id: int, name: Option<string>)
  datatype LoginRow = LoginRow(id: int, username: Option<string>, password: string, salt: string)
  datatype MessageRow = MessageRow(id: int, idAuthor: int, message: Option<string>, time: int)
  datatype FollowRow = FollowRow(idAuthor: int, idFollower: int)

  /** Exceptions that no handler maps to a status of its own. */
  datatype Error =
    | NullPointer       // a missing form value or cookie dereferenced
    | IllegalArgument   // a salt the Base64 decoder refuses
    | ValueTooLong      // a string wider than its varchar column
    | DuplicateKey      // a primary key inserted twice
    | MultipleRows      // `findOne` on a query that returned several rows

  /** A snapshot of the tables. `loginSeq` and `messageSeq` are the next values
      the auto-increment keys of Login and Message will hand out. */
  datatype Db = Db(
    logins: seq<LoginRow>,
    authors: seq<AuthorRow>,
    messages: seq<MessageRow>,
    follows: seq<FollowRow>,
    loginSeq: int,
    messageSeq: int)
  {
    /** Keys handed out so far lie below the counters, and Login ids, the
        table's primary key, are distinct. */
    ghost predicate Valid() {
      && 1 <= loginSeq
      && 1 <= messageSeq
      && (forall l :: l in logins ==> 1 <= l.id < loginSeq)
      && (forall i, j :: 0 <= i < j < |logins| ==> logins[i].id != logins[j].id)
      && (forall a :: a in authors ==> 1 <= a.id < loginSeq)
      && (forall m :: m in messages ==> 1 <= m.id < messageSeq)
    }

    /** One credential, one profile: every Author row carries the id of a
        Login row and every Login row has its Author row, and Author ids, the
        table's primary key, are distinct. */
    ghost predicate Paired() {
      && (forall a :: a in authors ==> HasLogin(logins, a.id))
      && (forall l :: l in logins ==> HasAuthor(authors, l.id))
      && (forall i, j :: 0 <= i < j < |authors| ==> authors[i].id != authors[j].id)
    }
  }

  predicate HasLogin(logins: seq<LoginRow>, id: int) {
    exists l :: l in logins && l.id == id
  }

  predicate HasAuthor(authors: seq<AuthorRow>, id: int) {
    exists a :: a in authors && a.id == id
  }

  /** A value fits a varchar(140) column (NULL always does). */
  predicate Fits(v: Option<string>) {
    v.None? || |v.value| <= VarcharLength
  }

  /** Jdbi's `findOne`: empty for no row, the row for one, an exception for more. */
  function FindOne<T>(rows: seq<T>): (r: Result<Option<T>, Error>)
    ensures r == Success(None) <==> |rows| == 0
    ensures r.Failure? <==> |rows| > 1
    ensures r.Success? && r.value.Some? ==> rows == [r.value.value]
  {
    if |rows| == 0 then Success(None)
    else if |rows| == 1 then Success(Some(rows[0]))
    else Failure(MultipleRows)
  }

  /** A sequence with no member is empty. */
  lemma NoMemberEmpty<T>(s: seq<T>)
    ensures (forall x :: x !in s) ==> s == []
  {
    if s != [] {
      assert s[0] in s;
    }
  }

  /** The database behind the Jdbi handle, updated in place by inserts. */
  class Database {
    var logins: seq<LoginRow>
    var authors: seq<AuthorRow>
    var messages: seq<MessageRow>
    var follows: seq<FollowRow>
    var loginSeq: int
    var messageSeq: int

    function State(): Db
      reads this
    {
      Db(logins, authors, messages, follows, loginSeq, messageSeq)
    }

    ghost predicate Valid()
      reads this
    {
      State().Valid()
    }

    /** Empty tables, as `init` creates them; identities start at 1. */
    constructor ()
      ensures Valid() && State().Paired()
      ensures State() == Db([], [], [], [], 1, 1)
    {
      logins, authors, messages, follows := [], [], [], [];
      loginSeq, messageSeq := 1, 1;
    }
  }
}
