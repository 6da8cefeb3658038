/**
 * Messages, follow edges and the two read queries over them: `autocomplete`
 * on author names and the merged `timeline`.
 */
module Feed {
  import opened Wrappers
  import opened SqlLike
  import opened Schema

  const AutocompleteMinLength := 3
  const AutocompleteLimit := 10
  const TimelineLimit := 100

  /** `save(Message)`: insert one row under the next Message identity. A body
      wider than varchar(140) makes the insert fail after the identity is drawn. */
  method SaveMessage(db: Database, idAuthor: int, message: Option<string>, time: int) returns (r: Result<int, Error>)
    modifies db
    ensures db.messageSeq == old(db.messageSeq) + 1
    ensures r.Success? <==> Fits(message)
    ensures r.Success? ==>
      r.value == old(db.messageSeq) && db.messages == old(db.messages) + [MessageRow(r.value, idAuthor, message, time)]
    ensures r.Failure? ==> r.error == ValueTooLong && db.messages == old(db.messages)
    ensures db.State() == old(db.State()).(messages := db.messages, messageSeq := db.messageSeq)
    ensures old(db.Valid()) ==> db.Valid()
    ensures old(db.State().Paired()) ==> db.State().Paired()
  {
    var id := db.messageSeq;
    db.messageSeq := db.messageSeq + 1;
    if !Fits(message) {
      return Failure(ValueTooLong);
    }
    db.messages := db.messages + [MessageRow(id, idAuthor, message, time)];
    return Success(id);
  }

  /** `save(Follow)`: append the edge; nothing is checked, so repeated edges
      and edges to unknown authors are stored as given. */
  method SaveFollow(db: Database, follow: FollowRow)
    modifies db
    ensures db.State() == old(db.State()).(follows := old(db.follows) + [follow])
    ensures old(db.Valid()) ==> db.Valid()
    ensures old(db.State().Paired()) ==> db.State().Paired()
  {
    db.follows := db.follows + [follow];
  }

  /** SQL `TOP n` over rows in a given order. */
  function Take<T>(s: seq<T>, n: nat): (r: seq<T>)
    ensures |r| == (if |s| <= n then |s| else n) && r <= s
    ensures |s| <= n ==> r == s
    ensures forall x :: x in r ==> x in s
  {
    if |s| <= n then s else s[..n]
  }

  // ---------------------------------------------------------------- autocomplete

  /** `name LIKE :motif || '%'`; a NULL name never matches. */
  predicate NameLike(a: AuthorRow, motif: string) {
    a.name.Some? && Like(a.name.value, motif + "%")
  }

  /** The Author rows the autocomplete query selects, in table order. */
  function Matches(authors: seq<AuthorRow>, motif: string): (r: seq<AuthorRow>)
    ensures forall a :: a in r <==> a in authors && NameLike(a, motif)
  {
    if authors == [] then []
    else
      var last := authors[|authors| - 1];
      assert authors == authors[..|authors| - 1] + [last];
      Matches(authors[..|authors| - 1], motif) + (if NameLike(last, motif) then [last] else [])
  }

  /**
   * `autocomplete(motif)`: nothing, without a query, for a motif shorter than
   * three characters; otherwise `SELECT TOP 10` of the matching authors. With
   * no ORDER BY the engine picks which ten; the model keeps the first ten in
   * table order.
   */
  function Autocomplete(t: Db, motif: string): (r: seq<AuthorRow>)
    ensures |motif| < AutocompleteMinLength ==> r == []
    ensures |r| <= AutocompleteLimit
    ensures forall a :: a in r ==> a in t.authors && NameLike(a, motif)
    ensures |motif| >= AutocompleteMinLength && |Matches(t.authors, motif)| <= AutocompleteLimit ==>
      forall a :: a in t.authors && NameLike(a, motif) ==> a in r
    ensures |motif| >= AutocompleteMinLength && |Matches(t.authors, motif)| > AutocompleteLimit ==>
      |r| == AutocompleteLimit
  {
    if |motif| < AutocompleteMinLength then []
    else Take(Matches(t.authors, motif), AutocompleteLimit)
  }

  /** For a motif free of LIKE wildcards, every suggested name starts with it. */
  lemma AutocompletePrefix(t: Db, motif: string)
    requires NoWildcards(motif)
    ensures forall a :: a in Autocomplete(t, motif) ==> a.name.Some? && motif <= a.name.value
  {
    forall a | a in Autocomplete(t, motif) ensures a.name.Some? && motif <= a.name.value {
      LikePrefix(a.name.value, motif);
    }
  }

  // ---------------------------------------------------------------- timeline

  /** One row of the timeline: author name, message body, time. */
  datatype TimeMessage = TimeMessage(name: Option<string>, message: Option<string>, time: int)

  function RowOf(a: AuthorRow, m: MessageRow): TimeMessage {
    TimeMessage(a.name, m.message, m.time)
  }

  ghost predicate Follows(follows: seq<FollowRow>, author: int, follower: int) {
    exists f :: f in follows && f.idAuthor == author && f.idFollower == follower
  }

  /** How many Follow rows join `author` to `follower`. */
  function FollowCount(follows: seq<FollowRow>, author: int, follower: int): (n: nat)
    ensures n > 0 <==> Follows(follows, author, follower)
  {
    if follows == [] then 0
    else
      assert follows == [follows[0]] + follows[1..];
      (if follows[0].idAuthor == author && follows[0].idFollower == follower then 1 else 0)
      + FollowCount(follows[1..], author, follower)
  }

  function Repeat<T(!new)>(x: T, n: nat): (r: seq<T>)
    ensures |r| == n
    ensures forall y :: y in r <==> n > 0 && y == x
  {
    if n == 0 then [] else [x] + Repeat(x, n - 1)
  }

  /** Branch (a) for one message: `inner join author on author.id =
      message.idauthor inner join follow on follow.idauthor = author.id where
      follow.idfollower = :id`, one row per matching Follow row. */
  function JoinFollowed(m: MessageRow, authors: seq<AuthorRow>, follows: seq<FollowRow>, id: int): (r: seq<TimeMessage>)
    ensures forall x :: x in r ==> x.message == m.message && x.time == m.time
    ensures (forall f :: f in follows ==> f.idFollower != id) ==> r == []
  {
    if authors == [] then []
    else
      (if authors[0].id == m.idAuthor then Repeat(RowOf(authors[0], m), FollowCount(follows, authors[0].id, id)) else [])
      + JoinFollowed(m, authors[1..], follows, id)
  }

  /** Branch (a): every row of the join, messages in table order. */
  function FollowedRows(msgs: seq<MessageRow>, authors: seq<AuthorRow>, follows: seq<FollowRow>, id: int): (r: seq<TimeMessage>)
    ensures (forall f :: f in follows ==> f.idFollower != id) ==> r == []
  {
    if msgs == [] then []
    else JoinFollowed(msgs[0], authors, follows, id) + FollowedRows(msgs[1..], authors, follows, id)
  }

  /** Branch (b) for one message: `inner join author on author.id =
      message.idauthor where author.id = :id`. */
  function JoinOwn(m: MessageRow, authors: seq<AuthorRow>, id: int): (r: seq<TimeMessage>)
    ensures forall x :: x in r ==> x.message == m.message && x.time == m.time
    ensures m.idAuthor != id ==> r == []
  {
    if authors == [] then []
    else
      (if authors[0].id == m.idAuthor && authors[0].id == id then [RowOf(authors[0], m)] else [])
      + JoinOwn(m, authors[1..], id)
  }

  /** Branch (b): every row of the join, messages in table order. */
  function OwnRows(msgs: seq<MessageRow>, authors: seq<AuthorRow>, id: int): (r: seq<TimeMessage>)
    ensures (forall m :: m in msgs ==> m.idAuthor != id) ==> r == []
  {
    if msgs == [] then []
    else JoinOwn(msgs[0], authors, id) + OwnRows(msgs[1..], authors, id)
  }

  /** The rows `timeline(id)` may show: a message joined to its author, where
      that author is `id` or is followed by `id`. */
  ghost predicate Qualifies(t: Db, id: int, x: TimeMessage) {
    exists m, a :: m in t.messages && a in t.authors && a.id == m.idAuthor
      && (Follows(t.follows, a.id, id) || a.id == id) && x == RowOf(a, m)
  }

  lemma {:induction false} JoinFollowedIn(m: MessageRow, authors: seq<AuthorRow>, follows: seq<FollowRow>, id: int, x: TimeMessage)
    ensures x in JoinFollowed(m, authors, follows, id) <==>
      exists a :: a in authors && a.id == m.idAuthor && Follows(follows, a.id, id) && x == RowOf(a, m)
    decreases |authors|
  {
    if authors != [] {
      JoinFollowedIn(m, authors[1..], follows, id, x);
      assert forall a :: a in authors <==> a == authors[0] || a in authors[1..];
    }
  }

  lemma {:induction false} FollowedRowsIn(msgs: seq<MessageRow>, authors: seq<AuthorRow>, follows: seq<FollowRow>, id: int, x: TimeMessage)
    ensures x in FollowedRows(msgs, authors, follows, id) <==>
      exists m, a :: m in msgs && a in authors && a.id == m.idAuthor && Follows(follows, a.id, id) && x == RowOf(a, m)
    decreases |msgs|
  {
    if msgs != [] {
      FollowedRowsIn(msgs[1..], authors, follows, id, x);
      JoinFollowedIn(msgs[0], authors, follows, id, x);
      assert forall m :: m in msgs <==> m == msgs[0] || m in msgs[1..];
    }
  }

  lemma {:induction false} JoinOwnIn(m: MessageRow, authors: seq<AuthorRow>, id: int, x: TimeMessage)
    ensures x in JoinOwn(m, authors, id) <==>
      exists a :: a in authors && a.id == m.idAuthor && a.id == id && x == RowOf(a, m)
    decreases |authors|
  {
    if authors != [] {
      JoinOwnIn(m, authors[1..], id, x);
      assert forall a :: a in authors <==> a == authors[0] || a in authors[1..];
    }
  }

  lemma {:induction false} OwnRowsIn(msgs: seq<MessageRow>, authors: seq<AuthorRow>, id: int, x: TimeMessage)
    ensures x in OwnRows(msgs, authors, id) <==>
      exists m, a :: m in msgs && a in authors && a.id == m.idAuthor && a.id == id && x == RowOf(a, m)
    decreases |msgs|
  {
    if msgs != [] {
      OwnRowsIn(msgs[1..], authors, id, x);
      JoinOwnIn(msgs[0], authors, id, x);
      assert forall m :: m in msgs <==> m == msgs[0] || m in msgs[1..];
    }
  }

  /** The two branches together produce exactly the qualifying rows. */
  lemma QualifiesIffInBranches(t: Db, id: int, x: TimeMessage)
    ensures Qualifies(t, id, x) <==>
      x in FollowedRows(t.messages, t.authors, t.follows, id) || x in OwnRows(t.messages, t.authors, id)
  {
    FollowedRowsIn(t.messages, t.authors, t.follows, id, x);
    OwnRowsIn(t.messages, t.authors, id, x);
  }

  lemma BranchesQualify(t: Db, id: int)
    ensures forall x :: x in FollowedRows(t.messages, t.authors, t.follows, id) ==> Qualifies(t, id, x)
    ensures forall x :: x in OwnRows(t.messages, t.authors, id) ==> Qualifies(t, id, x)
  {
    forall x ensures x in FollowedRows(t.messages, t.authors, t.follows, id) || x in OwnRows(t.messages, t.authors, id)
                     ==> Qualifies(t, id, x) {
      QualifiesIffInBranches(t, id, x);
    }
  }

  predicate SortedDesc(s: seq<TimeMessage>) {
    forall i, j :: 0 <= i < j < |s| ==> s[i].time >= s[j].time
  }

  predicate NoDuplicates<T(==)>(s: seq<T>) {
    forall i, j :: 0 <= i < j < |s| ==> s[i] != s[j]
  }

  /** SQL `UNION` (without ALL): each distinct row once, first occurrences kept. */
  function Distinct<T(==,!new)>(s: seq<T>): (r: seq<T>)
    ensures forall x :: x in r <==> x in s
    ensures NoDuplicates(r)
    ensures |r| <= |s|
  {
    if s == [] then []
    else
      var init, last := s[..|s| - 1], s[|s| - 1];
      assert s == init + [last];
      var rest := Distinct(init);
      if last in rest then rest else rest + [last]
  }

  lemma SortedHeadIsNewest(s: seq<TimeMessage>)
    requires SortedDesc(s) && s != []
    ensures forall y :: y in s ==> y.time <= s[0].time
  {
    forall y | y in s ensures y.time <= s[0].time {
      var m :| 0 <= m < |s| && s[m] == y;
    }
  }

  /** One insertion step of the sort: `x` goes before the first row older than it. */
  function InsertByTime(x: TimeMessage, s: seq<TimeMessage>): (r: seq<TimeMessage>)
    ensures |r| == |s| + 1
    ensures forall y :: y in r <==> y == x || y in s
    ensures multiset(r) == multiset(s) + multiset{x}
  {
    if s == [] || x.time >= s[0].time then [x] + s
    else
      assert s == [s[0]] + s[1..];
      [s[0]] + InsertByTime(x, s[1..])
  }

  lemma {:induction false} InsertKeepsSorted(x: TimeMessage, s: seq<TimeMessage>)
    requires SortedDesc(s)
    ensures SortedDesc(InsertByTime(x, s))
  {
    if s != [] && x.time < s[0].time {
      SortedHeadIsNewest(s);
      InsertKeepsSorted(x, s[1..]);
      var rest := InsertByTime(x, s[1..]);
      assert forall j :: 0 <= j < |rest| ==> rest[j] in rest;
    }
  }

  lemma {:induction false} InsertKeepsDistinct(x: TimeMessage, s: seq<TimeMessage>)
    ensures NoDuplicates(s) && x !in s ==> NoDuplicates(InsertByTime(x, s))
  {
    if NoDuplicates(s) && x !in s && s != [] && x.time < s[0].time {
      assert s == [s[0]] + s[1..];
      InsertKeepsDistinct(x, s[1..]);
      var rest := InsertByTime(x, s[1..]);
      assert s[0] !in rest;
      assert forall j :: 0 <= j < |rest| ==> rest[j] in rest;
    }
  }

  /** `order by time desc`: newest first; rows with equal times keep their order. */
  function SortByTimeDesc(s: seq<TimeMessage>): (r: seq<TimeMessage>)
    ensures SortedDesc(r)
    ensures |r| == |s|
    ensures forall y :: y in r <==> y in s
    ensures multiset(r) == multiset(s)
    ensures NoDuplicates(s) ==> NoDuplicates(r)
  {
    if s == [] then []
    else
      assert s == [s[0]] + s[1..];
      var rest := SortByTimeDesc(s[1..]);
      InsertKeepsSorted(s[0], rest);
      assert NoDuplicates(s) ==> s[0] !in s[1..] && NoDuplicates(s[1..]);
      InsertKeepsDistinct(s[0], rest);
      InsertByTime(s[0], rest)
  }

  /** `TOP n` of a newest-first list keeps the newest rows: a row it drops is
      no newer than any row it keeps, and it only drops rows when it is full. */
  lemma TakeKeepsLatest(s: seq<TimeMessage>, n: nat)
    requires SortedDesc(s)
    ensures forall x :: x in s && x !in Take(s, n) ==>
      |Take(s, n)| == n && forall y :: y in Take(s, n) ==> x.time <= y.time
  {
    forall x | x in s && x !in Take(s, n)
      ensures |Take(s, n)| == n && forall y :: y in Take(s, n) ==> x.time <= y.time
    {
      var k :| 0 <= k < |s| && s[k] == x;
      var tk := Take(s, n);
      assert forall i :: 0 <= i < |tk| ==> tk[i] == s[i] && tk[i] in tk;
      assert k >= |tk|;
      forall y | y in Take(s, n) ensures x.time <= y.time {
        var i :| 0 <= i < n && s[i] == y;
      }
    }
  }

  /**
   * The outer query `select top 100 ... from merged order by time desc` over
   * the union of what the two branches returned (`a` and `b`, whichever rows
   * their own TOP 100 kept). The result holds at most 100 distinct rows, newest
   * first, all from the branches; a branch row left out is no newer than any
   * row shown; and when the union has at most 100 rows nothing is left out.
   */
  function MergeTop(a: seq<TimeMessage>, b: seq<TimeMessage>): (r: seq<TimeMessage>)
    ensures |r| <= TimelineLimit
    ensures SortedDesc(r) && NoDuplicates(r)
    ensures forall x :: x in r ==> x in a || x in b
    ensures forall x :: (x in a || x in b) && x !in r ==>
      |r| == TimelineLimit && forall y :: y in r ==> x.time <= y.time
    ensures |Distinct(a + b)| <= TimelineLimit ==> forall x :: x in a || x in b ==> x in r
  {
    var all := SortByTimeDesc(Distinct(a + b));
    TakeKeepsLatest(all, TimelineLimit);
    Take(all, TimelineLimit)
  }

  /**
   * `timeline(id)`. Each branch is cut by its own `top 100`, which has no
   * ORDER BY of its own (the `order by time desc` of the CTE belongs to the
   * union), so which rows a branch keeps is up to the engine; the model keeps
   * the first 100 in join order, and `MergeTop` states what holds for any
   * choice.
   */
  function Timeline(t: Db, id: int): (r: seq<TimeMessage>)
    ensures |r| <= TimelineLimit
    ensures SortedDesc(r) && NoDuplicates(r)
    ensures forall x :: x in r ==> Qualifies(t, id, x)
  {
    BranchesQualify(t, id);
    MergeTop(Take(FollowedRows(t.messages, t.authors, t.follows, id), TimelineLimit),
             Take(OwnRows(t.messages, t.authors, id), TimelineLimit))
  }

  /** When each branch has at most 100 rows and their union at most 100
      distinct rows, every qualifying row is on the timeline. */
  lemma TimelineComplete(t: Db, id: int)
    requires |FollowedRows(t.messages, t.authors, t.follows, id)| <= TimelineLimit
    requires |OwnRows(t.messages, t.authors, id)| <= TimelineLimit
    requires |Distinct(FollowedRows(t.messages, t.authors, t.follows, id) + OwnRows(t.messages, t.authors, id))| <= TimelineLimit
    ensures forall x :: Qualifies(t, id, x) ==> x in Timeline(t, id)
  {
    forall x | Qualifies(t, id, x) ensures x in Timeline(t, id) {
      QualifiesIffInBranches(t, id, x);
    }
  }
}
