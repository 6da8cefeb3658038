# mytwitt server core, modelled in Dafny

The server `MyTwittAppServer` is a small microblogging service on Javalin, H2 and Jdbi. Visitors
register and log in, post messages of up to 140 characters, follow other
authors, look authors up by name prefix, and read a merged timeline. Sessions
live in an in-memory store and are keyed by a random cookie `id`. Every page
rendered by `GET /` issues a random anti-CSRF token. State-changing requests
must send that token back, in the `csrf` form field or in the
`anti-csrf-token` header.

The model covers the following:

- `wrappers.dfy`: `Option` and `Result`.
- `base64.dfy` (`Base64`): the two JDK codecs the server uses, written out concretely.
  - The URL-safe unpadded encoder makes tokens.
  - The basic encoder stores password hashes.
  - The basic decoder reads salts and filters tokens. It accepts a final unit of 2 or 3 characters with or without `=`, and tolerates non-zero trailing bits.
  - The model proves:
    - the decoder inverts the encoder;
    - the encoder is injective;
    - any character other than the 64 alphabet characters and `=` makes decoding fail;
    - the URL-safe encoding of a byte string is accepted by the basic decoder exactly when it holds no `-` and no `_`, and it then decodes to the same bytes.
- `sql_like.dfy` (`SqlLike`): H2's `LIKE`, with `%`, `_` and the default escape `\`. A pattern free of wildcards matches only itself, and `p%` matches exactly the strings that start with `p`.
- `tokens.dfy` (`Tokens`): `SecureRandomString`, covering `generateBytes`, the retry loop of `generate` and `generateSessionId`.
- `schema.dfy` (`Schema`): the four tables created by `init`, the exceptions no handler maps to a status, Jdbi's `findOne`, and the `Database` class that the inserts update in place. Its invariant `Paired` says that each account is one Login row and one Author row sharing an id.
- `auth.dfy` (`Auth`): `register` and `login`. BCrypt is a function parameter.
- `feed.dfy` (`Feed`): `save(Message)`, `save(Follow)`, `autocomplete` and `timeline`.
- `sessions.dfy` (`Sessions`): `Session`, the `InMemorySessionStore` class, `checkCsrf` in both overloads, `checkCsrfHeader` and `retrieveValidSession`.
- `routes.dfy` (`Routes`): the decision logic of the eight route handlers and the two exception handlers. One method per route returns the response outcome, its status and its effect on the session cookie. The store and the database are updated in place.

The following are parameters, because they come from outside the code:

- the random tokens: the successive texts `generateBytes` returns, or the session id and CSRF token a handler draws;
- the clock (`Instant.now()` in `/message`);
- BCrypt;
- Javalin's integer parsing of the `/follow/:id` path parameter.

Exceptions that Javalin turns into a bare 500 are `Crash(e)`. These are a missing
cookie dereferenced in `checkCsrf`, a missing `password` form field
dereferenced in `register` or `login`, the SQL errors and the decoder's
`IllegalArgumentException`. They are kept apart from the two exceptions the
server maps itself: `CsrfException` gives 401 and `InvalidSessionException`
gives 403.

Behaviours of the code worth knowing:

- Nothing makes user names unique. Two registrations under one name free of `%`, `_` and `\` both succeed, and every later login with that name then fails with `findOne`'s multiple-rows exception (`Auth.LoginAfterDuplicateRegister`).
- The login name is used as a `LIKE` pattern, and H2's default escape is `\`. A name such as `a\b` therefore does not match itself, since as a pattern it asks for `ab` (`Auth.EscapedNameMismatch`). Logging in under such a name as registered finds no row of its own (`Auth.LoginSelfMismatch`). The account is reachable only under a spelling that matches it, such as `a\\b` or `a_b`.
- The timeline's `UNION` removes duplicate rows.
- Each branch's `TOP 100` has no ordering of its own. The 100 rows a busy branch keeps are the engine's choice, not necessarily the newest.
- The BCrypt cost is the literal 6 in both `register` and `login`.
- `/message` and `/follow` check the session before the token, so a visitor without a session gets 403, not 401.
- `checkCsrf` with no cookie at all fails with a null dereference (500), not a CSRF rejection.
- The session `/login` creates carries no CSRF token. It passes no CSRF check until `GET /` issues one (`Routes.PostLogin`).
- `/logout` only removes the cookie. The session stays in the store.

## Model

All source paths are relative to the repository root.

| member | source | states |
|---|---|---|
| Base64.Sextets | src/main/java/me/egaetan/mytwitt/MyTwittAppServer.java:526 | the 6-bit groups of n bytes number 4⌊n/3⌋, plus 2 or 3 for a trailing 1 or 2 bytes, as RFC 4648 section 4 splits input |
| Base64.UrlChar | src/main/java/me/egaetan/mytwitt/MyTwittAppServer.java:526 | the URL-safe alphabet (RFC 4648 section 5) maps values below 62 to letters and digits, 62 to `-` and 63 to `_` |
| Base64.StdChar | src/main/java/me/egaetan/mytwitt/MyTwittAppServer.java:129 | the basic alphabet agrees with the URL-safe one on values below 62 |
| Base64.StdValue | src/main/java/me/egaetan/mytwitt/MyTwittAppServer.java:128 | the decoder's character table inverts the basic alphabet |
| Base64.UrlEncode | src/main/java/me/egaetan/mytwitt/MyTwittAppServer.java:546 | the unpadded URL-safe text of n bytes has EncodedLength(n) characters |
| Base64.UrlChars | src/main/java/me/egaetan/mytwitt/MyTwittAppServer.java:546 | each group becomes the URL-safe character at the same position |
| Base64.StdChars | src/main/java/me/egaetan/mytwitt/MyTwittAppServer.java:129 | each group becomes the basic character at the same position |
| Base64.StdEncode | src/main/java/me/egaetan/mytwitt/MyTwittAppServer.java:129 | the padded basic text has a length that is a multiple of four, and exactly 4n/3 when n is a multiple of 3 |
| Base64.StdDecode | src/main/java/me/egaetan/mytwitt/MyTwittAppServer.java:128 | the JDK basic decoder, unit by unit: a text with one character left over after its full units is refused, and n characters decode to at most 3n/4 bytes |
| Base64.DecodeFinal | src/main/java/me/egaetan/mytwitt/MyTwittAppServer.java:128 | the last unit of 2 or 3 characters, or 4 with `=` padding, gives one byte for two significant characters and two bytes for three |
| Base64.UnitRoundTrip | src/main/java/me/egaetan/mytwitt/MyTwittAppServer.java:128-129 | decoding the four groups of three bytes gives those three bytes back |
| Base64.StdValueOfChar | src/main/java/me/egaetan/mytwitt/MyTwittAppServer.java:128-129 | the decoder reads each alphabet character back as its value |
| Base64.DecodeFirstUnit | src/main/java/me/egaetan/mytwitt/MyTwittAppServer.java:128 | a complete first unit of four alphabet characters decodes on its own, followed by the decoding of the rest |
| Base64.StdTextStep | src/main/java/me/egaetan/mytwitt/MyTwittAppServer.java:129 | the text of three or more bytes starts with the unit of the first three bytes, and continues with the text of the rest |
| Base64.OneByteRoundTrip | src/main/java/me/egaetan/mytwitt/MyTwittAppServer.java:128-129 | one byte, padded or not, decodes back to itself |
| Base64.TwoBytesRoundTrip | src/main/java/me/egaetan/mytwitt/MyTwittAppServer.java:128-129 | two bytes, padded or not, decode back to themselves |
| Base64.UnitThenRest | src/main/java/me/egaetan/mytwitt/MyTwittAppServer.java:128 | a first unit encoding three bytes, followed by text that decodes to the rest, decodes to the whole |
| Base64.StdRoundTrip | src/main/java/me/egaetan/mytwitt/MyTwittAppServer.java:128-129 | the basic decoder inverts the basic encoding of any byte string, padded or not (induction over units) |
| Base64.StdEncodeRoundTrip | src/main/java/me/egaetan/mytwitt/MyTwittAppServer.java:128-129 | decode(encode(s)) == s for the padded encoder used for hashes |
| Base64.StdEncodeInjective | src/main/java/me/egaetan/mytwitt/MyTwittAppServer.java:129 | two byte strings with the same encoding are equal |
| Base64.StdEncodeAlphabet | src/main/java/me/egaetan/mytwitt/MyTwittAppServer.java:129 | the encoding holds only alphabet characters and `=` |
| Base64.StdDecodeRejects | src/main/java/me/egaetan/mytwitt/MyTwittAppServer.java:536-538 | any character outside the basic alphabet and `=` makes decoding throw |
| Base64.UrlEncodingStdDecodes | src/main/java/me/egaetan/mytwitt/MyTwittAppServer.java:534-537 | a URL-safe encoding passes the basic decoder iff it holds no `-` or `_`, and then decodes to the original bytes |
| SqlLike.LikeLiteral | src/main/java/me/egaetan/mytwitt/MyTwittAppServer.java:164 | a pattern without `%`, `_` or `\` matches exactly the equal string |
| SqlLike.LikeAnything | src/main/java/me/egaetan/mytwitt/MyTwittAppServer.java:210 | `%` matches every string |
| SqlLike.LikePrefix | src/main/java/me/egaetan/mytwitt/MyTwittAppServer.java:210 | `p%` with a wildcard-free p matches exactly the strings starting with p |
| SqlLike.Like | src/main/java/me/egaetan/mytwitt/MyTwittAppServer.java:164 | `%`, `_` and the `\` escape: without `%` a match is never longer than the pattern, and exactly as long when there is no escape either |
| Tokens.GenerateBytes | src/main/java/me/egaetan/mytwitt/MyTwittAppServer.java:543-547 | 16 random bytes give a 22-character token |
| Tokens.GenerateBytesIsUrlText | src/main/java/me/egaetan/mytwitt/MyTwittAppServer.java:543-547 | every text `generateBytes` can return is 22 URL-safe characters |
| Tokens.AcceptedUrlText | src/main/java/me/egaetan/mytwitt/MyTwittAppServer.java:536-537 | a 22-character URL-safe text that the basic decoder accepts holds only letters and digits |
| Tokens.AcceptedCandidate | src/main/java/me/egaetan/mytwitt/MyTwittAppServer.java:534-537 | a drawn block's text is accepted iff it holds no `-` or `_`, and an accepted text decodes back to that block |
| Tokens.Generate | src/main/java/me/egaetan/mytwitt/MyTwittAppServer.java:532-542 | the loop returns the first accepted draw: it is 22 letters and digits, and every earlier draw was rejected |
| Tokens.GenerateSessionId | src/main/java/me/egaetan/mytwitt/MyTwittAppServer.java:528-530 | the id is the first accepted draw followed by the next accepted one, every other draw before it was refused, and it is 44 letters and digits; running out of draws means fewer than two were accepted |
| Schema.FindOne | src/main/java/me/egaetan/mytwitt/MyTwittAppServer.java:162-168 | empty for no row, the row for exactly one, an exception for more |
| Schema.Database.constructor | src/main/java/me/egaetan/mytwitt/MyTwittAppServer.java:252-280 | the four tables start empty, and both identities start at 1 |
| Auth.HashOf | src/main/java/me/egaetan/mytwitt/MyTwittAppServer.java:125-129 | the stored hash is 32 characters free of LIKE wildcards |
| Auth.HashOfInjective | src/main/java/me/egaetan/mytwitt/MyTwittAppServer.java:176-178 | two stored hashes are equal iff BCrypt's digests are |
| Auth.LoginsNamed | src/main/java/me/egaetan/mytwitt/MyTwittAppServer.java:164 | the selected rows are exactly the Login rows whose user name is LIKE the name |
| Auth.LoginsWithHash | src/main/java/me/egaetan/mytwitt/MyTwittAppServer.java:183 | the selected rows are exactly those with the id whose password is LIKE the hash |
| Auth.AuthorsWithId | src/main/java/me/egaetan/mytwitt/MyTwittAppServer.java:196 | the selected rows are exactly the Author rows with the id |
| Auth.Login | src/main/java/me/egaetan/mytwitt/MyTwittAppServer.java:160-202 | a NULL name finds nobody; an Author returned is in the table, and name and password were given |
| Auth.LoginSound | src/main/java/me/egaetan/mytwitt/MyTwittAppServer.java:160-202 | a successful login found a Login row with the Author's id and a matching user name, whose salt decodes and whose stored hash is the password's hash under that salt |
| Auth.WithAccount | src/main/java/me/egaetan/mytwitt/MyTwittAppServer.java:133-154 | the two inserts keep the tables' key invariant, and keep every Login row paired with an Author row of the same id |
| Auth.Register | src/main/java/me/egaetan/mytwitt/MyTwittAppServer.java:119-158 | succeeds iff the password is present, the salt decodes, every value fits varchar(140) and the id is free; then it adds the Login and Author rows under the next identity; on failure the rows roll back, but the identity stays consumed once the Login insert was attempted; Login and Author rows stay paired one to one under a shared id |
| Auth.LoginAfterRegister | src/main/java/me/egaetan/mytwitt/MyTwittAppServer.java:119-202 | after registering a new wildcard-free name, login returns that Author iff BCrypt gives the same digest for the attempt as for the registered password, and empty otherwise |
| Auth.LoginUnknownUser | src/main/java/me/egaetan/mytwitt/MyTwittAppServer.java:162-171 | a name no row matches logs nobody in, whatever the password |
| Auth.EscapedNameMismatch | src/main/java/me/egaetan/mytwitt/MyTwittAppServer.java:164 | with `\` as H2's escape, the name `a\b` does not match itself as a pattern |
| Auth.LoginSelfMismatch | src/main/java/me/egaetan/mytwitt/MyTwittAppServer.java:162-171 | a name that does not LIKE-match itself finds no row of its own: after registering it, login under that name returns empty unless another row matches |
| Auth.LoginAfterDuplicateRegister | src/main/java/me/egaetan/mytwitt/MyTwittAppServer.java:162-168 | after two registrations under one name, login with it fails with the multiple-rows exception |
| Feed.SaveMessage | src/main/java/me/egaetan/mytwitt/MyTwittAppServer.java:105-115 | appends the message under the next identity, or fails with ValueTooLong over 140 characters; the identity is consumed either way and nothing else changes; Login and Author rows stay paired one to one under a shared id |
| Feed.SaveFollow | src/main/java/me/egaetan/mytwitt/MyTwittAppServer.java:240-247 | appends the edge unchecked; nothing else changes; Login and Author rows stay paired one to one under a shared id |
| Feed.Take | src/main/java/me/egaetan/mytwitt/MyTwittAppServer.java:210 | `TOP n` yields the first min(n, number of rows) rows |
| Feed.Matches | src/main/java/me/egaetan/mytwitt/MyTwittAppServer.java:210 | the rows are exactly the authors whose non-NULL name is LIKE motif followed by `%` |
| Feed.Autocomplete | src/main/java/me/egaetan/mytwitt/MyTwittAppServer.java:204-215 | nothing for motifs under 3 characters; otherwise only matching authors, all of them when at most 10 match and exactly 10 when more do |
| Feed.AutocompletePrefix | src/main/java/me/egaetan/mytwitt/MyTwittAppServer.java:204-215 | for a wildcard-free motif, every suggested name starts with the motif |
| Feed.FollowCount | src/main/java/me/egaetan/mytwitt/MyTwittAppServer.java:225-226 | the count of joining Follow rows is positive iff the follower follows the author |
| Feed.Repeat | src/main/java/me/egaetan/mytwitt/MyTwittAppServer.java:225 | n copies of a join row |
| Feed.JoinFollowed | src/main/java/me/egaetan/mytwitt/MyTwittAppServer.java:223-226 | one message joined to its author and to each Follow row naming the reader: every row carries the message's body and time, and none exist when the reader follows nobody |
| Feed.FollowedRows | src/main/java/me/egaetan/mytwitt/MyTwittAppServer.java:223-226 | branch (a) over every message: empty when the reader follows nobody |
| Feed.JoinOwn | src/main/java/me/egaetan/mytwitt/MyTwittAppServer.java:228-230 | one message joined to its author when that author is the reader: rows carry the message's body and time, and none exist for another author's message |
| Feed.OwnRows | src/main/java/me/egaetan/mytwitt/MyTwittAppServer.java:228-230 | branch (b) over every message: empty when the reader has posted nothing |
| Feed.JoinFollowedIn | src/main/java/me/egaetan/mytwitt/MyTwittAppServer.java:223-226 | a message's rows in the followed branch are exactly those joined to an author the reader follows |
| Feed.FollowedRowsIn | src/main/java/me/egaetan/mytwitt/MyTwittAppServer.java:223-226 | the followed branch holds exactly the messages of followed authors |
| Feed.JoinOwnIn | src/main/java/me/egaetan/mytwitt/MyTwittAppServer.java:228-230 | a message's rows in the own branch are exactly those joined to the reader |
| Feed.OwnRowsIn | src/main/java/me/egaetan/mytwitt/MyTwittAppServer.java:228-230 | the own branch holds exactly the reader's messages |
| Feed.QualifiesIffInBranches | src/main/java/me/egaetan/mytwitt/MyTwittAppServer.java:222-231 | a row is the reader's or a followed author's message iff one branch yields it |
| Feed.BranchesQualify | src/main/java/me/egaetan/mytwitt/MyTwittAppServer.java:222-231 | every branch row is the reader's or a followed author's message |
| Feed.Distinct | src/main/java/me/egaetan/mytwitt/MyTwittAppServer.java:227 | `UNION` keeps each row once and keeps exactly the rows of its inputs |
| Feed.SortedHeadIsNewest | src/main/java/me/egaetan/mytwitt/MyTwittAppServer.java:232 | the first row of a newest-first list is at least as new as every row |
| Feed.InsertByTime | src/main/java/me/egaetan/mytwitt/MyTwittAppServer.java:232 | insertion adds exactly the one row: the result is the input plus that row, as a multiset |
| Feed.InsertKeepsSorted | src/main/java/me/egaetan/mytwitt/MyTwittAppServer.java:232 | insertion keeps a newest-first list newest-first |
| Feed.InsertKeepsDistinct | src/main/java/me/egaetan/mytwitt/MyTwittAppServer.java:232 | inserting a new row keeps a duplicate-free list duplicate-free |
| Feed.SortByTimeDesc | src/main/java/me/egaetan/mytwitt/MyTwittAppServer.java:232 | `order by time desc` gives a permutation of the rows (same multiset), newest first, with no duplicates added |
| Feed.TakeKeepsLatest | src/main/java/me/egaetan/mytwitt/MyTwittAppServer.java:232 | `TOP n` of a newest-first list drops rows only when it is full, and only rows no newer than any kept row |
| Feed.MergeTop | src/main/java/me/egaetan/mytwitt/MyTwittAppServer.java:227-232 | at most 100 distinct rows, newest first, all from the branches; a row left out is no newer than any shown; nothing is left out when the union has at most 100 rows |
| Feed.Timeline | src/main/java/me/egaetan/mytwitt/MyTwittAppServer.java:218-237 | at most 100 distinct rows, newest first, each the reader's or a followed author's message |
| Feed.TimelineComplete | src/main/java/me/egaetan/mytwitt/MyTwittAppServer.java:218-237 | when the branches and their union each have at most 100 rows, every qualifying message is on the timeline |
| Sessions.Session.VerifyCsrf | src/main/java/me/egaetan/mytwitt/MyTwittAppServer.java:304-309 | fails closed: true only when a token was issued and the submitted one equals it |
| Sessions.Session.Invalid | src/main/java/me/egaetan/mytwitt/MyTwittAppServer.java:300-302 | a session is invalid exactly when it carries no Author, as the anonymous sessions of `GET /` do |
| Sessions.StoredUnderOwnId | src/main/java/me/egaetan/mytwitt/MyTwittAppServer.java:316-318 | every stored session sits under its own id |
| Sessions.StoredLatest | src/main/java/me/egaetan/mytwitt/MyTwittAppServer.java:316-318 | the last session added under an id is the one stored there |
| Sessions.StoredNeverAdded | src/main/java/me/egaetan/mytwitt/MyTwittAppServer.java:320-322 | an id never added is absent |
| Sessions.InMemorySessionStore.constructor | src/main/java/me/egaetan/mytwitt/MyTwittAppServer.java:314 | the store starts empty |
| Sessions.InMemorySessionStore.Retrieve | src/main/java/me/egaetan/mytwitt/MyTwittAppServer.java:320-322 | a retrieved session carries the id asked for |
| Sessions.InMemorySessionStore.Add | src/main/java/me/egaetan/mytwitt/MyTwittAppServer.java:316-318 | the session replaces whatever was under its id, and no other id changes |
| Sessions.CheckCsrfForm | src/main/java/me/egaetan/mytwitt/MyTwittAppServer.java:360-365 | passes iff the session holds a token and the `csrf` form field equals it; otherwise CsrfException |
| Sessions.CheckCsrfHeader | src/main/java/me/egaetan/mytwitt/MyTwittAppServer.java:366-371 | passes iff the session holds a token and the `anti-csrf-token` header equals it; otherwise CsrfException |
| Sessions.CheckCsrf | src/main/java/me/egaetan/mytwitt/MyTwittAppServer.java:352-358 | no cookie is a null dereference; otherwise it passes iff the cookie names a stored session whose token the form repeats, and it throws CsrfException if not |
| Sessions.RetrieveValidSession | src/main/java/me/egaetan/mytwitt/MyTwittAppServer.java:373-382 | succeeds iff the cookie names a stored session with an Author, returning that session under that id; otherwise InvalidSessionException |
| Routes.Rejection | src/main/java/me/egaetan/mytwitt/MyTwittAppServer.java:492-497 | CsrfException maps to 401, InvalidSessionException to 403, and any other exception to 500 |
| Routes.GetIndex | src/main/java/me/egaetan/mytwitt/MyTwittAppServer.java:404-424 | renders the timeline page and stores the new token in the visitor's session, or renders the index and stores an anonymous session under a fresh cookie; afterwards exactly that token passes the CSRF check, and login status is unchanged |
| Routes.GetAutocomplete | src/main/java/me/egaetan/mytwitt/MyTwittAppServer.java:426-430 | 403 without a valid session; otherwise the autocomplete list, at most 10 matching authors |
| Routes.PostRegister | src/main/java/me/egaetan/mytwitt/MyTwittAppServer.java:432-442 | a CSRF failure changes nothing; otherwise it redirects with the account added when registration goes through, and answers 500 with the tables unchanged (but for the identity) when it does not; Login and Author rows stay paired one to one under a shared id |
| Routes.GetLogout | src/main/java/me/egaetan/mytwitt/MyTwittAppServer.java:444-447 | redirects and drops the cookie, so the browser's next request has no valid session |
| Routes.PostLogin | src/main/java/me/egaetan/mytwitt/MyTwittAppServer.java:448-465 | a CSRF failure or bad credentials change no session (401/500, or 403 "Invalid"); a valid login stores a new session for the Author under a fresh cookie, which the next request retrieves, and which fails every CSRF check |
| Routes.PostMessage | src/main/java/me/egaetan/mytwitt/MyTwittAppServer.java:466-474 | 403 without a session, then 401 without the form token, both changing nothing; otherwise the message is stored under the session's Author, or 500 over 140 characters; Login and Author rows stay paired one to one under a shared id |
| Routes.GetTimeline | src/main/java/me/egaetan/mytwitt/MyTwittAppServer.java:475-481 | 403 without a session; otherwise the session Author's timeline, at most 100 qualifying rows, newest first |
| Routes.PostFollow | src/main/java/me/egaetan/mytwitt/MyTwittAppServer.java:482-490 | 403 without a session, then 401 without the header token, then 400 for a non-integer id, all changing nothing; otherwise 201 and the session's Author follows the id; Login and Author rows stay paired one to one under a shared id |

## Left out

- `MyClient.java`, `main`'s server start-up, `startDB`, the `init` DDL execution, logging and static files are not part of this model. Only the table shapes of `init` are kept.
- The cookie attributes set by `Cookies.registerSession` (HttpOnly, Secure, the SameSite comment) are left out. The model keeps only which session id the browser holds next.
- Template rendering and JSON serialisation are left out. A response records the template's CSRF token and name, or the rows that would be serialised.
- Concurrency is left out. Neither the `ConcurrentHashMap`, nor parallel requests, nor H2 transaction isolation is modelled, and each handler runs alone.
- BCrypt's internals are left out, including its 72-byte password limit and its `passwordToByteArray` conversion. The model uses an arbitrary deterministic function producing 24 bytes.
- Randomness is left out. `SecureRandom` draws are parameters.
- Tokens.Generate: it takes the texts `generateBytes` returned rather than the 16-byte blocks. That each accepted text decodes back to its block is stated separately in `Tokens.AcceptedCandidate`. It also stops with `None` when the draws run out, where the source loops until a draw is accepted.
- Tokens.GenerateSessionId: it answers `None` when the draws hold fewer than two accepted texts, where the source keeps drawing.
- Routes.GetIndex, Routes.PostLogin, Routes.PostRegister: they take the drawn session id, CSRF token or salt as parameters rather than calling `generate` themselves.
- Header-name case-insensitivity in HTTP is left out. Headers are looked up by the exact name `anti-csrf-token`.
- The `LIKE` of an escape character at the end of a pattern is treated as a literal `\`. H2 raises an error for it instead. Only a user-supplied login name can end that way; an autocomplete pattern always ends in `%`.
- Feed.Timeline, Feed.Autocomplete: `TOP n` without `ORDER BY` keeps whichever rows the engine yields first. The model keeps the first n in join order, and `Feed.MergeTop` states what holds for any choice of branch rows. Ties in `order by time desc` keep join order, where H2 leaves their order unspecified.
- Auth.Register: it returns the inserted Author row. Jdbi maps only the generated `id` key back, so in the source only the id of the returned object is reliable. The route discards the value anyway.
- The `id LIKE :id` of the Author query is modelled as equality on the id, because the decimal text of an id holds no wildcard.
- Feed.Autocomplete, Schema.Fits: lengths are counted in Unicode scalar values. Java's `length()` and H2's varchar widths count UTF-16 code units, and so does `_` in `LIKE`. Text outside the Basic Multilingual Plane is therefore measured shorter than the source measures it. For example, the motif "😀a" has length 3 in Java, so the source runs the query, while the model counts 2 and suggests nothing.
- Auth.Register, Auth.Login: BCrypt's own argument checks are not modelled. It refuses a salt that is not 16 bytes and a password longer than 72 bytes. `Auth.Registers` therefore promises success for a salt such as "AAAA", which decodes to 3 bytes, where `BCrypt.generate` throws. The salts `generate` produces decode to 16 bytes.
- Java's `int` width for ids and `timestamp` precision are left out. Ids and times are unbounded integers, and times are opaque values supplied by the caller.
- Javalin's path-parameter conversion is left out. `/follow/:id` receives the parsed integer or `None`, and `None` answers 400.
