# maximus resolvers in Dafny

Maximus is a GraphQL backend written in TypeScript. This project models four
of its parts in Dafny and proves properties of the model:

- the account validators in `src/utilities/user.ts` (the email and username
  regular expressions and the three `valid…` checks);
- the user resolver in `src/resolvers/user.ts`: `login`, `githubLogin`, `me`
  and `register`, as transitions on the user table and on the session's
  `userId`;
- the post resolver in `src/resolvers/post.ts`: the paginated `posts` query,
  the `post` query, `createPost` and the `videos` field of a post;
- the video resolver in `src/resolvers/video.ts`: `createVideo`,
  `deleteVideo` and the `videos` query.

The project has seven modules:

- `Wrappers` (`wrappers.dfy`): an `Option` type.
- `UserUtilities` (`user_utilities.dfy`): the two regular expressions,
  written as grammar predicates, and the validators as functions. A
  validator's database question ("is there a user with this email?") is a
  set argument.
- `ValidatorFacts` (`validator_facts.dfy`): lemmas about that grammar.
  - An accepted email splits at its last `@`.
  - Its domain is either a bracketed dotted quad or dot-ended labels
    followed by a top-level part of at least two letters.
  - An unquoted local part is atoms with isolated inner dots.
  - Usernames use a fixed character class.
  - Each validator checks the format before the table.
- `UserResolver` (`users.dfy`): a `UserTable` class (rows, next id) and a
  `Session` class (`userId`), with the resolvers as methods on them. `me`
  is a function that reads both. The identity provider's `signIn`/`signUp`
  and the GitHub token exchange are function parameters, so their answers
  are arbitrary.
- `VideoResolver` (`videos.dfy`): a `VideoTable` class with `CreateVideo`
  and `DeleteVideo`, and the listing by slug. The transcoding service's
  `upload` is a function parameter that answers `Uploaded` or
  `UploadFailed`.
- `PostResolver` (`posts.dfy`): the `posts` query as a pure function. The
  rows older than the cursor are kept, stably sorted newest first, and the
  first `min(10, limit) + 1` of them are taken. The resolver then slices
  the result with JavaScript `slice` semantics and sets `hasMore` from the
  over-fetch. `PostTable.CreatePost` appends a post.
- `PostPaging` (`post_paging.dfy`): what a page is.
  - It is a prefix of the ordered candidates.
  - Its posts are stored, older than the cursor, and newest first.
  - Nothing newer is skipped.
  - `hasMore` is true exactly when more candidates remain.
  - A page without more holds every candidate.
  - Asking again with the last post's `createdAt` as the cursor continues
    the same list, when creation times are distinct.

Some behaviours of the code are modelled as written, even where they look
unintended:

- **Hyphens in usernames.** The username class `[A-Z,a-z,0-9,-,_]` holds the
  letters, the digits, `,` and `_`. The `,-,` in it is a range from `,` to
  `,`. So a hyphen is refused, although the error message invites one, and
  a comma is accepted.
- **`me` and user id 0.** `me` treats a `userId` of 0 like a missing one,
  which is JavaScript truthiness.
- **`posts` with `limit = -1`.** The SQL limit is then 0 and the slice end
  is `-1`. The page is empty, and `hasMore` is true because `0 === 0`.
- **`posts` with `limit < -1`.** The SQL limit is negative and the database
  refuses the query, so that case is `None`.
- **`createVideo` after a failed upload.** It saves the record even when
  the upload fails, without a playback id or video id.
- **Posts sharing a timestamp.** The cursor filter is strict
  (`createdAt < cursor`), so when the last post of a page shares its
  creation time with other posts, the next page skips every one of them not
  already shown, whatever order the database picked among them.
- **`githubLogin` ordering.** It reports "Not currently registered" before
  it looks at the provider's error.

## Model

| member | source | states |
|---|---|---|
| UserUtilities.ValidEmail | src/utilities/user.ts:34-56 | accepted exactly when the email matches the pattern and is not registered; otherwise one `email` error |
| UserUtilities.ValidUsername | src/utilities/user.ts:58-80 | accepted exactly when the name matches the class and is not taken; otherwise one `username` error |
| UserUtilities.ValidLoginUsername | src/utilities/user.ts:82-94 | accepted exactly when the name matches the class; otherwise exactly the "Please check your username." error |
| UserUtilities.UsernamePattern | src/utilities/user.ts:59 | a name matching the pattern is non-empty and holds no hyphen, space or `@` |
| UserUtilities.AtomChar | src/utilities/user.ts:6 | an atom character of the local part is never `.`, `@`, `"` or a space |
| UserUtilities.DotAtoms | src/utilities/user.ts:6 | a dotted-atom local part is non-empty and starts and ends with an atom character |
| UserUtilities.LocalPart | src/utilities/user.ts:6 | a local part is non-empty and starts with neither `.` nor `@` |
| UserUtilities.Labels | src/utilities/user.ts:6 | the label groups of a host have at least two characters, start with a label character and end with a dot |
| UserUtilities.HostName | src/utilities/user.ts:6 | a host name has at least four characters, starts with a label character and ends with two letters |
| UserUtilities.Domain | src/utilities/user.ts:6 | a domain has at least four characters, starts with `[` or a label character and ends with `]` or a letter |
| UserUtilities.EmailPattern | src/utilities/user.ts:5-6 | a matching email has at least six characters, neither starts nor ends with `@`, and has an `@` strictly inside |
| ValidatorFacts.UsernameAlphabet | src/utilities/user.ts:59 | a character is in the username class iff it is an ASCII letter, a digit, `,` or `_`; `-` is not |
| ValidatorFacts.HyphenRejected | src/utilities/user.ts:59-68 | any name with a hyphen fails the pattern and gets the format error from both username validators |
| ValidatorFacts.UsernameFormatCheckedFirst | src/utilities/user.ts:59-69 | a malformed name gets the format error whatever the table holds |
| ValidatorFacts.UsernameTaken | src/utilities/user.ts:69-78 | a well-formed taken name gets exactly the availability error |
| ValidatorFacts.LoginUsernameSameClass | src/utilities/user.ts:59-94 | the login check accepts exactly what registration accepts on an empty table, and everything registration accepts |
| ValidatorFacts.UsernameExamples | src/utilities/user.ts:59 | `jane_doe`, `jane,doe` and `J0` match; `jane-doe`, the empty name and `jane doe` do not |
| ValidatorFacts.EmailFormatCheckedFirst | src/utilities/user.ts:35-45 | a malformed email gets the format error whatever the table holds |
| ValidatorFacts.EmailAlreadyRegistered | src/utilities/user.ts:45-54 | a well-formed registered email gets exactly the "User already exists" error |
| ValidatorFacts.DotAtomsShape | src/utilities/user.ts:6 | the unquoted local part is a non-empty run of atom characters with no dot first, last or twice in a row, and conversely |
| ValidatorFacts.DotAtomsHaveShape | src/utilities/user.ts:6 | every dotted-atom local part has that shape |
| ValidatorFacts.ShapeIsDotAtoms | src/utilities/user.ts:6 | every string of that shape is a dotted-atom local part |
| ValidatorFacts.LabelsShape | src/utilities/user.ts:6 | the label groups of a host end in a dot and hold only letters, digits, hyphens and dots |
| ValidatorFacts.DigitGroupsDots | src/utilities/user.ts:6 | `n` dotted octets hold exactly `n - 1` dots |
| ValidatorFacts.DigitGroupsLength | src/utilities/user.ts:6 | `n` dotted octets of one to three digits take between `2n - 1` and `4n - 1` characters |
| ValidatorFacts.DigitGroupsChars | src/utilities/user.ts:6 | dotted octets hold only digits and dots |
| ValidatorFacts.DomainShape | src/utilities/user.ts:6 | an accepted domain has no `@` and is either a bracketed run of digits and exactly three dots, 9 to 17 characters long, or ends, after a dot, in a letters-only top-level part of two or more letters |
| ValidatorFacts.AcceptedSplitsAtLastAt | src/utilities/user.ts:6 | an accepted email has a local part before its last `@` and a domain after it |
| ValidatorFacts.SplitAtLastAtAccepted | src/utilities/user.ts:6 | a local part, `@` and a domain with no later `@` is accepted |
| ValidatorFacts.EmailSplitsAtLastAt | src/utilities/user.ts:6 | the pattern accepts exactly the strings whose last `@` separates a local part from a domain |
| ValidatorFacts.DomainAfterAt | src/utilities/user.ts:6 | an `@` followed by a domain is the last `@` of the string |
| ValidatorFacts.AcceptedEmailShape | src/utilities/user.ts:6 | an accepted email contains `@`, and after the last one comes a domain of one of the two shapes |
| ValidatorFacts.EmailAcceptsPlainAddress | src/utilities/user.ts:6 | `a@b.co` is accepted |
| ValidatorFacts.EmailAcceptsDottedLocalAndHyphen | src/utilities/user.ts:6 | `a.b@c-1.de` is accepted |
| ValidatorFacts.ThreeOctetsExample | src/utilities/user.ts:6 | `2.3.4` is three dotted octets |
| ValidatorFacts.FourOctetsExample | src/utilities/user.ts:6 | `999.2.3.4` is four dotted octets: an octet is up to three digits, not a number up to 255 |
| ValidatorFacts.BracketedDomain | src/utilities/user.ts:6 | any four dotted octets in brackets form a domain |
| ValidatorFacts.QuotedLocalAccepted | src/utilities/user.ts:6 | a quoted local part, `@` and a domain are accepted, whatever the quotes enclose, `@` included, as long as it is at least one character and holds no line terminator |
| ValidatorFacts.EmailRefusesShortTopLevel | src/utilities/user.ts:6 | `a@b.c` is refused: the top-level part needs two letters |
| ValidatorFacts.EmailRefusesBareNumericHost | src/utilities/user.ts:6 | `a@1.2.3.4` is refused: a quad needs brackets |
| ValidatorFacts.EmailRefusesMissingAt | src/utilities/user.ts:6 | `ab.co` is refused |
| UserResolver.FirstWhere | src/resolvers/user.ts:45 | `findOne`: none iff no row matches; otherwise a matching row, the first in table order |
| UserResolver.FindByGithubLogin | src/resolvers/user.ts:45 | none iff no row has that GitHub login; otherwise a stored row with it |
| UserResolver.FindByUsername | src/resolvers/user.ts:76 | none iff no row has that username; otherwise a stored row with it |
| UserResolver.FindById | src/resolvers/user.ts:108 | none iff no row has that id; otherwise a stored row with it |
| UserResolver.FindUnique | src/resolvers/user.ts:76 | in a well-formed table, looking a row up by its id or by its username finds that row |
| UserResolver.AppendFresh | src/resolvers/user.ts:135 | appending a row with the next id and an unused email and username keeps the table well-formed |
| UserResolver.UserTable.Insert | src/resolvers/user.ts:135 | `User.create(...).save()`: appends the row with the next id and no GitHub login, keeping ids, usernames and emails unique |
| UserResolver.Login | src/resolvers/user.ts:67-101 | a format failure returns those errors; an unknown name or a failed sign-in returns the two login errors; all leave the session alone; otherwise the session holds the found user's id and the reply holds that user and the provider's session |
| UserResolver.GithubLogin | src/resolvers/user.ts:39-64 | an unknown GitHub login returns "Not currently registered" first; a provider failure returns its message; only otherwise is the session set to the found user's id |
| UserResolver.Me | src/resolvers/user.ts:104-109 | no user for an absent or zero id; otherwise the user with that id exactly when one is stored |
| UserResolver.Register | src/resolvers/user.ts:112-137 | email errors, then username errors, then the provider's message on the `password` field, each leaving the table unchanged; otherwise exactly one new row with the provider's user id is appended and returned |
| UserResolver.LoginThenMe | src/resolvers/user.ts:67-109 | after a login without errors, `me` returns the user who logged in |
| VideoResolver.WithSlug | src/resolvers/video.ts:62-64 | the listing is never longer than the table, and a row is in it iff it is stored with that slug |
| VideoResolver.WithSlugExact | src/resolvers/video.ts:62-64 | the listing of a slug holds each row of that slug as often as the table does, and nothing else |
| VideoResolver.WithoutExact | src/resolvers/video.ts:88 | a delete removes every row with the id and keeps every other row as often as it was there |
| VideoResolver.Without | src/resolvers/video.ts:88 | a delete never adds rows, and a row remains iff it was stored and has another id |
| VideoResolver.WithoutAbsent | src/resolvers/video.ts:84-87 | deleting an id that no row has changes nothing |
| VideoResolver.CreatedIsListed | src/resolvers/video.ts:62-79 | a created video is listed under its slug, and in the model's table order after the videos already there |
| VideoResolver.DeleteThenList | src/resolvers/video.ts:62-90 | listing after a delete is the earlier listing without the deleted id |
| VideoResolver.DeleteIdempotent | src/resolvers/video.ts:83-90 | after a delete the id is gone, and a second delete changes nothing |
| VideoResolver.WithoutKeepsDistinct | src/resolvers/video.ts:88 | a delete keeps ids distinct |
| VideoResolver.VideoTable.CreateVideo | src/resolvers/video.ts:68-79 | uploads the two URLs, then appends the parameters with the next id, duration 0, not ready and the upload's ids, even after a failed upload |
| VideoResolver.VideoTable.DeleteVideo | src/resolvers/video.ts:83-90 | returns true iff a row had the id; the rows become the old rows without that id, exactly one row shorter when it returns true, and stay the same when it returns false |
| VideoResolver.WithoutOne | src/resolvers/video.ts:88 | with distinct ids, deleting an id that is present removes exactly one row |
| VideoResolver.DeleteTwice | src/resolvers/video.ts:83-90 | a second delete of the same id returns false |
| PostResolver.Before | src/resolvers/post.ts:64 | the cursor filter is never longer than the table |
| PostResolver.BeforeExact | src/resolvers/post.ts:64 | the cursor filter keeps each older row as often as stored and drops the rest |
| PostResolver.Candidates | src/resolvers/post.ts:56-64 | a post is a candidate iff it is stored and, when there is a cursor, older than it |
| PostResolver.InsertByDate | src/resolvers/post.ts:65 | one insertion step of the order adds exactly the inserted post |
| PostResolver.NewestFirst | src/resolvers/post.ts:65 | ordering is a permutation of its input |
| PostResolver.Fetch | src/resolvers/post.ts:60-69 | the SQL statement returns at most `limit` rows, each stored and older than the cursor when there is one |
| PostResolver.Posts | src/resolvers/post.ts:47-71 | no page exactly when the SQL limit would be negative; a page never holds more than `max(0, min(10, limit))` posts |
| PostResolver.PostBySlug | src/resolvers/post.ts:42-44 | none iff no post has the slug; otherwise a post with it, the first in table order |
| PostResolver.PostVideos | src/resolvers/post.ts:36-39 | never more videos than stored, and a video is listed iff it is stored with the post's slug |
| PostResolver.PostVideosExact | src/resolvers/post.ts:36-39 | the videos of a post are the stored videos with its slug, each as often as stored |
| PostResolver.PostTable.CreatePost | src/resolvers/post.ts:73-76 | appends a post with the input's slug and title, the next id and the given creation time; the new id is not the id of any stored post |
| PostResolver.CreatedPostFound | src/resolvers/post.ts:42-76 | after a post is created its slug is found, and the result is that post unless an earlier row of the table has the same slug |
| PostPaging.BeforeMember | src/resolvers/post.ts:64 | a post passes the filter iff it is stored and older than the cursor |
| PostPaging.BeforeConcat | src/resolvers/post.ts:64 | filtering distributes over concatenation |
| PostPaging.BeforeCompose | src/resolvers/post.ts:64 | filtering by a later cursor and then an earlier one is filtering by the earlier one |
| PostPaging.InsertMember | src/resolvers/post.ts:65 | an insertion step holds exactly the inserted post and the old ones |
| PostPaging.InsertKeepsOrder | src/resolvers/post.ts:65 | inserting into a newest-first list keeps it newest first |
| PostPaging.NewestFirstOrdered | src/resolvers/post.ts:65 | ordering yields a newest-first list |
| PostPaging.NewestFirstMember | src/resolvers/post.ts:65 | ordering neither adds nor loses posts |
| PostPaging.BeforeInsert | src/resolvers/post.ts:64-65 | filtering after an insertion step is the insertion step on the filtered list, when the post passes |
| PostPaging.SortThenFilter | src/resolvers/post.ts:62-66 | ordering and then filtering equals filtering and then ordering |
| PostPaging.ConsKeepsDistinct | src/resolvers/post.ts:64 | if a post heads a list with distinct times, putting it in front of distinct posts drawn from the rest of that list keeps times distinct |
| PostPaging.BeforeKeepsDistinct | src/resolvers/post.ts:64 | filtering keeps creation times distinct |
| PostPaging.NewestFirstKeepsDistinct | src/resolvers/post.ts:65 | ordering keeps creation times distinct |
| PostPaging.PageIsPrefix | src/resolvers/post.ts:52-70 | a page is the start of the fetched rows and of the ordered candidates, of length `min(max(0, min(10, limit)), candidates)` |
| PostPaging.HasMoreMeansMoreLeft | src/resolvers/post.ts:52-70 | `hasMore` iff more than `min(10, limit)` candidates exist |
| PostPaging.PageRespectsCursor | src/resolvers/post.ts:56-64 | every post on a page is stored and older than the cursor |
| PostPaging.PageOrdered | src/resolvers/post.ts:65 | a page is newest first |
| PostPaging.NothingNewerLeftOut | src/resolvers/post.ts:62-70 | a candidate newer than a post on the page is on the page |
| PostPaging.LastPageComplete | src/resolvers/post.ts:52-70 | a page without more holds exactly the candidates, as a multiset |
| PostPaging.MinusOneLimit | src/resolvers/post.ts:52-70 | with limit -1 the page is empty and `hasMore` is true |
| PostPaging.StrictSuffix | src/resolvers/post.ts:64-65 | in a newest-first list with distinct times, the posts older than the `k`-th are exactly those after it |
| PostPaging.OlderThanKth | src/resolvers/post.ts:56-65 | when creation times are distinct, using the `k`-th ordered candidate's time as the cursor leaves exactly the candidates after it |
| PostPaging.FullPage | src/resolvers/post.ts:52-70 | a page with more is full, non-empty, and shorter than the ordered candidates |
| PostPaging.NextPageContinues | src/resolvers/post.ts:47-71 | with distinct creation times, the page asked for with the last post's time as the cursor follows that page, and together they are a start of the ordered candidates |
| PostPaging.TiedPostNeverNext | src/resolvers/post.ts:56-64 | no post with the same creation time as the last post of a page is on the page asked for with that time as the cursor |
| PostPaging.TiedPostSkipped | src/resolvers/post.ts:47-71 | with two posts at time 5 and a limit of 1, the first page is `[a]` with `hasMore`, the next page is empty without `hasMore`, so `b` is never served |

## Left out

- `src/utilities/storage.ts` and the HTTP side of `src/utilities/video.ts` are
  not part of this model. The transcoding service is reduced to the two
  answers of `upload`.
- The identity provider and the GitHub token exchange are function
  parameters. The `githubLogin` utility that the resolver calls is not part
  of this model. Its answer is taken to carry a `login` string, so the case
  where `login` is undefined is not modelled.
- `isAuth`, the middleware in front of the video resolvers, is not modelled:
  the operations are modelled as if authorised.
- Asynchrony and concurrent requests are not modelled: each resolver runs
  to completion alone.
- Database constraints are not modelled. This covers the NOT NULL columns
  (a video saved after a failed upload), the unique `userId`, the length of
  a title, and entity columns the resolvers write without the entity
  declaring them.
- The timestamps the ORM adds to users and videos are not modelled. A post's
  creation time is an input to `CreatePost`.
- The cursor is an integer timestamp. Parsing it with `parseInt` into a
  `Date`, and treating the empty string as no cursor, are not modelled.
- `findOne` has no `ORDER BY`, so which row it returns when several match is
  up to the database. `FirstWhere` and `PostBySlug` return the first match in
  table order, which is one admissible choice. This matters for `post(slug)`:
  the `slug` column of `Post` (src/entity/Post.ts:25-26) is not unique, so two
  posts may share a slug. It does not matter for the user lookups by id or
  username, which are unique columns, as `FindUnique` states.
- The `githubLogin` column that `githubLogin` queries is not declared on the
  `User` entity. The model gives each row an optional GitHub login, and no
  modelled operation sets it: `Insert` stores none. So in the model
  `GithubLogin` only finds rows of a table built some other way.
- The database's order among posts with equal `createdAt` is unspecified.
  The model uses a stable insertion sort, which is one admissible order.
  `NextPageContinues` requires distinct creation times because the strict
  cursor filter skips posts tied with the last post of a page, as
  `TiedPostNeverNext` and `TiedPostSkipped` state.
- `find` has no `ORDER BY` either, in the `videos` query
  (src/resolvers/video.ts:63) and in the `videos` field of a post
  (src/resolvers/post.ts:38). `WithSlug` lists rows in table order, which
  is one admissible order. The position part of `CreatedIsListed`, a new
  video coming after the ones already listed, depends on that choice; that
  it is listed at all does not.
- PostResolver.Posts: the size bound is its only own contract. The content
  of a page is stated by the PostPaging lemmas.
- The `videos` field resolver is modelled without the GraphQL `Videos`
  wrapper type.
- Registering does not sign the new user in, and the model's `Register`
  takes no session.
