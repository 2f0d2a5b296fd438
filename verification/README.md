# s-book social backend: a Dafny model of its rules

s-book is a social-networking backend: users befriend and block one another, publish posts and 24-hour stories with an
audience (public, friends, private), comment and reply, react, mention each other and receive notifications, and go
through an account lifecycle that ends in a nightly purge. Almost every service function is a short ladder of guard
checks over the document store followed by one mutation or filter. This project states those ladders and filters as
pure Dafny functions over an in-memory store and proves what they guarantee.

The model follows the code:

- **Stores.** Each collection is a `seq` of immutable records in insertion order. A query without a sort returns the
  first match in that order. Every user query goes through the model's query hook, which hides permanently deleted
  users (`Users.Hit`).
- **Results.** An operation returns `Result<T>`: the new store and its answer, or `Error(status, message)` with the
  HTTP status and the exact message of the `throw` it models.
- **Parameters.** These are function or value parameters:
  - the bcrypt hash and comparison;
  - JWT decoding;
  - whether a mail delivery failed;
  - the clock (`now`, in milliseconds);
  - fresh record ids;
  - the random username suffixes;
  - object-id syntax;
  - the admin badge text.
- **Store assumptions.** The unique indexes are predicates that lemmas take as assumptions. They cover one friend edge
  per ordered pair, one story view per viewer and story, and unique emails.

| module | file | what it holds |
|---|---|---|
| Wrappers, Sequences, Text, Users, Zod | wrappers.dfy, sequences.dfy, text.dfy, users.dfy, zod.dfy | results and statuses; filtering, de-duplication and sorted filtering; ASCII text, trimming, splitting and number spelling; user records and the lookup hook; zod issues and their error sources |
| Blocks | blocks.dfy | block and unblock, the mutual-block gate, the excluded ids, the blocked list |
| Friends | friends.dfy | the friend-request state machine, friend and following ids, the three paged lists, unfriend |
| Paging, QueryBuilder, QueryParams | paging.dfy, querybuilder.dfy, queryparams.dfy | the hand-written page checks, the chainable list query with `paginateMeta`, and the query-parameter schemas |
| Posts, PostAppeals | posts.dfy, postappeals.dfy | tag checks, single-post visibility, another user's posts, the appeal ladder |
| Reactions | reactions.dfy | the reaction toggle, paged reaction lists, per-type totals, the reaction schemas |
| Comments | comments.dfy | the comment gate, replies, update, cascade delete |
| Stories | stories.dfy | story audiences, expiry, views and story reactions, deletion, the feed |
| Mentions, Notifications | mentions.dfy, notifications.dfy | @-mention extraction and lookup; the inbox, read marks, deletion, unread count, broadcast |
| Accounts, Auth, AuthGate, Usernames | accounts.dfy, auth.dfy, authgate.dfy, usernames.dfy | status transitions and the purge; registration, login, refresh, role change; the route guard; username generation |
| Sanitize, AuthValidation | sanitize.dfy, authvalidation.dfy | the input sanitiser and strict bodies; the auth request grammars |

## Model

| member | source | states |
|---|---|---|
| Sequences.FirstIndex | src/app/v1/modules/Friend/friend.service.ts:128-130 | a lookup picks the first record in store order that matches, and finds none exactly when no record matches |
| Sequences.SortDesc | src/app/v1/modules/Reaction/reaction.service.ts:211 | the in-memory sort by descending count returns a permutation of its input (same multiset) ordered by non-increasing key |
| Sequences.Dedup | src/app/v1/modules/Block/block.utils.ts:34-41 | `distinct` returns each stored value exactly once: no duplicates, and exactly the values that occur in the input |
| Sequences.FilterAppend | src/app/v1/modules/Post/post.service.ts:38 | filtering two lists in a row gives the two filtered lists in a row, so a filter keeps input order |
| Sequences.SortedFilter | src/app/v1/modules/Block/block.service.ts:65-69 | a filtered, `$sort`ed store query returns exactly the records that pass the filter, newest first |
| Sequences.FilterKeepsSorted | src/app/v1/modules/Block/block.service.ts:65-69 | dropping records from a sorted result keeps it sorted |
| Users.RoleName | src/app/v1/modules/User/user.constant.ts:1-5 | each role has its own stored name: "user" names exactly the plain user role, "admin" exactly the admin and "superAdmin" exactly the super admin |
| Users.RoleNameInjective | src/app/v1/modules/User/user.constant.ts:1-5 | two roles with the same stored name are the same role |
| Users.Find | src/app/v1/modules/User/user.model.ts:73-78 | `findOne` under the pre-find hook: the first record that matches the filter and is not permanently deleted; none exactly when no such record exists |
| Users.FindFrom | src/app/v1/modules/User/user.model.ts:73-78 | the scan behind `findOne`: every record it skips fails the filter or is permanently deleted |
| Users.Lookup | src/app/v1/modules/User/user.model.ts:73-78 | the returned user is a stored, not permanently deleted record matching the filter, and one is returned exactly when `exists` holds |
| Users.FindProfile | src/app/v1/modules/Profile/profile.model.ts:1-42 | `Profile.findOne({ userId })` returns a stored profile of that user, and none exactly when the user has no profile |
| Users.FindByIdIsThatUser | src/app/v1/modules/User/user.model.ts:73-78 | with unique ids, looking a findable user up by its id finds that very record |
| Text.Trim | src/app/v1/utils/zodWithInputSanitize.ts:16 | `trim()` returns the slice of the input between its leading and trailing whitespace, with no whitespace at either end |
| Text.TrimFacts | src/app/v1/utils/zodWithInputSanitize.ts:16 | the slice between the first and last non-space character has only whitespace around it |
| Text.Split | src/app/v1/middlewares/auth.ts:20 | `split(' ')` gives at least one piece and no piece contains the separator |
| Text.SplitAfterWord | src/app/v1/middlewares/auth.ts:20 | a separator-free word followed by the separator becomes the first piece, the rest is split independently |
| Text.SplitHead | src/app/v1/middlewares/auth.ts:20 | the first piece of a split is the longest separator-free prefix of the string |
| Text.SplitJoinRoundTrip | src/app/v1/builder/QueryBuilder.ts:53-59 | `split(c).join(c)` gives the string back: splitting loses nothing |
| Text.SplitJoinIsReplace | src/app/v1/builder/QueryBuilder.ts:53-59 | `split(',').join(' ')` equals replacing every comma by a space and changing nothing else |
| Text.ReplaceChar | src/app/v1/builder/QueryBuilder.ts:53-59 | the reference for `split(',').join(' ')`: same length, the chosen character replaced everywhere, every other character kept |
| Text.ToLower | src/app/v1/modules/User/user.util.ts:4-5 | lower-casing leaves no upper-case letter, keeps length, letters and digits in place and changes no other character |
| JsNumbers.StringToNumber | src/app/v1/builder/QueryBuilder.ts:61-64 | `Number(s)` on text: blank text (after trimming) reads as 0 |
| JsNumbers.SignedReadings | src/app/v1/validation/params.validation.ts:11-26 | `Number(s)` is infinite exactly for the trimmed spellings `Infinity`, `+Infinity`, `-Infinity`, negative exactly for the minus one; a negative finite reading needs a leading minus |
| JsNumbers.UnsignedReading | src/app/v1/validation/params.validation.ts:11-26 | trimmed text that starts with a digit or a point and forms an unsigned decimal literal reads as that literal's value |
| JsNumbers.NumeralReadsAsValue | src/app/v1/modules/Friend/friend.validation.ts:18-21 | `transform(Number)` after the `^\d+$` test gives the numeral's decimal value |
| JsNumbers.DecimalPointReading | src/app/v1/validation/params.validation.ts:11-17 | digits, a point and digits read as the whole part plus the fraction over the matching power of ten |
| JsNumbers.ZeroFractionReading | src/app/v1/validation/params.validation.ts:11-17 | a zero fraction leaves the whole part, so `3.0` reads as the integer 3 |
| JsNumbers.ExponentReading | src/app/v1/validation/params.validation.ts:19-26 | digits, `e` and a decimal exponent read as the digits times that power of ten |
| JsNumbers.WordIsNaN | src/app/v1/validation/params.validation.ts:11-17 | text that starts with a letter other than the `I` of `Infinity` reads as NaN |
| JsNumbers.SignsMirror | src/app/v1/builder/QueryBuilder.ts:61-64 | a leading minus reads as the negation of the same text with a leading plus |
| JsNumbers.ReadsIntToString | src/app/v1/builder/QueryBuilder.ts:61-64 | reading back the decimal spelling of any integer gives that integer |
| Text.Utf16Length | src/app/v1/validation/params.validation.ts:28-32 | JavaScript's `length`: between one and two units per character, exactly one per character when none is astral and exactly two when all are |
| Text.Utf16LengthAppend | src/app/v1/validation/params.validation.ts:28-32 | the code-unit length of a concatenation is the sum of the parts' lengths |
| Text.TrimKeeps | src/app/v1/utils/zodWithInputSanitize.ts:16 | text with no whitespace at either end is its own trim |
| Text.DigitsValueAppend | src/app/v1/builder/QueryBuilder.ts:61-64 | the value of two digit strings written one after the other is the first shifted by the second's length plus the second |
| Text.NatToString | src/app/v1/modules/User/user.util.ts:20-21 | the decimal spelling of a natural number: digits only, no leading zero, and its value is the number |
| Text.IntToString | src/app/v1/builder/QueryBuilder.ts:88 | the spelling of an integer as a template literal prints it: a minus before the natural spelling of its magnitude |
| Text.ThreeDigits | src/app/v1/modules/User/user.util.ts:20-21 | a suffix in 100..999 prints as exactly three digits with no leading zero, whose value is the suffix |
| Zod.FieldIssue | src/app/v1/modules/Auth/auth.validation.ts:86-96 | a failing refinement reports exactly one custom issue on the field; a passing one reports none |
| Zod.UnknownKeys | src/app/v1/utils/zodWithInputSanitize.ts:52 | the unrecognized keys are exactly the body's keys the schema does not list |
| Zod.StrictIssues | src/app/v1/utils/zodWithInputSanitize.ts:52 | `.strict()` reports nothing exactly when every key is known, and otherwise a single issue naming the unknown keys |
| Zod.Get | src/app/v1/utils/zodWithInputSanitize.ts:59-61 | a field read returns a value stored under that key, and nothing exactly when the key is absent |
| Zod.SourcePath | src/app/v1/errors/handleZodError.ts:13-16 | the path shown is the joined unknown keys for an unknown-keys issue, else the issue's last path element, or "" when that is missing or falsy |
| Zod.SourceOf | src/app/v1/errors/handleZodError.ts:9-21 | an unknown-keys issue gets the "Unknown field in req body" message naming the keys; any other issue keeps its own message |
| Zod.HandleZodError | src/app/v1/errors/handleZodError.ts:5-28 | every schema failure becomes 400 "Validation failed !" with one error source per issue, in issue order |
| Zod.HandleZodErrorConcat | src/app/v1/errors/handleZodError.ts:9-21 | the mapping is piecewise: the sources of two issue lists joined are the joined sources |
| Zod.FirstIndexShowsEmpty | src/app/v1/errors/handleZodError.ts:13-16 | an issue whose path ends in array index 0 shows the path "" because 0 is falsy |
| Blocks.FindBetween | src/app/v1/modules/Block/block.utils.ts:12-19 | the `$or` query finds the first edge between the two users in either direction, and none exactly when no such edge exists |
| Blocks.CheckMutualBlock | src/app/v1/modules/Block/block.utils.ts:8-32 | the gate fails with 403 exactly when either user has blocked the other; a one-sided block names its direction ("You blocked the user." or "The user blocked you.") |
| Blocks.MutualBlockSymmetric | src/app/v1/modules/Block/block.utils.ts:8-32 | the gate is symmetric: it fails for (a, b) exactly when it fails for (b, a) |
| Blocks.BlockedBy | src/app/v1/modules/Block/block.utils.ts:35-37 | the ids `me` blocked are exactly the targets of `me`'s edges |
| Blocks.BlockersOf | src/app/v1/modules/Block/block.utils.ts:39-41 | the ids that blocked `me` are exactly the sources of edges aimed at `me` |
| Blocks.ExcludedUserIds | src/app/v1/modules/Block/block.utils.ts:34-44 | the excluded ids are exactly the users on either side of a block with `me`; each half is free of repeats |
| Blocks.ExcludedIdsMayRepeat | src/app/v1/modules/Block/block.utils.ts:43 | the two halves are concatenated without de-duplication, so two users who block each other appear twice |
| Blocks.Block | src/app/v1/modules/Block/block.service.ts:9-39 | self-block is 400, an unknown or permanently deleted target is 404, an existing edge in the same direction is 409; otherwise exactly one new edge is appended and nothing else changes |
| Blocks.FindEdge | src/app/v1/modules/Block/block.service.ts:51-54 | `findOneAndDelete` picks the first edge in that direction, and finds none exactly when the user is not blocked |
| Blocks.Unblock | src/app/v1/modules/Block/block.service.ts:41-63 | an unknown target is 404 and a missing edge is 404; otherwise only the first matching edge is removed and every other edge keeps its place |
| Blocks.BlockKeepsInvariants | src/app/v1/modules/Block/block.service.ts:9-39 | a successful block keeps at most one edge per ordered pair and no self-edge, and the mutual-block gate then fails in both directions |
| Blocks.BlockUnblockRoundTrip | src/app/v1/modules/Block/block.service.ts:9-63 | unblocking right after a block restores the store exactly |
| Blocks.UnblockRemovesTheEdge | src/app/v1/modules/Block/block.service.ts:41-63 | with unique pairs, after an unblock no edge for that pair remains and the pairs stay unique |
| Blocks.RemovedPairIsGone | src/app/v1/modules/Block/block.service.ts:51-54 | with unique pairs, deleting an edge leaves no edge for its pair |
| Blocks.RemovalKeepsPairsUnique | src/app/v1/modules/Block/block.service.ts:51-54 | deleting any edge keeps the pairs unique |
| Blocks.EdgesOf | src/app/v1/modules/Block/block.service.ts:66 | `find({ blockerId })` returns exactly the stored edges `me` created |
| Blocks.FirstFor | src/app/v1/modules/Block/block.service.ts:78-80 | the matched block belongs to that user, none exactly when the user has no block, and on a newest-first list it is that user's newest block |
| Blocks.Entries | src/app/v1/modules/Block/block.service.ts:77-86 | every row is a profile paired with a matching block's time, and every profile with a matching block yields a row |
| Blocks.EntryFacts | src/app/v1/modules/Block/block.service.ts:65-97 | a row names a user `me` blocked who has a profile, and carries the time of `me`'s newest block of that user |
| Blocks.BlockedList | src/app/v1/modules/Block/block.service.ts:65-97 | the list is sorted newest first, each row names a blocked user with a profile, and every blocked user with a profile appears |
| Blocks.BlockedHasFirst | src/app/v1/modules/Block/block.service.ts:78-80 | every user `me` blocked has a matching block in the newest-first list |
| Blocks.BlockedListRows | src/app/v1/modules/Block/block.service.ts:65-97 | every row of the list is a user `me` blocked, with a profile, dated by the newest such block |
| Friends.FindForward | src/app/v1/modules/Friend/friend.service.ts:67-72 | the lookup finds the first `sender -> receiver` edge, and none exactly when no such edge exists |
| Friends.FindById | src/app/v1/modules/Friend/friend.service.ts:128-130 | `findById` finds the first edge with that id, and none exactly when no edge has it |
| Friends.ForwardCheck | src/app/v1/modules/Friend/friend.service.ts:67-90 | the last steps of the send ladder: no forward edge lets the request through; otherwise the edge's status chooses 400 already sent, 409 already friend or 400 previously rejected |
| Friends.SendRequest | src/app/v1/modules/Friend/friend.service.ts:19-115 | the ladder in source order (self 400, mutual block 403, receiver missing 404, not active 400, reverse pending 400, forward edge); success appends exactly one pending request |
| Friends.SendRequestChecked | src/app/v1/modules/Friend/friend.service.ts:54-90 | the ladder with the reverse accepted edge also refused; otherwise identical to the code's ladder |
| Friends.Accept | src/app/v1/modules/Friend/friend.service.ts:117-185 | self 400, missing 404, not the receiver 403, accepted 400, rejected 409; success only when the request is pending and addressed to the caller, and only that edge's status changes |
| Friends.Reject | src/app/v1/modules/Friend/friend.service.ts:187-239 | the accept ladder with the reject messages; success only on a pending request addressed to the caller, and only its status becomes rejected (no `rejectedAt` stamp) |
| Friends.RejectChecks | src/app/v1/modules/Friend/friend.service.ts:191-225 | the reject refusals pass exactly for a pending request addressed to the caller, and return its position |
| Friends.RejectIntended | src/app/v1/modules/Friend/friend.model.ts:29-30 | the same refusals as the code, and a successful reject also stamps `rejectedAt` so the expiry index can remove the edge |
| Friends.ExpireRejected | src/app/v1/modules/Friend/friend.model.ts:29-30 | one sweep of the TTL index keeps exactly the edges that are not seven days past their `rejectedAt` |
| Friends.RejectedNeverExpires | src/app/v1/modules/Friend/friend.service.ts:227-235 | as written, a rejected edge has no `rejectedAt` and no sweep at any time removes it |
| Friends.RejectedIntendedExpires | src/app/v1/modules/Friend/friend.model.ts:29-30 | with the stamp, a sweep seven days after the rejection removes the rejected edge |
| Friends.Undo | src/app/v1/modules/Friend/friend.service.ts:241-284 | self 400, missing 404, not the sender 403, accepted 400, rejected 400; success only for the sender's pending request, which is deleted while the other edges keep their order |
| Friends.FindBetween | src/app/v1/modules/Friend/friend.service.ts:581-588 | the `$or` lookup finds the first edge between the two users in either direction, none exactly when there is none |
| Friends.Unfriend | src/app/v1/modules/Friend/friend.service.ts:573-613 | self 400, no edge 404, a first edge that is not accepted 400; otherwise that edge is deleted, and the reply is the other user's profile name, or a 500 from reading the name of a missing profile, with the edge already gone |
| Friends.Counterparts | src/app/v1/modules/Friend/friend.utils.ts:7-18 | `distinct` over one direction and status gives exactly the counterparts linked that way |
| Friends.FriendIds | src/app/v1/modules/Friend/friend.utils.ts:5-24 | the friend ids are exactly the users joined to `me` by an accepted edge, in either direction |
| Friends.FollowingIds | src/app/v1/modules/Friend/friend.utils.ts:15-23 | the following ids are exactly the receivers of `me`'s pending requests, without repeats |
| Friends.NeitherListForOtherEdges | src/app/v1/modules/Friend/friend.utils.ts:5-24 | received-pending and rejected edges put a user in neither list |
| Friends.FriendsAndFollowingDisjoint | src/app/v1/modules/Friend/friend.utils.ts:5-24 | while a pending request is the only live edge of its pair, nobody is both a friend and a following |
| Friends.SendBreaksDisjointness | src/app/v1/modules/Friend/friend.service.ts:54-90 | as written, a user can send a request to someone who is already a friend through the reverse edge; that user is then both a friend and a following |
| Friends.SendCheckedKeepsInvariant | src/app/v1/modules/Friend/friend.service.ts:19-115 | the checked send keeps "a pending request is alone on its pair" and one edge per ordered pair |
| Friends.AcceptKeepsInvariant | src/app/v1/modules/Friend/friend.service.ts:117-185 | accepting keeps both store invariants |
| Friends.RejectKeepsInvariant | src/app/v1/modules/Friend/friend.service.ts:187-239 | rejecting keeps both store invariants |
| Friends.RemoveKeepsInvariant | src/app/v1/modules/Friend/friend.service.ts:281 | deleting any one edge keeps both store invariants |
| Friends.UndoKeepsInvariant | src/app/v1/modules/Friend/friend.service.ts:241-284 | undoing keeps both store invariants |
| Friends.UnfriendKeepsInvariant | src/app/v1/modules/Friend/friend.service.ts:573-613 | unfriending keeps both store invariants |
| Friends.EdgeRows | src/app/v1/modules/Friend/friend.service.ts:300-318 | the `$lookup` of profiles gives one row per profile of the other user, stamped with the edge's time |
| Friends.Rows | src/app/v1/modules/Friend/friend.service.ts:286-372 | the counted rows are exactly those of selected edges whose other user is active and has a profile |
| Friends.List | src/app/v1/modules/Friend/friend.service.ts:286-571 | the three lists succeed exactly when page 1 is asked for or the window starts inside the rows; failures are 404; the total counts every row, the page is the query's window of all rows ordered by time in the query's direction, and the page count is the rows over the limit, rounded up; every served row is genuine |
| Paging.PageIssues | src/app/v1/modules/Friend/friend.validation.ts:15-24 | `page` passes exactly when it is a numeral above 0; a non-numeral also goes through the second refinement on the raw text, where `val > 0` compares `Number(val)`, and draws that issue too exactly when the reading is not above 0 |
| Paging.LimitIssues | src/app/v1/modules/Friend/friend.validation.ts:26-35 | `limit` passes exactly when it is a numeral in 1..1000; a non-numeral draws the range issue too exactly when `Number(val)` is not in (0, 1000] |
| Paging.WordDrawsTwoPageIssues | src/app/v1/modules/Friend/friend.validation.ts:15-24 | a word for `page` draws both the numeral issue and the "greater than 0" issue, since the range refinement sees `NaN` |
| Paging.FractionDrawsOnePageIssue | src/app/v1/modules/Friend/friend.validation.ts:15-24 | a decimal fraction with a whole part above 0 (`1.5`) draws only the numeral issue: the range refinement reads it as above 0 |
| Paging.SortIssues | src/app/v1/modules/Friend/friend.validation.ts:37-43 | `sort` passes exactly for "1" and "-1" |
| Paging.ParsePageQuery | src/app/v1/modules/Friend/friend.validation.ts:14-44 | the query parses exactly when page, limit and sort (after defaults) all pass; the parsed values are their numeric readings; failures list one to five issues in field order |
| Paging.InFieldOrder | src/app/v1/modules/Friend/friend.validation.ts:14-44 | the issues of page, limit and sort come in that order |
| Paging.PageQueryDefaults | src/app/v1/modules/Friend/friend.validation.ts:17-39 | an empty query means page 1, 20 per page, descending |
| Paging.CeilDiv | src/app/v1/modules/Friend/friend.service.ts:346 | `Math.ceil(n / d)` is the least number of pages of size d that hold n items, zero exactly for n = 0 |
| Paging.CheckPage | src/app/v1/modules/Friend/friend.service.ts:346-364 | a page is refused exactly when it is past page 1 and its first item does not exist; refusals are 404, and the "No results found" message is used exactly when the result is empty |
| Paging.MissingIsNotEmpty | src/app/v1/modules/Friend/friend.service.ts:348-358 | the two refusal messages differ, so a client can tell "past the last page" from "no results" |
| Paging.Window | src/app/v1/modules/Friend/friend.service.ts:333-337 | `$skip` then `$limit` keeps at most `limit` items: the run of items starting after the earlier pages, in order |
| Paging.EveryItemHasItsPage | src/app/v1/modules/Friend/friend.service.ts:333-364 | every item is served: item i is on page i div limit + 1, at position i mod limit, and that page passes the guards |
| Paging.ServedPageIsNonEmpty | src/app/v1/modules/Friend/friend.service.ts:333-364 | a page that passes the guards on a non-empty result holds at least one item |
| Paging.SortBy | src/app/v1/modules/Friend/friend.service.ts:335 | `$sort` on the time field gives a permutation of the rows, ascending for 1 and descending otherwise |
| Paging.ListPage | src/app/v1/modules/Friend/friend.service.ts:286-372 | a list page succeeds exactly when it is page 1 or starts inside the rows; it counts every row and echoes the query; the page is the window of the rows ordered in the query's direction, full unless it is the last, newest first for -1, and the page count is the rows over the limit rounded up |
| Paging.WindowKeepsOrder | src/app/v1/modules/Friend/friend.service.ts:333-337 | a window of a newest-first list is newest first |
| Paging.ListPageServesEveryRow | src/app/v1/modules/Friend/friend.service.ts:333-364 | every row of the ordered list is served, at the position its index gives on the page its index gives |
| Paging.WindowIsSubMultiset | src/app/v1/modules/Friend/friend.service.ts:333-337 | a window only takes items from the list, never adds or repeats one |
| QueryBuilder.SearchTerm | src/app/v1/builder/QueryBuilder.ts:22 | the search term is the query's string `searchTerm`, and "" when it is absent or not a string |
| QueryBuilder.Search | src/app/v1/builder/QueryBuilder.ts:21-35 | `search` throws exactly when the term is not a pattern `new RegExp` accepts; otherwise it adds exactly one condition, a case-insensitive match of the term on any of the fields, and leaves the rest of the query alone |
| QueryBuilder.EmptySearchKeepsDocsWithAField | src/app/v1/builder/QueryBuilder.ts:21-35 | with no search term the condition keeps exactly the documents that have at least one of the searchable fields |
| QueryBuilder.EqConds | src/app/v1/builder/QueryBuilder.ts:48 | one equality condition per query key, in key order |
| QueryBuilder.KeepUnreserved | src/app/v1/builder/QueryBuilder.ts:39-46 | the kept keys are exactly the query keys other than searchTerm, sort, limit, page and fields |
| QueryBuilder.Filter | src/app/v1/builder/QueryBuilder.ts:37-51 | `filter` keeps the earlier conditions and adds an equality for exactly the non-reserved query keys, with their values |
| QueryBuilder.FilterSelects | src/app/v1/builder/QueryBuilder.ts:37-51 | after `filter`, a document is selected exactly when the earlier conditions hold and it agrees with every non-reserved query key |
| QueryBuilder.ListArg | src/app/v1/builder/QueryBuilder.ts:53-59 | a sort or select list: absent or empty gives the fallback, a string has commas replaced by spaces, and a number has no `split`, so the chain throws |
| QueryBuilder.Sort | src/app/v1/builder/QueryBuilder.ts:53-59 | `sort` fails exactly for a numeric `sort`; otherwise it only sets the sort list, defaulting to newest first |
| QueryBuilder.Fields | src/app/v1/builder/QueryBuilder.ts:70-76 | `fields` fails exactly for a numeric `fields`; otherwise it only sets the select list, defaulting to hiding the version key |
| QueryBuilder.NumberOr | src/app/v1/builder/QueryBuilder.ts:62-63 | `Number(x) \|\| d` is never 0 unless the fallback is; a missing key, a zero and NaN give the fallback; text reading as a whole number other than 0 gives that number |
| QueryBuilder.Paginate | src/app/v1/builder/QueryBuilder.ts:61-68 | `paginate` sets limit (default 0, no limit) and skip = (page - 1) * limit, and changes nothing else |
| QueryBuilder.Build | src/app/v1/builder/QueryBuilder.ts:21-76 | the usual chain succeeds exactly when the search term is a pattern and neither sort nor fields is numeric; it keeps the base conditions first, then the search condition, and takes the limit from the query |
| QueryBuilder.Matching | src/app/v1/builder/QueryBuilder.ts:79-80 | the counted documents are exactly the stored documents the conditions select |
| QueryBuilder.CountIgnoresPaging | src/app/v1/builder/QueryBuilder.ts:79-80 | `countDocuments(getFilter())` depends on the conditions only, never on skip or limit |
| QueryBuilder.Apply | src/app/v1/builder/QueryBuilder.ts:65 | the served documents are the run of selected documents after `skip`, at most `limit` of them, all of them when the limit is 0 |
| QueryBuilder.JsCeilDiv | src/app/v1/builder/QueryBuilder.ts:83 | `Math.ceil(n / d)` agrees with the page count for positive d and is never positive for negative d |
| QueryBuilder.PaginateMeta | src/app/v1/builder/QueryBuilder.ts:78-98 | as written, it fails with 400 exactly when there are fewer items than the page number, and otherwise echoes limit-or-20 and page-or-1 with the page count |
| QueryBuilder.PaginateMetaMisjudgesPages | src/app/v1/builder/QueryBuilder.ts:85-90 | the guard refuses page 1 of an empty result and serves page 3 of a 5-item, single-page result |
| QueryBuilder.PaginateMetaIntended | src/app/v1/builder/QueryBuilder.ts:78-98 | an empty result gives a zeroed meta, and otherwise a page fails with 400 exactly when it is past the last page |
| QueryBuilder.PaginateMetaIntendedServesExactlyFilledPages | src/app/v1/builder/QueryBuilder.ts:78-98 | with the corrected guard, a page of a non-empty result is served exactly when its first item exists |
| QueryParams.RecogniseReadsPieces | src/app/v1/validation/params.validation.ts:5-7 | the character-level reading of the three regular expressions accepts a string exactly when its comma-separated pieces are valid segments |
| QueryParams.ReadsPiecesAtComma | src/app/v1/validation/params.validation.ts:5-7 | a comma ends a piece only after at least one word character, and what follows is read as a fresh list |
| QueryParams.ReadsPiecesInPiece | src/app/v1/validation/params.validation.ts:5-7 | any other character extends the current piece: a dash only at its start, where the rule allows one, then word characters |
| QueryParams.RecogniseIsCommaList | src/app/v1/validation/params.validation.ts:5-7 | each regular expression matches exactly the comma lists whose every piece fits its dash rule |
| QueryParams.FieldsNeverMix | src/app/v1/validation/params.validation.ts:34-44 | an accepted `fields` list is all-excluded or all-included, and every piece is a field name with at most one leading dash |
| QueryParams.MixedListIsSortOnly | src/app/v1/validation/params.validation.ts:34-53 | "a,-b" is accepted as a sort but refused as a projection |
| QueryParams.PageIssues | src/app/v1/validation/params.validation.ts:11-17 | an optional `page` passes exactly when `Number` reads it as a whole number of at least 1; NaN draws the type issue alone; otherwise a non-whole reading draws the integer issue and one below 1 the minimum issue, two exactly when both hold |
| QueryParams.ZeroFractionPageAccepted | src/app/v1/validation/params.validation.ts:11-17 | a page written with a zero fraction such as `3.0` passes |
| QueryParams.NegativeInfinityPage | src/app/v1/validation/params.validation.ts:11-17 | `-Infinity` for `page` draws the integer issue and the minimum issue, in that order |
| QueryParams.WordPage | src/app/v1/validation/params.validation.ts:11-17 | a word for `page` draws the "valid integer" type issue alone |
| QueryParams.LimitIssues | src/app/v1/validation/params.validation.ts:19-26 | an optional `limit` passes exactly when `Number` reads it as a whole number in 1..1000; NaN draws the type issue alone; otherwise integer, minimum and maximum issues, in that order, two exactly when it is not whole and out of range |
| QueryParams.ExponentLimitAccepted | src/app/v1/validation/params.validation.ts:19-26 | a limit in exponent notation such as `1e3` passes when its value is in 1..1000 |
| QueryParams.InfinityLimit | src/app/v1/validation/params.validation.ts:19-26 | `Infinity` for `limit` draws the integer issue and the maximum issue |
| QueryParams.SearchIssues | src/app/v1/validation/params.validation.ts:28-32 | an optional search term passes exactly when, trimmed, it has at most 200 UTF-16 code units |
| QueryParams.FieldsIssues | src/app/v1/validation/params.validation.ts:34-44 | optional `fields` pass exactly when, trimmed, they match the all-negative or the all-positive list |
| QueryParams.SortIssues | src/app/v1/validation/params.validation.ts:46-53 | an optional `sort` passes exactly when, trimmed, it matches the sort list |
| QueryParams.QueryIssues | src/app/v1/validation/params.validation.ts:9-55 | the schema reports nothing exactly when every given field is acceptable, and at most seven issues: two each for page and limit, one for each text field |
| QueryParams.CoerceAll | src/app/v1/validation/params.validation.ts:9-55 | the parsed query keeps every key (passthrough); page and limit become the integers `Number` reads, the three text fields are trimmed, and other keys are unchanged |
| QueryParams.ValidateQuery | src/app/v1/validation/params.validation.ts:9-55 | the query parses exactly when it is acceptable, and then yields the coerced query; otherwise one to seven issues |
| QueryParams.ParsedQueryNumbers | src/app/v1/validation/params.validation.ts:11-26 | after a successful parse the builder reads a page of at least 1, a page size of at most 1000 (0 when unset), and sort and fields as text |
| QueryParams.ValidatedQueryBuilds | src/app/v1/builder/QueryBuilder.ts:21-76 | a query that passed the schema builds exactly when its trimmed search term is a pattern (sort and fields are strings, so the split/join chain cannot throw), and then has a page size of at most 1000 and a skip that is never negative |
| QueryParams.SchemaPassesUnparsableTerm | src/app/v1/builder/QueryBuilder.ts:21-23 | the schema accepts the search term `c++`, which is no pattern, and the builder then throws |
| QueryParams.AstralTermTooLong | src/app/v1/validation/params.validation.ts:28-32 | a term of 101 astral characters is 202 code units long and draws the length issue |
| Posts.FindPost | src/app/v1/modules/Post/post.service.ts:80 | `findById` returns a stored post with that id, and none exactly when no post has it |
| Posts.MissingTags | src/app/v1/modules/Post/post.service.ts:28-38 | the reported tags are exactly the tagged ids that name no verified, active user |
| Posts.MissingTagsKeepsOrder | src/app/v1/modules/Post/post.service.ts:38 | the missing tags keep input order: the missing tags of two lists joined are their missing tags joined |
| Posts.CreatePost | src/app/v1/modules/Post/post.service.ts:15-52 | creation succeeds exactly when the tags have no repeats and all name taggable users, then appends the post; repeated tags are 400, and otherwise the missing tags are listed in a 404 |
| Posts.GetPostById | src/app/v1/modules/Post/post.service.ts:79-112 | a missing post is 404; the post is returned exactly when the caller owns it or it is neither private nor removed; a stranger's private or removed post is 403 with the matching message |
| Posts.CreatedPostOpens | src/app/v1/modules/Post/post.service.ts:15-112 | a post stored under a fresh id is then returned by id to its owner, and to anyone else exactly when it is neither private nor removed |
| Posts.PostsByUserGuard | src/app/v1/modules/Post/post.service.ts:119-134 | another user's posts are listed only when the caller is someone else and the owner is found and active; self is 400, missing 404, inactive 400 |
| Posts.PostsByUserQuery | src/app/v1/modules/Post/post.service.ts:138-150 | when the builder does not throw, the list query starts with the fixed owner, active-status and non-private conditions and then follows the builder chain |
| Posts.OwnerFilterIsStrangerView | src/app/v1/modules/Post/post.service.ts:139-143 | the fixed filter selects exactly the owner's posts that a stranger may open one by one |
| Posts.ListedPostsAreViewable | src/app/v1/modules/Post/post.service.ts:114-165 | every post the list selects belongs to the owner and could be opened by the caller |
| PostAppeals.FindOpen | src/app/v1/modules/PostAppeal/postAppeal.service.ts:40-46 | the lookup finds a stored, not approved appeal by the caller for the post, and none exactly when there is none |
| PostAppeals.CreateAppeal | src/app/v1/modules/PostAppeal/postAppeal.service.ts:14-61 | missing post 404, another user's post 403, an active post 400, an open appeal 400 naming its status; otherwise exactly one pending appeal is appended |
| PostAppeals.CreateKeepsOneOpen | src/app/v1/modules/PostAppeal/postAppeal.service.ts:40-58 | creation keeps at most one open appeal per user and post |
| PostAppeals.SecondAppealRefused | src/app/v1/modules/PostAppeal/postAppeal.service.ts:40-53 | appealing twice in a row: the second appeal is refused with 400 naming the first one's pending status |
| Reactions.ParseType | src/app/v1/modules/Reaction/reaction.constant.ts:1-10 | a name parses to the type it spells, and to nothing exactly when no type has that name |
| Reactions.ParseTypeName | src/app/v1/modules/Reaction/reaction.constant.ts:1-10 | the type names are distinct: parsing a type's name gives that type back |
| Reactions.ParseTarget | src/app/v1/modules/Reaction/reaction.constant.ts:12-16 | a name parses to the target kind it spells, and to nothing exactly when no kind has that name |
| Reactions.FindReaction | src/app/v1/modules/Reaction/reaction.service.ts:34-40 | the lookup finds the first reaction of the user on the target, none exactly when there is none |
| Reactions.Toggle | src/app/v1/modules/Reaction/reaction.service.ts:12-86 | only a post target is checked (404); with no reaction, no type is 400 and a type adds one; with one, the same type changes nothing, no type removes it, another type replaces its type in place; every outcome names what happened |
| Reactions.ToggleKeepsOnePerKey | src/app/v1/modules/Reaction/reaction.service.ts:65-81 | the upsert keeps one reaction per user and target |
| Reactions.ReactThenRemoveRestores | src/app/v1/modules/Reaction/reaction.service.ts:56-81 | reacting where there was none and then toggling off restores the store exactly |
| Reactions.AppendedIsFound | src/app/v1/modules/Reaction/reaction.service.ts:34-40 | a newly added reaction is the one the next lookup finds |
| Reactions.SameReactionTwiceIsStable | src/app/v1/modules/Reaction/reaction.service.ts:49-54 | reacting twice with the same type: the second call reports "already reacted" and changes nothing |
| Reactions.CountType | src/app/v1/modules/Reaction/reaction.service.ts:190 | the count of one type on a target never exceeds the store size |
| Reactions.CountTarget | src/app/v1/modules/Reaction/reaction.service.ts:199 | the count of reactions on a target never exceeds the store size |
| Reactions.Groups | src/app/v1/modules/Reaction/reaction.service.ts:190 | `$group` gives one entry per type that occurs on the target, with that type's count, and no entry for an absent type |
| Reactions.TypeCountsAddUp | src/app/v1/modules/Reaction/reaction.service.ts:186-205 | the per-type counts add up to the target's total |
| Reactions.SumGroups | src/app/v1/modules/Reaction/reaction.service.ts:190 | leaving out zero-count types does not change the sum over types |
| Reactions.SumTypesStep | src/app/v1/modules/Reaction/reaction.service.ts:190 | a sum over types splits into the first reaction's share and the rest |
| Reactions.SumTypesOfNothing | src/app/v1/modules/Reaction/reaction.service.ts:190 | with no reactions every type's count is zero |
| Reactions.EachTypeOnce | src/app/v1/modules/Reaction/reaction.constant.ts:1-10 | every reaction type occurs exactly once among the declared types |
| Reactions.OccursOnce | src/app/v1/modules/Reaction/reaction.constant.ts:1-10 | a value in a list without repeats occurs exactly once |
| Reactions.OccursNever | src/app/v1/modules/Reaction/reaction.constant.ts:1-10 | a value not in a list occurs zero times |
| Reactions.SumOverAllTypes | src/app/v1/modules/Reaction/reaction.service.ts:186-205 | summing the type counts over all declared types gives the target's total, since each reaction has exactly one type |
| Reactions.Totals | src/app/v1/modules/Reaction/reaction.service.ts:181-211 | with the groups in any order of all the types, the totals are the per-type groups plus a "total" entry, reordered by descending count without losing or adding an entry: no entry twice, every type that occurs with its count, and nothing but those and the total |
| Reactions.TotalsGroupsAddUp | src/app/v1/modules/Reaction/reaction.service.ts:190-205 | whatever order the groups come in, their counts add up to the target's total |
| Reactions.GroupsNoDup | src/app/v1/modules/Reaction/reaction.service.ts:190-198 | `$group` by type yields no group twice |
| Reactions.TotalsLeadWithTotal | src/app/v1/modules/Reaction/reaction.service.ts:205-211 | the first entry always carries the target's total count |
| Reactions.Newest | src/app/v1/modules/Reaction/reaction.service.ts:213-216 | the newest reaction on the target, present exactly when the target has a reaction, and no reaction on the target is newer |
| Reactions.LastNameAsWritten | src/app/v1/modules/Reaction/reaction.service.ts:213-233 | as written: a name exactly when some profile document's own id equals the newest reactor's user id, and then that document's name |
| Reactions.LastName | src/app/v1/modules/Reaction/reaction.service.ts:213-233 | corrected: a name exactly when the newest reactor has a profile, and then that profile's name |
| Reactions.AsWrittenNameNeverFound | src/app/v1/modules/Reaction/reaction.service.ts:217-224 | with ids unique across collections the written join never finds a profile, so the name is always absent, while the corrected join finds the newest reactor's profile whenever there is one |
| Reactions.GetTotals | src/app/v1/modules/Reaction/reaction.service.ts:181-236 | the reply's first grouped entry carries its total, which is the target's reaction count; the name is the written lookup's |
| Reactions.GetTotalsIntended | src/app/v1/modules/Reaction/reaction.service.ts:181-236 | the same reply but for the name, which comes from the corrected lookup |
| Reactions.TypeWithinTarget | src/app/v1/modules/Reaction/reaction.service.ts:186-205 | no type's count exceeds the target's total |
| Reactions.ProfileRows | src/app/v1/modules/Reaction/reaction.service.ts:112-120 | the profile `$lookup` gives one row per profile of the reacting user, carrying the reaction's id, type and time |
| Reactions.ListRows | src/app/v1/modules/Reaction/reaction.service.ts:88-132 | the counted rows are exactly the reactions on the target (of the asked type, if any) by an active user with a profile |
| Reactions.GetReactions | src/app/v1/modules/Reaction/reaction.service.ts:88-174 | the list succeeds exactly when page 1 is asked for or the window starts inside the rows; failures are 404; the total counts every row, the page is the query's window of all rows ordered by creation time in the query's direction, and the page count is the rows over the limit, rounded up; every served row is genuine |
| Reactions.TargetTypeIssues | src/app/v1/modules/Reaction/reaction.validation.ts:28-40 | the target type passes exactly when it names one of post, comment and story; otherwise one issue with the enum message |
| Reactions.TargetIdIssues | src/app/v1/modules/Reaction/reaction.validation.ts:42-50 | the target id passes exactly when it is present and a valid object id; a missing id reports "Target ID is required" |
| Reactions.TypeIssues | src/app/v1/modules/Reaction/reaction.validation.ts:5-25 | the optional type passes exactly when it is absent or names a reaction type |
| Reactions.OptionalType | src/app/v1/modules/Reaction/reaction.validation.ts:5-25 | a present type is parsed to the type it names, an absent one stays absent |
| Reactions.ParseToggle | src/app/v1/modules/Reaction/reaction.validation.ts:27-53 | the toggle body parses exactly when target type, target id and optional type all pass, and keeps their values; otherwise one to three issues |
| Reactions.ParseListQuery | src/app/v1/modules/Reaction/reaction.validation.ts:55-111 | the list query parses exactly when the target fields, the optional type and the paging fields all pass; the paging part is the friend-list paging parse |
| Reactions.ParseCountsQuery | src/app/v1/modules/Reaction/reaction.validation.ts:113-116 | the counts query parses exactly when the two target fields pass, and returns them |
| Reactions.CountsQueryIgnoresOtherKeys | src/app/v1/modules/Reaction/reaction.validation.ts:113-116 | `pick` means keys other than the two target fields do not change the counts query's outcome |
| Comments.ActivePost | src/app/v1/modules/Comment/comment.service.ts:16-21 | the lookup returns a stored active post with that id, none exactly when there is none |
| Comments.FindComment | src/app/v1/modules/Comment/comment.service.ts:178-180 | `findById` finds the first comment with that id, none exactly when there is none |
| Comments.RepliesTo | src/app/v1/modules/Comment/comment.model.ts:9-11 | the reply count of a comment never exceeds the number of stored comments |
| Comments.RepliesToZero | src/app/v1/modules/Comment/comment.service.ts:141-160 | the reply count of a comment is zero exactly when no stored comment names it as parent, so refusing a comment as having no replies never hides a stored reply |
| Comments.Gate | src/app/v1/modules/Comment/comment.service.ts:27-54 | as written, a private post takes comments from its owner only, a friends post only from someone with an accepted edge to the owner (the owner included), a public post from anyone; refusals are 403 |
| Comments.GateIntended | src/app/v1/modules/Comment/comment.service.ts:27-54 | the gate with the owner also admitted on every audience of their own post; otherwise the same refusals |
| Comments.Fresh | src/app/v1/modules/Comment/comment.service.ts:94-106 | the stored comment keeps the request's post, author, text and parent, starts with no replies, unedited, and mentions only users named in the text |
| Comments.Bump | src/app/v1/modules/Comment/comment.service.ts:67-73 | `$inc: { replyCount: 1 }` raises exactly that comment's counter by one and changes nothing else |
| Comments.CreateOrReply | src/app/v1/modules/Comment/comment.service.ts:13-108 | as written: missing post 404, the gate's 403, then for a reply the parent's counter is bumped before the missing parent (404) and nested reply (400) checks; success stores the new comment |
| Comments.CreateOrReplyIntended | src/app/v1/modules/Comment/comment.service.ts:13-108 | corrected: every refusal leaves the store unchanged, the owner is admitted, and a success stores what the original stores |
| Comments.TopLevel | src/app/v1/modules/Comment/comment.service.ts:110-139 | an unknown post is 404; otherwise exactly the post's top-level comments, in the order the query's sort asks for and newest first when it asks for none |
| Comments.Replies | src/app/v1/modules/Comment/comment.service.ts:141-172 | an unknown comment is 404, a zero counter is 400; otherwise exactly the replies to it, oldest first |
| Comments.ListingsPartition | src/app/v1/modules/Comment/comment.service.ts:110-172 | with exact counters and stored parents, every comment of an existing post is listed either among its top-level comments (exactly when it has no parent) or among the replies of its own parent, and among no other comment's replies |
| Comments.CreateOrReplyKeepsParents | src/app/v1/modules/Comment/comment.service.ts:56-106 | creating or replying, as written and corrected, stores a reply only with a stored parent, so every reply's parent stays stored |
| Comments.UpdateKeepsParents | src/app/v1/modules/Comment/comment.service.ts:174-211 | an edit keeps every reply's parent stored |
| Comments.NoRepliesIsTrue | src/app/v1/modules/Comment/comment.service.ts:152-154 | while counters are never short, "This comment has no replies" is only said of a comment that really has none |
| Comments.NoRepliesIffNone | src/app/v1/modules/Comment/comment.service.ts:152-154 | with exact counters the 400 is said exactly of the comments without replies |
| Comments.Update | src/app/v1/modules/Comment/comment.service.ts:174-211 | an unknown comment is 404, someone else's 403; otherwise only that comment changes: new text, mentions re-read, marked edited |
| Comments.Delete | src/app/v1/modules/Comment/comment.service.ts:213-263 | unknown comment 404, unknown post 404, removed post 403, neither post owner nor author 403; otherwise the comment goes, with its replies when it is top level, and every other comment stays |
| Comments.RepliesToAppend | src/app/v1/modules/Comment/comment.service.ts:94-106 | storing one comment adds one reply to its parent's count and none to any other |
| Comments.RepliesToSameParents | src/app/v1/modules/Comment/comment.service.ts:197-208 | rewriting comments without moving them changes no reply count |
| Comments.RepliesToFilter | src/app/v1/modules/Comment/comment.service.ts:257-261 | deleting comments never adds replies |
| Comments.BumpKeepsCover | src/app/v1/modules/Comment/comment.service.ts:67-73 | a bump keeps every counter at or above its true reply count and changes no reply count |
| Comments.AppendKeepsCover | src/app/v1/modules/Comment/comment.service.ts:94-106 | storing a fresh comment with a zero counter keeps the counters covering when the parent was bumped |
| Comments.CreateOrReplyKeepsCover | src/app/v1/modules/Comment/comment.service.ts:13-108 | as written, creating or replying keeps every counter at or above its true reply count, but not exact |
| Comments.CreateOrReplyIntendedKeepsExact | src/app/v1/modules/Comment/comment.service.ts:13-108 | corrected, creating or replying keeps every counter equal to its true reply count |
| Comments.DeleteKeepsCover | src/app/v1/modules/Comment/comment.service.ts:213-263 | deleting keeps the counters covering, since replies only disappear |
| Comments.UpdateKeepsExact | src/app/v1/modules/Comment/comment.service.ts:174-211 | an edit keeps exact counters exact |
| Comments.UpdateIdempotent | src/app/v1/modules/Comment/comment.service.ts:174-211 | editing twice with the same text gives the same store as editing once |
| Comments.OwnerRefusedOnOwnFriendsPost | src/app/v1/modules/Comment/comment.service.ts:40-54 | the owner of a friends-only post is refused on it, since no one has an accepted edge to themself |
| Comments.OwnerMayComment | src/app/v1/modules/Comment/comment.service.ts:29-54 | corrected, the owner may comment on any active post of their own |
| Comments.NestedReplyLeavesBump | src/app/v1/modules/Comment/comment.service.ts:66-92 | replying to a reply is refused with 400, yet that reply's counter has gone up by one |
| Comments.NestedReplyIntendedLeavesStore | src/app/v1/modules/Comment/comment.service.ts:66-92 | corrected, a refused nested reply leaves the store unchanged |
| Stories.Audience | src/app/v1/modules/Story/story.service.ts:97-107 | everyone sees public stories; private ones only their owner; friends-only ones the owner or an accepted friend |
| Stories.AudienceWidens | src/app/v1/modules/Story/story.service.ts:97-107 | the owner sees every visibility any viewer sees, and every viewer sees public stories |
| Stories.FindStory | src/app/v1/modules/Story/story.service.ts:208-214 | the lookup by id finds the first story with that id, and finds none exactly when no story has it |
| Stories.FindLive | src/app/v1/modules/Story/story.service.ts:236-253 | the lookup by id and `expiresAt >= now` returns a live story with that id, and none exactly when no live story has it |
| Stories.CreateStory | src/app/v1/modules/Story/story.service.ts:21-48 | the story is appended with the mentioned users, the chosen or public visibility and a 24-hour lifetime; each mention gets one notification to that user, from the author, about the story, in mention order, after the existing ones |
| Stories.ActiveStoriesOf | src/app/v1/modules/Story/story.service.ts:79-125 | 404 exactly when the owner is unknown; otherwise exactly the owner's live stories whose visibility is in the caller's audience |
| Stories.GetStoryById | src/app/v1/modules/Story/story.service.ts:207-263 | 404 exactly when no story has the id; 400 when it is no longer live; 403 when its visibility is outside the caller's audience; success exactly when it is live and visible, returning that story |
| Stories.CreateStoryOpens | src/app/v1/modules/Story/story.service.ts:21-48 | a story just created opens by id for its owner, opens for another viewer exactly when its visibility is in that viewer's audience, and is among the owner's active stories |
| Stories.GetStoryAgreesWithActiveList | src/app/v1/modules/Story/story.service.ts:79-263 | with unique ids, a story opens by id exactly when it is in its owner's active list as the caller sees it |
| Stories.Archive | src/app/v1/modules/Story/story.service.ts:56-57 | the archive holds exactly the caller's stories whose expiry instant has passed or is now |
| Stories.ExpiryInstantIsInBoth | src/app/v1/modules/Story/story.service.ts:57-111 | at its expiry instant a story is both archived and still active for its owner, since both queries include the bound |
| Stories.ListArchive | src/app/v1/modules/Story/story.service.ts:50-77 | the archive listing fails exactly when the page meta fails, and otherwise reports the archive with its size as the total |
| Stories.Bump | src/app/v1/modules/Story/story.service.ts:144 | the counter of the story with that id rises by one and every other story stays as it was |
| Stories.Upsert | src/app/v1/modules/Story/story.service.ts:137-177 | a first view or reaction adds one row and bumps the story's count; a repeat updates only the reaction of the caller's existing row and leaves counts and every other row alone |
| Stories.CreateStoryView | src/app/v1/modules/Story/story.service.ts:127-148 | 404 exactly when the story is unknown; a repeat view changes nothing; a first view appends the caller's row without a reaction and raises that story's `viewCounts` by one, changing no other story |
| Stories.ReactInStory | src/app/v1/modules/Story/story.service.ts:150-179 | 404 for an unknown story, 400 exactly when the caller owns it; on success the caller's view row carries the reaction |
| Stories.UpsertFindsRow | src/app/v1/modules/Story/story.service.ts:137-177 | after an upsert the caller has a view row of the story, holding the reaction if one was given |
| Stories.ViewsOfAppend | src/app/v1/modules/Story/story.service.ts:137-146 | an added view row raises its own story's row count by one and no other story's |
| Stories.ViewsOfUpdate | src/app/v1/modules/Story/story.service.ts:170-175 | changing a row's reaction leaves every story's row count alone |
| Stories.UpsertKeepsCounts | src/app/v1/modules/Story/story.model.ts:92 | view and reaction upserts keep every story's counter equal to its number of view rows, and keep one row per viewer as the unique index demands |
| Stories.ViewingTwiceCountsOnce | src/app/v1/modules/Story/story.service.ts:127-148 | viewing a story a second time leaves stories and views exactly as the first view left them |
| Stories.GetStoryViews | src/app/v1/modules/Story/story.service.ts:181-205 | 404 exactly when the story is unknown, 400 for anyone but its owner; the owner gets exactly the story's view rows |
| Stories.ViewsOfIsFilter | src/app/v1/modules/Story/story.service.ts:181-205 | the rows the `{ storyId }` query returns number exactly the story's view rows |
| Stories.StoryViewsMatchCounter | src/app/v1/modules/Story/story.service.ts:181-205 | while the counters match the rows, the owner is shown exactly as many views as the story's `viewCounts` |
| Stories.DeleteStory | src/app/v1/modules/Story/story.service.ts:265-284 | 404 exactly when the story is unknown, 403 for anyone but its owner; the owner's delete removes just that story and exactly its view rows |
| Stories.DeleteKeepsCounts | src/app/v1/modules/Story/story.service.ts:265-284 | after a delete every remaining story's counter still equals its number of view rows |
| Stories.ViewsOfFilter | src/app/v1/modules/Story/story.service.ts:283 | deleting one story's view rows leaves every other story's row count |
| Stories.FeedIds | src/app/v1/modules/Story/story.service.ts:290-313 | the friends are exactly the other sides of the caller's accepted edges in either direction; the followings exactly the receivers of the caller's pending requests |
| Stories.FeedIdsAgreeWithFriendHelper | src/app/v1/modules/Friend/friend.utils.ts:5-24 | the feed's own loop and the friend helper name the same friends and the same followings |
| Stories.OtherAuthors | src/app/v1/modules/Story/story.service.ts:479-490 | the groups other than the caller's are keyed by exactly the distinct other authors of feed stories, each once |
| Stories.AuthorGroups | src/app/v1/modules/Story/story.service.ts:492-500 | the profile join gives one group per profile of the author and none for an author without a profile |
| Stories.StoriesBy | src/app/v1/modules/Story/story.service.ts:467-490 | a group's stories are exactly the author's feed stories, newest first |
| Stories.GroupsFor | src/app/v1/modules/Story/story.service.ts:479-500 | the groups for a list of authors are exactly the profile-named groups of those authors holding their stories |
| Stories.GroupFacts | src/app/v1/modules/Story/story.service.ts:479-500 | a group for an author who has feed stories is non-empty, newest first, under one of the author's profile names, and holds just that author's feed stories |
| Stories.Feed | src/app/v1/modules/Story/story.service.ts:286-515 | each group is non-empty, named by a profile of its author, newest first, and holds exactly that author's live stories the caller may see: their own, friends' friends-only or public ones, followings' public ones; every such story with a profiled author appears; the caller's group comes first |
| Stories.FeedGroupsHold | src/app/v1/modules/Story/story.service.ts:316-330 | every group of the feed holds exactly its author's visible live stories, newest first, under a profile name |
| Stories.FeedCoversStories | src/app/v1/modules/Story/story.service.ts:450-500 | no visible live story of an author with a profile is missing from the feed |
| Stories.OwnGroupFirst | src/app/v1/modules/Story/story.service.ts:458-511 | no other author's group comes before the caller's own |
| Mentions.Run | src/app/v1/modules/Comment/comment.utils.ts:4 | the greedy `[a-z0-9._]` run: a prefix of the text made of name characters that stops only at the end or at a character outside the class |
| Mentions.Capture | src/app/v1/modules/Comment/comment.utils.ts:4 | after an "@", a name is captured exactly when the following run has at least 3 characters; the capture is a prefix of the text, of 3..20 name characters |
| Mentions.Extract | src/app/v1/modules/Comment/comment.utils.ts:3-6 | every extracted name has 3..20 characters from `[a-z0-9._]`, and there are never more names than "@" characters |
| Mentions.ExtractIsPerAt | src/app/v1/modules/Comment/comment.utils.ts:3-6 | the left-to-right scan equals the per-"@" reading: for each "@" in order, its following run cut to 20 characters when that run has at least 3 |
| Mentions.PerAtSkipsNonAt | src/app/v1/modules/Comment/comment.utils.ts:4 | characters other than "@" start no capture |
| Mentions.RunStops | src/app/v1/modules/Comment/comment.utils.ts:4 | the run ends exactly where the first non-name character stands |
| Mentions.NoAtInNames | src/app/v1/modules/Comment/comment.utils.ts:4 | a run of name characters holds no "@", so a capture never swallows a later mention |
| Mentions.AtCountSplit | src/app/v1/modules/Comment/comment.utils.ts:4 | the "@" count of a text is the sum over any split of it, which bounds the names a scan can find |
| Mentions.SingleMention | src/app/v1/modules/Comment/comment.utils.ts:3-6 | "@bob" and " @bob" both yield the single name "bob" |
| Mentions.RepeatedMentionsKept | src/app/v1/modules/Comment/comment.utils.ts:4-5 | a name mentioned twice is extracted twice |
| Mentions.UserIds | src/app/v1/modules/Comment/comment.utils.ts:8-18 | no more ids than names; an id is in the result exactly when some name's lookup finds a user with that id, unknown names being dropped |
| Mentions.UserIdsKeepOrder | src/app/v1/utils/getMentionUserIdsFromContent.ts:10-17 | the lookups go one per name in order: resolving two name lists one after the other gives the concatenation of their ids |
| Mentions.MentionIds | src/app/v1/utils/getMentionUserIdsFromContent.ts:3-18 | the ids are no more than the extracted names and no more than the "@" characters of the content |
| Mentions.MentionedIdsAreUsers | src/app/v1/utils/getMentionUserIdsFromContent.ts:10-17 | every returned id belongs to a stored user, not permanently deleted, whose username was extracted from the content |
| Notifications.Inbox | src/app/v1/modules/Notification/notification.service.ts:14-20 | the inbox holds exactly the notifications addressed to the caller whose sender is absent or outside the caller's excluded ids |
| Notifications.InboxHidesBlockedSenders | src/app/v1/modules/Notification/notification.service.ts:14-20 | no listed notification has a sender on either side of a block with the caller |
| Notifications.ListNotifications | src/app/v1/modules/Notification/notification.service.ts:10-34 | the listing fails exactly when the page meta fails; the meta counts the whole inbox, and every listed notification is in it |
| Notifications.FindNote | src/app/v1/modules/Notification/notification.service.ts:37-43 | the lookup by id finds the first notification with that id, and none exactly when no notification has it |
| Notifications.OwnNote | src/app/v1/modules/Notification/notification.service.ts:37-50 | 404 exactly when no notification has the id, then 403 unless the caller is its receiver; success names that notification |
| Notifications.MarkAsRead | src/app/v1/modules/Notification/notification.service.ts:36-63 | fails exactly as the shared guard does, with its error; on success only the found notification changes, and only its read flag, which becomes true |
| Notifications.DeleteNotification | src/app/v1/modules/Notification/notification.service.ts:77-102 | fails exactly as the shared guard does, with its error; on success exactly the found notification is removed and the others keep their order |
| Notifications.UnreadCountRemove | src/app/v1/modules/Notification/notification.service.ts:104-111 | removing one notification lowers the unread count by one exactly when it was the caller's and unread |
| Notifications.DeleteNotificationRemoves | src/app/v1/modules/Notification/notification.service.ts:77-111 | with unique ids a deleted notification can no longer be found, and the unread count falls by one exactly when it was unread |
| Notifications.UnreadCount | src/app/v1/modules/Notification/notification.service.ts:104-111 | the count is zero exactly when the caller has no unread notification, and never exceeds the store |
| Notifications.MarkAllAsRead | src/app/v1/modules/Notification/notification.service.ts:65-75 | every unread notification of the caller becomes read, every other notification stays as it was, and the reported number equals the caller's unread count |
| Notifications.MarkAllAsReadClearsUnread | src/app/v1/modules/Notification/notification.service.ts:65-75 | afterwards the caller's unread count is 0, and a second call changes nothing and reports 0 |
| Notifications.MarkAsReadCountsDown | src/app/v1/modules/Notification/notification.service.ts:52-60 | marking an unread notification read lowers the unread count by one; marking a read one leaves it |
| Notifications.UnreadCountUpdate | src/app/v1/modules/Notification/notification.service.ts:104-111 | replacing one notification moves the unread count by exactly that notification's own contribution |
| Notifications.Recipients | src/app/v1/modules/Notification/notification.service.ts:120 | the broadcast reaches exactly the users not permanently deleted, since the find goes through the user query hook |
| Notifications.BroadcastNotes | src/app/v1/modules/Notification/notification.service.ts:113-130 | the existing notifications stay in place, followed by one unread system notification from the caller per recipient, in recipient order |
| Notifications.BroadcastReachesSender | src/app/v1/modules/Notification/notification.service.ts:120-127 | a caller who is a listed user receives their own broadcast |
| Accounts.UpdateFirst | src/app/v1/modules/User/user.service.ts:54-57 | a find-and-update changes only the first user its key finds, and nothing when the key finds none |
| Accounts.GetUser | src/app/v1/modules/User/user.service.ts:28-36 | 404 exactly when no findable user has the id; otherwise a stored user with that id that is not permanently deleted |
| Accounts.Deactivate | src/app/v1/modules/User/user.service.ts:54-65 | the caller's record alone becomes deactivated, every other field kept; with no findable caller nothing changes and no record is returned |
| Accounts.SoftDelete | src/app/v1/modules/User/user.service.ts:67-78 | the caller's record alone becomes soft-deleted and stamped with the deletion time; with no findable caller nothing changes |
| Accounts.Reactivate | src/app/v1/modules/User/user.service.ts:80-116 | 404 exactly when no user has the identifier as email or username, then 400 exactly on a wrong password; otherwise that user alone becomes active with no deletion time |
| Accounts.Suspend | src/app/v1/modules/User/user.service.ts:118-149 | 404 for an unknown user, then 400 if already suspended, then 403 for an admin or super admin; success exactly for a plain user not yet suspended, who alone becomes suspended with the reason |
| Accounts.Restore | src/app/v1/modules/User/user.service.ts:151-169 | 404 for an unknown user and 400 exactly for an active one; any other status becomes active with the reason cleared, nothing else changing |
| Accounts.Purge | src/app/v1/jobs/deleteUser.job.ts:11-17 | exactly the soft-deleted users whose deletion is strictly older than thirty days become permanently deleted; every other user and every other field stays |
| Accounts.PurgeIdempotent | src/app/v1/jobs/deleteUser.job.ts:11-17 | a second run at the same instant changes nothing |
| Accounts.PurgeBoundary | src/app/v1/jobs/deleteUser.job.ts:14 | a deletion exactly thirty days old survives the run; one millisecond later it is purged |
| Accounts.PurgeMonotone | src/app/v1/jobs/deleteUser.job.ts:13-14 | a user due for purging stays due at every later instant |
| Accounts.PurgedUserIsGone | src/app/v1/modules/User/user.model.ts:73-78 | after the purge a purged user matches no lookup key |
| Accounts.PermanentDeletedIsFinal | src/app/v1/modules/User/user.service.ts:54-169 | no lifecycle operation and no purge run changes a permanently deleted record |
| Accounts.SuspendThenRestore | src/app/v1/modules/User/user.service.ts:118-169 | restoring a just-suspended user succeeds and leaves the record active with an empty reason, every other field as before |
| Accounts.SoftDeleteThenReactivate | src/app/v1/modules/User/user.service.ts:67-116 | reactivating a just soft-deleted account, with the right password, gives back exactly the store before the deletion |
| Accounts.RestoreAndReactivateLiftAnyStatus | src/app/v1/modules/User/user.service.ts:80-169 | restore and reactivation both end in an active account whatever status they started from |
| Auth.NewUser | src/app/v1/modules/User/user.model.ts:27-60 | a new account starts active, a plain user, unverified, without badge and without deletion time |
| Auth.IndexClash | src/app/v1/modules/User/user.model.ts:7-19 | the unique indexes refuse a new user exactly when a stored user of any status already holds its email or its username |
| Auth.Register | src/app/v1/modules/Auth/auth.service.ts:33-103 | as written: 409 when a findable user has the email; otherwise the name comes from the written username loop, and the duplicate-key error when any stored user holds the email or that name; then a failed mail aborts with its error; success exactly otherwise, appending one unverified plain user with that name and the hashed password, whose email and name no stored user has, plus its profile |
| Auth.RegisterIntended | src/app/v1/modules/Auth/auth.service.ts:33-103 | corrected: 409 exactly when any stored user has the email, the name from the corrected loop; success needs only the mail, and the new user never clashes with the unique indexes |
| Auth.RegisterRefusedOverPurgedName | src/app/v1/modules/User/user.util.ts:19 | when only a permanently deleted user holds a full name's base, the written loop picks that base and registration fails on the unique index, while the corrected registration succeeds |
| Auth.CreateAdmin | src/app/v1/modules/Auth/auth.service.ts:356-410 | as written: 409 when a findable user has the email; the duplicate-key error when any stored user holds the email or the written loop's name; success exactly otherwise, appending one active, verified admin wearing the admin badge, with that name, plus its profile |
| Auth.CreateAdminIntended | src/app/v1/modules/Auth/auth.service.ts:356-410 | corrected: fails, with 409, exactly when any stored user has the email; otherwise appends a verified admin that never clashes with the unique indexes |
| Auth.RegisterKeepsLoginsUnique | src/app/v1/modules/User/user.model.ts:7-19 | a successful registration keeps every email and every username held by one user only |
| Auth.CreateAdminKeepsLoginsUnique | src/app/v1/modules/User/user.model.ts:7-19 | a successful admin creation keeps every email and every username held by one user only |
| Auth.Login | src/app/v1/modules/Auth/auth.service.ts:106-204 | checks in order: unknown identifier 404, deactivated 403, soft-deleted 403; an unverified account gets only its full name, store unchanged, before the password is looked at; then 400 exactly on a wrong password; success stamps only the last login time and issues both tokens for the user's email and role; a user without a profile gets the 500 of reading a missing name |
| Auth.FullName | src/app/v1/modules/Auth/auth.service.ts:137-139 | a name is found exactly when the user has a profile, and it is one of that user's profile names |
| Auth.Refresh | src/app/v1/modules/Auth/auth.service.ts:333-354 | succeeds exactly when a user with the token's email and role exists, is verified and is active, and then re-issues the same claims; any other case is 401 |
| Auth.ResendVerification | src/app/v1/modules/Auth/auth.service.ts:213-246 | 404 for an unknown email, 400 for a verified account, 500 for an unverified account without a profile; it succeeds exactly for an unverified account with a profile whose mail goes out |
| Auth.ResendAgreesWithLogin | src/app/v1/modules/Auth/auth.service.ts:106-160 | for an unverified account that may log in, resending the mail succeeds exactly when logging in by email does, and otherwise both fail with the same error |
| Auth.LoginAppended | src/app/v1/modules/Auth/auth.service.ts:106-204 | logging in by the email of a user just stored with its only profile gives an unverified user its full name and a verified user with the right password its tokens and stamped login time |
| Auth.CreateAdminThenLogin | src/app/v1/modules/Auth/auth.service.ts:106-204 | a new admin logs in by email with its password at once: only its login time is stamped, and tokens for the admin role come with its full name |
| Auth.WithRole | src/app/v1/modules/Auth/auth.service.ts:428-436 | the role is set; the badge is the admin badge exactly for admins and empty otherwise; verification is switched on for admins and otherwise kept; no other field changes |
| Auth.ChangeRole | src/app/v1/modules/Auth/auth.service.ts:412-442 | 404 exactly for an unknown user, then 403 for the super admin's email; success exactly otherwise, rewriting only that user's role fields |
| Auth.RegisterTwiceConflicts | src/app/v1/modules/Auth/auth.service.ts:41-47 | registering an email a second time is refused with 409, whatever name or password it comes with |
| Auth.RegisterThenLoginNeedsVerification | src/app/v1/modules/Auth/auth.service.ts:33-160 | a freshly registered account logging in by its email gets only its registered full name, with any password, and the store is unchanged |
| Auth.FullNameOfNewProfile | src/app/v1/modules/Auth/auth.service.ts:64-72 | the profile created for a new user is the one later lookups by that user find |
| Auth.UnverifiedLoginIgnoresPassword | src/app/v1/modules/Auth/auth.service.ts:141-160 | for an unverified account the login answer depends neither on the password nor on the password comparison |
| Auth.SuspendedUserGetsUselessTokens | src/app/v1/modules/Auth/auth.service.ts:122-204 | login does not refuse a suspended verified user with a profile, yet the refresh token it hands out is always refused with 401 |
| Auth.ChangeRoleIdempotent | src/app/v1/modules/Auth/auth.service.ts:412-442 | changing a user to the same role twice leaves the store as one change did |
| Auth.DemotionKeepsVerification | src/app/v1/modules/Auth/auth.service.ts:428-436 | promoting an unverified user to admin and demoting them again removes the badge but leaves the account verified, every other field as before |
| AuthGate.BearerToken | src/app/v1/middlewares/auth.ts:20 | the token is the text after "Bearer " up to the next space or the end, and holds no space |
| AuthGate.Gate | src/app/v1/middlewares/auth.ts:9-61 | a header not starting with "Bearer " is 401; a token that fails to decode gives the decoder's error; the request proceeds exactly when the token decodes and its claims pass every later check, and then the attached user is the one with the token's email and role |
| AuthGate.Check | src/app/v1/middlewares/auth.ts:27-59 | in order: a role the route does not accept is 403; no user with the email and role is 401; unverified is 403; not active is 403; a password changed after the token was issued is 401; success exactly when every check passes, attaching that user |
| AuthGate.RoleRefusedBeforeLookup | src/app/v1/middlewares/auth.ts:27-31 | a token whose role the route does not accept is refused with 403 whatever the store holds |
| AuthGate.GateImpliesRefresh | src/app/v1/modules/Auth/auth.service.ts:333-354 | claims that pass the gate also pass the refresh check |
| AuthGate.RefreshDoesNotImplyGate | src/app/v1/middlewares/auth.ts:27-54 | a user the refresh check accepts is still refused at a route that excludes their role, or with a token older than their last password change |
| AuthGate.RoleChangeRetiresTokens | src/app/v1/modules/Auth/auth.service.ts:412-442 | with unique emails, after a user's role changes, tokens carrying the old role find no user and are refused with 401 |
| Usernames.Kept | src/app/v1/modules/User/user.util.ts:4-7 | lower-casing and dropping everything outside `[a-zA-Z0-9]` leaves only lower-case letters and digits, never more characters than the name had |
| Usernames.Base | src/app/v1/modules/User/user.util.ts:4-14 | the base has 6..15 lower-case letters and digits; with at least 6 kept characters it is their first 15, otherwise the kept characters padded from "xyz123" up to 6 |
| Usernames.ToLowerKeepsBase | src/app/v1/modules/User/user.util.ts:5 | lower-casing a base changes nothing |
| Usernames.FilterKeepsAll | src/app/v1/modules/User/user.util.ts:6 | dropping non-alphanumerics from a base changes nothing |
| Usernames.BaseIsFixed | src/app/v1/modules/User/user.util.ts:4-14 | deriving a base from a base gives it back: the derivation is idempotent |
| Usernames.Candidate | src/app/v1/modules/User/user.util.ts:20-21 | a candidate is the base followed by exactly three digits whose value is the draw |
| Usernames.Pick | src/app/v1/modules/User/user.util.ts:16-24 | as written: the base when no findable user holds it, otherwise the first drawn candidate no findable user holds; the answer is always the base or a drawn candidate, and none only when every draw collides |
| Usernames.Retry | src/app/v1/modules/User/user.util.ts:19-22 | the loop returns a drawn candidate its test finds free, and returns none exactly when its test finds every drawn candidate taken |
| Usernames.PickMayReturnHeldName | src/app/v1/modules/User/user.util.ts:19 | a name only a permanently deleted user holds is returned as free although the unique index on usernames still holds it |
| Usernames.PickIntended | src/app/v1/modules/User/user.model.ts:7-13 | corrected: the returned name is held by no stored user at all, and is the base or a drawn candidate |
| Usernames.Generate | src/app/v1/modules/User/user.util.ts:3-25 | the generated name is held by no stored user, starts with the 6..15 character base, and is the base or the base followed by a three-digit suffix in 100..999 |
| Sanitize.ReplaceAll | src/app/v1/utils/zodWithInputSanitize.ts:11-13 | a global one-character replacement leaves no occurrence of that character except those the replacement itself brings |
| Sanitize.ReplaceAllAppend | src/app/v1/utils/zodWithInputSanitize.ts:11-13 | the replacement works character by character: replacing in a concatenation is concatenating the replacements |
| Sanitize.ReplaceAbsent | src/app/v1/utils/zodWithInputSanitize.ts:11-13 | replacing a character the string does not hold changes nothing |
| Sanitize.ReplaceOne | src/app/v1/utils/zodWithInputSanitize.ts:11-13 | on one character the replacement gives the entity for the target and the character itself otherwise |
| Sanitize.SliceKeeps | src/app/v1/utils/zodWithInputSanitize.ts:16 | trimming brings in no character the string did not already hold |
| Sanitize.EscapeAsWritten | src/app/v1/utils/zodWithInputSanitize.ts:9-17 | as written: after the `<`, `>`, `&` passes and the trim, no `<` or `>` is left |
| Sanitize.AsWrittenCollides | src/app/v1/utils/zodWithInputSanitize.ts:11-13 | as written, "<" and the literal text "&lt;" both come out as "&amp;lt;", so the output no longer tells them apart |
| Sanitize.AsWrittenDoubleEscapes | src/app/v1/utils/zodWithInputSanitize.ts:11-13 | as written, "<" is escaped twice: reading the entities back gives "&lt;" rather than the "<" that was sent |
| Sanitize.AsWrittenOfLt | src/app/v1/utils/zodWithInputSanitize.ts:11-16 | as written, "<" becomes "&amp;lt;" |
| Sanitize.AsWrittenOfEntity | src/app/v1/utils/zodWithInputSanitize.ts:11-16 | as written, the text "&lt;" also becomes "&amp;lt;" |
| Sanitize.AmpOfEntity | src/app/v1/utils/zodWithInputSanitize.ts:13 | the `&` pass re-escapes the ampersand of an entity made by an earlier pass |
| Sanitize.EncodeChar | src/app/v1/utils/zodWithInputSanitize.ts:11-13 | whitespace is left as it is, and any other character becomes text that neither starts nor ends with whitespace |
| Sanitize.Encode | src/app/v1/utils/zodWithInputSanitize.ts:11-13 | encoding each character by its entity leaves no `<` or `>` |
| Sanitize.EncodeAppend | src/app/v1/utils/zodWithInputSanitize.ts:11-13 | the encoding of a concatenation is the concatenation of the encodings |
| Sanitize.Escape | src/app/v1/utils/zodWithInputSanitize.ts:9-17 | corrected: with `&` replaced first, the escaping is the per-character entity encoding of the trimmed input, free of `<` and `>` |
| Sanitize.ChainIsEncode | src/app/v1/utils/zodWithInputSanitize.ts:11-13 | the three passes with `&` first replace each character by its entity, exactly once |
| Sanitize.ChainOfOne | src/app/v1/utils/zodWithInputSanitize.ts:11-13 | on a single character the three passes with `&` first give that character's entity |
| Sanitize.EncodeCommutesWithTrim | src/app/v1/utils/zodWithInputSanitize.ts:16 | trimming before or after the encoding gives the same text |
| Sanitize.EncodeTrimStart | src/app/v1/utils/zodWithInputSanitize.ts:16 | removing leading whitespace commutes with the encoding |
| Sanitize.EncodeTrimEnd | src/app/v1/utils/zodWithInputSanitize.ts:16 | removing trailing whitespace commutes with the encoding |
| Sanitize.DecodeEncode | src/app/v1/utils/zodWithInputSanitize.ts:11-13 | reading the entities back recovers exactly the encoded text |
| Sanitize.EscapeRoundTrip | src/app/v1/utils/zodWithInputSanitize.ts:9-17 | the corrected escaping loses nothing but surrounding whitespace: reading it back gives the trimmed input |
| Sanitize.EscapeKeepsApart | src/app/v1/utils/zodWithInputSanitize.ts:11-13 | with `&` first, "<" becomes "&lt;" once, and the text "&lt;" comes out differently |
| Sanitize.DecodeDoubled | src/app/v1/utils/zodWithInputSanitize.ts:11-13 | reading back "&amp;lt;" gives the text "&lt;" |
| Sanitize.SanitizeWith | src/app/v1/utils/zodWithInputSanitize.ts:7-36 | strings are escaped; null, booleans and numbers come back unchanged; arrays keep their length; objects keep their keys in order, and values under password, oldPassword and newPassword are kept untouched |
| Sanitize.SanitizeIsCleanAndShaped | src/app/v1/utils/zodWithInputSanitize.ts:7-36 | with an escaping that never yields `<` or `>`, no sanitised string outside the password keys holds one, and the value keeps its structure, scalars and password values |
| Sanitize.SanitizedBodiesAreClean | src/app/v1/utils/zodWithInputSanitize.ts:7-36 | both the written and the corrected escaping leave every sanitised body free of angle brackets and shaped like the input |
| Sanitize.ValidateBodyWith | src/app/v1/utils/zodWithInputSanitize.ts:38-62 | a body is accepted exactly when it has no field issue and no key the schema does not know; an accepted body keeps its keys and is clean, each string outside the password keys is replaced by its escaping and each password field is kept; the issues of a refused body start with the field issues, followed by one unrecognized-keys issue naming the unknown keys when there are any |
| Sanitize.ValidateBody | src/app/v1/utils/zodWithInputSanitize.ts:38-62 | as written: the same acceptance and issues, and the accepted value is the body run through the sanitiser with the source's pass order, each non-password string escaped as written |
| Sanitize.ValidateBodyIntended | src/app/v1/utils/zodWithInputSanitize.ts:38-62 | corrected: accepts and refuses exactly the bodies the written check does, with the same issues, and hands on the body sanitised with `&` escaped first |
| Sanitize.AsWrittenBodyDoubleEscapes | src/app/v1/utils/zodWithInputSanitize.ts:11-13 | as written, an accepted body field holding "<" reaches the handler as "&amp;lt;" |
| Sanitize.IntendedBodyReadsBack | src/app/v1/utils/zodWithInputSanitize.ts:9-17 | with the corrected order, every string of an accepted body reads back as the trimmed text that was sent |
| Sanitize.EncodePlain | src/app/v1/utils/zodWithInputSanitize.ts:11-13 | text with no `<`, `>` or `&` has no entity to encode and is left as it is |
| Sanitize.AsWrittenPlain | src/app/v1/utils/zodWithInputSanitize.ts:9-17 | as written, text with no `<`, `>` or `&` is only trimmed |
| Sanitize.PlainOnlyTrimmed | src/app/v1/utils/zodWithInputSanitize.ts:9-17 | text with no `<`, `>` or `&` is only trimmed, by the written and by the corrected escaping alike |
| Sanitize.PlainTextKept | src/app/v1/utils/zodWithInputSanitize.ts:9-17 | text with nothing to escape and no surrounding whitespace passes both the written and the corrected escaping unchanged |
| Sanitize.PasswordsSurvive | src/app/v1/utils/zodWithInputSanitize.ts:4-28 | a password nested inside an object survives sanitising byte for byte |
| AuthValidation.FirstAt | src/app/v1/modules/Auth/auth.validation.ts:6 | the position of the first "@", or the length when there is none: nothing before it is an "@" |
| AuthValidation.IsEmailIffShape | src/app/v1/modules/Auth/auth.validation.ts:6 | the scan at the first "@" accepts exactly the strings of the form local@A.B with local, A and B non-empty and free of whitespace and "@" |
| AuthValidation.IdentifierIssues | src/app/v1/modules/Auth/auth.validation.ts:34-38 | no issue exactly when the identifier matches the email pattern or is 3..20 characters from `[a-zA-Z0-9_.]`; otherwise the single refinement issue on `identifier` |
| AuthValidation.EmailIsNeverUsername | src/app/v1/modules/Auth/auth.validation.ts:6-7 | no string is read both as an email and as a username, since the email's "@" is not a username character |
| AuthValidation.GeneratedUsernameIsIdentifier | src/app/v1/modules/User/user.util.ts:3-25 | every generated username matches the username pattern, so it is accepted as a login identifier |
| AuthValidation.PasswordIssues | src/app/v1/modules/Auth/auth.validation.ts:24-32 | no issue exactly for at most 20 UTF-16 code units and 8 or more characters from letters, digits and `@$!%*?&` with at least one lower-case letter, upper-case letter, digit and special character; an over-long password is first told it is too long; at most two issues, all on the field |
| AuthValidation.CheckPassword | src/app/v1/modules/Auth/auth.validation.ts:8-9 | the reference partner of the password schema: a one-pass scan with a flag per character class accepts exactly the passwords the look-ahead pattern and length cap accept |
| AuthValidation.FullNameIssues | src/app/v1/modules/Auth/auth.validation.ts:13-17 | no issue exactly for 3..40 UTF-16 code units, all letters or whitespace; a short or long name is told so first, and a name with another character gets the pattern issue last |
| AuthValidation.AstralTextCountsTwice | src/app/v1/modules/Auth/auth.validation.ts:13-32 | the length caps count code units: 15 astral characters are too long for a password, 21 too long for a full name |
| AuthValidation.AcceptedNameMayShrink | src/app/v1/modules/Auth/auth.validation.ts:13-17 | a name the schema accepts, " ab ", is trimmed by the sanitiser, written or corrected, to "ab", shorter than the three characters the schema demands |
| AuthValidation.DateIssues | src/app/v1/modules/Auth/auth.validation.ts:44-48 | no issue exactly for four digits, "-", two digits, "-", two digits; otherwise the one format issue on `birthDate` |
| AuthValidation.Padded | src/app/v1/modules/Auth/auth.validation.ts:10 | a number below 10 to the width, spelled in exactly that many digits that read back as the number |
| AuthValidation.IsoDateRoundTrip | src/app/v1/modules/Auth/auth.validation.ts:10 | every printed year-month-day matches the date pattern, and its digit groups read back as the numbers printed |
| AuthValidation.UserIdIssues | src/app/v1/modules/Auth/auth.validation.ts:87-91 | no issue exactly when `userId` is a string of 24 hex digits; a missing id gets the required issue; at most one issue, on `userId` |
| AuthValidation.ParseRole | src/app/v1/modules/Auth/auth.validation.ts:92 | exactly "user" and "admin" are roles here, each read as the role with that name and never as the super admin |
| AuthValidation.RoleIssues | src/app/v1/modules/Auth/auth.validation.ts:92-95 | no issue exactly when `role` is the string "user" or "admin"; a missing role gets the required issue; at most one issue, on `role` |
| AuthValidation.ParseChangeUserRole | src/app/v1/modules/Auth/auth.validation.ts:86-96 | the body is accepted exactly when both fields pass and it has no other key; it yields the given hex id and a role other than super admin; a refused body reports the id issues, then the role issues, then the unknown keys |
| AuthValidation.ChangeRoleSurvivesSanitising | src/app/v1/utils/zodWithInputSanitize.ts:9-17 | the id and role of an accepted change-role body come out of both the written and the corrected escaping unchanged |
| AuthValidation.RoleNameEscapes | src/app/v1/utils/zodWithInputSanitize.ts:9-17 | every role name escapes to itself under both the written and the corrected escaping |
| AuthValidation.PlainEscapes | src/app/v1/utils/zodWithInputSanitize.ts:9-17 | a non-empty string of letters and digits escapes to itself |
| AuthValidation.TrimmedAlnumEscapes | src/app/v1/utils/zodWithInputSanitize.ts:9-17 | text that trims to letters and digits escapes to its trimmed form |

## Left out

- Database mechanics: `populate`, `lean`, projections, aggregation stage shapes and index definitions. Only the filter, count and mutation each query performs is modelled. The unique indexes on a user's email and username are modelled where users are created (`Auth.IndexClash`); the others become store assumptions.
- The regular-expression engine behind `search`: a parameter `matches` for matching, with the empty pattern matching every value, and a parameter `compiles` for the pattern syntax `new RegExp` accepts.
- Double-precision rounding in `Number(...)`: readings are exact rationals, so a literal too long or too large for a double keeps its exact value rather than rounding or overflowing to `Infinity`. Only ASCII whitespace is trimmed.
- The integer-check message of `z.coerce.number({ message })`: the model gives it the schema's message ("Page must be a valid integer."), as zod 3.23 and later do; the installed zod version is not part of this model.
- `parseInt` in the `sort` transforms: it is applied only to "1" and "-1", which have already passed the refinement.
- QueryBuilder.NumberOr: text reading as a fraction or as `Infinity` falls back here. JavaScript would keep the non-integer number. After the query schema such text cannot arrive.
- The `Date.parse` refinement of `birthDate`: only its first refinement, the `YYYY-MM-DD` pattern, is modelled.
- bcrypt hashing and comparison, and JWT signing, verification and expiry: function parameters. So are `Types.ObjectId.isValid` (`validId`), `z.string().email()` and `.url()`.
- `ADMIN_BADGE`: the repository's user constants do not define it, so its text is a parameter.
- Mail delivery, templates, uploads and form-data parsing. A delivery failure is an `Outcome` parameter whose error aborts the surrounding transaction.
- Transactions in registration and admin creation: each is atomic, giving either the whole new state or an error.
- Super-admin seeding.
- The purge's cron schedule: one run with `now` as input.
- The randomness of the username suffix: a sequence of draws in 100..999.
- Check-then-write races and concurrent upserts: every operation runs alone on the store.
- Routes, controllers, response envelopes, the global error handler, the rate limiter, helmet, cors, mongo-sanitize, logging and configuration.
- The declarative schemas for posts, comments, stories, profiles, appeals and notifications, and the profile service: each is a plain read or update.
- Profile fields other than the full name: no modelled rule reads them.
- `verifyEmail`, `changePasswordIntoDB`, `forgetPassword` and `resetPasswordIntoDB` (auth.service.ts): each is one token-decoded lookup and one write. The lookup and write rest entirely on JWT and bcrypt, which are parameters here.
- `getAllUsersFromDB` and `updateUserUsernameIntoDB` (user.service.ts): a plain list and a plain update.
- `getMyPostsFromDB` (post.service.ts) and `getAllPostAppealsFromDB` (postAppeal.service.ts): bare query-builder chains. `QueryBuilder.Build` and `QueryBuilder.PaginateMeta` model them.
- The notifications `sendFriendRequest` and `acceptFriendRequest` create (friend.service.ts:103-112, 173-182): an append to the notification store that no modelled rule reads. Story mentions do create notifications in the model (`Stories.CreateStory`).
- Unicode case mapping and whitespace: ASCII only.
- Notifications.ListNotifications: returns the whole filtered inbox with its meta, not the page slice; paging itself is stated once, in `QueryBuilder.Build`.
- Stories.ListArchive: returns the whole archive with its meta, not the page slice, for the same reason.
- Comments.TopLevel: the client's `sort` text is modelled as a numeric key sorted largest first (`-createdAt` when absent). Sorting by a text field or by several fields is not modelled, and the order of equal keys is the store's.
- Reactions.Newest: when several reactions on the target share the newest time, the store's choice is not fixed; the model takes the first in store order.
- Auth.Login: for a verified user without a profile, the source has already written `lastLoginAt` when reading the missing name fails; the model's error leaves the store as it was.
- Auth.Register: requires the username loop to end within the given draws. The source loop has no bound and ends only when a draw is free.
- Auth.Register: the schema's `lowercase` and `trim` setters on email and username (user.model.ts:7-19) are not applied; the email is stored and compared as given. Generated usernames are already lower-case letters and digits, and the sanitiser trims every body string, so only an email sent with capitals behaves differently.
- Auth.CreateAdmin: the same setters are left out, for the same reason.
- The error a duplicate key becomes: its handler (errors/handleDuplicateError.ts) is not part of this model, so it is the parameter `duplicate` of `Auth.Register` and `Auth.CreateAdmin`.
- The message of the 500 raised by reading the name of a missing profile (`Users.MissingProfileError`) is the Node.js runtime's wording for that TypeError.
- Auth.CreateAdmin: requires the username loop to end within the given draws, for the same reason.
- Usernames.Pick: as written, it is defined only for a finite sequence of draws. Otherwise the same reason as for `Auth.Register` applies.

## Notes on the code

Facts about the code that the model keeps, although a reader might expect otherwise:

- **Friend-edge uniqueness.** The unique index is on the ordered pair `(senderId, receiverId)`
  (src/app/v1/modules/Friend/friend.model.ts:25), so uniqueness of the unordered pair rests on the service's lookups.
- **`paginateMeta` on an empty result.** It throws 400 when the item count is below the page number
  (src/app/v1/builder/QueryBuilder.ts:85-90), so page 1 of an empty list is refused; see Findings.
- **Reading a single post.** `getPostByIdFromDB` refuses only another user's private or removed post
  (src/app/v1/modules/Post/post.service.ts:95-109); a friends-only post is served to anyone.
- **Another user's post list.** The filter is `audience ≠ private` (src/app/v1/modules/Post/post.service.ts:142), so
  friends-only posts reach strangers too.
- **Tagging.** Creating a post checks that the tagged users exist and are not repeated, not that they are friends
  (src/app/v1/modules/Post/post.service.ts:16-47).
- **Search terms are not escaped.** The query schema bounds the term's length only (src/app/v1/validation/params.validation.ts:28-32),
  and `search` compiles it as a regular expression (src/app/v1/builder/QueryBuilder.ts:23). So a term such as `c++`, `(` or `[`
  passes validation and the constructor throws, which the client sees as a 500; any other term is matched as a pattern, not as text.
- **Rejected friend requests.** The seven-day expiry index watches `rejectedAt` (src/app/v1/modules/Friend/friend.model.ts:30),
  which the reject update never sets (src/app/v1/modules/Friend/friend.service.ts:227-232); see Findings.

## Findings

| source | as written | input that shows it | evidently intended | confidence | as-written member | corrected member |
|---|---|---|---|---|---|---|
| src/app/v1/builder/QueryBuilder.ts:85 | `paginateMeta` throws when `totalItems < currentPage` | 0 items on page 1 → 400; 5 items, page 3, default limit 20 → a meta for page 3 of 1 | an empty result gives a zeroed meta; a page past the last one is refused | not executed | QueryBuilder.PaginateMeta, QueryBuilder.PaginateMetaMisjudgesPages | QueryBuilder.PaginateMetaIntended, QueryBuilder.PaginateMetaIntendedServesExactlyFilledPages |
| src/app/v1/modules/Friend/friend.service.ts:227-235 | reject writes only `status: rejected`, never `rejectedAt`, which the 7-day expiry index watches (friend.model.ts:29-30) | any successful reject: the edge keeps `rejectedAt = null` and no sweep removes it | a rejected request expires seven days after the rejection | not executed | Friends.Reject, Friends.RejectedNeverExpires | Friends.RejectIntended, Friends.RejectedIntendedExpires |
| src/app/v1/modules/Comment/comment.service.ts:40-54 | on a friends-only post the commenter needs an accepted edge with the owner, and the owner is not exempt | the owner comments on their own friends-only post → 403 | the owner may comment on their own post, as on private posts | not executed | Comments.Gate, Comments.OwnerRefusedOnOwnFriendsPost | Comments.GateIntended, Comments.OwnerMayComment |
| src/app/v1/modules/Comment/comment.service.ts:66-92 | the parent's `replyCount` is incremented before the parent is checked to be a top-level comment | a reply to a reply → 400, but that reply's counter has gone up by one | a refused reply leaves the store unchanged and counters stay exact | not executed | Comments.CreateOrReply, Comments.NestedReplyLeavesBump | Comments.CreateOrReplyIntended, Comments.NestedReplyIntendedLeavesStore |
| src/app/v1/utils/zodWithInputSanitize.ts:11-13 | `<`, then `>`, then `&` are replaced, so the entities of the first two passes are escaped again | "<" → "&amp;lt;", the same as the text "&lt;" | `&` escaped first: each character is replaced by its entity once, and the result reads back | not executed | Sanitize.ValidateBody, Sanitize.AsWrittenBodyDoubleEscapes | Sanitize.ValidateBodyIntended, Sanitize.IntendedBodyReadsBack |
| src/app/v1/modules/Friend/friend.service.ts:54-90 | the ladder checks a reverse pending edge but not a reverse accepted one | users 1 and 2 are friends through 2→1; user 1 sends to 2 → a pending 1→2 edge, and user 2 is then both a friend and a following of user 1 | no request between two users who are already friends | not executed | Friends.SendRequest, Friends.SendBreaksDisjointness | Friends.SendRequestChecked, Friends.SendCheckedKeepsInvariant |
| src/app/v1/modules/User/user.util.ts:19 | the loop tests `User.exists`, which the query hook restricts to users not permanently deleted | the only holder of "johnny" is permanently deleted → "johnny" is returned, yet the unique index on `username` still holds it, so creating the user fails | the loop tests every stored username, and registration then never meets the unique index | not executed | Usernames.Pick, Usernames.PickMayReturnHeldName, Auth.Register, Auth.RegisterRefusedOverPurgedName | Usernames.PickIntended, Usernames.Generate, Auth.RegisterIntended |
| src/app/v1/modules/Reaction/reaction.service.ts:217-224 | the `$lookup` joins the reaction's `userId` against the profiles' own `_id` | one reaction by user 1, whose profile document has id 2 → `fullName` is undefined | the join on the profile's `userId`, as `getReactions` does at reaction.service.ts:111-118, naming the newest reactor | not executed | Reactions.LastNameAsWritten, Reactions.AsWrittenNameNeverFound | Reactions.LastName, Reactions.GetTotalsIntended |

The corrected username loop (`Usernames.Generate`) is the one the intended registration (`Auth.RegisterIntended`) uses; `Auth.Register` keeps the written loop. The body check
(`Sanitize.ValidateBody`) keeps the written escaping, and the lemmas about accepted bodies hold for both orders. The page meta, the friend-request ladder, reject and the comment operations stay as written
wherever other operations call them, so those operations keep the code's observable behaviour. Their corrected
versions stand beside them with the intended property proved.
