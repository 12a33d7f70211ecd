# Newspaper server: request handlers over the articles and users collections

This project models the server in `index.js`, an Express application over
three MongoDB collections, `users`, `articles` and `publishers`. The model
covers the handlers over the first two:

- the filter chains of `/getRecentQueries` and `/getAuthorQueries`. These pick
  one filter, first match wins: title, then publisher, then tag. A blank
  parameter is skipped and the sentinel `"all"` switches a filter off.
- the page arithmetic of `/admin-users` and `/admin-all-articles`. This uses
  `parseInt(x) || d` with a default limit of 10 or 6, `skip = (page - 1) * limit`
  and `totalPages = ceil(total / limit)`.
- the check-then-insert sign-up of `POST /users`.
- the article updates:
  - the `$inc` view count of `PUT /news/:id`, with a 404 when nothing matched;
  - approve, make premium and edit (`$set`);
  - decline with `upsert: true`;
  - delete.
- the `verifyToken` middleware and the owner check of `/my-articles/:email`.
- the `$group` counts of `/articles-status-count` and `/articles-publisher`.

The modules, in dependency order:

- `Options` is the `Option` type. `None` stands for a query parameter or a
  request-body property that is absent, `undefined` or `null`.
- `JsText` is the part of JavaScript's string semantics the handlers rely on:
  - `String.prototype.trim` and its white-space set;
  - `split(' ')`;
  - `parseInt` as ECMAScript defines it. It drops leading white space, takes an
    optional sign and an optional `0x` prefix, and reads the longest run of
    digits. With no digits the result is `NaN`.
- `Records` holds the stored documents and the field-level effect of each
  update operator. An article field is `Missing`, `Null` or a `Value`. The
  three differ in two places: `$inc` refuses `null` but starts a missing
  count from zero, and a `$set` that writes `null` over a missing field
  modifies the document. A user field is an `Option`, because no modelled
  handler updates a user and `findOne({ email: null })` matches both.
- `Search` holds the query conditions, their meaning on a document, and
  the two filter chains as functions from request parameters to a query.
- `Paging` holds the page and limit parameters, the page window and the
  page count.
- `Auth` holds the bearer-token middleware and the owner check.
- `Grouping` holds counts by key, as `$group` with `$sum: 1` computes them.
- `Stores` holds the classes `ArticleStore` and `UserStore`. Their fields
  are the collection contents. Their methods are the handlers, which update
  the fields in place and are specified against the functions above. It
  also holds a few client scenarios: two views, two approvals, a pending
  article that only appears once approved, and signing up twice.

These are parameters of the model:

- the regular-expression engine: `Matcher`, which holds when a string
  matches the pattern case-insensitively;
- JWT signature checking: `Verifier`, which gives the decoded claims or
  nothing.

`ObjectId` values are `Id = nat`.

The handlers pass any nonzero integer page through `|| 1`; a page that parses
to 0 or to `NaN` becomes 1. The model follows the code:
- a negative page with a positive limit, or a page above 1 with a negative
  limit, gives a negative skip, which the database refuses (`SkipRejected`);
- a negative page with a negative limit gives a positive skip, which is served;
- a negative limit returns up to |limit| documents, as the driver does, and
  the handler's `Math.ceil(total / limit)` gives a page count of at most 0.

## Model

| member | source | states |
|---|---|---|
| JsText.TrimStart | index.js:189 | the result is a suffix of the input whose first character, if any, is not white space |
| JsText.TrimStartDropsBlank | index.js:189 | what `trim` drops at the front is all white space |
| JsText.TrimEnd | index.js:189 | the result is a prefix of the input whose last character, if any, is not white space |
| JsText.TrimEndDropsBlank | index.js:189 | what `trim` drops at the end is all white space |
| JsText.TrimEmptyIff | index.js:189 | `s.trim() === ""` exactly when every character of `s` is white space |
| JsText.Trim | index.js:189 | no contract of its own: `TrimEnd(TrimStart(s))`; TrimStart, TrimEnd, their DropsBlank lemmas and TrimEmptyIff state what it keeps and drops |
| JsText.PresentIff | index.js:189 | the guard `x && x.trim() !== ""` holds exactly when the parameter is given and not blank |
| JsText.Present | index.js:189 | no contract of its own: the guard `x && x.trim() !== ""` of index.js:189, 193, 202 and 220; PresentIff states its meaning |
| JsText.Split | index.js:45 | `split(' ')` yields at least one part and no part contains the separator |
| JsText.JoinSplit | index.js:45 | joining the parts of a split gives back the string |
| JsText.SplitJoin | index.js:45 | splitting a join of separator-free parts gives back the parts |
| JsText.SplitAfterWord | index.js:45 | for `scheme + " " + token` with a space-free scheme, part 0 is the scheme and the rest joined is the token |
| JsText.DigitPrefixLength | index.js:116-117 | `parseInt` reads exactly the longest prefix of digits valid in the radix |
| JsText.ParseUnsigned | index.js:116-117 | an unsigned digit string parses to a non-negative number or to `NaN` |
| JsText.NatString | index.js:116-117 | decimal text of a natural number: non-empty, all digits, no leading zero |
| JsText.NatStringValue | index.js:116-117 | the digits of the decimal text of `n` have value `n` and are all decimal |
| JsText.DigitPrefixStops | index.js:116-117 | the digit prefix ends where the first non-digit begins |
| JsText.ParseUnsignedNat | index.js:116-117 | unsigned decimal text followed by a non-digit parses to its value |
| JsText.ParseIntDecimal | index.js:116-117 | `parseInt` of the decimal text of any integer, followed by any non-digit text, is that integer |
| JsText.ParseIntNat | index.js:116-117 | the non-negative case of the above |
| JsText.ParseIntNegated | index.js:116-117 | the negative case of the above |
| JsText.ParseIntUnsigned | index.js:116-117 | text with no leading white space or sign parses as unsigned |
| JsText.ParseIntMinus | index.js:116-117 | a leading minus negates the parsed value |
| JsText.DecimalDigitIsPlain | index.js:116-117 | decimal digits are neither white space nor a sign |
| JsText.ParseIntNoDigits | index.js:116-117 | text of non-digits parses to `NaN` |
| JsText.ParseUnsignedNoDigit | index.js:116-117 | unsigned text starting with a non-digit (and no `0x`) is `NaN` |
| JsText.ParseIntUndefined | index.js:116-117 | a missing parameter, read as `"undefined"`, parses to `NaN` |
| JsText.ParseUnsignedNaNIff | index.js:116-117 | unsigned text is `NaN` exactly when no decimal digit starts it, or a `0x` prefix is followed by no hex digit |
| JsText.ParseIntNaNIff | index.js:116-117 | `parseInt` is `NaN` exactly when no number follows the leading white space and one sign |
| JsText.ParseInt | index.js:116-117 | no contract of its own: `parseInt` with no radix, also at index.js:404-405; ParseIntDecimal, ParseIntNaNIff, ParseIntNoDigits and ParseIntUndefined state its results |
| JsText.Unsigned | index.js:116-117 | no contract of its own: the text after leading white space and one sign; ParseIntNaNIff uses it |
| JsText.NoNumber | index.js:116-117 | no contract of its own: the condition under which no digit is read; ParseUnsignedNaNIff shows it is exactly the `NaN` case |
| Records.Written | index.js:273-281 | a body property written by `$set` is stored as its value, or as `null` when the body leaves it out |
| Records.Viewed | index.js:290-295 | `$inc: { count: 1 }` on a number or a missing count (read as 0) stores one more, and changes no other field |
| Records.ViewCount | index.js:291-293 | no contract of its own: the value `$inc` adds to, 0 for a missing count; Viewed and ViewedTwice state the increment |
| Records.Incrementable | index.js:296-305 | no contract of its own: a count that is not `null`, the case in which `$inc` succeeds; Stores.ArticleStore.IncrementViews gives the 500 otherwise |
| Records.ViewedTwice | index.js:287-306 | two views add two and change nothing else |
| Records.WithApproval | index.js:436-440 | `$set` status `"approved"` and leave every other field as it was |
| Records.ApproveIdempotent | index.js:433-443 | approving twice is approving once; the decline reason is kept |
| Records.WithPremium | index.js:424-428 | `$set` isPremium `"yes"` and leave every other field as it was |
| Records.PromoteCommutes | index.js:421-431 | making premium commutes with approving and with declining |
| Records.WithDecline | index.js:457-462 | `$set` declineReason (`null` when the body has no reason) and status `"declined"`, and nothing else |
| Records.DeclineWritesNull | index.js:452-465 | declining with no reason a declined article that had no reason field still changes it: the reason is now `null` |
| Records.DeclineThenApprove | index.js:433-465 | a later approval overrides a decline but keeps its reason; a later decline overwrites status and reason alike |
| Records.DeclinedStub | index.js:452-465 | the document an upsert creates holds only the id, the reason (`null` when none was sent) and status `"declined"`; every other field is missing |
| Records.Edited | index.js:270-281 | title, publisher, tags, photo and description are replaced, a property the body leaves out by `null`; the author, status, premium flag, reason and count are kept |
| Search.Where | index.js:183-214 | a `find` keeps exactly the documents the filter accepts, and no more of them than are stored |
| Search.FindMembers | index.js:183-214 | a document is in the result exactly when it is stored and meets every condition of the query |
| Search.WhereAppend | index.js:183-214 | filtering a concatenation is concatenating the filtered parts, so `find` keeps the storage order |
| Search.Holds | index.js:190-207 | no contract of its own: one filter condition on a document, a missing or `null` field matching nothing; FindMembers and the Results lemmas use it |
| Search.Satisfies | index.js:190-212 | no contract of its own: every condition of a filter document holds; FindMembers states the result membership |
| Search.Find | index.js:190-212 | no contract of its own: `find(q)` as Where over the stored documents; FindMembers and WhereAppend state membership and order |
| Search.Unset | index.js:189-210 | no contract of its own: a parameter the guard skips; PresentIff relates it to the guard |
| Search.RecentQuery | index.js:189-211 | no contract of its own: the chain of `/getRecentQueries`; TitleWins, TitleAllIsPattern, PublisherFilterIff, TagFilterIff, AllSentinel, NoFilter and RecentQueryShape state it |
| Search.AuthorQuery | index.js:220-230 | no contract of its own: the chain of `/getAuthorQueries`; AuthorSentinel and AuthorPattern state both branches |
| Search.TitleWins | index.js:189-192 | a non-blank title selects the title pattern plus approval, whatever publisher and tag say |
| Search.TitleAllIsPattern | index.js:189-192 | the title has no `"all"` sentinel: `"all"` is matched as a pattern |
| Search.PublisherFilterIff | index.js:193-201 | the publisher pattern is used exactly when the title is blank and the publisher is non-blank and not `"all"` |
| Search.TagFilterIff | index.js:202-210 | tag membership is used exactly when the title and publisher are blank and the tag is non-blank and not `"all"` |
| Search.AllSentinel | index.js:194-196 | `"all"` as the first given publisher or tag means approval only |
| Search.NoFilter | index.js:211-213 | with nothing given, the query is approval only |
| Search.RecentQueryShape | index.js:183-214 | every branch has one or two conditions, and the last is status `"approved"` |
| Search.RecentResultsApproved | index.js:183-214 | every recent-queries result is stored and approved |
| Search.AuthorSentinel | index.js:217-233 | a blank, missing or `"all"` author means approved and premium only |
| Search.AuthorPattern | index.js:222-226 | any other author adds the author pattern to approved and premium |
| Search.AuthorResultsPremium | index.js:217-233 | every author-queries result is stored, approved and premium |
| Paging.ParamOr | index.js:116-117 | `parseInt(x) \|\| d` is never 0 when `d` is not 0 |
| Paging.ParseParam | index.js:116-117 | no contract of its own: `parseInt` of a parameter, a missing one read as `"undefined"`; ParamMissing, ParamNotNumeric and ParamDecimal state its cases |
| Paging.ParamMissing | index.js:116-117 | a missing parameter gives the default |
| Paging.ParamNotNumeric | index.js:116-117 | a parameter whose first character after white space and one sign is not a decimal digit, or whose `0x` prefix has no hex digit after it, gives the default |
| Paging.LetterFirst | index.js:116-117 | `"x5"` gives the default |
| Paging.SignThenLetter | index.js:116-117 | `"-a1"` gives the default |
| Paging.BareHexPrefix | index.js:116-117 | `"0x"` gives the default |
| Paging.HexPrefixThenLetter | index.js:116-117 | `"0xg"` gives the default |
| Paging.ParamDecimal | index.js:116-117 | a decimal parameter gives its value, or the default when that is 0 |
| Paging.CeilDiv | index.js:121 | `Math.ceil(total / limit)` is the least page count covering `total`, for either sign of the limit |
| Paging.Window | index.js:123 | `skip(s).limit(l)` returns the documents from `s` on, at most |l| of them, in order |
| Paging.Listing | index.js:118-123 | no contract of its own: skip, window and page count for integer page and limit; ListingPositive, PastLastPage, NegativeSkipRejected, FirstPageAccepted and PagesCoverAll state it |
| Paging.Paginate | index.js:116-123 | no contract of its own: Listing after `parseInt(..) \|\| d` on both parameters, also index.js:404-416; PaginateDefaults and TwentyFiveByTen state it |
| Paging.PaginateDefaults | index.js:403-418 | with no parameters, the result is page 1 of the first `d` documents |
| Paging.ListingPositive | index.js:403-418 | for a positive page and limit: the window starts at `(page - 1) * limit` and the page count covers all documents |
| Paging.PastLastPage | index.js:403-418 | a page past the last is empty |
| Paging.NegativeSkipRejected | index.js:118-123 | a page below 1 with a positive limit, or above 1 with a negative limit, gives a negative skip, which is refused |
| Paging.FirstPageAccepted | index.js:403-418 | page 1 is never refused |
| Paging.PagesPrefix | index.js:403-418 | the first `k` pages, concatenated, are a prefix of all documents |
| Paging.PagesCoverAll | index.js:403-418 | all `totalPages` pages together are exactly the documents, in order |
| Paging.TwentyFiveByTen | index.js:115-126 | 25 users at the default limit give 3 pages, and page 4 is empty |
| Auth.BearerTokenOf | index.js:45 | `"Bearer <t>"` with a space-free scheme yields the token `t` |
| Auth.NoSpaceNoToken | index.js:45 | a header without a space yields no token |
| Auth.BearerToken | index.js:45 | no contract of its own: part 1 of `split(' ')`; BearerTokenOf and NoSpaceNoToken state both cases |
| Auth.VerifyToken | index.js:40-53 | access is granted only for a present, non-empty header whose token the verifier accepts, with that token's claims |
| Auth.VerifyBearer | index.js:40-53 | a bearer header's outcome is exactly the verifier's decision on its token |
| Auth.NoTokenDenied | index.js:42-49 | a missing or space-free header is denied |
| Auth.MyArticles | index.js:249-259 | the articles are returned exactly when the token's email equals the path's email, and they are exactly the stored articles by that author |
| Auth.AuthoredBy | index.js:256-257 | no contract of its own: `find({ author: email })`; MyArticles states its membership |
| Grouping.OccurrencesAbsent | index.js:329-345 | a key that never occurs counts 0 |
| Grouping.Tally | index.js:333-338 | a key has a group exactly when it occurs, and its count is its number of occurrences |
| Grouping.AsKey | index.js:314-317 | a missing field and a `null` one fall in the same `null` group; a value is its own key |
| Grouping.KeysOf | index.js:333-338 | one key per document, in order: the i-th key is the field of the i-th document |
| Grouping.KeysOfMembers | index.js:333-338 | a key occurs exactly when some document has it |
| Grouping.OccurrencesOfField | index.js:333-338 | the count of a key is the number of documents having it |
| Grouping.StatusCountsMeaning | index.js:329-345 | each status group counts exactly the documents with that status, and there are no other groups |
| Grouping.PublisherCountsMeaning | index.js:308-327 | each publisher group counts exactly the approved documents of that publisher |
| Grouping.StatusCounts | index.js:331-339 | no contract of its own: the tally of status keys; StatusCountsMeaning states it |
| Grouping.ApprovedOnly | index.js:310-312 | no contract of its own: the `$match` stage; PublisherCountsMeaning states its membership |
| Grouping.PublisherCounts | index.js:310-321 | no contract of its own: the tally of publisher keys over ApprovedOnly; PublisherCountsMeaning states it |
| Stores.InOrder | index.js:409 | `find()` lists the stored documents in natural order |
| Stores.Without | index.js:261-266 | removing an id keeps exactly the other ids |
| Stores.WithoutDistinct | index.js:261-266 | removing an id keeps the ids distinct |
| Stores.InOrderWithout | index.js:261-266 | removing an id filters its document out of the listing and keeps the rest in order |
| Stores.InOrderAppend | index.js:154-158 | a stored new id appends its document to the listing |
| Stores.AppendDistinct | index.js:154-158 | appending a new id keeps the ids distinct |
| Stores.IndexOfEmail | index.js:70 | `findOne({ email })` finds the first user with that email, or proves there is none |
| Stores.AppendNewEmail | index.js:67-76 | adding a user with a new email keeps emails unique |
| Stores.Modified | index.js:282 | no contract of its own: the `modifiedCount` of a one-document `$set` (also lines 429, 441, 463), 1 exactly when the document changed; the update methods state it with their new state |
| Stores.ArticleStore.constructor | index.js:36 | an empty collection |
| Stores.ArticleStore.Listing | index.js:409 | no contract of its own: the documents in natural order; InOrder states each element |
| Stores.ArticleStore.Insert | index.js:154-158 | a new `_id` is stored at the end of the listing; a taken one is a duplicate-key error that changes nothing |
| Stores.ArticleStore.IncrementViews | index.js:287-306 | no match gives the 404 and no change; a `null` count makes the database refuse the `$inc`, which gives the 500 and no change; otherwise the count goes up by one and the reply is matched 1, modified 1 |
| Stores.ArticleStore.Approve | index.js:433-443 | the document is approved, or nothing matched; `modifiedCount` is 0 when it was already approved |
| Stores.ArticleStore.Promote | index.js:421-431 | the document is made premium, or nothing matched; `modifiedCount` is 0 when nothing changed |
| Stores.ArticleStore.Decline | index.js:452-465 | a matched document is declined, and `modifiedCount` is 1 exactly when that changed it (a `null` written over a missing reason does); an unknown id is upserted as a new declined document at the end, with `upsertedId` |
| Stores.ArticleStore.Edit | index.js:268-284 | the five fields of the matched document are replaced, and `modifiedCount` is 1 exactly when that changed it; or nothing matched |
| Stores.ArticleStore.Delete | index.js:261-266 | the document is gone, `deletedCount` is 1 or 0, and the listing is the old one without it |
| Stores.ArticleStore.RecentQueries | index.js:183-214 | the reply is the stored articles meeting the chosen query, all approved |
| Stores.ArticleStore.AuthorQueries | index.js:217-233 | the reply is the stored articles meeting the author query, all approved and premium |
| Stores.ArticleStore.MyArticles | index.js:249-259 | the reply is the owner check over the current listing |
| Stores.ArticleStore.AdminAllArticles | index.js:403-418 | the reply is the page of the listing with default limit 6 |
| Stores.ArticleStore.StatusCounts | index.js:329-345 | the reply is the status tally of the listing |
| Stores.ArticleStore.PublisherCounts | index.js:308-327 | the reply is the publisher tally of the approved articles |
| Stores.UserStore.constructor | index.js:35 | an empty collection |
| Stores.UserStore.Register | index.js:67-76 | a known email gives "user already exist" and no change; otherwise the user is appended; unique emails stay unique |
| Stores.UserStore.AdminUsers | index.js:115-126 | the reply is the page of the users with default limit 10 |
| Stores.ViewTwice | index.js:287-306 | two visits both match and modify one document, raising its count by two |
| Stores.ApproveTwice | index.js:433-443 | a second approval matches but modifies nothing |
| Stores.SubmitPending | index.js:154-158 | a new unapproved article is appended but not in the recent listing |
| Stores.ApproveShows | index.js:433-443 | once approved, an article appears in the unfiltered recent listing |
| Stores.ApprovedIsRecent | index.js:211-213 | every approved stored article is in the unfiltered recent listing |
| Stores.RegisterTwice | index.js:67-76 | signing up twice with one email stores the user at most once |

## Left out

- Server plumbing is not modelled: the connection setup, CORS, `listen`, the root route and the `console.log` calls.
- `POST /jwt` is not modelled: signing a token is cryptography. Verification is the `Verifier` parameter.
- Regular-expression matching is not modelled: `$regex` with option `i` is the `Matcher` parameter.
- Stripe's `create-payment-intent` is not modelled, because it is a foreign call.
- These user routes are not modelled: `/user/:email`, `/update-payment`, `/update-user-premium/:email`, `GET /users`, `/usersCount`, `/update-user/:email`, `/admin/:email` and `/update-user-role/:id`. They are lookups and `$set`s of the same shape as the article updates, outside the modelled core.
- These article routes are not modelled: `GET /articles`, `/premiumArticles`, `/top-articles` (a sort by count), `/allAuthors`, `/details/:id`, `/article-writing/:email` and the publisher routes.
- The `$sort` stage of `/articles-publisher` is not modelled. Grouping.Tally states the group counts as a map, without the order of the groups.
- The second `DELETE /delete-article/:id` registration is not modelled. It repeats the first, and Express serves the first.
- `ObjectId` parsing is not modelled. An id is a `nat`, and the exception thrown by `new ObjectId(id)` for a malformed id string is not captured.
- A query parameter repeated into an array is not modelled. Parameters are single strings or absent.
- `parseInt`'s results are unbounded integers. The float rounding of very long digit strings is not modelled.
- Each handler is one atomic step. The race between the `findOne` and the `insertOne` of `POST /users` is not modelled.
- Database failures are not modelled, and neither are the `catch` branches that turn them into 500 replies. Three refusals by the database are modelled: the `$inc` on a `null` count, which `/news/:id` catches and answers with 500; a negative skip (`Paging.SkipRejected`); and a taken `_id` on insert (`Stores.DuplicateKey`). No handler catches the last two (index.js:123, 156, 409); the model gives them as results and does not model the unanswered request.
- Field types are fixed: a count is a number, and a title or reason is a string. A document holding, say, a string count, on which `$inc` also fails, cannot be represented.
- Stores.ArticleStore.Edit: `tags` is always an array. A body without `tags`, which makes `tags.map` throw, is not modelled.
- Stores.ArticleStore.Insert: `_id` is the caller's choice. The driver's generation of a fresh `ObjectId` is not modelled.
- Paging.Window: a negative limit follows the driver's reading, which returns |limit| documents in one batch. Database versions that refuse a negative limit are not modelled.
- The field set of each reply is not modelled: `/admin-users` sends only `users` and `totalPages`, while Paging.Page holds all five values.
