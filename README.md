# Living Bookshelf, modelled in Dafny

Living Bookshelf is a reading-log web application. Users sign up, record the
books they have read, chat with a persona of each book, and get a daily
excerpt on the home page and by e-mail. This project models its core and
proves properties of the model:

- **The e-mail scheduler** (`scheduler.dfy`).
  - The due rule: an "HH:MM" preference, the wrap-around difference with
    JavaScript's truncating `%`, and the ten-minute window.
  - The defaults and the frequency/day filter.
  - The tick: a loop over the profile records that mails one randomly chosen
    book to each due user.
- **The server routes over the shared key-value table** (`store.dfy`,
  `books.dfy`, `auth.dfy`, `settings.dfy`, `chat.dfy`).
  - The table is a class over a finite map from (UserId, EntityId) to
    attribute maps.
  - The book routes, including the PUT update-expression builder. That
    builder is checked against an independent reading of the `SET` expressions
    it produces.
  - Sign-up and log-in, with symbolic bcrypt digests and tokens that carry
    only the userId claim.
  - The settings routes.
  - The chat route's validation and message choice.
- **The client logic.**
  - `api.dfy`: the request helper's headers, header merge and sign-out rule,
    and how a response settles.
  - `uri.dfy`: `encodeURIComponent` with its decoder.
  - `quote_card.dfy`: the daily quote card's 24-hour single-slot cache and its
    in-flight guard.
  - `chat_modal.dfy`: the chat window's transcript.
  - `book_list.dfy`: the bookshelf grouped by year.
  - `home.dfy`: the home page's search.
  - `book_search.dfy`: the add-a-book dialog.
  - `avatar.dfy`: the avatar index clamp.

Shared modules:

- `common.dfy`: option values, ASCII lower-casing, `trim`, `split`/`join`,
  decimal numbers, and an order-keeping `Filter`.
- `json.dfy`: JSON values, JavaScript truthiness, `||`, `Number()` and
  template text.
- `http.dfy`: route responses.

The environment is passed in as parameters:

- the clock, as minute of the day, day of the week and milliseconds;
- `Math.random()`, as a draw in [0, 1) or an index;
- the store's failures, as an `outage` flag or a set of failing users;
- the order in which the store enumerates the table;
- `fetch`, as a function from URL and configuration to a response, or as the
  body of the response an awaiting handler receives;
- `localStorage`, as a map or a slot held by the component;
- the language-model call, as a function from its arguments to a reply.

Handlers that await a response are split at the `await`: one method returns
the request it sends, and another takes the response.

## Model

| member | source | states |
|---|---|---|
| Scheduler.JsRemainder | server/cron/scheduler.js:85 | JavaScript's `%`: the remainder lies in [0, n) for a non-negative dividend and in (-n, 0] for a negative one |
| Scheduler.DiffWithinDay | server/cron/scheduler.js:85-92 | for now and preference inside the day, the difference is in [0, 1440): it is now - pref when now >= pref, and otherwise that plus 1440. Due holds iff the difference is below 10, so the `diff >= 0` test is redundant |
| Scheduler.PrefMinutesOfClockTime | server/cron/scheduler.js:80-81 | a two-digit "HH:MM" time parses to hour * 60 + minute |
| Json.StringToNumber | server/cron/scheduler.js:77-80 | `Number()` on a string is a number iff the string is empty, all decimal digits, or a 0x/0o/0b literal with at least one digit of its base, and then it is that literal's value |
| Json.RadixLiterals | client/src/components/Avatar/Avatar.jsx:9 | "0x10" is 16, "0X1f" is 31, "0o17" is 15 and "0b101" is 5 |
| Json.NotRadixLiterals | client/src/components/Avatar/Avatar.jsx:9 | a prefix without a digit of its base ("0x", "0b2") is NaN, and "Infinity" is not a finite number |
| Scheduler.PrefixedPreferences | server/cron/scheduler.js:77-81 | an EmailTime of "0x8:00" means 08:00 and is due at 08:03; an EmailDay of "0x1" means Monday |
| Scheduler.DueExamples | server/cron/scheduler.js:80-92 | 23:55 is due at 00:02 (difference 7). 08:00 is not due at 08:13 (difference 13) but is due at 08:03 |
| Scheduler.OutOfRangeTimeGivesNegativeDiff | server/cron/scheduler.js:85-92 | a stored "25:00" gives difference -60 just after midnight and is not due; only there does `diff >= 0` matter |
| Scheduler.ExactlyOneTickPerDay | server/cron/scheduler.js:85-92 | with ticks at the minutes divisible by ten (the `*/10` schedule of line 36), each preferred minute of the day is due at exactly one of the 144 ticks |
| Scheduler.ReadPreferences | server/cron/scheduler.js:75-77 | no settings record gives 'daily', "08:00" and day 1. A record without EmailFrequency gives an undefined frequency. A missing EmailTime gives "08:00" and a missing EmailDay gives day 1. Reading throws exactly when EmailTime is truthy but not a string |
| Scheduler.FrequencyFilter | server/cron/scheduler.js:94-98 | only "daily" and "weekly" users are e-mailed; a weekly user never on a day other than the preferred one; a daily user exactly when due |
| Scheduler.DailyUserOncePerDay | server/cron/scheduler.js:85-98 | a daily user whose time lies inside the day is e-mailed at exactly one tick of every day |
| Scheduler.PickIndex | server/cron/scheduler.js:22 | `Math.floor(r * n)` is a valid index for every draw in [0, 1) |
| Scheduler.DrawsSelect | server/cron/scheduler.js:22 | every index in [0, n) is picked by some draw in [0, 1) |
| Scheduler.ProcessUserEmail | server/cron/scheduler.js:9-32 | at most one e-mail, addressed to the userId, with the subject "Daily Excerpt: " + the title of one of the user's books. It sends one iff the query succeeds and finds a book, so a failing query sends nothing and does not throw |
| Scheduler.ProcessUserEmailChoices | server/cron/scheduler.js:21-26 | no books means nothing is sent for any draw; with books, each one is the book mailed for a suitable draw |
| Scheduler.Profiles | server/cron/scheduler.js:59-60 | the examined records are exactly the scanned keys whose EntityId is "USER#Profile" |
| Scheduler.VisitUser | server/cron/scheduler.js:64-101 | one iteration of the loop body (settings read, defaults, parse, due test, frequency filter, send) equals the specification `Visit` |
| Scheduler.Tick | server/cron/scheduler.js:49-106 | the loop over the profiles computes the specification `TickSpec`: the e-mails sent, and whether every profile was visited before a throw reached the outer catch |
| Scheduler.ProfilesExact | server/cron/scheduler.js:59-64 | the examined records are exactly the table's profile records, in scan order, each once, and no two belong to one user |
| Scheduler.VisitSends | server/cron/scheduler.js:64-101 | one profile's step throws iff its settings read fails or its EmailTime cannot be read. Otherwise it sends at most one e-mail, to that user, and one iff the user passes every check |
| Scheduler.RunFromRecipients | server/cron/scheduler.js:64-102 | every e-mail sent from position i on goes to a user listed from i on, and that user passes every check |
| Scheduler.TickRecipients | server/cron/scheduler.js:49-106 | a tick e-mails only users who have a profile record and pass the settings read, the due rule, the frequency filter and the book query |
| Scheduler.RunFromOncePerUser | server/cron/scheduler.js:64-102 | over distinct users, each user gets at most one e-mail and a user not listed gets none. After a complete run, a listed user gets one iff the user passes every check |
| Scheduler.TickOncePerUser | server/cron/scheduler.js:49-106 | a tick sends each user at most one e-mail and none to a user without a profile. When the tick completes, a user with a profile gets one iff the user passes every check |
| Scheduler.SettingsFailureSkipsRest | server/cron/scheduler.js:64-106 | a failing settings read at profile j ends the tick: it sends exactly what the profiles before j send, and reports it did not complete |
| Scheduler.QueryFailuresSwallowed | server/cron/scheduler.js:29-31 | failing book queries only remove their own users' e-mails: the tick sends the healthy run's e-mails minus those users', and completes iff the healthy run does |
| Store.SettingsKey | server/routes/settings.js:15-21 | the settings record of a user is keyed by the user and "SETTINGS#" followed by the user id |
| Store.QueryKeys | server/routes/books.js:19-26 | the keys visited are exactly the listed keys of that user whose EntityId begins with the prefix |
| Store.Query | server/routes/books.js:19-29 | the query returns the items of those keys, in listing order |
| Store.QueryExact | server/routes/books.js:19-29 | the query's keys are exactly the table's keys of that user under the prefix, each once (within one result page, see "Left out") |
| Store.Marshal | server/db.js:16 | an item with an undefined attribute cannot be sent (the command throws); otherwise the item sent has the draft's attributes with their values |
| Store.MarshalDefined | server/db.js:16 | a draft whose attributes are all defined is sent as exactly the item it spells out |
| Store.Table.Get | server/routes/books.js:88 | GetCommand returns the item under the key iff there is one |
| Store.Table.Put | server/routes/books.js:66 | PutCommand replaces the entry under its key and nothing else, and keeps every item carrying its own key |
| Store.Table.Delete | server/routes/books.js:163 | DeleteCommand removes the key, whether or not it was present, and nothing else |
| Books.BookEntity | server/routes/books.js:48 | a book's EntityId begins with "BOOK#" |
| Books.BookEntityInjective | server/routes/books.js:48 | books created at different milliseconds get different EntityIds |
| Books.StoredBook | server/routes/books.js:50-67 | the new book can be sent iff the body defines title, author, cover and external id. It then carries its key and those four values, DateRead from the body or else the creation timestamp, Notes from the body or else '', and no other attribute |
| Books.ListBooks | server/routes/books.js:14-34 | GET /books answers 200 with the caller's "BOOK#" query, or 500 on a store failure |
| Books.ListBooksExact | server/routes/books.js:19-29 | every listed item is one of the caller's books: never another user's item, the profile or the settings. Every book of the caller's is listed when they fit one result page (see "Left out") |
| Books.CreateBook | server/routes/books.js:37-72 | a missing or empty title or author gives 400 with no write. A store failure, or a body without a cover or an external id (the send throws on the undefined attribute), gives 500 with no write. Otherwise exactly one entry is put under (caller, "BOOK#ms") and returned with 201 |
| Books.GetBook | server/routes/books.js:75-97 | answers the caller's item under the id with 200, or 404 when there is none, or 500 on a store failure |
| Books.Assignments | server/routes/books.js:111-120 | Notes is set iff `notes` is defined, DateRead iff `dateRead` is defined, and nothing else |
| Books.BuildUpdate | server/routes/books.js:106-138 | the built expression, value map and name map denote exactly those assignments. The `#N` name map is attached iff notes is given. With neither field the expression is "se", which denotes nothing |
| Books.ParseBuilt | server/routes/books.js:107-123 | each of the four expressions the builder can emit means the intended assignments, and "se" is rejected |
| Books.UpdateBook | server/routes/books.js:101-147 | with neither field, or on a store failure, it answers 500 and writes nothing. Otherwise the entry becomes the old item (or its key alone when absent) with the given fields overwritten, and is returned whole |
| Books.UpdateKeepsOthers | server/routes/books.js:111-142 | the update changes the given fields to their new values and leaves every other attribute, key included, as it was |
| Books.DeleteBook | server/routes/books.js:150-169 | removes the caller's entry, answers success whether or not it existed, and changes nothing else; a store failure gives 500 |
| Auth.Hash | server/routes/auth.js:33-34 | hashing succeeds iff the password is a string, and the digest is made from the password's secret: its UTF-8 bytes and a closing NUL, cut to 72 bytes |
| Auth.Compare | server/routes/auth.js:82 | comparison throws on a non-string password, on a missing, numeric or boolean hash, and on a 60-character hash string with a malformed salt header. It matches iff the hash is a digest of the password's secret |
| Auth.CompareHash | server/routes/auth.js:82-85 | a password matches its own digest under any salt, and another password matches it iff their secrets agree |
| Auth.LongPasswordsShareSecret | server/routes/auth.js:34 | two passwords of 72 or more UTF-8 bytes that agree on the first 72 have the same secret, whatever follows |
| Auth.ShortPasswordsDiffer | server/routes/auth.js:34 | two distinct passwords shorter than 72 bytes have distinct secrets |
| Auth.ProfileItem | server/routes/auth.js:37-45 | the profile record is keyed (email, "USER#Profile") and holds the digest and the creation time |
| Auth.Signup | server/routes/auth.js:11-57 | missing credentials give 400. An existing profile gives 400 "User already exists" with the table unchanged. Otherwise exactly one profile entry is added holding the password's digest, and the answer is 201 with a token whose claim is the e-mail. A throw gives 500 with no write |
| Auth.Login | server/routes/auth.js:60-96 | reads only. Missing credentials give 400. An unknown e-mail and a wrong password both give the same 400 "Invalid credentials". A matching password gives 200 with a token for the e-mail. A comparison that throws gives 500 |
| Auth.SignupThenLogin | server/routes/auth.js:11-96 | after a sign-up, log-in with the same password succeeds for the same user. Another password gets the unknown-user answer unless it shares the secret (the first 72 bytes of a long password), and then it is let in |
| Settings.GetSettings | server/routes/settings.js:13-31 | answers the stored record unchanged, or the camel-case defaults when there is none, or 500 on a store failure |
| Settings.StoredSettings | server/routes/settings.js:38-51 | the record can be sent iff the body defines all four fields. It then holds the key and exactly those four values, nothing from an earlier record |
| Settings.SaveSettings | server/routes/settings.js:34-57 | the whole record under the settings key is replaced and returned as stored, and nothing else changes. A store failure, or a body missing one of the four fields, gives 500 with no write |
| Settings.SaveThenGet | server/routes/settings.js:13-57 | with all four fields given, a save followed by a read returns exactly the saved record, holding the body's four values. Otherwise the save answers 500 and the read returns what was there before |
| Settings.SchedulerReadsSavedSettings | server/routes/settings.js:40-46 | the scheduler reads a saved record as the frequency given, the time when it is a non-empty string (else "08:00"), and the day as a number. A truthy non-string time makes the read throw |
| Settings.TriggerEmail | server/routes/settings.js:64-74 | runs the e-mail routine for the caller alone, with no due or frequency check, and always answers success |
| ChatRoute.Message | server/routes/chat.js:15-17 | an opening request uses the fixed introduction prompt; any other uses the user's message verbatim |
| ChatRoute.Chat | server/routes/chat.js:8-26 | a request missing title, author, or both message and isInit gets 400 and never reaches the generator. Otherwise the generator gets exactly title, author, chosen message and history, and the answer is the reply with that message (200) or 500 when the generator throws |
| ChatRoute.InitIgnoresUserMessage | server/routes/chat.js:15-17 | an opening request gets the same call and the same answer whatever user message it carries |
| ChatRoute.ReplyEchoesMessage | server/routes/chat.js:19-21 | a 200 answer echoes the message the generator received, which is the user's message unless the request is an opening one |
| Uri.DecodeEncode | client/src/api/index.js:74 | percent-decoding the encoded id gives the id back |
| Uri.EncodeInjective | client/src/api/index.js:74 | distinct ids encode differently |
| Uri.EncodeSafe | client/src/api/index.js:74 | the encoding holds only unreserved characters and '%', never '/', '?', '#', '&', '=' or a space |
| Api.DefaultHeaders | client/src/api/index.js:4-12 | Content-Type is always application/json; Authorization is present iff the token is truthy, and is then "Bearer " + token; no other header |
| Api.GetHeaders | client/src/api/index.js:4-12 | the headers built step by step are `DefaultHeaders(token)` |
| Api.MergeHeaders | client/src/api/index.js:21-27 | the merge has the keys of both; the caller's value wins, otherwise the default stays |
| Api.ConfiguredHeaders | client/src/api/index.js:16-27 | fetch gets the caller's method and body. Its headers are the caller's where given, else JSON content type and the bearer token iff the token is truthy. The token reaches fetch only in that header |
| Api.ErrorMessage | client/src/api/index.js:39-40 | the message is `error` if truthy, else `message` if truthy, else "" |
| Api.Settle | client/src/api/index.js:32-56 | signs out iff the status is 401, or 400 with a textual message that contains "token" in any case. A non-ok response rejects with error, else message, else "Request failed: " + statusText; `toLowerCase` on a numeric or boolean message throws a TypeError. An ok response gives the parsed JSON document, an object or an array, iff the content type names JSON, else the text |
| Api.Request | client/src/api/index.js:15-57 | fetches the base URL + endpoint with the configured options and settles as `Settle` says |
| Api.NoTokenKeepsSession | client/src/api/index.js:33-48 | a 400 whose error has no letter k, like every 400 refusal the routes send, surfaces as that message and keeps the session |
| Api.TokenErrorsSignOut | client/src/api/index.js:39-45 | a 400 whose error mentions "token" in any letter case, and every 401, signs the user out and rejects |
| Api.BookPathSegment | client/src/api/index.js:74-85 | a book id becomes exactly one path segment after "/api/books/", which decodes back to the id; distinct ids give distinct paths |
| Api.ExcerptPathSegment | client/src/api/index.js:107 | the same for "/api/excerpt/" |
| QuoteCard.Fetched | client/src/components/QuoteCard/QuoteCard.jsx:64-69 | the new quote is the excerpt with the chosen book's author and title, stamped so that it is fresh exactly for the next 86,400,000 ms |
| QuoteCard.QuoteCard.constructor | client/src/components/QuoteCard/QuoteCard.jsx:7-9 | no quote, loading, no request in flight |
| QuoteCard.QuoteCard.Load | client/src/components/QuoteCard/QuoteCard.jsx:22-91 | nothing without a token. No books shows the default quote. A stored quote younger than a day is shown with no request. While a request is in flight nothing happens. Otherwise the chosen book's excerpt is requested with the bearer token and the flag is set. The slot is never written |
| QuoteCard.QuoteCard.Complete | client/src/components/QuoteCard/QuoteCard.jsx:60-85 | success overwrites the single slot with the new quote and shows it. Failure shows the stored quote, however old, else the default. Either way loading ends and the flag clears |
| QuoteCard.FetchThenReload | client/src/components/QuoteCard/QuoteCard.jsx:31-72 | starting with no stored quote or a stale one, a fetched quote is reused with no request for 24 hours, and the next load after that asks again |
| QuoteCard.SecondLoadWaits | client/src/components/QuoteCard/QuoteCard.jsx:45-85 | a second load during a request issues none, and a failure then shows the stale stored quote |
| ChatModal.Visible | client/src/components/ChatModal/ChatModal.jsx:108 | the display shows exactly the non-hidden messages, in order |
| ChatModal.History | client/src/components/ChatModal/ChatModal.jsx:75-78 | the history has one entry per message, hidden ones included, in order, with its role and its text as the only part |
| ChatModal.OpeningRequest | client/src/components/ChatModal/ChatModal.jsx:31-35 | the route accepts the opening request iff the book has a title and an author, and then uses the introduction prompt |
| ChatModal.SendRequest | client/src/components/ChatModal/ChatModal.jsx:80-85 | the route accepts a non-empty message iff the book has a title and an author, uses the text verbatim, and gets the history of the earlier transcript |
| ChatModal.ChatModal.constructor | client/src/components/ChatModal/ChatModal.jsx:9-15 | an empty transcript and input under the key "chat_history_" + EntityId |
| ChatModal.ChatModal.Type | client/src/components/ChatModal/ChatModal.jsx:121 | typing sets the input to the text and changes nothing else |
| ChatModal.ChatModal.SetMessages | client/src/components/ChatModal/ChatModal.jsx:51-54 | the transcript is saved under the key only when it is non-empty |
| ChatModal.ChatModal.Mount | client/src/components/ChatModal/ChatModal.jsx:18-26 | a stored transcript is restored. Otherwise the opening request is sent, only the first time |
| ChatModal.ChatModal.CompleteOpening | client/src/components/ChatModal/ChatModal.jsx:37-47 | success gives exactly [hidden prompt, reply]; failure gives the one greeting "Hello, I am <Title>. Ask me anything!" |
| ChatModal.ChatModal.Send | client/src/components/ChatModal/ChatModal.jsx:62-85 | a blank input, or a reply still loading, changes nothing. Otherwise the user's message is appended and saved, the input cleared, and the message posted with the earlier transcript as history |
| ChatModal.ChatModal.CompleteSend | client/src/components/ChatModal/ChatModal.jsx:87-96 | exactly one model message is appended: the reply, or the fixed apology |
| ChatModal.HiddenPromptOnly | client/src/components/ChatModal/ChatModal.jsx:38-40 | a transcript whose first message alone is hidden shows all the others |
| ChatModal.OpenFresh | client/src/components/ChatModal/ChatModal.jsx:18-47 | against the chat route, a first opening stores [hidden prompt, greeting] and shows only the greeting |
| ChatModal.SendAfterOpening | client/src/components/ChatModal/ChatModal.jsx:62-121 | a message typed after that sends the prompt and the greeting as history. The transcript gains the message and the reply, all but the prompt shown |
| BookList.GroupByYear | client/src/components/BookList/BookList.jsx:6-11 | a group exists iff some book was read in its year. Each group is exactly that year's books, in input order, and is never empty |
| BookList.OneGroupPerBook | client/src/components/BookList/BookList.jsx:6-11 | every book is in the group of its year and in no other, and each group is a subsequence of the books |
| BookList.Descending | client/src/components/BookList/BookList.jsx:13 | the years are listed strictly newest first, each year once, and no other |
| BookList.Shelf | client/src/components/BookList/BookList.jsx:6-13 | the listed years are exactly the group keys, newest first; groups are non-empty year filters; group sizes add up to the number of books |
| Home.StringField | client/src/pages/Home.jsx:35-36 | a title or author can be lower-cased iff it is present and textual |
| Home.Matches | client/src/pages/Home.jsx:34-37 | a book matches when its lower-cased title contains the lower-cased term; otherwise iff its author does. The test throws when the title is not a string, or when the author is not a string and the title did not match |
| Home.Filtered | client/src/pages/Home.jsx:34-37 | a filter that does not throw keeps an order-preserving subsequence, holding a book iff it matches. It never throws when every title and author is textual |
| Home.EmptyTermKeepsAll | client/src/pages/Home.jsx:11 | the initial empty search term keeps every book |
| Home.UntitledBookBreaksSearch | client/src/pages/Home.jsx:34-37 | an entry created by a PUT on a missing id has no title, so the search throws on it |
| Home.Page | client/src/pages/Home.jsx:30-75 | loading with no books shows the loading note; an error shows the error; no books shows the empty-shelf note; books with no match show the no-match note; otherwise the filtered books |
| Home.EmptySearchListsAll | client/src/pages/Home.jsx:30-75 | with textual titles and authors, no error and the empty term, every book is listed |
| BookSearch.VerifyBook | client/src/components/BookSearch/BookSearch.jsx:28-38 | the chosen book has the result's title and id; the authors joined with ", ", or "Unknown"; the thumbnail or ''; empty notes; and nothing else |
| BookSearch.Payload | client/src/components/BookSearch/BookSearch.jsx:44 | the payload is the selected book with dateRead added and every other field unchanged |
| BookSearch.SavedFromSearch | client/src/components/BookSearch/BookSearch.jsx:28-44 | the server accepts the payload iff the result has a title and a non-empty author text. The stored book keeps title, author, cover, id, the entered date and empty notes |
| BookSearch.BookSearch.TypeQuery | client/src/components/BookSearch/BookSearch.jsx:98 | typing sets the query and changes nothing else |
| BookSearch.BookSearch.TypeDate | client/src/components/BookSearch/BookSearch.jsx:81 | entering a date sets it and changes nothing else |
| BookSearch.BookSearch.constructor | client/src/components/BookSearch/BookSearch.jsx:6-10 | empty query, results, selection and date, not loading |
| BookSearch.BookSearch.BeginSearch | client/src/components/BookSearch/BookSearch.jsx:13-19 | an empty query does nothing; otherwise loading starts and the encoded query is fetched |
| BookSearch.BookSearch.CompleteSearch | client/src/components/BookSearch/BookSearch.jsx:20-25 | the results become the response's items, or none when it has no items, and stay as they were when the request fails; loading ends |
| BookSearch.BookSearch.Select | client/src/components/BookSearch/BookSearch.jsx:28-38 | choosing a result selects its book and clears the results |
| BookSearch.BookSearch.Submit | client/src/components/BookSearch/BookSearch.jsx:40-62 | nothing is posted without a selection and a date. Otherwise the payload is posted, and the parent is told iff the answer is ok |
| Avatar.SafeIndex | client/src/components/Avatar/Avatar.jsx:4-9 | the index lies in [0, 99]. A missing index or one `Number()` reads as NaN gives 0; "Infinity" gives 99; any other number, including a hexadecimal, octal or binary literal, is clamped into the range |
| Avatar.Cell | client/src/components/Avatar/Avatar.jsx:13-14 | column and row lie in [0, 9] and 10 * row + column is the index |
| Avatar.CellsDistinct | client/src/components/Avatar/Avatar.jsx:13-14 | distinct indices reach distinct cells |
| Avatar.InRangeUnchanged | client/src/components/Avatar/Avatar.jsx:9 | an integer index in [0, 99] is kept; a missing index and "abc" give 0 |
| Avatar.LiteralIndices | client/src/components/Avatar/Avatar.jsx:9 | "0x10" picks cell 16, "0o17" cell 15, "0b101" cell 5, and "Infinity" the last cell, 99 |
| Common.Split | server/cron/scheduler.js:80 | `split` always yields at least one part, and no part holds the separator |
| Common.JoinSplit | server/cron/scheduler.js:80 | joining the parts with the separator gives back the split string |
| Common.LowerIdempotent | client/src/pages/Home.jsx:35-36 | lower-casing twice is lower-casing once, and leaves no upper-case ASCII letter |
| Common.TrimPadded | client/src/components/ChatModal/ChatModal.jsx:64 | trimming removes every space around a word and keeps the word |

## Left out

- I/O is left out: the network, the mail relay, the language model, the console logs and the browser's storage are parameters or fields, not effects.
- Time zones, `Date` parsing and ISO formatting are left out. The clock readings and timestamps are inputs, and the year of a book's DateRead is a given function.
- Asynchrony is left out. Each awaiting handler is split at its `await`, and concurrent interleavings and React's re-render timing are not modelled.
- JSON is simplified. Values are strings, integers, booleans and bcrypt digests. A response body is an object or an array of objects. `null`, nested arrays and objects, fractions and NaN values are not modelled. `JSON.stringify`/`JSON.parse` of a stored transcript or quote is the identity, and a body that does not parse is `None`.
- Scheduler.ProcessUserEmail: the e-mail body (the generated excerpt) is not recorded, only recipient and subject. The excerpt generator is not part of this model; it never throws because it returns a fallback text.
- Scheduler.Tick: DynamoDB scan pagination is left out; the scan is one page that lists every record once.
- Store.Query: a DynamoDB Query answers one page of at most 1 MB, and the routes read only that page (books.js:19-29, scheduler.js:11-19). The model returns every matching item, so Store.QueryExact and Books.ListBooksExact hold only for a user whose items fit in one page.
- Auth.Compare: a 60-character hash string that sign-up did not make is checked only for its salt header ("$2", the revision, the "$" after the rounds). A malformed header throws; any other such string is a mismatch. The further salt checks of bcryptjs are not modelled. Neither is the chance that such a string is a genuine bcrypt hash of the password.
- Auth.Secret: bcrypt repeats a key shorter than 72 bytes to fill 72. For passwords that contain a NUL character, two such repeated keys can coincide, and the model's secret does not capture that.
- Common.Lower: ASCII lower-casing only; Unicode case mapping is left out.
- Common.Trim: strips spaces only, not every white-space character `trim` removes.
- Json.ToNumber: `Number()` covers digit strings, 0x/0o/0b literals, "" (0), numbers and booleans. Signs, white space, fractions and exponents are treated as NaN. "Infinity" is not an integer and is also read as NaN. Only the avatar index treats it apart (99); in the scheduler an infinite hour makes the difference NaN and an infinite day matches no weekday, exactly as NaN does.
- Avatar.SafeIndex: fractional indices and the floating-point sprite offsets are left out.
- Uri.Encode: characters are Unicode scalar values, so lone surrogates, which make `encodeURIComponent` throw, cannot occur.
- Api.Request: the base URL is the default "http://localhost:5001"; the build-time override of the base URL is left out.
- The server's JWT middleware is not part of this model. A route receives the verified userId, and a token is reduced to its userId claim.
- The excerpt route and the Gemini and e-mail services are not part of this model.
- Books.UpdateBook: DynamoDB's update language is modelled only for the `SET` clauses the builder can produce. An update of a missing key creates the item, as the store's UpdateItem does.
- BookSearch.VerifyBook: a result without `volumeInfo`, which makes the handler throw, is not modelled.
- The React pages without logic and the authentication context are left out: App, routing, Modal, Hero, BookCard, Navbar, AvatarSelector, Login, Signup, Settings, BookDetails and AuthContext.
