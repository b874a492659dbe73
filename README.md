# News table: a Dafny model

This project models the core of a small REST service for news articles. The core has three layers.

- **Repository.** It holds the `news` table and runs five queries against it: list all rows newest first, find one by id, insert, replace, delete.
- **Service.** It checks three business rules before each write, in a fixed order:
  - the title is unique (`Conflict`);
  - the text has at least 500 characters (`BadRequest`);
  - the publication date is not before now (`BadRequest`).

  It also turns a missing row into a `NotFound` error.
- **Controller.** It reads the `:id` path parameter with JavaScript's `parseInt`, keeps it only when it is above 0, and picks the HTTP status of each response.

## How the model is built

- `wrappers.dfy` (`Wrappers`). `Option` stands for a nullable result. `Result` stands for "returns a value or throws".
- `js-numbers.dfy` (`JsNumbers`). It models the global `parseInt(string)` with no radix, following section 19.2.5 of ECMAScript 2023:
  - leading white space and line terminators are skipped;
  - an optional sign is read;
  - a `0x`/`0X` prefix switches to radix 16;
  - the longest run of digits is read, or `NaN` results if there is none.

  It also gives the decimal text of an integer, which is what `${id}` produces in the `NotFound` message.
- `news-repository.dfy` (`NewsRepository`). The class `NewsTable` owns the table as `rows: map<int, News>`. Its `nextId` field is the autoincrement counter. The five queries are methods of this class; `formatPublicationDate` is the module-level function `FormatPublicationDate`. Read-only methods change nothing. Writing methods state the whole new map in terms of the old one. The one query the service issues directly, the `findFirst` title lookup in `validateNewsData`, is the function `TitleTaken` over the map.
- `news-service.dfy` (`NewsService`).
  - `ValidateNewsData` is a pure function of the table, the data, the `isNew` flag and an explicit `now`.
  - `createNewNews`, `updateNews` and `deleteNews` are module-level methods that take the `NewsTable` as an argument. `createNewNews` validates, then inserts. `updateNews` looks the row up, validates, then replaces it. `deleteNews` looks the row up, then removes it.
  - `TableInvariant` means titles are unique and every text is at least 500 long. Every successful write keeps it.
  - `createError` is the datatype `ServiceError(name, message)`.
- `news-controller.dfy` (`NewsController`). The handlers are methods that return a `Response(status, body)`.

## What the code does, where it differs from the tests

- **Mismatched names.** The three layers do not call each other by their exported names. For example, the controller calls `newsService.getSpecificNews`, but the service exports `getNewsById`. The model wires each call to its evident counterpart:

  | caller | calls | wired to |
  |---|---|---|
  | controller | `getNews` | `getAllNews` |
  | controller | `getSpecificNews` | `getNewsById` |
  | controller | `createNews` | `createNewNews` |
  | controller | `alterNews` | `updateNews` |
  | service | repository `getAllNews` | `getNews` |
  | service | repository `createNewNews` | `createNews` |
  | service | repository `removeNews` | `deleteNews` |

- **Every service error is a 500.** Each handler catches every error the service throws and answers 500. That includes `NotFound`, `Conflict` and `BadRequest`. The tests in tests/news.test.ts expect 404, 409 and 400 for these; the model follows the code.
- **The 404 branches are dead.** The service throws rather than returning `null`, so the handlers' 404 branches can never run. The handler contracts state that no response has status 404.
- **No pagination.** Some tests ask for `page` and `order` fields, but the list query has no pagination, no `order` parameter and no title filter. It always sorts by publication date, newest first.

## Model

| member | source | states |
|---|---|---|
| `JsNumbers.IsJsWhitespace` | src/controllers/news-controller.ts:8 | the code points `parseInt` skips at the start include space, tab, line feed and carriage return, and none of them is a digit, a letter or a sign |
| `JsNumbers.ReadDigits` | src/controllers/news-controller.ts:8 | reading the digits of a radix gives `NaN` exactly when the text does not start with such a digit, and otherwise a number of at least 0 |
| `JsNumbers.ReadMagnitude` | src/controllers/news-controller.ts:8 | the unsigned part gives `NaN` exactly when there is no digit to read (after a `0x` prefix no hexadecimal digit, otherwise no leading decimal digit), and otherwise a number of at least 0 |
| `JsNumbers.ParseInt` | src/controllers/news-controller.ts:8 | `parseInt(s)` is `NaN` exactly when no digit is left to read after the white space and the sign (after a `0x` prefix, no hexadecimal digit); with a leading minus it is at most 0, and otherwise at least 0 |
| `JsNumbers.NumberToString` | src/services/news-service.ts:13 | the `${id}` text of an integer has a leading minus exactly for a negative number, and decimal digits after it |
| `JsNumbers.ParseIntNumeralPrefix` | src/services/news-service.ts:13 | the text of any integer followed by text that starts with no letter or digit (" not found.") reads back as that integer |
| `JsNumbers.TrimStartSkipsWhitespace` | src/controllers/news-controller.ts:8 | white space put before a string is all removed by the first step of `parseInt` |
| `JsNumbers.ParseIntSkipsWhitespace` | src/controllers/news-controller.ts:8 | leading white space does not change what `parseInt` reads |
| `JsNumbers.TrimStart` | src/controllers/news-controller.ts:8 | the first step of `parseInt`: the result is a suffix of the input, everything dropped is white space, and the result does not start with white space |
| `JsNumbers.DigitRun` | src/controllers/news-controller.ts:8 | the run of digits `parseInt` reads is a maximal prefix: all its characters are digits of the radix, and the next character (if any) is not |
| `JsNumbers.DecimalString` | src/services/news-service.ts:13 | the text of a number is a non-empty string of decimal digits with no leading zero when the number is positive |
| `JsNumbers.DecimalStringValue` | src/services/news-service.ts:13 | reading the decimal text of `n` as digits gives back `n` |
| `JsNumbers.DigitRunStopsAtJunk` | src/controllers/news-controller.ts:8 | a run of digits followed by a non-digit is read exactly up to its end |
| `JsNumbers.ReadDigitsDecimal` | src/controllers/news-controller.ts:8 | the decimal text of `n` followed by anything that does not start with a digit is read as `n` |
| `JsNumbers.ParseIntDecimalPrefix` | src/controllers/news-controller.ts:8 | `parseInt` on any run of decimal digits with a positive value, leading zeros included, followed by anything but a digit, gives the run's value: "12abc" and "0012abc" both give 12 |
| `JsNumbers.NegativeNumeral` | src/controllers/news-controller.ts:8 | `parseInt` on `-` followed by the decimal text of a positive `n` gives `-n` |
| `JsNumbers.ParseIntNegativeDecimalPrefix` | src/controllers/news-controller.ts:8 | `parseInt` on `-` followed by any run of decimal digits with a positive value, leading zeros included, and then anything but a digit gives the negated value: "-007" gives -7 |
| `JsNumbers.ParseIntOfNumberToString` | src/services/news-service.ts:13 | `parseInt` gives back every integer from its own text (the `${id}` rendering): the two conversions are inverse |
| `JsNumbers.ParseIntNoDigits` | src/controllers/news-controller.ts:8 | a string that starts with no white space, sign or digit parses to `NaN` |
| `JsNumbers.ParseIntNegative` | src/controllers/news-controller.ts:8 | a numeral with a minus sign, after any white space, never parses to a positive number |
| `NewsRepository.FormatPublicationDate` | src/repositories/news-repository.ts:7-9 | `new Date(date)` on a date keeps its time value; the contract is the identity, which records the timestamp abstraction of dates rather than proving anything about date parsing |
| `NewsRepository.FormatPublicationDateIdempotent` | src/repositories/news-repository.ts:7-9 | normalising a date that is already a timestamp gives the same value, and normalising twice is the same as once |
| `NewsRepository.NewRow` | src/repositories/news-repository.ts:23-27 | the inserted row carries the given id and timestamp, and its client fields are exactly the input data |
| `NewsRepository.ReplacedRow` | src/repositories/news-repository.ts:29-34 | a replaced row keeps its id and `createdAt`, and its client fields are exactly the new data |
| `NewsRepository.InsertByDate` | src/repositories/news-repository.ts:11-15 | inserting into a list sorted newest first keeps it sorted and makes it one longer; the new head is either the inserted row or the old head |
| `NewsRepository.InsertByDatePermutes` | src/repositories/news-repository.ts:11-15 | the result of an insertion holds exactly the old rows plus the new one (a permutation) |
| `NewsRepository.AllStoredInsert` | src/repositories/news-repository.ts:11-15 | inserting a stored row keeps every listed row equal to the row the table stores under its id |
| `NewsRepository.IdsOfInsert` | src/repositories/news-repository.ts:11-15 | inserting a row into the list adds its id exactly once to the list's ids |
| `NewsRepository.IdsBelowStep` | src/repositories/news-repository.ts:11-15 | moving the scan bound one id further adds that id to the covered stored ids exactly when it is stored |
| `NewsRepository.NewsTable.constructor` | tests/news.test.ts:12-14 | an empty table whose autoincrement hands out any `start` of at least 1 next, satisfying the class invariant `Valid()`: 1 for a freshly created database, or the state `deleteMany` leaves before each test, which removes every row but does not reset the id sequence |
| `NewsRepository.NewsTable.GetNews` | src/repositories/news-repository.ts:11-15 | the list is sorted by publication date, newest first; it holds every stored id exactly once, each paired with its stored row, so it is a permutation of the table |
| `NewsRepository.NewsTable.GetNewsById` | src/repositories/news-repository.ts:17-21 | returns the row whose id matches when there is one and `None` (null) otherwise; the table is not changed |
| `NewsRepository.NewsTable.CreateNews` | src/repositories/news-repository.ts:23-27 | the new row gets a fresh id that was not in the table and carries the input fields; the new table is the old one plus that row, so every other row is unchanged |
| `NewsRepository.NewsTable.UpdateNews` | src/repositories/news-repository.ts:29-34 | replaces the client fields of row `newsId` and keeps its id and `createdAt`; every other row is unchanged; on an absent id (where Prisma throws) the table is unchanged |
| `NewsRepository.NewsTable.DeleteNews` | src/repositories/news-repository.ts:36-40 | removes exactly row `newsId` and returns it, and no other row changes; on an absent id (where Prisma throws) the table is unchanged |
| `NewsService.NotFoundError` | src/services/news-service.ts:13 | the `NotFound` error's message starts "News with id " and the id reads back from the text after it |
| `NewsService.ConflictError` | src/services/news-service.ts:44 | the `Conflict` error's message starts "News with title " and quotes the title right after it |
| `NewsService.TitleTaken` | src/services/news-service.ts:39-45 | the `findFirst` title lookup finds something exactly when a stored article has that title |
| `NewsService.ValidateNewsData` | src/services/news-service.ts:37-57 | validation passes if and only if (no uniqueness check is asked for, or no stored row has the title) and the text has at least 500 characters and the publication date is not before `now`; it fails with `Conflict` exactly when a uniqueness check is asked for and the title is taken; it never fails with `NotFound` |
| `NewsService.ConflictReportedFirst` | src/services/news-service.ts:37-46 | a taken title is reported as `Conflict`, with its message, whatever the text and the date are |
| `NewsService.TextCheckedBeforeDate` | src/services/news-service.ts:48-56 | without a conflict, a short text is reported with the text-length `BadRequest`, even when the date is also in the past |
| `NewsService.TextLengthBoundary` | src/services/news-service.ts:48-50 | a text of exactly 500 characters passes the length check, and one of 499 fails it |
| `NewsService.DateBoundary` | src/services/news-service.ts:52-56 | a publication date equal to `now` passes, and one strictly before `now` is rejected with the date `BadRequest` |
| `NewsService.CreatePreservesInvariant` | src/services/news-service.ts:19-22 | adding a validated new article under a fresh id keeps titles unique and every text at least 500 long |
| `NewsService.UpdatePreservesInvariant` | src/services/news-service.ts:24-30 | replacing a row with validated data keeps titles unique and every text at least 500 long, including when the title is unchanged and the uniqueness check is skipped |
| `NewsService.GetAllNews` | src/services/news-service.ts:5-7 | returns the repository's list: every stored row once, newest first |
| `NewsService.GetNewsById` | src/services/news-service.ts:9-17 | returns the stored row when the id is present, and fails with `NotFound` and its message when it is absent; the table is not changed |
| `NewsService.CreateNewNews` | src/services/news-service.ts:19-22 | a taken title fails with `Conflict`; any failed check returns that check's error and leaves the table unchanged; on success the input is stored under a fresh id, the autoincrement moves on by one, and nothing else changes; success keeps the table invariant |
| `NewsService.UpdateNews` | src/services/news-service.ts:24-30 | an absent id fails with `NotFound` before any validation, with the table unchanged; otherwise validation runs with the uniqueness check only for a changed title; an unchanged title never gives `Conflict`, while a changed title that another row has does; on success only that row is replaced, and the table invariant is kept |
| `NewsService.DeleteNews` | src/services/news-service.ts:32-35 | an absent id fails with `NotFound` and the table is unchanged; otherwise exactly that row is removed |
| `NewsController.ValidateNewsId` | src/controllers/news-controller.ts:7-10 | returns a value exactly when `parseInt` gives a number above 0, and that number is the value; so every accepted id is greater than 0 |
| `NewsController.ValidateNewsIdDecimalPrefix` | src/controllers/news-controller.ts:7-10 | any run of decimal digits with a positive value, leading zeros included, followed by a non-digit is accepted as its value ("12abc" and "0012abc" give 12) |
| `NewsController.ValidateNewsIdRoundTrip` | src/controllers/news-controller.ts:7-10 | every positive id is accepted back from its own text |
| `NewsController.ValidateNewsIdRejectsZero` | src/controllers/news-controller.ts:7-10 | "0" is rejected |
| `NewsController.ValidateNewsIdRejectsNegative` | src/controllers/news-controller.ts:7-10 | every string whose first character after the white space is a minus is rejected, whatever follows ("-5", "-007", " -1x") |
| `NewsController.ValidateNewsIdRejectsNoDigits` | src/controllers/news-controller.ts:7-10 | a string with no digit to read after the white space and the sign is rejected ("abc", "+abc", "  abc", "0x") |
| `NewsController.ValidateNewsIdSkipsWhitespace` | src/controllers/news-controller.ts:7-10 | leading white space does not change the outcome, so " 12" is accepted as 12 |
| `NewsController.GetNews` | src/controllers/news-controller.ts:12-19 | answers 200 with every stored article, newest first |
| `NewsController.GetSpecificNews` | src/controllers/news-controller.ts:21-34 | an invalid id answers 400 without looking at the table; a stored id answers 200 with its article; an absent id answers 500, because the service throws `NotFound` and the handler catches it; 404 is never sent |
| `NewsController.CreateNews` | src/controllers/news-controller.ts:36-45 | a valid article answers 201 with the created row, stored under a fresh id, with the autoincrement moved on by one; any validation error answers 500 and leaves the table unchanged |
| `NewsController.AlterNews` | src/controllers/news-controller.ts:47-62 | an invalid id answers 400 and does not touch the table; an absent id or a failed check answers 500 with the table unchanged; otherwise 200 with the replaced row and the autoincrement kept; 404 is never sent |
| `NewsController.DeleteNews` | src/controllers/news-controller.ts:64-77 | an invalid id answers 400 and does not touch the table; an absent id answers 500 with the table unchanged; a successful delete answers 204 after removing exactly that row, with the autoincrement kept; 404 is never sent |

## Left out

- **Plumbing.** The model leaves out Express request and response wiring, the Prisma client and its connection, and the test harness. The table is a map, and the Prisma calls are methods on it.
- **Datastore failures.** The model has no failures of the datastore itself, such as an unreachable database. Because the in-memory table cannot fail, the 500 branch of the `getNews` handler cannot be reached in the model.
- **Pagination and filtering.** The source implements no pagination, `order` parameter or title filter, and the model has none either.
- **Body-shape validation.** The 422 check on the request body is done by a collaborator that is not part of this model.
- **Body spread.** The request body is passed straight into the new data. Because of that, extra fields such as `id` would also reach Prisma. The model takes the body as a well-formed `NewsData`.
- **Input type.** The repository declares its input as `Omit<News, "id" | "createAt">`, which misspells `createdAt`. So the declared type still allows `createdAt`, and a body that carries it would set `createdAt` on create and overwrite it on update. The model's `NewsData` has no `createdAt`, so `ReplacedRow` always keeps the stored one.
- **Dates.** Dates are integer timestamps, so parsing a date string with `new Date(string)` is left out. An unparseable date gives an invalid `Date`, and its `NaN` comparison would pass the date check; this is not modelled.
- **Clock.** The service reads the time with `new Date()`. In the model it is the explicit argument `now`.
- **Row timestamp.** The database fills `createdAt` with its default timestamp. In the model it is the `createdAt` argument of `NewsTable.CreateNews`.
- **Numbers.** Numbers are unbounded integers, not IEEE doubles. So `parseInt` has no precision loss on long numerals, no `Infinity` and no `-0`. The decimal text of an id never uses exponent notation.
- **Text length.** The length of `text` is the length of the Dafny string (Unicode scalar values). It is not a count of UTF-16 code units.
- **Concurrency.** The check-then-act race between the uniqueness query and the write needs concurrent requests. It is outside a sequential model.
- **The 404 branch.** The handlers' `null` (404) branches cannot be written in the model, because the service's result type has no `null`. The contracts state instead that 404 is never sent.
