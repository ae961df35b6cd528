# URL shortener: a Dafny model of the URL service

This project models the core of a URL-shortening web service: the `UrlService`
of the backend. The service keeps a table of mappings
`{id, originalUrl, shortCode, clickCount, createdAt}`. It has four jobs:

- It normalises a submitted URL by prepending `https://` when the URL has no
  `http://` or `https://` prefix.
- It allocates a fresh 6-character short code over the 62-symbol alphabet
  `A-Z a-z 0-9`, trying at most 10 random candidates before it fails with a
  conflict.
- It shortens a URL. If a mapping for the normalised URL already exists, that
  mapping is returned. Otherwise one new row is inserted with a zero click
  counter.
- It resolves a short code for a redirect, which counts one click, and it
  reports a mapping's statistics without changing anything. An unknown code is
  NotFound in both cases.

Layout, one module per concern:

- `wrappers.dfy` (`Wrappers`): `Option` and `Result`. They stand in for the
  repository's `null` and for the exceptions the service throws.
- `url_entity.dfy` (`UrlEntity`): the row type `Url`, the two unique indexes
  (`CodesUnique`, `IdsUnique`) and `Grows`. `Grows` is the table's lifecycle:
  rows are only appended, and of an existing row only the counter changes,
  and only upwards.
- `url_repository.dfy` (`UrlRepository`): the repository operations the
  service calls. `FindOne` is `findOne({ where })`, returning the first
  matching row. `IncrementById` is `increment({ id }, 'clickCount', 1)`.
- `short_code.dfy` (`ShortCode`): the alphabet, the code a sequence of random
  draws spells (`CodeOf`), and its inverse (`IndicesOf`). The alphabet is
  written as its three runs `A-Z`, `a-z` and `0-9`, and `Base62Char` computes
  the symbol at a position arithmetically.
- `url_service.dfy` (`Shortener`): normalisation, the response format, the
  allocation loop's specification (`FirstFreeAttempt`, the first attempt
  whose candidate no row uses, and `UniqueShortCode`, its outcome), and the class
  `UrlService`. The class holds the table as `urls: seq<Url>` plus the next
  id to issue. Its methods change the table in place, as the service's
  repository calls do.
- `scenarios.dfy` (`Scenarios`): two call sequences that combine what the
  service's unit tests check one call at a time. Shortening twice returns the
  same mapping and adds at most the one row of the first call. A redirect
  between two statistics calls adds exactly one click.

Randomness is a parameter. `Math.floor(Math.random() * 62)` is replaced by a
sequence of indices, each in `[0, 62)`. One allocation takes 60 of them, six
per attempt (`AllocationDraws`). The clock is a parameter too: `now` becomes
the new row's `createdAt`. The database-generated uuid is modelled as a
natural number that the service issues from a counter. `BASE_URL` is read
once, when the service is constructed, from an optional environment value.

## Model

| member | source | states |
|---|---|---|
| Shortener.NormalizeUrl | backend/src/url/url.service.ts:108-114 | the result always starts with `http://` or `https://`; it equals the input exactly when the input already starts with one of them; otherwise it is `https://` followed by the input |
| Shortener.NormalizeUrlIdempotent | backend/src/url/url.service.ts:108-114 | normalising a normalised URL changes nothing |
| Shortener.NormalizeUrlExample | backend/src/url/url.service.spec.ts:71-88 | `example.com/path` becomes `https://example.com/path`; `https://example.com/very-long-url` is kept as it is |
| Shortener.BaseUrlFromEnv | backend/src/url/url.service.ts:16 | the base URL is the environment value when it is set and non-empty, and `http://localhost:3001` otherwise; it is never empty |
| Shortener.FormatUrlToResponseDto | backend/src/url/url.service.ts:116-125 | the response copies id, originalUrl, shortCode, clickCount and createdAt from the row; its shortUrl is `BASE_URL + "/"` followed by a path from which the row's short code is read back |
| Shortener.UrlService.GenerateShortCode | backend/src/url/url.service.ts:78-85 | the loop builds a code of exactly 6 characters, all from the alphabet; character k is the alphabet symbol at the k-th draw |
| ShortCode.CodeOfIsShortCode | backend/src/url/url.service.ts:78-85 | six draws in `[0, 62)` always spell a well-formed short code: six characters, each in `[A-Za-z0-9]` |
| ShortCode.AlphabetRuns | backend/src/url/url.service.ts:18-19 | the alphabet has 62 symbols: `A`-`Z`, then `a`-`z`, then `0`-`9`, each run in ascending order |
| ShortCode.AlphabetIsAlphanumeric | backend/src/url/url.service.ts:18-19 | a character is an alphabet symbol exactly when it is in `[A-Za-z0-9]`, and no symbol occurs twice |
| ShortCode.Base62CharIndex | backend/src/url/url.service.ts:18-19 | the symbol at each of the 62 positions is alphanumeric, and its position is read back from it |
| ShortCode.Base62IndexChar | backend/src/url/url.service.ts:18-19 | every alphanumeric character sits at some position below 62 of the alphabet |
| ShortCode.CodeOfSpellsAlphabet | backend/src/url/url.service.ts:80-83 | character k of the spelled code is the alphabet symbol indexed by draw k |
| ShortCode.DecodeCodeOf | backend/src/url/url.service.ts:78-85 | decoding a generated code gives back the draws that spelled it |
| ShortCode.CodeOfIndicesOf | backend/src/url/url.service.ts:78-85 | every string over the alphabet is spelled by its own draws, so every code can be generated |
| ShortCode.CodeOfInjective | backend/src/url/url.service.ts:78-85 | different draws spell different codes |
| Shortener.CandidateIsShortCode | backend/src/url/url.service.ts:92 | the code tried by every attempt is a well-formed short code |
| Shortener.FirstFreeAttemptStep | backend/src/url/url.service.ts:91-100 | one turn of the loop: when the lookup of the attempt's candidate finds no row, the loop stops at this attempt; when it finds one, the outcome is that of the next attempt |
| Shortener.FirstFreeAttemptSpec | backend/src/url/url.service.ts:91-105 | the loop stops at attempt k only if the candidate of k is unused, k is below 10 and every earlier candidate is taken; it runs out only if every candidate is taken |
| Shortener.UniqueShortCode | backend/src/url/url.service.ts:87-106 | an allocated code is a well-formed short code that no row uses; the allocation fails exactly when all 10 candidates are taken, and the error is then Conflict |
| Shortener.UrlService.GenerateUniqueShortCode | backend/src/url/url.service.ts:87-106 | the loop's result is the allocation outcome `UniqueShortCode`; it makes between 1 and 10 lookups: one more than the index of the attempt that succeeds, or all 10 when every candidate is taken; it has no modifies clause, so the table is only read |
| Shortener.AppendKeepsInvariant | backend/src/url/url.service.ts:39-44 | saving a row with the next id and an unused code keeps both unique indexes, keeps every id below the next one, only grows the table, and the new code is then in use |
| Shortener.UrlService.constructor | backend/src/url/url.service.ts:14-24 | the service starts over an existing table that satisfies both unique indexes; the base URL comes from the environment; the table invariant holds |
| Shortener.UrlService.CreateShortUrl | backend/src/url/url.service.ts:26-46 | if a row holds the normalised URL, the first such row is returned and the table is unchanged; otherwise, if allocation fails, the error is Conflict and the table is unchanged; otherwise exactly one row is appended, with the normalised URL, a code no row used before, a zero counter and the next id; the unique indexes hold afterwards and existing rows are untouched |
| Shortener.UrlService.GetOriginalUrl | backend/src/url/url.service.ts:48-60 | an unknown code gives NotFound and leaves the table unchanged; a known code gives that row's original URL, and the counter of that row goes up by exactly 1 while every other row and field stays the same |
| Shortener.UrlService.GetUrlStats | backend/src/url/url.service.ts:62-72 | the result is NotFound exactly when no row has the code; otherwise it is the formatted row with that code, including its current counter; the method has no modifies clause |
| Shortener.UrlService.IncrementClickCount | backend/src/url/url.service.ts:74-76 | the table becomes the database increment by id; the unique indexes still hold and the table still grows |
| UrlRepository.FindOne | backend/src/url/url.service.ts:49-51 | the result is the position of the first row matching the filter, or None exactly when no row matches |
| UrlRepository.FindOneByCodeIffInUse | backend/src/url/url.service.ts:93-97 | a lookup by short code finds a row exactly when some row uses that code |
| UrlRepository.FindOneByUniqueCode | backend/src/url/url.entity.ts:18-20 | under the unique index, the lookup by a row's code returns that very row |
| UrlRepository.FindOneAfterAppend | backend/src/url/url.service.ts:29-35 | appending a row keeps an earlier match; without an earlier match, the appended row is found if it matches; so a second shortening of the same URL finds the row the first one inserted |
| UrlRepository.IncrementByUniqueId | backend/src/url/url.service.ts:74-76 | with unique ids, the increment changes exactly one row, and in it only the counter, by exactly 1 |
| UrlRepository.IncrementKeepsMappings | backend/src/url/url.service.ts:74-76 | the increment keeps every mapping, never lowers a counter, and keeps both unique indexes |
| Scenarios.ShortenTwice | backend/src/url/url.service.spec.ts:45-54 | when the URL already had a row, neither call changes the table; when the first call succeeds, shortening the URL again, or any spelling that normalises to the same URL, returns the identical response, and the two calls together add exactly one row if the URL was new and none otherwise |
| Scenarios.ResolveBetweenStats | backend/src/url/url.service.spec.ts:91-131 | an unknown code is NotFound for statistics and redirect and changes nothing; for a known code the redirect returns the stored URL, and the statistics afterwards show exactly one more click |

## Left out

- The HTTP controller, with its routing and 301 redirect, is not modelled. Neither are the Nest module and database wiring nor the React front end. They only pass values through or render them.
- Validation of the submitted URL by class-validator (`IsUrl`, `IsNotEmpty`) runs before the service and is not modelled. The service itself accepts any string, and so does `CreateShortUrl`.
- `Math.random` and its floating-point scaling are replaced by the injected indices. The model says nothing about how likely a collision is.
- The increment is fire-and-forget in the source: it is not awaited and may finish after the redirect answers. The model applies it synchronously, before `GetOriginalUrl` returns. A failed increment is not modelled either.
- Concurrency is left out: races between two requests are not modelled. Two shortenings of the same new URL could create two rows. The database's unique index would reject a duplicate code at save time. Sequentially neither can happen, and the model proves that the code was unused when the row is saved. The service has no retry for a rejected save, and the model has none either.
- Database failures (an unreachable store) are not modelled.
- The uuid primary key is a natural number issued from a counter. `createdAt` is the `now` parameter. `updatedAt` is not modelled, since no operation returns it.
- `findOne` without an ORDER BY returns an unspecified matching row in Postgres. The model returns the first row in insertion order. This matters only for the dedup lookup by original URL, which is not unique. Short codes are unique, so the lookup by code is unaffected.
- The `varchar(10)` column width of `shortCode` is not modelled. Generated codes have 6 characters.
- Shortener.UrlService.GetOriginalUrl and Shortener.UrlService.IncrementClickCount: `clickCount` is a 32-bit `int` column, but the model's counter is an unbounded `nat`. At 2147483647 the database would reject the increment and the counter would stay put. The model instead promises exactly one more click. The same holds for UrlRepository.IncrementByUniqueId and Scenarios.ResolveBetweenStats.
- The message texts of the two exceptions are not modelled, only which error is raised (NotFound or Conflict).
