# URL shortener core in Dafny

This project models the core of a small URL-shortening web service written in
Go (`main.go`). The service takes a long URL and normalises its scheme. It then
draws random six-character codes until it finds one that is not in its SQLite
`urls` table, and inserts a record with that code. On a redirect it looks the
code up, adds one to the record's `click_count` and sends the client to the
stored URL. A stats request returns the full record.

The model has five modules:

- `Wrappers` (`wrappers.dfy`): the `Result` datatype used for every outcome.
- `ShortCode` (`short_code.dfy`): the code generator. Six entropy bytes become
  six symbols of the 62-symbol alphabet, one symbol per byte, as
  `charset[b % 62]`. The bytes are an input. The method `GenerateShortCode`
  keeps the generator's loop and is proved against the function
  `ShortCodeOf`. Lemmas show the following:
  - every generated code is accepted by the redirect route `[a-zA-Z0-9]{6}`;
  - every route-shaped code can be generated;
  - a code records exactly each byte's residue modulo 62;
  - the modulo reduction is slightly biased.
- `Url` (`url.dfy`): scheme normalisation (prepend `https://` unless the URL
  starts with `http://` or `https://`) and the short URL
  `http://<host>/<code>`, whose host defaults to `localhost:8080`.
- `LinkTable` (`link_table.dfy`): the `urls` table as a map from short code to
  record. It defines what create, redirect and lookup do to the table, as
  functions of the table before the call. Its lemmas state the table's
  invariants (`WellFormed`) and what each operation changes and keeps.
- `LinkStore` (`link_store.dfy`): the class `Store`. It holds the table and
  the next AUTOINCREMENT id, and its methods `Create`, `Redirect` and `Stats`
  update or read them in place. Each method is proved against the
  `LinkTable` functions. `ClientScenario` walks through a create, two
  redirects, stats lookups and a lookup of an unknown code.

Storage failures are inputs to the model. A `Fault` says which query of a
create fails, if any; a `queryFails` flag does the same for a lookup. The
model can therefore show that a storage error is reported apart from
not-found and leaves the table unchanged. The clock value for `created_at`
is also an input (`now`).

Behaviour of the code that the model keeps:

- An INSERT that fails is reported as "Failed to create short URL". The code
  never retries it as a uniqueness collision (`main.go:131-135`).
- The redirect handler reads the record (`main.go:160`) and then increments
  its count with a separate UPDATE statement (`main.go:171`). The UPDATE
  itself is a single `click_count = click_count + 1` statement, but its
  error is ignored, so a failed UPDATE (a busy database, say) silently
  loses the click. The model is sequential and always increments.
- Stats refuses an empty code with "Short code is required" before any
  lookup (`main.go:182-185`).
- Codes are not drawn uniformly. Reducing a byte modulo 62 gives the symbols
  `a` to `h` 5 chances in 256 and every other symbol 4 (`ModuloBias`).
- The generate-until-unused loop in the code has no bound. The model draws
  from a finite sequence of candidate buffers and returns `CodesExhausted`
  when every candidate is taken.

## Model

| member | source | states |
|---|---|---|
| `ShortCode.GenerateShortCode` | main.go:68-88 | the code has exactly 6 characters; character i is `charset[b[i] % 62]`; the code is `ShortCodeOf(b)` and matches the redirect route |
| `ShortCode.CharsetAt` | main.go:70 | the alphabet has 62 symbols: `a`–`z` at positions 0–25, `A`–`Z` at 26–51, `0`–`9` at 52–61 |
| `ShortCode.Symbol` | main.go:85 | the symbol a byte selects is a route character, at alphabet position `b % 62` |
| `ShortCode.ShortCodeOf` | main.go:83-86 | the code spelled by the symbols the 6 bytes select is accepted by the redirect route `[a-zA-Z0-9]{6}` of main.go:249, so every issued code is reachable |
| `ShortCode.MatchesRoute` | main.go:249 | a path segment the redirect route accepts: exactly 6 characters, each in `a`–`z`, `A`–`Z` or `0`–`9` |
| `ShortCode.IndexOf` | main.go:70 | every route character occurs in the alphabet, at the returned position below 62 |
| `ShortCode.SymbolIsRouteChar` | main.go:70 | every alphabet symbol is a route character, and its position is recovered by `IndexOf` |
| `ShortCode.CharsetDistinct` | main.go:70 | the 62 alphabet symbols are pairwise distinct |
| `ShortCode.SelectsExactly` | main.go:85 | byte value m selects symbol i exactly when m mod 62 = i |
| `ShortCode.SymbolWeight` | main.go:85 | among byte values below n, symbol i is selected `n / 62` times, plus once more if i < n mod 62 |
| `ShortCode.ModuloBias` | main.go:85 | over all 256 byte values, symbols `a`–`h` are each selected 5 times and every other symbol 4 times |
| `ShortCode.Decode` | main.go:83-86 | a route-shaped code gives 6 alphabet positions, each naming that character |
| `ShortCode.DecodeShortCode` | main.go:83-86 | decoding a generated code gives back `b[i] % 62` for each byte: the code keeps exactly each byte's residue |
| `ShortCode.GeneratesCodeIff` | main.go:83-86 | a buffer generates a route-shaped code exactly when each byte leaves, modulo 62, the code's alphabet position for that character |
| `ShortCode.EntropyFor` | main.go:83-87 | for every route-shaped code, a byte buffer that generates exactly that code, so all 62^6 codes can be issued |
| `Url.NormalizeScheme` | main.go:110-113 | the result has a scheme; it equals the input exactly when the input already starts with `http://` or `https://`, and otherwise it is `https://` + input; the input is always a suffix of the result |
| `Url.NormalizeIdempotent` | main.go:111-113 | normalising twice gives the same as normalising once |
| `Url.NormalizeExamples` | main.go:111-113 | `example.com` becomes `https://example.com`; `http://example.com` is unchanged |
| `Url.EffectiveHost` | main.go:137-140 | the host written into the short URL is never empty: the request host when it has one, `localhost:8080` otherwise |
| `Url.ShortURL` | main.go:137-141 | the short URL starts with `http://`, then holds the request host (or `localhost:8080` when it is empty), then `/` + code |
| `Url.ShortURLDeterminesCode` | main.go:141 | for one host, equal short URLs mean equal codes |
| `LinkTable.FindFreeCode` | main.go:116-128 | the search returns only a code that is absent from the table and matches the route; its only failures are a storage error (for a failing query at an attempt within the candidates) and exhaustion |
| `LinkTable.FoundCodeIsFirstUnused` | main.go:117-128 | the code found is the first candidate not in the table; every candidate before it collided |
| `LinkTable.ExhaustedMeansAllTaken` | main.go:117-128 | exhaustion is reported only when every candidate code is already in the table |
| `LinkTable.DatabaseErrorMeansReached` | main.go:117-124 | a storage error comes only from the query of an attempt the search reached: every candidate before it collided |
| `LinkTable.ReachedFailingQueryGivesDatabaseError` | main.go:117-124 | conversely, when every candidate before attempt k collided and the query of attempt k fails, the search reports a storage error |
| `LinkTable.WellFormed` | main.go:52-58 | the `urls` constraints the store keeps: each record sits under its own unique short code, which matches the route; each stored URL has a scheme; ids are positive, below the next AUTOINCREMENT id, and unique |
| `LinkTable.CreateOutcome` | main.go:105-135 | an empty URL, and only an empty URL, is refused with `UrlRequired`, before the table is touched; a non-empty create succeeds exactly when the code search finds a code and the INSERT works, and its code is the one the search found (the first unused candidate); a success is a record whose code was absent and matches the route, with the normalised URL, the next id, the supplied time and 0 clicks; a failed search passes its error (storage error or exhaustion) through, and a failed INSERT after a found code gives `InsertFailed`; collisions are never reported |
| `LinkTable.AfterCreate` | main.go:130-131 | after the INSERT, the created record is stored under its code; the codes are the old ones plus that one; every other row is unchanged; a failed create changes nothing |
| `LinkTable.InsertKeepsWellFormed` | main.go:52-58 | inserting a record with a fresh code, a URL with a scheme and the next id keeps code and id uniqueness and all other invariants, adds exactly that record, keeps every earlier record, and the new id is above every existing id |
| `LinkTable.CreateKeepsWellFormed` | main.go:130-135 | a successful create keeps the table well formed with the id counter advanced; a failed create leaves the table unchanged |
| `LinkTable.SuccessiveCreatesDiffer` | main.go:116-131 | two creates in a row never issue the same code, even from the same candidates, and the second id follows the first |
| `LinkTable.Lookup` | main.go:160-168 | a lookup succeeds exactly when the query does not fail and the code is present, and then returns that record; otherwise it reports a storage error or not-found, never both |
| `LinkTable.Redirect` | main.go:158-173 | a redirect succeeds exactly when the query works and the code is present, returning that record's stored URL; otherwise a storage error or not-found |
| `LinkTable.AfterRedirect` | main.go:171 | the codes stay the same; a found record gains exactly one click and no other field changes; every other row is unchanged |
| `LinkTable.RedirectHit` | main.go:158-173 | a redirect to a present code returns the stored URL and raises its click count by exactly 1; no other record and no other field changes |
| `LinkTable.RedirectMiss` | main.go:160-168 | a redirect to an absent code returns not-found, a failing query returns a storage error, and neither changes the table |
| `LinkTable.RedirectKeepsWellFormed` | main.go:171 | a redirect keeps the table's invariants |
| `LinkTable.ClicksAccumulate` | main.go:171 | n redirects to a present code add exactly n clicks and change nothing else |
| `LinkTable.CreateThenRedirect` | main.go:115-173 | after a create, the new code redirects to the normalised URL, and its click count is 1 after one redirect and 2 after two |
| `LinkStore.Store.constructor` | main.go:51-58 | a new store has an empty table, the id counter at 1, and satisfies the invariants |
| `LinkStore.Store.DrawUnusedCode` | main.go:115-128 | the loop draws one candidate per buffer and returns what `FindFreeCode` specifies: an absent, route-shaped code, or the failure |
| `LinkStore.Store.Create` | main.go:90-135 | returns `CreateOutcome` of the old table; the table becomes the old table plus the new record on success and is unchanged on failure; the id counter advances only on success; the invariants are kept |
| `LinkStore.Store.Redirect` | main.go:154-173 | returns the stored URL of the code, or not-found, or a storage error; the table becomes `AfterRedirect` of the old one (one more click on a hit, unchanged otherwise); the id counter is unchanged |
| `LinkStore.Store.Stats` | main.go:176-200 | an empty code, and only an empty code, is refused; it succeeds exactly when the query works and the code is present, returning that full record with its current click count; otherwise a storage error or not-found; the table is only read |

## Left out

- HTTP plumbing is not modelled: request and response JSON, the OPTIONS
  preflight, CORS headers, `respondWithError` and the HTTP status codes,
  routing, static files, the 301 redirect response and `main`. The redirect
  route's pattern appears only as the predicate `MatchesRoute`.
- The response body of a create (`short_url`, `short_code`, `long_url`) is
  not modelled as a value. Its parts are `Url.ShortURL` and the created
  record's fields.
- The SQLite engine and its SQL text are replaced by a map and an id
  counter. Engine failures are inputs (`Fault`, `queryFails`) rather than
  observed conditions.
- `Store.Redirect` always increments. The error that the UPDATE at
  `main.go:171` ignores is not modelled, so a redirect whose UPDATE fails
  (and which then counts no click) is not represented.
- The entropy source is not modelled: `crypto/rand.Read` and the
  time-based fallback at `main.go:74-80`. The byte buffer is an input of
  any value, which also covers the fallback's bytes.
- `created_at` is the input `now`; the database clock is not modelled.
- Concurrency is not modelled: the check-then-insert race between
  `main.go:120` and `main.go:131`, and the read-then-update at
  `main.go:160`/`171`. All operations are sequential.
- `Store.DrawUnusedCode`: the source loop has no bound. The model's loop
  ends after the supplied candidates with `CodesExhausted`, an outcome
  the source does not have.
- `LinkTable.InsertKeepsWellFormed`: `id` (int64) is an unbounded natural,
  so AUTOINCREMENT overflow is not modelled.
- `LinkTable.AfterRedirect`, `LinkStore.Store.Redirect`: `click_count` (int)
  is an unbounded natural, so overflow of the increment at `main.go:171` is
  not modelled.
- The front-end script `static/script.js` is not part of this model. It is
  browser UI.
