# Calaverita backend — a Dafny model

This project models the request handling of the calaverita backend
(`backend/server.js`): a small Express service that writes a *calaverita*
(a Day of the Dead poem) about a person from a form. It checks the form and
the email's company domain against an allow-list. It asks a text generator
for the poem and stores it in MySQL. It limits each email to two poems.

The model keeps the logic and replaces the surroundings by inputs:

- the text generator becomes a function parameter that returns a text or a failure;
- `Math.random()` becomes a real number in [0, 1);
- a storage failure becomes a `Fault` parameter naming the step that fails;
- the creation timestamp becomes an integer input.

The model has seven modules:

- `Text`: the JavaScript string operations the handler uses. This covers the
  `\s` character class, `trim`, ASCII `toLowerCase`, `split` on one character
  with `Join` as its inverse, and case-insensitive suffix removal.
- `Email`: `isValidEmail`, first as a scan and then proved equal to the
  language of its regular expression. It also holds `getDomainFromEmail`.
- `Domains`: the allow-list parsed from `ALLOWED_DOMAINS`, the background
  tables and the background pick, and the company name used in the prompt.
- `Requests`: the request body, the input checks in the handler's order, and
  the `detalles` text of the prompt. `BuildDetails` builds that text clause by
  clause, as the handler does.
- `Ledger`: the two tables (`usuarios` and `calaveras`) and the next
  auto-increment id, as a value. `GenerateStep` is one POST request from
  committed state to committed state. `Consistent` is the invariant every
  committed state satisfies. The lemmas state the quota properties for one
  transaction, for one request and for any sequence of requests (`Run`).
- `Listing`: `GET /api/calaveras`. It keeps the email's rows and sorts them
  newest first.
- `Server`: the class `Backend`. It holds the tables as fields that its
  methods update. `Generate` runs the checks one by one. `Transaction`
  snapshots both tables when the transaction opens and restores them on every
  failure. `Generate` is proved to produce exactly the state and response of
  `Ledger.GenerateStep`, and `Transaction` exactly those of `Ledger.Transact`.

`Ledger.Consistent` says four things:

- every email's `generaciones_count` equals the number of its rows in
  `calaveras`;
- no count exceeds 2;
- every id lies between 0 (exclusive) and the next id (exclusive);
- ids increase in table order.

Every request keeps `Consistent`. Counts never go down. A count goes up by
exactly one, and only for the requesting email on a commit. A refused,
rolled-back or over-quota request leaves both tables as they were.

The handler stores whatever text the generator returns, even an empty one
(backend/server.js:212-221); the model does the same.

## Model

| member | source | states |
|---|---|---|
| Text.Trim | backend/server.js:157 | `trim` returns the input with a blank prefix and a blank suffix cut off and nothing else, leaves neither end white space, and returns the empty string exactly for a blank input |
| Text.ToLower | backend/server.js:116 | `toLowerCase` keeps the length and lower-cases each ASCII letter in place, leaving every other character as it is |
| Text.IndexOf | backend/server.js:113 | the first occurrence of a character: none before it, and the end of the string exactly when the character is absent (`includes`) |
| Text.Split | backend/server.js:14 | `split` on one character: at least one piece, no piece holds the separator, joining the pieces gives the input back, and there are two or more pieces exactly when the separator occurs |
| Text.SplitSecond | backend/server.js:116 | the second piece of a split is the text between the first and the second separator |
| Text.ToLowerFixesLowerCase | backend/server.js:15 | lower-casing changes a string exactly when it has an upper-case letter, so it is idempotent |
| Text.ToLowerKeepsTrimmed | backend/server.js:15 | `trim().toLowerCase()` is still trimmed, and lower-case |
| Text.StripSuffixIgnoreCase | backend/server.js:173-175 | `replace(/suffix$/i, '')` removes the suffix, ignoring case, exactly when the string ends with it, and otherwise leaves the string unchanged |
| Email.IsValidEmail | backend/server.js:102-105 | `isValidEmail` as a scan: a non-empty run of `[^\s@]` before the first `@`, and after it a run of `[^\s@]` with a `.` neither first nor last (`ValidEmailMatchesPattern` proves it equal to the regular expression) |
| Email.ValidEmailMatchesPattern | backend/server.js:102-105 | the scan accepts exactly the strings that match `^[^\s@]+@[^\s@]+\.[^\s@]+$` (both directions) |
| Email.ValidEmailShape | backend/server.js:102-105 | a valid email is exactly one with a single `@`, no white space, a non-empty local part and a dot inside the domain part, neither first nor last (both directions) |
| Email.ExampleAddressValid | backend/server.js:102-105 | `a@x.com` is valid, with domain part `x.com` |
| Email.GetDomainFromEmail | backend/server.js:112-117 | no domain without an `@`; otherwise the lower-cased text between the first `@` and the next one or the end, and no domain when that text is empty; a domain is non-empty, lower-case and free of `@` |
| Email.ValidEmailDomain | backend/server.js:112-117 | for a valid email the domain is the whole domain part, lower-cased, and it keeps its inner dot |
| Domains.ParseAllowedDomains | backend/server.js:13-16 | the allow-list is the setting split on `,`, each piece trimmed and lower-cased, empty pieces dropped (`AllowedDomainsWellFormed` and `AllowedDomainsFromPieces` state what it holds) |
| Domains.NormalizeAll | backend/server.js:15 | `.map((domain) => domain.trim().toLowerCase())`: its contract is the pointwise meaning of `map`, one entry per piece, the entry at each position being `NormalizeDomain` of the piece there |
| Domains.NormalizeDomain | backend/server.js:15 | an allow-list entry is trimmed and lower-case, and contains a comma only if its piece did |
| Domains.KeepNonEmpty | backend/server.js:16 | the filter keeps exactly the non-empty pieces |
| Domains.AllowedDomainsWellFormed | backend/server.js:13-16 | every allow-list entry is non-empty, trimmed, lower-case and comma-free |
| Domains.AllowedDomainsFromPieces | backend/server.js:13-16 | a string is on the allow-list exactly when it is the non-empty normalized form of a comma-separated piece of the setting |
| Domains.EmptySettingAllowsNothing | backend/server.js:13 | an absent or empty setting allows no domain |
| Domains.RandomIndex | backend/server.js:130-133 | `Math.floor(Math.random() * n)` is a valid index |
| Domains.BackgroundChoices | backend/server.js:126-133 | backgrounds come from the domain's own list when it has a non-empty one, otherwise from `default_1..default_3` |
| Domains.ChooseBackground | backend/server.js:125-135 | the chosen background is an element of the list `BackgroundChoices` names |
| Domains.CompanyDomainsUseOwnBackgrounds | backend/server.js:68-79 | every domain with a background entry has a non-empty list of its own |
| Domains.CleanCompanyName | backend/server.js:172-175 | `empresaNombreLimpio`: a trailing `.com.mx`, then `.com`, then `.mx` removed, each ignoring case (`CleanCompanyNameStripsSuffixes` states the result) |
| Domains.CompanyName | backend/server.js:177 | `nombreEmpresaParaPrompt`: the colloquial name when there is a non-empty one, otherwise the cleaned name (`CompanyNamePrefersColloquial`) |
| Domains.CleanCompanyNameStripsSuffixes | backend/server.js:172-175 | the cleaned name is a prefix of the domain; it equals the domain exactly when the domain ends with neither `.com` nor `.mx`; a `.com.mx` ending is removed whole |
| Domains.CompanyNamePrefersColloquial | backend/server.js:177 | a domain with a colloquial name is always called by it (every such name is non-empty); any other domain gets its cleaned name |
| Requests.CheckInput | backend/server.js:154-169 | the input checks in the handler's order, refusing with 400 for the name, the email and the tone and 403 for the domain, or accepting with the email's domain (`InputChecksInOrder` states each case) |
| Requests.InputChecksInOrder | backend/server.js:157-169 | a blank name is refused first, then an invalid email, then a missing tone, then a domain off the allow-list (each an if-and-only-if); an accepted request yields the lower-cased domain part of its email, which has an inner dot |
| Requests.ExampleRequestAccepted | backend/server.js:157-169 | a request from `a@x.com` with a name and a tone is accepted when `x.com` is allowed |
| Requests.Details | backend/server.js:196-200 | `detalles`: the profession clause, then the position clause (with the company when there is one), then the likes clause, each only when its field is given (`DetailsEmptyIff`, `DetailsMentionFields`, `CompanyNeedsPosition`) |
| Requests.BuildDetails | backend/server.js:196-200 | the successive `+=` steps build exactly the profession, position and likes clauses, each present only when its field is given |
| Requests.DetailsEmptyIff | backend/server.js:196-200 | the details are empty exactly when profession, position and likes are all missing |
| Requests.DetailsMentionFields | backend/server.js:196-200 | a given profession opens the details, given likes close them, and without a profession the details open with the position clause |
| Requests.CompanyNeedsPosition | backend/server.js:197-198 | without a position the company name does not appear |
| Ledger.StatusCode | backend/server.js:157-253 | each response maps to 201, 400, 403, 429 or 500: 201 exactly for a success, 400 exactly for a missing name, an invalid email or a missing tone, 403 exactly for a domain off the allow-list, 429 exactly for the quota and 500 exactly for an internal error |
| Ledger.CountOf | backend/server.js:186-187 | the count read for an email: its `generaciones_count` when it has a `usuarios` row, otherwise 0 (a new user) |
| Ledger.PromptFor | backend/server.js:202-207 | the prompt of an accepted request: its name, the `detalles` text built from its profession, position, likes and company name, and its tone |
| Ledger.NewRow | backend/server.js:219-222 | the row the INSERT binds: the request's name, likes, profession, email, tone and position, the generated text, the full domain as `empresa`, the background id, and the id and creation time the table assigns |
| Ledger.Owned | backend/server.js:280 | the rows kept for an email are exactly the table's rows with that email, each as often as the table holds it |
| Ledger.OwnedAppend | backend/server.js:219-222 | appending a row adds it to its own email's rows and to no other email's |
| Ledger.Transact | backend/server.js:179-253 | the transaction: 500 when the connection or the locked read fails, 429 at the limit, otherwise the generator's text stored under the next id with the count raised by one, and every failure after that rolled back (`QuotaGate`, `CommitEffects`, `RollbackLeavesTablesUnchanged`) |
| Ledger.GenerateStep | backend/server.js:150-260 | one request: the input checks, then for an accepted request the transaction with the generator asked about the request's prompt and a background drawn for its domain (`RefusedInputTouchesNothing`, `SuccessEffects`, `GenerateStepKeepsConsistent`) |
| Ledger.TransactKeepsConsistent | backend/server.js:179-241 | the transaction keeps counts equal to row counts and at most 2, and keeps ids positive, below the next id and increasing |
| Ledger.GenerateStepKeepsConsistent | backend/server.js:150-253 | every request keeps the tables consistent |
| Ledger.RefusedInputTouchesNothing | backend/server.js:157-169 | a request refused by the input checks changes nothing, not even the next id |
| Ledger.RollbackLeavesTablesUnchanged | backend/server.js:242-253 | a transaction that does not commit leaves both tables as they were; apart from the 429 it answers 500, and it answers 500 exactly when the connection or read fails, or below the limit the generator or a storage step fails |
| Ledger.QuotaGate | backend/server.js:183-193 | once the count is read, 429 is answered exactly when the count is 2 or more, and then nothing changes |
| Ledger.CommitEffects | backend/server.js:219-241 | a commit happens exactly when the count is below 2, the generator answered and storage did not fail; it appends one row with the text and background under the next id, adds one to the email's count, and returns that id, text and background |
| Ledger.SuccessEffects | backend/server.js:196-241 | a success was accepted, returns the generator's text for its own prompt, and returns a background from its domain's list |
| Ledger.CountsMoveByAtMostOne | backend/server.js:225-232 | counts never decrease and rise by at most one; they rise exactly for the requesting email on a commit |
| Ledger.LastSlotGoesToOne | backend/server.js:183-193 | two requests for one email at count 1: the first commits, the second gets 429 and changes nothing |
| Ledger.AttemptStepCounts | backend/server.js:183-241 | one request adds one to an email's count exactly when it succeeds for that email |
| Ledger.Run | backend/server.js:150-260 | requests handled one after another, each on the state the previous one committed, with one response per request |
| Ledger.RunKeepsConsistent | backend/server.js:150-253 | any sequence of requests keeps the tables consistent |
| Ledger.RunCountsSuccesses | backend/server.js:225-232 | along any sequence of requests an email's count grows by exactly the number of its successes |
| Ledger.RunKeepsQuota | backend/server.js:189-193 | along any sequence of requests no email gets more successes than the generations it had left |
| Ledger.AcceptedRequestCommits | backend/server.js:219-241 | an accepted request below the limit, answered and without storage failure, gets the next id and adds one to its count |
| Ledger.AcceptedRequestAtLimit | backend/server.js:189-193 | an accepted request at the limit gets 429 and changes nothing |
| Ledger.FirstTwoRequestsServed | backend/server.js:183-241 | from empty tables, two identical accepted requests get ids 1 and 2 and counts 1 and 2 |
| Ledger.ThirdRequestRefused | backend/server.js:189-193 | the third identical request gets 429, and no row or count changes |
| Ledger.ExampleScenario | backend/server.js:183-241 | `a@x.com` with `x.com` allowed: from empty tables the first two requests get ids 1 and 2 and counts 1 and 2; the third gets 429, the table keeps two rows and the count stays 2 |
| Listing.Insert | backend/server.js:281 | inserting into a newest-first list keeps it newest first and adds exactly that row |
| Listing.SortNewestFirst | backend/server.js:281 | `ORDER BY fecha_creacion DESC` gives a newest-first permutation of the rows |
| Listing.ListCalaveras | backend/server.js:267-291 | 400 exactly for a missing or invalid email, 500 exactly when the query fails, otherwise a newest-first permutation of that email's rows |
| Listing.ListingHoldsOwnRows | backend/server.js:277-282 | the listing holds exactly the table's rows whose email is the query email |
| Listing.CreatedIsListed | backend/server.js:277-286 | after a success, the listing for the request's email holds a row with the returned id, text and background |
| Server.Backend.constructor | backend/server.js:13-16 | start-up parses the allow-list from the setting and starts from empty, consistent tables |
| Server.Backend.Generate | backend/server.js:150-176 | the handler keeps the tables consistent, and its response and new state are those of `GenerateStep`; a response other than 201 leaves both tables unchanged |
| Server.Backend.Transaction | backend/server.js:179-253 | the transaction with snapshot and rollback produces exactly the state and response of `Transact`; a response other than 201 leaves both tables as they were at the snapshot |

## Left out

- Express routing, CORS, JSON parsing and server start-up are not modelled; they are HTTP plumbing.
- The MySQL pool, connection release and the `FOR UPDATE` row lock are not modelled. Requests are handled one at a time and each transaction is atomic, so two racing requests appear as two consecutive steps (`Ledger.LastSlotGoesToOne`, `Ledger.RunKeepsQuota`).
- The Gemini call is a function parameter returning a text or a failure. Network latency and timeouts are not modelled.
- The wording of the prompt template is not modelled. The prompt is the name, the `detalles` text and the tone.
- Logging is left out.
- `Math.random()` is an input in [0, 1). Which background is picked is not constrained beyond the list it comes from.
- `toLowerCase` and the `i` flag of the suffix regular expressions are modelled on ASCII letters only. Other letters are left unchanged.
- Request fields are strings. A field the body leaves out is modelled as the empty string, which is how the input checks and the prompt treat it.
- A body without `gustos`, `profesion` or `puesto` is modelled like one that sends them empty. The handler binds such a field into the INSERT as `undefined` (backend/server.js:219-222), not as `''`. How the MySQL driver treats an `undefined` value, possibly a 500 after the generator call, is not modelled.
- Non-string values of the request fields are not modelled; every field is a string. In the source, `getDomainFromEmail` runs before any check (backend/server.js:155). A truthy number, boolean or object `email` has no `includes` and throws there (backend/server.js:113), which answers 500. An array `email` has `includes`: `isValidEmail` then tests its string form (backend/server.js:104), so it gets 400 or 403, or 500 when an element is exactly `@` and `split` throws (backend/server.js:116). A truthy non-string `nombre` throws in `trim` (backend/server.js:157). A falsy non-string `tono` gets 400 (backend/server.js:160); a truthy one passes and reaches the prompt and the INSERT as it is. The GET handler's `email` comes from the query string and may be an array or an object (backend/server.js:270-271); `isValidEmail` tests its string form, and what the query does with such a value is not modelled.
- The lookups `domainBackgrounds[domain]` and `domainColloquialNames[userDomain]` (backend/server.js:126, 177) are modelled as map lookups, without the names objects inherit such as `constructor`. None of those names has an inner dot, and every domain that reaches these lookups has one, so no checked domain can be one of them.
- Table comparisons of emails are exact. A case-insensitive MySQL collation is not modelled.
- A failing rollback is not modelled.
- `fecha_creacion` is an input of the request. Rows created at the same instant come in no promised order, and `SortNewestFirst` picks one such order.
- The GET listing returns whole rows. The column projection of its `SELECT` is not modelled.
- The InnoDB auto-increment counter is modelled as not reset by a rollback: an insert that is rolled back still uses up its id.
- Only one storage fault per request is modelled, at the step `Fault` names.
- The frontend is not part of this model.
