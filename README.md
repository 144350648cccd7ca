# NameSet resolver in Dafny

NameSet is a browser page. A visitor types a name, and the page shows a
LEGO set "for" that name. The logic under the page has two parts, and this
project models both of them from `scripts/main.js`:

- **`hash_code`** (`hashing.dfy`, module `Hashing`). It lower-cases the name.
  It then folds the classic multiplier-31 string hash over the first UTF-16
  code unit of each code point, reducing the value to a signed 32-bit integer at each step. The
  JavaScript operators `<<` and `&` do that reduction. It is modelled
  imperatively as `HashCode`, a loop that is proved equal to the pure
  function `HashSpec`.
- **`fetchSet`** (`resolver.dfy`, module `Resolver`). This is the session
  cache `idMap`, keyed by `id % 100000`. JavaScript's `%` truncates, so the
  key keeps the sign of the id. On a miss, the remote catalogue is queried
  once. Then, while the entry for the key says "Not found." and the
  candidate is above 1, the candidate becomes `Math.round(candidate / 10)`.
  That id is queried, and its answer overwrites the entry of the *original*
  key. It is modelled as the class `SetCache`. The class has the field
  `idMap: map<int, Result>`. The catalogue `queryAPI` is a deterministic
  function `wire` from ids to raw answers. The cache reads it through
  `lookup`, which runs `Classify` on each raw answer and so tests each answer's `detail` against
  the sentinel "Not found.". A ghost log `queries` records every id
  sent to it. `FetchSet` is proved against the pure function `FetchSpec`,
  which gives the new map, the queries issued and the answer. The
  properties are then proved as lemmas about `FetchSpec` and `NarrowFrom`.

The page's choice between the found set and the default set 8014
(`Select`) is modelled too. So are start-up priming (`Prime`) and the
submit handler's path from name to displayed set (`Search`).

Behaviour worth knowing:

- The key can be negative: `id % 100000` keeps the sign of the id. `Key`
  keeps the sign, and a key at most 1 is never narrowed
  (`SmallKeyNeverNarrows`).
- The cache is not idempotent for answers that were not found. A cached
  NotFound entry is not treated as a hit: the narrowing loop runs again on
  every later call and re-sends the first call's narrowing queries
  (`CachedNotFoundRequeries`, `SecondFetch`). A second call issues no
  queries exactly when the first one found a set or the key is at most 1.
- A call never queries its own key when that key is cached
  (`FirstLookup`). Narrowing does not read the cache, so an id cached under
  its own key is queried again when it is another key's candidate, e.g.
  fetchSet(1000) after fetchSet(100) (`NarrowingIgnoresCache`,
  `CachedIdQueriedAgain`).
- The narrowing bound is "a candidate at most 10^k is narrowed at most k
  times" (`NarrowingSteps`). This is the `ceil(log10 n)` bound for n ≥ 2,
  and it gives at most six queries per call (`AtMostSixQueries`).
- When a call finds nothing and 8014 is cached, the page shows the 8014
  entry as it stood before the call. A call with key 8014 can only end
  NotFound if that entry was already NotFound, because a found entry is
  returned without narrowing (`FallbackShowsDefault`).

## Model

| member | source | states |
|---|---|---|
| `Hashing.Wrap32` | scripts/main.js:90-91 | Result is a signed 32-bit value, differs from the exact sum by a multiple of 2^32, and is the identity on 32-bit values |
| `Hashing.JsStep` | scripts/main.js:90-91 | One update as written, `((hash<<5)-hash)+code` then `hash & hash`, yields a signed 32-bit value; `JsStepIsTimes31` gives its value |
| `Hashing.JsStepIsTimes31` | scripts/main.js:90-91 | `Wrap32(Wrap32(hash*32) - hash + code)` (shift, subtract, add, `& hash`) equals `Wrap32(31*hash + code)` for every hash and code |
| `Hashing.CodeUnit` | scripts/main.js:88-89 | `charCodeAt(0)` of a code point is below 65536: the code point itself in the BMP, else its high surrogate `0xD800 + (cp - 0x10000) / 0x400` |
| `Hashing.LowerChar` | scripts/main.js:86 | Lower-casing leaves no ASCII capital, maps each capital to the letter 32 above it, and leaves every other character alone |
| `Hashing.Lower` | scripts/main.js:86 | Lower-casing a name keeps its length and lower-cases each character by `LowerChar` |
| `Hashing.LowerIdempotent` | scripts/main.js:86 | Lower-casing an already lower-cased name changes nothing |
| `Hashing.Poly` | scripts/main.js:87-93 | The hash of a lower-cased string is always a signed 32-bit value, and is 0 for the empty string |
| `Hashing.PolyIsExactMod32` | scripts/main.js:87-93 | Wrapping after every step equals the same recurrence `31*h + code` over unbounded integers, reduced modulo 2^32 once |
| `Hashing.FoldFromSnoc` | scripts/main.js:88-92 | Folding over `s + [c]` is one more update `wrap32(31*acc + code(c))` after folding over `s` |
| `Hashing.PolyIsFoldFromZero` | scripts/main.js:87-93 | The hash equals the left fold `acc := wrap32(31*acc + code(c))` from `acc = 0` over the string |
| `Hashing.HashSpec` | scripts/main.js:84-94 | The hash of a name is a signed 32-bit value |
| `Hashing.HashCode` | scripts/main.js:84-94 | The loop over the lower-cased name returns `HashSpec(name)`, a signed 32-bit value |
| `Hashing.HashIgnoresCase` | scripts/main.js:85-86 | A name hashes the same as its lower-cased form |
| `Hashing.HashSameUpToCase` | scripts/main.js:85-86 | Any two names that differ only in ASCII case hash the same |
| `Hashing.HashExamples` | scripts/main.js:84-94 | The empty name hashes to 0, "a" to 97, "LEGO" to 3317793, and "Clone" the same as "clone" |
| `Resolver.Classify` | scripts/main.js:117 | An answer is NotFound exactly when its `detail` is the exact text "Not found."; otherwise it is found with its fields |
| `Resolver.TruncMod` | scripts/main.js:104 | The JS remainder is strictly between -m and m, has the dividend's sign, and differs from the dividend by a multiple of m |
| `Resolver.TruncModUnique` | scripts/main.js:104 | Any remainder with those three properties is `TruncMod`, so they define the operator |
| `Resolver.Key` | scripts/main.js:103-104 | `|key| < 100000`; a positive id gives a key ≥ 0, a negative id a key ≤ 0; an id already in [0, 100000) is its own key |
| `Resolver.Narrow` | scripts/main.js:118 | `Math.round(n/10)`: the r with `10r - 5 <= n < 10r + 5` (halves round up); for n > 1, `0 <= r < n` |
| `Resolver.NarrowFrom` | scripts/main.js:115-121 | The narrowing loop ends with a found entry or a last candidate at most 1 |
| `Resolver.NarrowShape` | scripts/main.js:115-121 | Narrowing queries nothing iff the entry is found or n ≤ 1. Otherwise it starts at Narrow(n), candidates fall strictly within [0, n), every query but the last answered NotFound, and the entry holds the last query's answer |
| `Resolver.FetchSpec` | scripts/main.js:102-124 | Only the key's entry is created or overwritten, the rest of the map is unchanged, and the call returns the key's entry. That entry is found or the last candidate is ≤ 1. A missing key is queried first |
| `Resolver.NarrowingSteps` | scripts/main.js:115-121 | A candidate at most 10^k is narrowed at most k times |
| `Resolver.AtMostSixQueries` | scripts/main.js:104-121 | One call of fetchSet sends at most six queries |
| `Resolver.FirstLookup` | scripts/main.js:107-110 | A missing key is queried first, then the narrowing run follows. A cached key is not queried, and only the narrowing run is sent |
| `Resolver.OverwriteHoldsLastAnswer` | scripts/main.js:117-120 | After any query, the key's entry is the answer to the last query, and every earlier query answered NotFound |
| `Resolver.SmallKeyNeverNarrows` | scripts/main.js:116-117 | A key at most 1 (every negative key among them) causes at most the one query of the key itself, and returns its answer |
| `Resolver.CachedFoundIsFree` | scripts/main.js:107-117 | A cached found entry causes no query, leaves the map unchanged and is returned |
| `Resolver.CachedNotFoundRequeries` | scripts/main.js:107-121 | A cached NotFound entry for a key above 1 is narrowed again: the call queries Narrow(key) first |
| `Resolver.NarrowingIgnoresCache` | scripts/main.js:115-119 | After a missing key above 1 answers NotFound, the call's second query is Narrow(key), whatever the cache holds for that candidate |
| `Resolver.CachedIdQueriedAgain` | scripts/main.js:107-119 | fetchSet(1000) with 1000 missing and answering NotFound queries 100 even when 100 is cached |
| `Resolver.SecondFetch` | scripts/main.js:102-124 | Repeating a call returns the same answer and leaves the same map. It issues no query iff the first answer was found or the key is ≤ 1. After a NotFound answer it re-sends the first call's narrowing queries, i.e. all of them but the key's own first lookup |
| `Resolver.Select` | scripts/main.js:69-74 | A found answer is shown as itself. A NotFound answer falls back to the cached default entry, or to nothing when 8014 is not cached |
| `Resolver.FallbackShowsDefault` | scripts/main.js:69-70 | With 8014 cached and nothing found, the page shows the 8014 entry as it was before the call; a NotFound call with key 8014 implies that entry was already NotFound |
| `Resolver.SetCache.constructor` | scripts/main.js:13 | A new session over the catalogue `wire` has an empty map and has sent no queries |
| `Resolver.SetCache.QueryAPI` | scripts/main.js:133-138 | One query returns `Classify(wire(id))`, which is `lookup(id)`, and appends `id` to the query log |
| `Resolver.SetCache.FetchSet` | scripts/main.js:102-124 | The new map, the queries appended to the log, and the returned answer are exactly those of `FetchSpec` on the old map |
| `Resolver.SetCache.Prime` | scripts/main.js:17-19 | Priming with 8014 leaves an entry for 8014; the new map and the queries appended to the log are those `FetchSpec` gives |
| `Resolver.SetCache.Search` | scripts/main.js:35-74 | Submitting a name resolves `HashSpec(name)` as `FetchSpec` does, and shows `Select` of the answer against the new map |

## Left out

- DOM construction and event wiring (scripts/main.js:35-76 apart from lines 38-39 and 69-74, and `toggleButton`, `placeDetails`, `hideDetails` at 147-201): this is view code with no state the model could speak of.
- The HTTP request and JSON parsing inside `queryAPI` (scripts/main.js:134-137): network I/O. The catalogue is the deterministic function `wire`. Transport failures reject the promise and are not modelled.
- The API key import `rebrickKey` (scripts/main.js:1): an external secret. key.js is not part of this model.
- Asynchronous interleaving: each `fetchSet` call is modelled as atomic. In the source, the priming call at line 19 is not awaited, so a submit can run before the default entry exists. `Select` models that case as `Fallback(None)`, but `Search` assumes no call interleaves with another.
- Storing raw JSON: `QueryAPI` classifies each raw answer with `Classify` as it arrives, and `idMap` stores the classified `Result`. The source stores the raw JSON and tests `.detail === "Not found."` on each read. The outcome is the same, because the test is a pure function of the stored value. Any other `detail`, such as an error message, counts as found in both. Fields of the JSON other than those in `SetRecord` are not modelled.
- Hashing.Lower: built on `LowerChar`, so it has the same ASCII-only gap as the next line.
- Hashing.LowerChar: lower-cases only the ASCII letters A-Z. Full Unicode `toLowerCase` can change other characters and even string length; it is not modelled.
- Hashing.CodeUnit: Dafny characters are Unicode scalar values, so JavaScript strings with lone surrogates cannot be represented.
- Resolver.Narrow: the floating-point `Math.round(new_id / divisor)` is the exact integer floor((n + 5) / 10). This is exact for every candidate the loop sees, because they are below 100000.
- The `recentJson` global and the header texts (scripts/main.js:16, 41, 71-73) are not modelled beyond which record is shown.
