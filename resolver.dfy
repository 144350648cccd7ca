/**
 * The set resolver of scripts/main.js: an identifier is reduced below
 * 100000, looked up through a session cache `idMap`, and, while the cached
 * answer is "not found", retried with the identifier divided by ten and
 * rounded, each answer overwriting the cache entry of the original key.
 *
 * The remote catalogue (`queryAPI`) is a deterministic function `wire`
 * from identifiers to raw answers, given to the cache when it is made; the
 * cache reads each raw answer through `Classify`, which recognises the
 * "not found" sentinel. A ghost log records every identifier sent to it.
 */
module Resolver {
  import opened Hashing

  /** `id % 100000` bounds keys to the catalogue's identifier range. */
  const Modulus: int := 100000
  /** Each narrowing step divides the candidate by this. */
  const Divisor: int := 10
  /** The fallback set, primed into the cache at start-up. */
  const DefaultSet: int := 8014
  /** The `detail` text of the catalogue's answer for an unknown identifier. */
  const NotFoundDetail: string := "Not found."

  /** The fields of a catalogue answer the page displays. */
  datatype SetRecord = SetRecord(setNum: string, name: string, year: int, numParts: int, setImgUrl: string)

  /** A catalogue answer as it arrives: an optional `detail` next to the record's fields. */
  datatype WireAnswer = WireAnswer(detail: Option<string>, fields: SetRecord)

  datatype Option<T> = None | Some(value: T)

  /** A catalogue answer once the "not found" sentinel has been recognised. */
  datatype Result = Found(record: SetRecord) | NotFound

  /** `json.detail === notFound`: only the exact sentinel text means "not found". */
  function Classify(w: WireAnswer): (r: Result)
    ensures r.NotFound? <==> w.detail == Some(NotFoundDetail)
    ensures r.Found? ==> r.record == w.fields
  {
    if w.detail == Some(NotFoundDetail) then NotFound else Found(w.fields)
  }

  // ---------------------------------------------------------------------
  // Arithmetic of the key and of the narrowing step

  /** JavaScript's `%`: the remainder of truncating division, with the sign of the dividend. */
  function TruncMod(a: int, m: int): (r: int)
    requires m > 0
    ensures -m < r < m
    ensures a >= 0 ==> r >= 0
    ensures a <= 0 ==> r <= 0
    ensures exists q :: a == q * m + r
  {
    if a >= 0 then
      assert a == (a / m) * m + a % m;
      a % m
    else
      assert -a == ((-a) / m) * m + (-a) % m;
      assert a == (-((-a) / m)) * m + -((-a) % m);
      -((-a) % m)
  }

  /** The remainder of truncating division is the only one with the dividend's sign. */
  lemma {:induction false} TruncModUnique(a: int, m: int, q: int, r: int)
    requires m > 0 && -m < r < m
    requires a >= 0 ==> r >= 0
    requires a <= 0 ==> r <= 0
    requires a == q * m + r
    ensures r == TruncMod(a, m)
  {
    var t := TruncMod(a, m);
    var p :| a == p * m + t;
    assert (q - p) * m == t - r;
    MultipleInsideBand(q - p, m);
  }

  /** The only multiple of m strictly between -m and m is 0. */
  lemma MultipleInsideBand(d: int, m: int)
    requires m > 0 && -m < d * m < m
    ensures d == 0
  {
  }

  /** The key fetchSet caches under: `id % 100000`. */
  function Key(id: int): (k: int)
    ensures -Modulus < k < Modulus
    ensures id > 0 ==> k >= 0
    ensures id < 0 ==> k <= 0
    ensures 0 <= id < Modulus ==> k == id
  {
    TruncMod(id, Modulus)
  }

  /** `Math.round(n / 10)`: the nearest integer to n/10, halves rounded up. */
  function Narrow(n: int): (r: int)
    ensures Divisor * r - 5 <= n < Divisor * r + 5
    ensures n > 1 ==> 0 <= r < n
  {
    (n + Divisor / 2) / Divisor
  }

  /** 10^k, the bound of `NarrowingSteps`. */
  function Pow10(k: nat): int {
    if k == 0 then 1 else 10 * Pow10(k - 1)
  }

  // ---------------------------------------------------------------------
  // What one call of fetchSet does, as functions of the cache before it

  /** The narrowing loop's run: ids queried, the last candidate, and the answer left in the cache. */
  datatype Narrowing = Narrowing(probes: seq<int>, last: int, result: Result)

  /**
   * The narrowing loop entered with cache entry `entry` and candidate `n`:
   * while the entry is NotFound and n > 1, n becomes Narrow(n), that id is
   * queried and its answer replaces the entry.
   */
  function NarrowFrom(entry: Result, n: int, lookup: int -> Result): (o: Narrowing)
    ensures o.result.Found? || o.last <= 1
    decreases n
  {
    if entry.NotFound? && n > 1 then
      var next := Narrow(n);
      var rest := NarrowFrom(lookup(next), next, lookup);
      Narrowing([next] + rest.probes, rest.last, rest.result)
    else
      Narrowing([], n, entry)
  }

  /**
   * The shape of a narrowing run: it queries nothing exactly when the entry
   * is found or the candidate is at most 1; otherwise it starts at Narrow(n),
   * the candidates fall strictly and stay in [0, n), every query but the last
   * answered NotFound, and the entry left behind is the last query's answer.
   */
  lemma {:induction false} NarrowShape(entry: Result, n: int, lookup: int -> Result)
    ensures var o := NarrowFrom(entry, n, lookup);
      (|o.probes| == 0 <==> (entry.Found? || n <= 1))
      && (|o.probes| == 0 ==> o.last == n && o.result == entry)
      && (|o.probes| > 0 ==> o.probes[0] == Narrow(n) && o.last == o.probes[|o.probes| - 1] && o.result == lookup(o.last))
    ensures var o := NarrowFrom(entry, n, lookup);
      forall i :: 0 <= i < |o.probes| ==> 0 <= o.probes[i] < n
    ensures var o := NarrowFrom(entry, n, lookup);
      forall i, j :: 0 <= i < j < |o.probes| ==> o.probes[j] < o.probes[i]
    ensures var o := NarrowFrom(entry, n, lookup);
      forall i :: 0 <= i < |o.probes| - 1 ==> lookup(o.probes[i]).NotFound? && o.probes[i] > 1
    decreases n
  {
    if entry.NotFound? && n > 1 {
      var next := Narrow(n);
      NarrowShape(lookup(next), next, lookup);
      var rest := NarrowFrom(lookup(next), next, lookup);
      var o := NarrowFrom(entry, n, lookup);
      assert o.probes == [next] + rest.probes;
      assert forall i :: 1 <= i < |o.probes| ==> o.probes[i] == rest.probes[i - 1];
      if |rest.probes| == 0 {
        assert lookup(next) == o.result;
      }
    }
  }

  /**
   * One turn of the narrowing loop, seen from a log `sent` of the queries
   * so far: sending Narrow(n) moves it from the run still to come into the log.
   */
  lemma NarrowStep(entry: Result, n: int, lookup: int -> Result, sent: seq<int>)
    requires entry.NotFound? && n > 1
    ensures var rest := NarrowFrom(lookup(Narrow(n)), Narrow(n), lookup);
      sent + NarrowFrom(entry, n, lookup).probes == (sent + [Narrow(n)]) + rest.probes
      && NarrowFrom(entry, n, lookup).result == rest.result
  {
    var rest := NarrowFrom(lookup(Narrow(n)), Narrow(n), lookup);
    assert NarrowFrom(entry, n, lookup).probes == [Narrow(n)] + rest.probes;
  }

  /** Everything a call fetchSet(id) changes and returns. */
  datatype Fetch = Fetch(queries: seq<int>, idMap: map<int, Result>, result: Result, last: int)

  function FetchSpec(m: map<int, Result>, id: int, lookup: int -> Result): (f: Fetch)
    ensures Key(id) in f.idMap && f.result == f.idMap[Key(id)]
    ensures f.idMap.Keys == m.Keys + {Key(id)}
    ensures forall k :: k in m && k != Key(id) ==> f.idMap[k] == m[k]
    ensures f.result.Found? || f.last <= 1
    ensures Key(id) !in m ==> |f.queries| >= 1 && f.queries[0] == Key(id)
  {
    var key := Key(id);
    var first := if key in m then [] else [key];
    var entry := if key in m then m[key] else lookup(key);
    var o := NarrowFrom(entry, key, lookup);
    Fetch(first + o.probes, m[key := o.result], o.result, o.last)
  }

  // ---------------------------------------------------------------------
  // Properties of fetchSet

  /** A candidate at most 10^k is narrowed at most k times. */
  lemma {:induction false} NarrowingSteps(entry: Result, n: int, k: nat, lookup: int -> Result)
    requires n <= Pow10(k)
    ensures |NarrowFrom(entry, n, lookup).probes| <= k
    decreases k
  {
    if entry.NotFound? && n > 1 {
      assert k > 0;
      var next := Narrow(n);
      assert next <= Pow10(k - 1);
      NarrowingSteps(lookup(next), next, k - 1, lookup);
    }
  }

  /** A key below 10^5 is narrowed at most five times, so one call queries at most six ids. */
  lemma AtMostSixQueries(m: map<int, Result>, id: int, lookup: int -> Result)
    ensures |FetchSpec(m, id, lookup).queries| <= 6
  {
    var key := Key(id);
    var entry := if key in m then m[key] else lookup(key);
    assert Pow10(5) == Modulus;
    NarrowingSteps(entry, key, 5, lookup);
  }

  /**
   * The first lookup: a key missing from the cache is queried first and its
   * answer stored; a cached key is never queried again by the call.
   */
  lemma FirstLookup(m: map<int, Result>, id: int, lookup: int -> Result)
    ensures var f := FetchSpec(m, id, lookup);
      Key(id) !in m ==> f.queries[0] == Key(id) && f.queries[1..] == NarrowFrom(lookup(Key(id)), Key(id), lookup).probes
    ensures var f := FetchSpec(m, id, lookup);
      Key(id) in m ==> Key(id) !in f.queries && f.queries == NarrowFrom(m[Key(id)], Key(id), lookup).probes
  {
    if Key(id) in m {
      NarrowShape(m[Key(id)], Key(id), lookup);
    }
  }

  /**
   * After narrowing, the original key holds the answer for the LAST
   * candidate queried, and every earlier query answered NotFound.
   */
  lemma OverwriteHoldsLastAnswer(m: map<int, Result>, id: int, lookup: int -> Result)
    requires |FetchSpec(m, id, lookup).queries| >= 1
    ensures var f := FetchSpec(m, id, lookup);
      f.idMap[Key(id)] == lookup(f.queries[|f.queries| - 1])
    ensures var f := FetchSpec(m, id, lookup);
      forall i :: 0 <= i < |f.queries| - 1 ==> lookup(f.queries[i]).NotFound?
  {
    var f := FetchSpec(m, id, lookup);
    var key := Key(id);
    var entry := if key in m then m[key] else lookup(key);
    var o := NarrowFrom(entry, key, lookup);
    NarrowShape(entry, key, lookup);
    if key !in m {
      assert f.queries == [key] + o.probes;
      if o.probes == [] {
        assert f.idMap[key] == lookup(key);
      } else {
        assert f.queries[|f.queries| - 1] == o.probes[|o.probes| - 1];
        assert lookup(key).NotFound?;
      }
    }
  }

  /** A key at most 1 (every negative key among them) is never narrowed: at most one query. */
  lemma SmallKeyNeverNarrows(m: map<int, Result>, id: int, lookup: int -> Result)
    requires Key(id) <= 1
    ensures var f := FetchSpec(m, id, lookup);
      f.queries == (if Key(id) in m then [] else [Key(id)])
    ensures var f := FetchSpec(m, id, lookup);
      f.result == (if Key(id) in m then m[Key(id)] else lookup(Key(id)))
  {
  }

  /** A cached Found answer costs no query and changes nothing. */
  lemma CachedFoundIsFree(m: map<int, Result>, id: int, lookup: int -> Result)
    requires Key(id) in m && m[Key(id)].Found?
    ensures var f := FetchSpec(m, id, lookup);
      f.queries == [] && f.idMap == m && f.result == m[Key(id)]
  {
  }

  /** A cached NotFound is no cache hit: a key above 1 is narrowed again, from Narrow(key). */
  lemma CachedNotFoundRequeries(m: map<int, Result>, id: int, lookup: int -> Result)
    requires Key(id) in m && m[Key(id)].NotFound? && Key(id) > 1
    ensures var f := FetchSpec(m, id, lookup);
      |f.queries| >= 1 && f.queries[0] == Narrow(Key(id))
  {
  }

  /**
   * Narrowing does not read the cache: after a missing key answers NotFound,
   * its first candidate is queried whether or not that candidate is cached
   * under its own key.
   */
  lemma NarrowingIgnoresCache(m: map<int, Result>, id: int, lookup: int -> Result)
    requires Key(id) !in m && Key(id) > 1 && lookup(Key(id)).NotFound?
    ensures var f := FetchSpec(m, id, lookup);
      |f.queries| >= 2 && f.queries[0] == Key(id) && f.queries[1] == Narrow(Key(id))
  {
  }

  /** fetchSet(1000) queries id 100 even when 100 is already cached. */
  lemma CachedIdQueriedAgain(m: map<int, Result>, lookup: int -> Result)
    requires 100 in m && 1000 !in m && lookup(1000).NotFound?
    ensures 100 in FetchSpec(m, 1000, lookup).queries
  {
    NarrowingIgnoresCache(m, 1000, lookup);
  }

  /**
   * Calling fetchSet again with the same id returns the same answer and
   * leaves the same cache; it queries nothing exactly when the answer was
   * found or the key is at most 1. After a NotFound answer it re-sends the
   * first call's narrowing queries, all but the key's own first lookup.
   */
  lemma SecondFetch(m: map<int, Result>, id: int, lookup: int -> Result)
    ensures var f1 := FetchSpec(m, id, lookup);
      var f2 := FetchSpec(f1.idMap, id, lookup);
      f2.result == f1.result && f2.idMap == f1.idMap
    ensures var f1 := FetchSpec(m, id, lookup);
      var f2 := FetchSpec(f1.idMap, id, lookup);
      f2.queries == [] <==> (f1.result.Found? || Key(id) <= 1)
    ensures var f1 := FetchSpec(m, id, lookup);
      var f2 := FetchSpec(f1.idMap, id, lookup);
      f1.result.NotFound? ==> f2.queries == NarrowFrom(NotFound, Key(id), lookup).probes
    ensures var f1 := FetchSpec(m, id, lookup);
      var f2 := FetchSpec(f1.idMap, id, lookup);
      f1.result.NotFound? ==> f2.queries == (if Key(id) in m then f1.queries else f1.queries[1..])
  {
  }

  // ---------------------------------------------------------------------
  // The page's choice between the found set and the default set

  /** What the result handler puts on the page: the set found, or the cached default entry. */
  datatype Shown = Unique(record: SetRecord) | Fallback(entry: Option<Result>)

  /** `recentJson.detail === notFound ? idMap.get(defaultSet) : recentJson`. */
  function Select(r: Result, m: map<int, Result>): (s: Shown)
    ensures s.Unique? <==> r.Found?
    ensures r.Found? ==> s.record == r.record
    ensures s.Fallback? ==> (s.entry.Some? <==> DefaultSet in m)
    ensures s.Fallback? && DefaultSet in m ==> s.entry.value == m[DefaultSet]
  {
    if r.NotFound? then Fallback(if DefaultSet in m then Some(m[DefaultSet]) else None)
    else Unique(r.record)
  }

  /**
   * With the default set cached, a call that finds nothing makes the page
   * show the default entry as it stood before the call. The call can only
   * rewrite that entry when its key is 8014, and then the entry was already
   * NotFound: a found 8014 entry is returned without narrowing.
   */
  lemma FallbackShowsDefault(m: map<int, Result>, id: int, lookup: int -> Result)
    requires DefaultSet in m
    requires FetchSpec(m, id, lookup).result.NotFound?
    ensures var f := FetchSpec(m, id, lookup);
      Select(f.result, f.idMap) == Fallback(Some(m[DefaultSet]))
    ensures Key(id) == DefaultSet ==> m[DefaultSet].NotFound?
  {
  }

  // ---------------------------------------------------------------------
  // The session state

  /** The page's session: the `idMap` cache and the remote catalogue it consults. */
  class SetCache {
    var idMap: map<int, Result>
    ghost var queries: seq<int>
    /** The remote catalogue's raw answer for each identifier. */
    const wire: int -> WireAnswer
    /** The same answers with the "not found" sentinel recognised. */
    const lookup: int -> Result := id => Classify(wire(id))

    /** `new Map()`: an empty cache before any query. */
    constructor (wire: int -> WireAnswer)
      ensures idMap == map[] && queries == [] && this.wire == wire
    {
      this.wire := wire;
      idMap := map[];
      queries := [];
    }

    /**
     * `queryAPI(id)`: one request to the catalogue, logged, whose answer is
     * classified by its `detail` as every later read of `idMap` tests it.
     */
    method QueryAPI(id: int) returns (answer: Result)
      modifies this`queries
      ensures answer == Classify(wire(id)) && answer == lookup(id)
      ensures queries == old(queries) + [id]
    {
      answer := Classify(wire(id));
      queries := queries + [id];
    }

    /** `fetchSet(id)`. */
    method FetchSet(id: int) returns (r: Result)
      modifies this
      ensures var f := FetchSpec(old(idMap), id, lookup);
        idMap == f.idMap && queries == old(queries) + f.queries && r == f.result
    {
      ghost var m0, q0 := idMap, queries;
      var key := Key(id);
      if key !in idMap {
        var answer := QueryAPI(key);
        idMap := idMap[key := answer];
      }
      ghost var first := if key in m0 then [] else [key];
      ghost var run := NarrowFrom(idMap[key], key, lookup);
      assert queries == q0 + first;
      var candidate := key;
      while idMap[key].NotFound? && candidate > 1
        invariant key in idMap && idMap == m0[key := idMap[key]]
        invariant queries + NarrowFrom(idMap[key], candidate, lookup).probes == q0 + (first + run.probes)
        invariant NarrowFrom(idMap[key], candidate, lookup).result == run.result
        decreases candidate
      {
        NarrowStep(idMap[key], candidate, lookup, queries);
        candidate := Narrow(candidate);
        var answer := QueryAPI(candidate);
        idMap := idMap[key := answer];
      }
      r := idMap[key];
    }

    /** The start-up call `fetchSet(8014)` that primes the cache with the default set. */
    method Prime()
      modifies this
      ensures idMap == FetchSpec(old(idMap), DefaultSet, lookup).idMap
      ensures queries == old(queries) + FetchSpec(old(idMap), DefaultSet, lookup).queries
      ensures DefaultSet in idMap
    {
      var _ := FetchSet(DefaultSet);
    }

    /** The submit handler: hash the name, resolve it, and choose what to show. */
    method Search(name: seq<char>) returns (shown: Shown)
      modifies this
      ensures var f := FetchSpec(old(idMap), HashSpec(name), lookup);
        idMap == f.idMap && queries == old(queries) + f.queries && shown == Select(f.result, idMap)
    {
      var code := HashCode(name);
      var json := FetchSet(code);
      shown := Select(json, idMap);
    }
  }
}
