/**
  The serverless price endpoint: a module-scope cache of upstream price
  lookups keyed by the normalised id list, served while fresh (10 s), refreshed
  from the upstream otherwise, and served stale when the upstream rate-limits.

  The upstream call's outcome is an input (`Upstream`), and the two clock
  readings of a request are parameters: `now` when the cache is consulted and
  `completedAt` when the upstream answer has arrived.
*/
module PriceFeed {
  import opened Wrappers
  import opened Text

  /** `CACHE_TTL`, in milliseconds. */
  const CacheTtl: int := 10 * 1000

  // ---------------------------------------------------------------------------
  // Normalising the `ids` parameter

  /** `s.trim().toLowerCase()`. */
  function CleanId(s: string): string
  {
    Lower(Trim(s))
  }

  /** What a normalised id looks like: not empty, trimmed, lower case, no separator. */
  predicate IsCanonicalId(id: string)
  {
    id != [] && IsTrimmed(id) && IsLower(id) && ',' !in id
  }

  /** A cleaned fragment that is not empty is canonical. */
  lemma CleanIdIsCanonical(s: string)
    requires ',' !in s && CleanId(s) != []
    ensures IsCanonicalId(CleanId(s))
  {
    var t := Trim(s);
    assert ',' !in t;
    LowerIsLower(t);
    LowerKeepsTrimmed(t);
    assert forall i :: 0 <= i < |t| ==> (LowerChar(t[i]) == ',' ==> t[i] == ',');
  }

  /** A canonical id is its own cleaned form. */
  lemma CanonicalIsClean(id: string)
    requires IsCanonicalId(id)
    ensures CleanId(id) == id
  {
    TrimmedIsFixed(id);
    LowerFixesLower(id);
  }

  /** No fragment holds the separator. */
  predicate SeparatorFree(fragments: seq<string>)
  {
    forall i :: 0 <= i < |fragments| ==> ',' !in fragments[i]
  }

  /** One fragment's contribution: its cleaned form, or nothing when that is empty. */
  function Kept(fragment: string): seq<string>
  {
    var id := CleanId(fragment);
    if id == [] then [] else [id]
  }

  /** `.map(s => s.trim().toLowerCase()).filter(Boolean)` over the split fragments. */
  function KeepIds(fragments: seq<string>): (ids: seq<string>)
    ensures |ids| <= |fragments|
  {
    if fragments == [] then [] else Kept(fragments[0]) + KeepIds(fragments[1..])
  }

  /** Fragments without separators leave only canonical ids. */
  lemma {:induction false} KeptAreCanonical(fragments: seq<string>)
    requires SeparatorFree(fragments)
    ensures forall i :: 0 <= i < |KeepIds(fragments)| ==> IsCanonicalId(KeepIds(fragments)[i])
  {
    if fragments != [] {
      KeptAreCanonical(fragments[1..]);
      if CleanId(fragments[0]) != [] {
        CleanIdIsCanonical(fragments[0]);
      }
    }
  }

  /** Filtering works fragment by fragment, in order. */
  lemma {:induction false} KeepIdsAppend(a: seq<string>, b: seq<string>)
    ensures KeepIds(a + b) == KeepIds(a) + KeepIds(b)
  {
    if a == [] {
      assert a + b == b;
    } else {
      var ab := a + b;
      assert ab[0] == a[0] && ab[1..] == a[1..] + b;
      KeepIdsAppend(a[1..], b);
      Regroup(Kept(a[0]), KeepIds(a[1..]), KeepIds(b));
    }
  }

  lemma Regroup(x: seq<string>, y: seq<string>, z: seq<string>)
    ensures x + (y + z) == (x + y) + z
  {
  }

  /** Canonical ids all survive, unchanged and in order. */
  lemma {:induction false} KeepIdsCanonical(ids: seq<string>)
    requires forall i :: 0 <= i < |ids| ==> IsCanonicalId(ids[i])
    ensures KeepIds(ids) == ids
  {
    if ids != [] {
      CanonicalIsClean(ids[0]);
      KeepIdsCanonical(ids[1..]);
    }
  }

  /** The ids of a request: cleaned, non-empty, in request order, duplicates kept. */
  function NormalizeIds(idsParam: string): (ids: seq<string>)
    ensures forall i :: 0 <= i < |ids| ==> IsCanonicalId(ids[i])
  {
    var fragments := Split(idsParam, ',');
    KeptAreCanonical(fragments);
    KeepIds(fragments)
  }

  /** Cleaning ignores case: fragments that are the same up to case clean to the same id. */
  lemma CleanIdAlike(f: string, g: string)
    requires Alike(f, g)
    ensures CleanId(f) == CleanId(g)
  {
    TrimAlike(f, g);
    LowerAlike(Trim(f), Trim(g));
  }

  /** Fragments that are the same piece by piece up to case keep the same ids. */
  lemma {:induction false} KeepIdsAlike(a: seq<string>, b: seq<string>)
    requires PiecesAlike(a, b)
    ensures KeepIds(a) == KeepIds(b)
  {
    if a != [] {
      assert PiecesAlike(a[1..], b[1..]);
      KeepIdsAlike(a[1..], b[1..]);
      CleanIdAlike(a[0], b[0]);
    }
  }

  /** Requests that differ only in the case of their ids ask for the same ids and address the same
      cache entry. */
  lemma RequestKeyIgnoresCase(f: string, g: string)
    requires Lower(f) == Lower(g)
    ensures NormalizeIds(f) == NormalizeIds(g)
    ensures RequestKey(Some(f)) == RequestKey(Some(g))
  {
    LowerAlike(f, g);
    SplitAlike(f, g, ',');
    KeepIdsAlike(Split(f, ','), Split(g, ','));
  }

  /** A single fragment yields its trimmed, lower-cased form, or nothing when that is empty. */
  lemma KeepIdsFragment(f: string)
    ensures KeepIds([f]) == if CleanId(f) == [] then [] else [CleanId(f)]
  {
    assert [f][1..] == [];
  }

  /** A request without commas asks for the fragment's trimmed, lower-cased form, or for nothing
      when that is empty. With `NormalizeIdsAround` this fixes the ids of every request. */
  lemma NormalizeIdsFragment(f: string)
    requires ',' !in f
    ensures NormalizeIds(f) == if CleanId(f) == [] then [] else [CleanId(f)]
  {
    SplitWhole(f, ',');
    KeepIdsFragment(f);
  }

  /** Order and multiplicity: the ids of `a,b` are the ids of `a` followed by the ids of `b`. */
  lemma NormalizeIdsAround(a: string, b: string)
    ensures NormalizeIds(a + [','] + b) == NormalizeIds(a) + NormalizeIds(b)
  {
    SplitAround(a, b, ',');
    KeepIdsAppend(Split(a, ','), Split(b, ','));
  }

  /** A blank fragment and an empty one leave no id. */
  lemma BlankIdsDropped()
    ensures NormalizeIds(" ") == [] && NormalizeIds("") == []
  {
    SplitWhole(" ", ',');
    SplitWhole("", ',');
    assert Trim(" ") == [];
  }

  /** Fragments that are empty after trimming are dropped. */
  lemma BlankFragmentsDropped()
    ensures NormalizeIds(" , ,") == []
  {
    assert " , ," == " " + [','] + " ,";
    assert " ," == " " + [','] + "";
    NormalizeIdsAround(" ", " ,");
    NormalizeIdsAround(" ", "");
    BlankIdsDropped();
  }

  /** `ids.join(',')` for the request, or the 400 message the handler answers with. */
  function RequestKey(idsParam: Option<string>): (r: Result<string, string>)
  {
    match idsParam
    case None => Failure("missing ids query param")
    case Some(param) =>
      if param == [] then Failure("missing ids query param")
      else
        var ids := NormalizeIds(param);
        if ids == [] then Failure("no valid ids") else Success(Join(ids, ','))
  }

  /** The key lists the request's cleaned ids in order, and is its own key: requesting the key
      itself hits the same cache entry. */
  lemma RequestKeyCanonical(idsParam: Option<string>)
    requires RequestKey(idsParam).Success?
    ensures var key := RequestKey(idsParam).value;
      && Split(key, ',') == NormalizeIds(idsParam.value)
      && RequestKey(Some(key)) == Success(key)
  {
    var ids := NormalizeIds(idsParam.value);
    var key := Join(ids, ',');
    SplitJoin(ids, ',');
    KeepIdsCanonical(ids);
    assert key != [];
  }

  // ---------------------------------------------------------------------------
  // Normalising the upstream answer

  /** Prices by id; the `usd` field of an upstream entry may be missing. */
  type Prices = map<string, Option<real>>

  /** `Object.fromEntries(Object.entries(json).map(([k, v]) => [k.toLowerCase(), v.usd]))`,
      with `body` the entries in order: a later entry overwrites an earlier one. */
  function NormalizeQuotes(body: seq<(string, Option<real>)>): (m: Prices)
    ensures m.Keys == set i | 0 <= i < |body| :: Lower(body[i].0)
  {
    if body == [] then map[]
    else
      var prefix, last := body[..|body| - 1], body[|body| - 1];
      var m := NormalizeQuotes(prefix)[Lower(last.0) := last.1];
      assert forall i :: 0 <= i < |body| - 1 ==> prefix[i] == body[i];
      m
  }

  /** Every key of the answer is lower case. */
  lemma QuoteKeysLower(body: seq<(string, Option<real>)>)
    ensures forall k :: k in NormalizeQuotes(body) ==> IsLower(k)
  {
    forall k | k in NormalizeQuotes(body)
      ensures IsLower(k)
    {
      var i :| 0 <= i < |body| && k == Lower(body[i].0);
      LowerIsLower(body[i].0);
    }
  }

  /** Each key carries the `usd` value of the last upstream entry that lowers to it. */
  lemma {:induction false} QuoteLastWins(body: seq<(string, Option<real>)>, i: int)
    requires 0 <= i < |body|
    requires forall j :: i < j < |body| ==> Lower(body[j].0) != Lower(body[i].0)
    ensures NormalizeQuotes(body)[Lower(body[i].0)] == body[i].1
  {
    if i < |body| - 1 {
      var prefix := body[..|body| - 1];
      assert prefix[i] == body[i];
      QuoteLastWins(prefix, i);
    }
  }

  // ---------------------------------------------------------------------------
  // The handler

  /** A cache entry: when it was stored and the normalised prices. */
  datatype Entry = Entry(ts: int, data: Prices)

  /** What the upstream call yields: the entries of its JSON body, or an error with the HTTP
      status when there is one (a network or parse failure has none). */
  datatype Upstream =
    | Fetched(body: seq<(string, Option<real>)>)
    | Failed(status: Option<int>, message: string)

  /** The `source` field of a response: `'cache'`, `'coingecko'` or `'stale-cache'`. */
  datatype Source = Cache | CoinGecko | StaleCache

  /** A JSON body: prices with their source (and `warning: 'rate_limited'` when stale), or an error. */
  datatype Body = Data(source: Source, data: Prices, rateLimited: bool) | Error(message: string)

  datatype Response = Response(status: int, body: Body)

  /** `err.status || 500`. */
  function ErrorStatus(status: Option<int>): int
  {
    if status.None? || status.value == 0 then 500 else status.value
  }

  /** `err.message || 'failed'`. */
  function ErrorMessage(message: string): string
  {
    if message == [] then "failed" else message
  }

  /** An entry younger than the TTL is served without asking upstream. */
  predicate IsFresh(e: Entry, now: int)
  {
    now - e.ts < CacheTtl
  }

  /** Every stored key is a canonical request key and every stored price id is lower case. */
  ghost predicate WellKeyed(entries: map<string, Entry>)
  {
    forall k :: k in entries ==> IsOwnKey(k) && LowerKeys(entries[k].data)
  }

  /** Requesting `key` itself addresses the entry stored under `key`. */
  predicate IsOwnKey(key: string)
  {
    RequestKey(Some(key)) == Success(key)
  }

  /** Every price id is lower case. */
  predicate LowerKeys(data: Prices)
  {
    forall x :: x in data ==> IsLower(x)
  }

  /** Storing a normalised upstream answer under a request's key keeps the store well keyed. */
  lemma StoreKeepsWellKeyed(entries: map<string, Entry>, idsParam: Option<string>,
                            body: seq<(string, Option<real>)>, ts: int)
    requires WellKeyed(entries) && RequestKey(idsParam).Success?
    ensures WellKeyed(entries[RequestKey(idsParam).value := Entry(ts, NormalizeQuotes(body))])
  {
    RequestKeyCanonical(idsParam);
    QuoteKeysLower(body);
  }

  /** The module-scope `cache` object and the handler that reads and writes it. */
  class PriceCache {
    var entries: map<string, Entry>
    /** How many times the handler has called the upstream. */
    ghost var upstreamCalls: nat

    /** The stored keys are canonical request keys and the stored price ids are lower case, so
        every price the handler serves, fresh, cached or stale, is keyed in lower case. */
    ghost predicate Valid()
      reads this
    {
      WellKeyed(entries)
    }

    constructor ()
      ensures Valid() && entries == map[] && upstreamCalls == 0
    {
      entries := map[];
      upstreamCalls := 0;
    }

    /** `handler`: answer one request for `idsParam`. */
    method Handle(idsParam: Option<string>, now: int, upstream: Upstream, completedAt: int)
      returns (resp: Response)
      requires Valid()
      modifies this
      ensures Valid()
      ensures resp.body.Data? ==> LowerKeys(resp.body.data)
      ensures match RequestKey(idsParam)
        case Failure(msg) =>
          // bad request: no upstream call, cache unchanged
          && resp == Response(400, Error(msg))
          && entries == old(entries) && upstreamCalls == old(upstreamCalls)
        case Success(key) =>
          if key in old(entries) && IsFresh(old(entries)[key], now) then
            // fresh hit: served from the cache, no upstream call, cache unchanged
            && resp == Response(200, Data(Cache, old(entries)[key].data, false))
            && entries == old(entries) && upstreamCalls == old(upstreamCalls)
          else
            && upstreamCalls == old(upstreamCalls) + 1
            && match upstream
              case Fetched(body) =>
                // refresh: this key is overwritten with the arrival time, every other key kept
                && entries == old(entries)[key := Entry(completedAt, NormalizeQuotes(body))]
                && resp == Response(200, Data(CoinGecko, NormalizeQuotes(body), false))
              case Failed(status, message) =>
                && entries == old(entries)
                && if status == Some(429) && key in old(entries) then
                     // rate-limited with a prior entry: the old data, flagged
                     resp == Response(200, Data(StaleCache, old(entries)[key].data, true))
                   else
                     resp == Response(ErrorStatus(status), Error(ErrorMessage(message)))
    {
      var request := RequestKey(idsParam);
      if request.Failure? {
        return Response(400, Error(request.error));
      }
      var key := request.value;
      var entry := if key in entries then Some(entries[key]) else None;
      if entry.Some? && IsFresh(entry.value, now) {
        return Response(200, Data(Cache, entry.value.data, false));
      }

      upstreamCalls := upstreamCalls + 1;
      match upstream
      case Fetched(body) =>
        var data := NormalizeQuotes(body);
        StoreKeepsWellKeyed(entries, idsParam, body, completedAt);
        QuoteKeysLower(body);
        entries := entries[key := Entry(completedAt, data)];
        resp := Response(200, Data(CoinGecko, data, false));
      case Failed(status, message) =>
        if status == Some(429) && entry.Some? {
          resp := Response(200, Data(StaleCache, entry.value.data, true));
        } else {
          resp := Response(ErrorStatus(status), Error(ErrorMessage(message)));
        }
    }
  }

  /** At most one upstream call per TTL window: when the first of two requests for the same key
      refreshes it, a second request less than a TTL after that refresh is served from the
      cache with the same data, and the pair never costs more than one upstream call. */
  method AtMostOneFetchPerWindow(
    cache: PriceCache,
    first: Option<string>, t1: int, up1: Upstream, done1: int,
    second: Option<string>, t2: int, up2: Upstream, done2: int)
    returns (r1: Response, r2: Response)
    requires cache.Valid()
    requires RequestKey(first).Success? && RequestKey(second) == RequestKey(first)
    requires up1.Fetched? && t2 - done1 < CacheTtl
    modifies cache
    ensures cache.Valid()
    ensures cache.upstreamCalls <= old(cache.upstreamCalls) + 1
    ensures r1.body.Data? && r1.body.source == CoinGecko ==>
              r2 == Response(200, Data(Cache, r1.body.data, false))
  {
    r1 := cache.Handle(first, t1, up1, done1);
    r2 := cache.Handle(second, t2, up2, done2);
  }
}
