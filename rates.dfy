/**
 * The exchange-rate table: the JSON body of the rate service, the rule by
 * which `fetchRate` accepts it (Content.js:58-71), and how a rate is read
 * from the cached table (Content.js:187 and 249). JSON numbers are exact
 * non-negative decimals.
 */
module Rates {
  import opened Wrappers
  import opened Numbers

  datatype Json =
    | JNull
    | JBool(b: bool)
    | JNum(n: Decimal)
    | JStr(s: string)
    | JArr(items: seq<Json>)
    | JObj(fields: map<string, Json>)

  /** What the HTTP helper hands back: a parsed body, or a rejection. */
  datatype Response = Failed | Received(body: Json)

  /** JavaScript truthiness of a JSON value. */
  predicate Truthy(j: Json) {
    match j
    case JNull => false
    case JBool(b) => b
    case JNum(n) => n.units != 0
    case JStr(s) => s != ""
    case JArr(_) => true
    case JObj(_) => true
  }

  /** `typeof v === 'object'` for a JSON value. */
  predicate IsObjectType(j: Json) { j.JNull? || j.JArr? || j.JObj? }

  /** `data.rates`: only an object body has named members. */
  function RatesMember(data: Json): (r: Option<Json>)
    ensures r.Some? ==> data.JObj? && "rates" in data.fields && r.value == data.fields["rates"]
    ensures r.None? ==> !data.JObj? || "rates" !in data.fields
  {
    if data.JObj? && "rates" in data.fields then Some(data.fields["rates"]) else None
  }

  /**
   * The table `fetchRate` keeps, if it keeps one: `data && data.rates &&
   * typeof data.rates === 'object'`.
   */
  function AcceptedRates(data: Json): (r: Option<Json>)
    ensures r.Some? <==>
              data.JObj? && "rates" in data.fields && (data.fields["rates"].JObj? || data.fields["rates"].JArr?)
    ensures r.Some? ==> r.value == data.fields["rates"]
  {
    var m := RatesMember(data);
    if Truthy(data) && m.Some? && Truthy(m.value) && IsObjectType(m.value) then m else None
  }

  /** The cache after one `fetchRate`: replaced when the response is accepted, kept otherwise. */
  function NextCache(cache: Option<Json>, resp: Response): (r: Option<Json>)
    ensures resp.Received? && AcceptedRates(resp.body).Some? ==> r == AcceptedRates(resp.body)
    ensures resp.Failed? || AcceptedRates(resp.body).None? ==> r == cache
  {
    if resp.Received? && AcceptedRates(resp.body).Some? then AcceptedRates(resp.body) else cache
  }

  /**
   * `ratesCache && typeof ratesCache[currency] === 'number'`: the rate, when
   * the cached table is an object with a number under the currency code.
   */
  function RateOf(cache: Option<Json>, currency: string): (r: Option<Decimal>)
    ensures r.Some? <==>
              cache.Some? && cache.value.JObj? && currency in cache.value.fields && cache.value.fields[currency].JNum?
    ensures r.Some? ==> JNum(r.value) == cache.value.fields[currency]
  {
    if cache.Some? && cache.value.JObj? && currency in cache.value.fields && cache.value.fields[currency].JNum?
    then Some(cache.value.fields[currency].n)
    else None
  }

  /** Once a table is cached, no later fetch takes it away. */
  lemma {:induction false} CacheStaysSet(cache: Option<Json>, resps: seq<Response>)
    requires cache.Some?
    ensures AfterFetches(cache, resps).Some?
    decreases |resps|
  {
    if resps != [] {
      CacheStaysSet(NextCache(cache, resps[0]), resps[1..]);
    }
  }

  /** The cache after a sequence of periodic fetches. */
  function AfterFetches(cache: Option<Json>, resps: seq<Response>): Option<Json>
    decreases |resps|
  {
    if resps == [] then cache else AfterFetches(NextCache(cache, resps[0]), resps[1..])
  }

  /** The cache after fetches is the table of the last accepted response, or the old cache. */
  lemma AfterFetchesLastAccepted(cache: Option<Json>, resps: seq<Response>)
    ensures (forall k :: 0 <= k < |resps| ==> !Accepts(resps[k])) ==> AfterFetches(cache, resps) == cache
    ensures forall k :: (0 <= k < |resps| && Accepts(resps[k]) && forall j :: k < j < |resps| ==> !Accepts(resps[j]))
                        ==> AfterFetches(cache, resps) == AcceptedRates(resps[k].body)
  {
    if forall k :: 0 <= k < |resps| ==> !Accepts(resps[k]) {
      AfterFetchesNoneAccepted(cache, resps);
    }
    forall k | 0 <= k < |resps| && Accepts(resps[k]) && forall j :: k < j < |resps| ==> !Accepts(resps[j])
      ensures AfterFetches(cache, resps) == AcceptedRates(resps[k].body)
    {
      AfterFetchesAccepted(cache, resps, k);
    }
  }

  lemma {:induction false} AfterFetchesNoneAccepted(cache: Option<Json>, resps: seq<Response>)
    requires forall k :: 0 <= k < |resps| ==> !Accepts(resps[k])
    ensures AfterFetches(cache, resps) == cache
    decreases |resps|
  {
    if resps != [] {
      assert !Accepts(resps[0]);
      assert forall k :: 0 <= k < |resps| - 1 ==> resps[1..][k] == resps[k + 1];
      AfterFetchesNoneAccepted(cache, resps[1..]);
    }
  }

  lemma {:induction false} AfterFetchesAccepted(cache: Option<Json>, resps: seq<Response>, k: nat)
    requires k < |resps| && Accepts(resps[k])
    requires forall j :: k < j < |resps| ==> !Accepts(resps[j])
    ensures AfterFetches(cache, resps) == AcceptedRates(resps[k].body)
    decreases k
  {
    var next := NextCache(cache, resps[0]);
    var rest := resps[1..];
    assert forall j :: 0 <= j < |rest| ==> rest[j] == resps[j + 1];
    assert AfterFetches(cache, resps) == AfterFetches(next, rest);
    if k == 0 {
      AfterFetchesNoneAccepted(next, rest);
    } else {
      AfterFetchesAccepted(next, rest, k - 1);
    }
  }

  predicate Accepts(resp: Response) {
    resp.Received? && AcceptedRates(resp.body).Some?
  }

  /** The example body: `{"rates": {"USD": 0.14}}` gives a USD rate of 0.14. */
  lemma AcceptExample()
    ensures var body := JObj(map["rates" := JObj(map["USD" := JNum(Decimal(14, 2))])]);
      RateOf(NextCache(None, Received(body)), "USD") == Some(Decimal(14, 2))
  {
  }

  /**
   * The rate for a currency after one fetch: a failed or rejected response
   * leaves it as it was; an accepted body alone decides it, as the number
   * its object table holds under the code, and never from an array table.
   */
  lemma RateAfterFetch(cache: Option<Json>, resp: Response, currency: string)
    ensures !Accepts(resp) ==> RateOf(NextCache(cache, resp), currency) == RateOf(cache, currency)
    ensures Accepts(resp) ==>
              var table := resp.body.fields["rates"];
              (table.JArr? ==> RateOf(NextCache(cache, resp), currency).None?)
              && forall n :: RateOf(NextCache(cache, resp), currency) == Some(n)
                             <==> table.JObj? && currency in table.fields && table.fields[currency] == JNum(n)
  {
  }

  /** After several fetches the rate is the one the last accepted body gives, or the one cached before. */
  lemma RateAfterFetches(cache: Option<Json>, resps: seq<Response>, currency: string)
    ensures (forall k :: 0 <= k < |resps| ==> !Accepts(resps[k]))
            ==> RateOf(AfterFetches(cache, resps), currency) == RateOf(cache, currency)
    ensures forall k :: (0 <= k < |resps| && Accepts(resps[k]) && forall j :: k < j < |resps| ==> !Accepts(resps[j]))
                        ==> RateOf(AfterFetches(cache, resps), currency) == RateOf(AcceptedRates(resps[k].body), currency)
  {
    AfterFetchesLastAccepted(cache, resps);
  }
}
