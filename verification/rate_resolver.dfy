/** get_rate as a whole: try the Trading Economics scrape, then the Bank of
    Canada API, and fall back to a fixed rate when both fail. Each stage's
    outcome is an `Option<real>` in which every exception the Python code
    catches is `None`. */
module RateResolver {
  import opened Options
  import TradingEconomics
  import BankOfCanada
  import PyStr

  /** The emergency rate, in percent. */
  const SafeFallbackRate: real := 3.86

  /** Where the returned rate came from (the attempt get_rate announces). */
  datatype Source = TradingEconomicsPage | BankOfCanadaApi | SafetyNet

  /** A rate tagged with its source. */
  datatype Quote = Quote(source: Source, rate: real)

  /** The position of the first outcome that holds a value, or -1 when
      none does. */
  function FirstSuccess(outcomes: seq<Option<real>>): (k: int)
    ensures -1 <= k < |outcomes|
    ensures k == -1 <==> forall i :: 0 <= i < |outcomes| ==> outcomes[i].None?
    ensures k >= 0 ==> outcomes[k].Some? && forall i :: 0 <= i < k ==> outcomes[i].None?
  {
    if |outcomes| == 0 then -1
    else if outcomes[0].Some? then 0
    else
      var k := FirstSuccess(outcomes[1..]);
      if k == -1 then -1 else k + 1
  }

  /** The general waterfall: the value of the first outcome that has one,
      or `fallback` when none has. */
  function Waterfall(outcomes: seq<Option<real>>, fallback: real): (r: real)
    ensures (forall i :: 0 <= i < |outcomes| ==> outcomes[i].None?) ==> r == fallback
    ensures forall k ::
              0 <= k < |outcomes| && outcomes[k].Some? && (forall i :: 0 <= i < k ==> outcomes[i].None?)
              ==> r == outcomes[k].value
  {
    var k := FirstSuccess(outcomes);
    if k == -1 then fallback else outcomes[k].value
  }

  /** The three attempts in order: the scrape's value if it has one,
      else the Bank of Canada value, else the safety net. */
  function Resolve(scraped: Option<real>, official: Option<real>): (q: Quote)
    ensures q.source == SafetyNet <==> scraped.None? && official.None?
    ensures q.source == SafetyNet ==> q.rate == SafeFallbackRate
    ensures scraped.Some? ==> q == Quote(TradingEconomicsPage, scraped.value)
    ensures scraped.None? && official.Some? ==> q == Quote(BankOfCanadaApi, official.value)
  {
    match scraped
    case Some(v) => Quote(TradingEconomicsPage, v)
    case None =>
      match official
      case Some(v) => Quote(BankOfCanadaApi, v)
      case None => Quote(SafetyNet, SafeFallbackRate)
  }

  /** get_rate: the scrape stage on the page response, then the Bank of
      Canada stage on the decoded API body, then the fallback. */
  function GetRate(page: Option<TradingEconomics.Response>, api: Option<BankOfCanada.Body>,
                   parse: string -> Option<real>): (q: Quote)
    ensures q.source == SafetyNet <==>
              TradingEconomics.Stage(page, parse).None? && BankOfCanada.Stage(api, parse).None?
  {
    Resolve(TradingEconomics.Stage(page, parse), BankOfCanada.Stage(api, parse))
  }

  /** get_rate is the general waterfall over its two stages with the
      safety-net rate as the fallback. */
  lemma GetRateIsWaterfall(page: Option<TradingEconomics.Response>, api: Option<BankOfCanada.Body>,
                           parse: string -> Option<real>)
    ensures GetRate(page, api, parse).rate ==
            Waterfall([TradingEconomics.Stage(page, parse), BankOfCanada.Stage(api, parse)],
                      SafeFallbackRate)
  {
    var outcomes := [TradingEconomics.Stage(page, parse), BankOfCanada.Stage(api, parse)];
    if outcomes[0].None? && outcomes[1].Some? {
      assert forall i :: 0 <= i < 1 ==> outcomes[i].None?;
    }
  }

  /** A successful scrape is returned as it is, and the Bank of Canada
      response is never looked at: any two API responses give the same
      result. */
  lemma ScrapeWinsOverApi(page: Option<TradingEconomics.Response>,
                          api1: Option<BankOfCanada.Body>, api2: Option<BankOfCanada.Body>,
                          parse: string -> Option<real>)
    requires TradingEconomics.Stage(page, parse).Some?
    ensures GetRate(page, api1, parse) == GetRate(page, api2, parse)
    ensures GetRate(page, api1, parse) ==
            Quote(TradingEconomicsPage, TradingEconomics.Stage(page, parse).value)
  {
  }

  /** A response whose status is not 200 gives the same result as a request
      that raised: control passes to the Bank of Canada stage. */
  lemma NonOkStatusFallsThrough(page: TradingEconomics.Response, api: Option<BankOfCanada.Body>,
                                parse: string -> Option<real>)
    requires page.status != 200
    ensures GetRate(Some(page), api, parse) == GetRate(None, api, parse)
    ensures GetRate(Some(page), api, parse).rate ==
            (match BankOfCanada.Stage(api, parse)
             case Some(v) => v
             case None => SafeFallbackRate)
  {
  }

  /** A page without the marker falls through the same way, even with
      status 200. */
  lemma MissingMarkerFallsThrough(page: TradingEconomics.Response, api: Option<BankOfCanada.Body>,
                                  parse: string -> Option<real>)
    requires !PyStr.Contains(page.text, TradingEconomics.Marker)
    ensures GetRate(Some(page), api, parse) == GetRate(None, api, parse)
  {
  }

  /** The returned rate is the fallback constant exactly when both stages
      failed, or when the first stage that succeeded happened to yield that
      same number. */
  lemma FallbackExactly(scraped: Option<real>, official: Option<real>)
    ensures Resolve(scraped, official).rate == SafeFallbackRate <==>
              || (scraped.None? && official.None?)
              || scraped == Some(SafeFallbackRate)
              || (scraped.None? && official == Some(SafeFallbackRate))
  {
  }
}
