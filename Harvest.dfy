/**
 * The harvesting loops: `fetch_articles_for_date` pages through one day of
 * search results, retrying after rate limiting, and
 * `fetch_articles_for_period` calls it on one day of every week between the
 * first day of the start month and the last day of the end month.
 *
 * The search API is an oracle: a finite script of responses, consumed one
 * per request. A day's fetch stops at the first response that ends it (a
 * successful page without documents, or any status other than 200 and 429);
 * the loop itself has no retry cap, so each fetch requires such a response
 * to be ahead in the script.
 *
 * The specification functions follow the documents a fetch gathers; the
 * methods build the article lines from them, and their contracts say that
 * the lines are those documents formatted in order.
 */
module Harvest {
  import opened Calendar
  import opened Records

  /** The API's answer to one request: an HTTP status and, for status 200, the page's documents. */
  datatype Response = Response(status: int, docs: seq<Doc>)

  /** What varies between request URLs: the day searched and the zero-based page number. */
  datatype Request = Request(date: Date, page: nat)

  /** What a fetch gathers: the documents, the requests issued, how many cooldowns it waited, and the unread script. */
  datatype Fetched = Fetched(docs: seq<Doc>, requests: seq<Request>, sleeps: nat, rest: seq<Response>)

  /** Seconds waited after each rate-limited response (`time.sleep(60)`). */
  const RateLimitCooldown: nat := 60

  /** Status 200 (success) and 429 (rate limited) as the source tests them. */
  const StatusOk: int := 200
  const StatusRateLimited: int := 429

  /** A response after which the day's loop breaks. */
  predicate EndsDay(r: Response)
  {
    (r.status == StatusOk && r.docs == []) || (r.status != StatusOk && r.status != StatusRateLimited)
  }

  /** A response after which the page counter advances. */
  predicate AdvancesPage(r: Response)
  {
    r.status == StatusOk && r.docs != []
  }

  /** How many responses in the script would end a day's fetch. */
  function CountStops(script: seq<Response>): nat
    decreases |script|
  {
    if script == [] then 0 else (if EndsDay(script[0]) then 1 else 0) + CountStops(script[1..])
  }

  /** The article lines of a list of documents, in document order. */
  function FormatDocs(docs: seq<Doc>): seq<string>
    decreases |docs|
  {
    if docs == [] then [] else [FormatArticle(docs[0])] + FormatDocs(docs[1..])
  }

  /** Formatting distributes over concatenation. */
  lemma {:induction false} FormatDocsConcat(a: seq<Doc>, b: seq<Doc>)
    ensures FormatDocs(a + b) == FormatDocs(a) + FormatDocs(b)
    decreases |a|
  {
    if a != [] {
      assert (a + b)[1..] == a[1..] + b;
      FormatDocsConcat(a[1..], b);
    } else {
      assert a + b == b;
    }
  }

  /** One line per document, the k-th line formatting the k-th document. */
  lemma {:induction false} FormatDocsShape(docs: seq<Doc>)
    ensures |FormatDocs(docs)| == |docs|
    ensures forall k :: 0 <= k < |docs| ==> FormatDocs(docs)[k] == FormatArticle(docs[k])
    decreases |docs|
  {
    if docs != [] {
      FormatDocsShape(docs[1..]);
      var lines := FormatDocs(docs);
      forall k | 0 < k < |docs| ensures lines[k] == FormatArticle(docs[k]) {
        assert lines[k] == FormatDocs(docs[1..])[k - 1];
      }
    }
  }

  /** `Fetched` of an earlier stretch followed by a later one. */
  function Then(a: seq<Doc>, q: seq<Request>, s: nat, later: Fetched): Fetched
  {
    Fetched(a + later.docs, q + later.requests, s + later.sleeps, later.rest)
  }

  /** Two stretches in a row are one stretch. */
  lemma {:induction false} ThenThen(a: seq<Doc>, q: seq<Request>, s: nat, a2: seq<Doc>, q2: seq<Request>, s2: nat, later: Fetched)
    ensures Then(a, q, s, Then(a2, q2, s2, later)) == Then(a + a2, q + q2, s + s2, later)
  {
  }

  /**
   * The day's loop from page `page` on, one response per step: a page with
   * documents is kept and the next page requested; a rate-limited response
   * is waited out and the same page requested again; an empty page or any
   * other status ends the day with what was gathered.
   */
  function FetchDay(date: Date, page: nat, script: seq<Response>): (r: Fetched)
    requires CountStops(script) > 0
    ensures CountStops(r.rest) == CountStops(script) - 1
    decreases |script|
  {
    var response := script[0];
    var request := Request(date, page);
    if response.status == StatusOk then
      if response.docs == [] then Fetched([], [request], 0, script[1..])
      else Then(response.docs, [request], 0, FetchDay(date, page + 1, script[1..]))
    else if response.status == StatusRateLimited then
      Then([], [request], 1, FetchDay(date, page, script[1..]))
    else
      Fetched([], [request], 0, script[1..])
  }

  /** One step of `FetchDay`, by the kind of the first response. */
  lemma {:induction false} FetchDayStep(date: Date, page: nat, script: seq<Response>)
    requires CountStops(script) > 0
    ensures !EndsDay(script[0]) ==> CountStops(script[1..]) > 0
    ensures AdvancesPage(script[0]) ==>
      FetchDay(date, page, script) == Then(script[0].docs, [Request(date, page)], 0, FetchDay(date, page + 1, script[1..]))
    ensures script[0].status == StatusRateLimited ==>
      FetchDay(date, page, script) == Then([], [Request(date, page)], 1, FetchDay(date, page, script[1..]))
    ensures EndsDay(script[0]) ==> FetchDay(date, page, script) == Fetched([], [Request(date, page)], 0, script[1..])
  {
  }

  /**
   * `fetch_articles_for_date`: the source's loop. Its results are those of
   * `FetchDay` from page 0, with the gathered documents formatted in order.
   */
  method FetchArticlesForDate(date: Date, script: seq<Response>)
    returns (articles: seq<string>, requests: seq<Request>, sleeps: nat, rest: seq<Response>)
    requires CountStops(script) > 0
    ensures articles == FormatDocs(FetchDay(date, 0, script).docs)
    ensures requests == FetchDay(date, 0, script).requests
    ensures sleeps == FetchDay(date, 0, script).sleeps
    ensures rest == FetchDay(date, 0, script).rest
  {
    articles, requests, sleeps := [], [], 0;
    ghost var gathered: seq<Doc> := [];
    var page: nat := 0;
    var i := 0;
    while true
      invariant 0 <= i <= |script|
      invariant CountStops(script[i..]) > 0
      invariant articles == FormatDocs(gathered)
      invariant FetchDay(date, 0, script) == Then(gathered, requests, sleeps, FetchDay(date, page, script[i..]))
      decreases |script| - i
    {
      var response := script[i];
      ghost var tail := script[i..];
      ghost var next := script[i + 1..];
      assert tail[1..] == next;
      assert tail[0] == response;
      FetchDayStep(date, page, tail);
      if response.status == StatusOk && response.docs != [] {
        ghost var later := FetchDay(date, page + 1, next);
        ThenThen(gathered, requests, sleeps, response.docs, [Request(date, page)], 0, later);
        articles := AppendPage(articles, response.docs);
        FormatDocsConcat(gathered, response.docs);
        gathered := gathered + response.docs;
        requests := requests + [Request(date, page)];
        page := page + 1;
        i := i + 1;
        assert FetchDay(date, 0, script) == Then(gathered, requests, sleeps, later);
      } else if response.status == StatusRateLimited {
        ghost var later := FetchDay(date, page, next);
        ThenThen(gathered, requests, sleeps, [], [Request(date, page)], 1, later);
        assert gathered + [] == gathered;
        requests := requests + [Request(date, page)];
        sleeps := sleeps + 1;
        i := i + 1;
        assert FetchDay(date, 0, script) == Then(gathered, requests, sleeps, later);
      } else {
        assert gathered + [] == gathered;
        requests := requests + [Request(date, page)];
        rest := script[i + 1..];
        break;
      }
    }
  }

  /** The inner loop over a page's documents: appends each formatted article in order. */
  method AppendPage(articles: seq<string>, docs: seq<Doc>) returns (result: seq<string>)
    ensures result == articles + FormatDocs(docs)
  {
    result := articles;
    for k := 0 to |docs|
      invariant result == articles + FormatDocs(docs[..k])
    {
      assert docs[..k + 1] == docs[..k] + [docs[k]];
      FormatDocsConcat(docs[..k], [docs[k]]);
      result := result + [FormatArticle(docs[k])];
    }
    assert docs[..|docs|] == docs;
  }

  /** Index of the first response that ends a day's fetch. */
  function FirstStop(script: seq<Response>): (n: nat)
    requires CountStops(script) > 0
    ensures n < |script| && EndsDay(script[n])
    ensures forall j :: 0 <= j < n ==> !EndsDay(script[j])
    decreases |script|
  {
    if EndsDay(script[0]) then 0 else 1 + FirstStop(script[1..])
  }

  /** The documents of the successful pages among the responses, in order. */
  function Harvested(responses: seq<Response>): seq<Doc>
    decreases |responses|
  {
    if responses == [] then []
    else (if responses[0].status == StatusOk then responses[0].docs else []) + Harvested(responses[1..])
  }

  /** How many of the responses are pages with documents. */
  function Advances(responses: seq<Response>): nat
    decreases |responses|
  {
    if responses == [] then 0 else (if AdvancesPage(responses[0]) then 1 else 0) + Advances(responses[1..])
  }

  /** How many of the responses are rate-limit refusals. */
  function RateLimited(responses: seq<Response>): nat
    decreases |responses|
  {
    if responses == [] then 0
    else (if responses[0].status == StatusRateLimited then 1 else 0) + RateLimited(responses[1..])
  }

  /** The head of a prefix, and the prefix with it removed. */
  lemma {:induction false} PrefixTail(script: seq<Response>, n: nat)
    requires 0 < n <= |script|
    ensures script[..n][0] == script[0]
    ensures script[..n][1..] == script[1..][..n - 1]
  {
  }

  /** The page asked for after a response that does not end the day. */
  function NextPage(page: nat, response: Response): nat
  {
    if AdvancesPage(response) then page + 1 else page
  }

  /** A day's fetch reads the script up to and including the first stopping response, one request per response. */
  lemma {:induction false} FetchDayRest(date: Date, page: nat, script: seq<Response>)
    requires CountStops(script) > 0
    ensures FetchDay(date, page, script).rest == script[FirstStop(script) + 1..]
    ensures |FetchDay(date, page, script).requests| == FirstStop(script) + 1
    decreases |script|
  {
    FetchDayStep(date, page, script);
    if !EndsDay(script[0]) {
      FetchDayRest(date, NextPage(page, script[0]), script[1..]);
      assert script[FirstStop(script) + 1..] == script[1..][FirstStop(script[1..]) + 1..];
    }
  }

  /** The documents of a day are those of the successful pages before the first stop. */
  lemma {:induction false} FetchDayDocs(date: Date, page: nat, script: seq<Response>)
    requires CountStops(script) > 0
    ensures FetchDay(date, page, script).docs == Harvested(script[..FirstStop(script)])
    decreases |script|
  {
    FetchDayStep(date, page, script);
    if !EndsDay(script[0]) {
      FetchDayDocs(date, NextPage(page, script[0]), script[1..]);
      PrefixTail(script, FirstStop(script));
    } else {
      assert script[..0] == [];
    }
  }

  /** A day's fetch waits once for every rate-limited response before the first stop. */
  lemma {:induction false} FetchDaySleeps(date: Date, page: nat, script: seq<Response>)
    requires CountStops(script) > 0
    ensures FetchDay(date, page, script).sleeps == RateLimited(script[..FirstStop(script)])
    decreases |script|
  {
    FetchDayStep(date, page, script);
    if !EndsDay(script[0]) {
      FetchDaySleeps(date, NextPage(page, script[0]), script[1..]);
      PrefixTail(script, FirstStop(script));
    } else {
      assert script[..0] == [];
    }
  }

  /** Before the first stop, a request is followed by the requests of the rest of the day. */
  lemma {:induction false} RequestsCons(date: Date, page: nat, script: seq<Response>)
    requires CountStops(script) > 0 && !EndsDay(script[0])
    ensures CountStops(script[1..]) > 0
    ensures FetchDay(date, page, script).requests ==
      [Request(date, page)] + FetchDay(date, NextPage(page, script[0]), script[1..]).requests
  {
  }

  /** Counting pages with documents in a prefix, one response at a time. */
  lemma {:induction false} AdvancesShift(script: seq<Response>, j: nat)
    requires 0 < j <= |script|
    ensures Advances(script[..j]) == (if AdvancesPage(script[0]) then 1 else 0) + Advances(script[1..][..j - 1])
  {
    PrefixTail(script, j);
  }

  /**
   * The j-th request of a day asks for that day and for the start page plus
   * the number of pages with documents received before it: a rate-limited
   * page is asked for again, a page with documents is followed by the next.
   */
  lemma {:induction false} FetchDayRequests(date: Date, page: nat, script: seq<Response>)
    requires CountStops(script) > 0
    ensures |FetchDay(date, page, script).requests| == FirstStop(script) + 1
    ensures forall j :: 0 <= j <= FirstStop(script) ==>
      FetchDay(date, page, script).requests[j] == Request(date, page + Advances(script[..j]))
    decreases |script|
  {
    FetchDayRest(date, page, script);
    var requests := FetchDay(date, page, script).requests;
    var n := FirstStop(script);
    assert requests[0] == Request(date, page + Advances(script[..0])) by {
      assert script[..0] == [];
    }
    if !EndsDay(script[0]) {
      var next := NextPage(page, script[0]);
      var later := FetchDay(date, next, script[1..]).requests;
      FetchDayRequests(date, next, script[1..]);
      RequestsCons(date, page, script);
      forall j | 0 < j <= n
        ensures requests[j] == Request(date, page + Advances(script[..j]))
      {
        assert requests[j] == later[j - 1];
        AdvancesShift(script, j);
      }
    }
  }

  /**
   * Rate limited twice, then one page with a document, then an empty page:
   * four requests, the first page asked three times, two cooldowns, and the
   * one document kept.
   */
  lemma {:induction false} RetryAfterRateLimit(date: Date, page: nat, d: Doc, more: seq<Response>)
    ensures var script := [Response(StatusRateLimited, []), Response(StatusRateLimited, []),
                           Response(StatusOk, [d]), Response(StatusOk, [])] + more;
      CountStops(script) > 0 &&
      FetchDay(date, page, script) ==
        Fetched([d], [Request(date, page), Request(date, page), Request(date, page), Request(date, page + 1)], 2, more) &&
      FetchDay(date, page, script).sleeps * RateLimitCooldown == 120
  {
    var script := [Response(StatusRateLimited, []), Response(StatusRateLimited, []),
                   Response(StatusOk, [d]), Response(StatusOk, [])] + more;
    assert script[1..][1..][1..][1..] == more;
    FetchDayStep(date, page + 1, script[1..][1..][1..]);
    FetchDayStep(date, page, script[1..][1..]);
    FetchDayStep(date, page, script[1..]);
    FetchDayStep(date, page, script);
  }

  /** An error status after a page with documents ends the day and keeps that page. */
  lemma {:induction false} ErrorKeepsEarlierPages(date: Date, docs: seq<Doc>, status: int, more: seq<Response>)
    requires docs != [] && status != StatusOk && status != StatusRateLimited
    ensures var script := [Response(StatusOk, docs), Response(status, [])] + more;
      CountStops(script) > 0 &&
      FetchDay(date, 0, script) == Fetched(docs, [Request(date, 0), Request(date, 1)], 0, more)
  {
    var script := [Response(StatusOk, docs), Response(status, [])] + more;
    assert script[1..][1..] == more;
    FetchDayStep(date, 1, script[1..]);
    FetchDayStep(date, 0, script);
  }

  /**
   * N pages with documents and then an empty page: N + 1 requests, the
   * pages' documents in order, and the script read up to the empty page.
   */
  lemma {:induction false} PagesThenEmpty(date: Date, page: nat, pages: seq<Response>, more: seq<Response>)
    requires forall k :: 0 <= k < |pages| ==> AdvancesPage(pages[k])
    ensures var script := pages + [Response(StatusOk, [])] + more;
      CountStops(script) > 0 &&
      |FetchDay(date, page, script).requests| == |pages| + 1 &&
      FetchDay(date, page, script).docs == Harvested(pages) &&
      FetchDay(date, page, script).sleeps == 0 &&
      FetchDay(date, page, script).rest == more
    decreases |pages|
  {
    var script := pages + [Response(StatusOk, [])] + more;
    if pages == [] {
      assert script == [Response(StatusOk, [])] + more;
      assert script[1..] == more;
      FetchDayStep(date, page, script);
    } else {
      assert script[1..] == pages[1..] + [Response(StatusOk, [])] + more;
      PagesThenEmpty(date, page + 1, pages[1..], more);
      FetchDayStep(date, page, script);
    }
  }

  /* ----- fetch_articles_for_period ----- */

  /**
   * The days a walk visits from `current`: `current` itself while it is not
   * past `end`, then the walk from a week later. A week is taken by the
   * schoolbook rule, which `AddDaysIsStepForward` shows to be
   * `timedelta(weeks=1)`.
   */
  function Walk(current: Date, end: Date): seq<Date>
    requires ValidDate(current) && ValidDate(end)
    decreases DayNumber(end) + 1 - DayNumber(current)
  {
    if DateLe(current, end) then
      DateLeIsDayNumberLe(current, end);
      StepForwardDayNumber(current, 7);
      [current] + Walk(StepForward(current, 7), end)
    else []
  }

  /**
   * The weekly stride: the k-th day of the walk has ordinal
   * `DayNumber(current) + 7k`, there are `(DayNumber(end) - DayNumber(current)) / 7 + 1`
   * of them when `current` is not past `end` and none otherwise, and the
   * next step would pass `end`.
   */
  lemma {:induction false} WalkShape(current: Date, end: Date)
    requires ValidDate(current) && ValidDate(end)
    ensures var w := Walk(current, end);
      |w| == if DateLe(current, end) then (DayNumber(end) - DayNumber(current)) / 7 + 1 else 0
    ensures var w := Walk(current, end);
      forall k :: 0 <= k < |w| ==> ValidDate(w[k]) && DayNumber(w[k]) == DayNumber(current) + 7 * k
    ensures DayNumber(current) + 7 * |Walk(current, end)| > DayNumber(end)
    decreases DayNumber(end) + 1 - DayNumber(current)
  {
    DateLeIsDayNumberLe(current, end);
    if DateLe(current, end) {
      StepForwardDayNumber(current, 7);
      var next := StepForward(current, 7);
      WalkShape(next, end);
      DateLeIsDayNumberLe(next, end);
      var w := Walk(current, end);
      assert w == [current] + Walk(next, end);
      forall k | 0 < k < |w|
        ensures ValidDate(w[k]) && DayNumber(w[k]) == DayNumber(current) + 7 * k
      {
        assert w[k] == Walk(next, end)[k - 1];
      }
    }
  }

  /** One step of the walk: while `current` is not past `end`, the walk is `current` and then the walk a week on. */
  lemma {:induction false} WalkStep(current: Date, end: Date)
    requires ValidDate(current) && ValidDate(end) && DateLe(current, end)
    ensures ValidDate(StepForward(current, 7))
    ensures Walk(current, end) == [current] + Walk(StepForward(current, 7), end)
  {
    StepForwardDayNumber(current, 7);
  }

  /** `datetime(start_year, start_month, 1)`. */
  function PeriodStart(startYear: int, startMonth: int): (d: Date)
    requires 1 <= startYear && 1 <= startMonth <= 12
    ensures ValidDate(d)
  {
    Date(startYear, startMonth, 1)
  }

  /** `datetime(end_year, end_month, get_last_day_of_month(end_year, end_month))`. */
  function PeriodEnd(endYear: int, endMonth: int): (d: Date)
    requires 1 <= endYear && 1 <= endMonth <= 12
    ensures ValidDate(d)
  {
    Date(endYear, endMonth, LastDayOfMonth(endYear, endMonth))
  }

  /** The days `fetch_articles_for_period` fetches: every seventh day from the start while not past the end. */
  function PeriodDates(startYear: int, startMonth: int, endYear: int, endMonth: int): seq<Date>
    requires 1 <= startYear && 1 <= startMonth <= 12
    requires 1 <= endYear && 1 <= endMonth <= 12
  {
    Walk(PeriodStart(startYear, startMonth), PeriodEnd(endYear, endMonth))
  }

  /**
   * What the period's fetches mean as dates: every fetched day is a valid date between
   * the first of the start month and the last of the end month, the first
   * one is the first of the start month, consecutive ones are a week apart,
   * and the week after the last one is past the end.
   */
  lemma {:induction false} PeriodDatesShape(startYear: int, startMonth: int, endYear: int, endMonth: int)
    requires 1 <= startYear && 1 <= startMonth <= 12
    requires 1 <= endYear && 1 <= endMonth <= 12
    ensures var dates := PeriodDates(startYear, startMonth, endYear, endMonth);
      var first := PeriodStart(startYear, startMonth);
      var last := PeriodEnd(endYear, endMonth);
      (dates != [] <==> DateLe(first, last)) &&
      (dates != [] ==> dates[0] == first && DateLe(dates[|dates| - 1], last)) &&
      (forall k :: 0 <= k < |dates| ==> DateLe(first, dates[k]) && DateLe(dates[k], last)) &&
      (forall k :: 0 <= k < |dates| ==> ValidDate(dates[k])) &&
      (forall k :: 0 < k < |dates| ==> dates[k] == AddDays(dates[k - 1], 7)) &&
      (dates != [] ==> ValidDate(dates[|dates| - 1]) && !DateLe(AddDays(dates[|dates| - 1], 7), last))
  {
    var first := PeriodStart(startYear, startMonth);
    var last := PeriodEnd(endYear, endMonth);
    WalkShape(first, last);
    var dates := PeriodDates(startYear, startMonth, endYear, endMonth);
    DateLeIsDayNumberLe(first, last);
    forall k | 0 <= k < |dates|
      ensures DateLe(first, dates[k]) && DateLe(dates[k], last)
    {
      DateLeIsDayNumberLe(first, dates[k]);
      DateLeIsDayNumberLe(dates[k], last);
    }
    forall k | 0 < k < |dates|
      ensures dates[k] == AddDays(dates[k - 1], 7)
    {
      DayNumberInjective(dates[k], AddDays(dates[k - 1], 7));
    }
    if dates != [] {
      DayNumberInjective(dates[0], first);
      var after := AddDays(dates[|dates| - 1], 7);
      DateLeIsDayNumberLe(after, last);
    }
  }

  /**
   * The run on September 2023 to January 2024 fetches 22 days: the first is
   * 1 September 2023 and the last 26 January 2024, so the last five days of
   * January are never fetched.
   */
  lemma {:induction false} StudyPeriodDates()
    ensures |PeriodDates(2023, 9, 2024, 1)| == 22
    ensures PeriodDates(2023, 9, 2024, 1)[0] == Date(2023, 9, 1)
    ensures PeriodDates(2023, 9, 2024, 1)[21] == Date(2024, 1, 26)
  {
    var first := PeriodStart(2023, 9);
    var last := PeriodEnd(2024, 1);
    assert DaysBeforeYear(2024) == DaysBeforeYear(2023) + 365;
    assert DaysBeforeMonth(2023, 9) == 243;
    assert DayNumber(last) - DayNumber(first) == 152;
    WalkShape(first, last);
    DateLeIsDayNumberLe(first, last);
    var dates := PeriodDates(2023, 9, 2024, 1);
    DayNumberInjective(dates[0], first);
    assert DayNumber(Date(2024, 1, 26)) == DayNumber(first) + 7 * 21;
    DayNumberInjective(dates[21], Date(2024, 1, 26));
  }

  /** The fetches of several days in a row, each starting at page 0 and reading where the last one stopped. */
  function FetchDays(dates: seq<Date>, script: seq<Response>): (r: Fetched)
    requires CountStops(script) >= |dates|
    ensures CountStops(r.rest) == CountStops(script) - |dates|
    decreases |dates|
  {
    if dates == [] then Fetched([], [], 0, script)
    else
      var day := FetchDay(dates[0], 0, script);
      Then(day.docs, day.requests, day.sleeps, FetchDays(dates[1..], day.rest))
  }

  /** The first of several days' fetches, and the fetches of the others after it. */
  lemma {:induction false} FetchDaysCons(dates: seq<Date>, script: seq<Response>)
    requires dates != [] && CountStops(script) >= |dates|
    ensures CountStops(FetchDay(dates[0], 0, script).rest) >= |dates[1..]|
    ensures FetchDays(dates, script) ==
      Then(FetchDay(dates[0], 0, script).docs, FetchDay(dates[0], 0, script).requests,
           FetchDay(dates[0], 0, script).sleeps, FetchDays(dates[1..], FetchDay(dates[0], 0, script).rest))
  {
  }

  /**
   * One week of the period walk: the fetches still to come are the first
   * date's fetch followed by those of the other dates.
   */
  lemma {:induction false} PeriodStep(total: Fetched, gathered: seq<Doc>, requests: seq<Request>, sleeps: nat,
                   remaining: seq<Date>, date: Date, rest: seq<Response>)
    requires remaining != [] && remaining[0] == date && CountStops(rest) >= |remaining|
    requires total == Then(gathered, requests, sleeps, FetchDays(remaining, rest))
    ensures CountStops(rest) > 0
    ensures CountStops(FetchDay(date, 0, rest).rest) >= |remaining[1..]|
    ensures total == Then(gathered + FetchDay(date, 0, rest).docs, requests + FetchDay(date, 0, rest).requests,
                          sleeps + FetchDay(date, 0, rest).sleeps, FetchDays(remaining[1..], FetchDay(date, 0, rest).rest))
  {
    FetchDaysCons(remaining, rest);
    var day := FetchDay(date, 0, rest);
    ThenThen(gathered, requests, sleeps, day.docs, day.requests, day.sleeps, FetchDays(remaining[1..], day.rest));
  }

  /** Past the end there is nothing left to fetch. */
  lemma {:induction false} PeriodDone(total: Fetched, gathered: seq<Doc>, requests: seq<Request>, sleeps: nat, rest: seq<Response>)
    requires total == Then(gathered, requests, sleeps, FetchDays([], rest))
    ensures total == Fetched(gathered, requests, sleeps, rest)
  {
    assert gathered + [] == gathered;
    assert requests + [] == requests;
  }

  /** What the period's fetches gather: those of `PeriodDates`, one after another. */
  function FetchPeriod(startYear: int, startMonth: int, endYear: int, endMonth: int, script: seq<Response>): Fetched
    requires 1 <= startYear && 1 <= startMonth <= 12
    requires 1 <= endYear && 1 <= endMonth <= 12
    requires CountStops(script) >= |PeriodDates(startYear, startMonth, endYear, endMonth)|
  {
    FetchDays(PeriodDates(startYear, startMonth, endYear, endMonth), script)
  }

  /**
   * `fetch_articles_for_period`: walks from the first of the start month a
   * week at a time while not past the last of the end month, fetching each
   * day. Its results are those of `FetchPeriod`, with the gathered
   * documents formatted in order.
   */
  method FetchArticlesForPeriod(startYear: int, startMonth: int, endYear: int, endMonth: int, script: seq<Response>)
    returns (articles: seq<string>, requests: seq<Request>, sleeps: nat, rest: seq<Response>)
    requires 1 <= startYear && 1 <= startMonth <= 12
    requires 1 <= endYear && 1 <= endMonth <= 12
    requires CountStops(script) >= |PeriodDates(startYear, startMonth, endYear, endMonth)|
    ensures articles == FormatDocs(FetchPeriod(startYear, startMonth, endYear, endMonth, script).docs)
    ensures Fetched(FetchPeriod(startYear, startMonth, endYear, endMonth, script).docs, requests, sleeps, rest) ==
      FetchPeriod(startYear, startMonth, endYear, endMonth, script)
  {
    var startDate := Date(startYear, startMonth, 1);
    var endDate := Date(endYear, endMonth, LastDayOfMonth(endYear, endMonth));
    ghost var total := FetchPeriod(startYear, startMonth, endYear, endMonth, script);
    var current := startDate;
    articles, requests, sleeps, rest := [], [], 0, script;
    ghost var gathered: seq<Doc> := [];
    ghost var remaining := PeriodDates(startYear, startMonth, endYear, endMonth);
    while DateLe(current, endDate)
      invariant ValidDate(current)
      invariant remaining == Walk(current, endDate)
      invariant CountStops(rest) >= |remaining|
      invariant articles == FormatDocs(gathered)
      invariant total == Then(gathered, requests, sleeps, FetchDays(remaining, rest))
      decreases |remaining|
    {
      assert remaining != [] && remaining[0] == current && ValidDate(StepForward(current, 7)) &&
        remaining[1..] == Walk(StepForward(current, 7), endDate) by {
        WalkStep(current, endDate);
      }
      ghost var day := FetchDay(current, 0, rest);
      assert CountStops(day.rest) >= |remaining[1..]| &&
        total == Then(gathered + day.docs, requests + day.requests, sleeps + day.sleeps, FetchDays(remaining[1..], day.rest)) by {
        PeriodStep(total, gathered, requests, sleeps, remaining, current, rest);
      }
      var dayArticles, dayRequests, daySleeps, dayRest := FetchArticlesForDate(current, rest);
      assert articles + dayArticles == FormatDocs(gathered + day.docs) by {
        FormatDocsConcat(gathered, day.docs);
      }
      gathered := gathered + day.docs;
      articles := articles + dayArticles;
      requests := requests + dayRequests;
      sleeps := sleeps + daySleeps;
      rest := dayRest;
      remaining := remaining[1..];
      // `current_date += timedelta(weeks=1)`: AddDaysIsStepForward shows this is AddDays(current, 7)
      current := StepForward(current, 7);
    }
    PeriodDone(total, gathered, requests, sleeps, rest);
  }
}
