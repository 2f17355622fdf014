/** The page model and `_fetch`, the bounded retry loop both indexers use
    (indexers/movies.py and indexers/series.py carry the same code).

    A fetched page is the list of its anchor elements. The HTTP server is a
    parameter: for one URL, the sequence of responses its successive GET
    attempts would get. An attempt past the end of that sequence fails with
    a transport exception, so an unknown host is the empty sequence. */
module Fetcher {
  import opened Wrappers
  import PyStr

  /** An anchor element: its `href` and its optional `title` attribute. */
  datatype Link = Link(href: string, title: Option<string>)

  /** `link.get("title")` is truthy: present and not empty. */
  predicate Titled(l: Link) {
    l.title.Some? && l.title.value != ""
  }

  /** `any(href.endswith(ext) for ext in ["mkv", "mp4"])` */
  predicate IsMedia(href: string) {
    PyStr.EndsWith(href, "mkv") || PyStr.EndsWith(href, "mp4")
  }

  /** What one GET attempt gives: a response whose `ok` is true (parsed into
      its links), a response with a failing status, or a raised
      `RequestException`. */
  datatype Response = Ok(links: seq<Link>) | NotOk(status: int) | Raises

  /** What the fetch loop does, in order: GET attempts and blocking sleeps. */
  datatype Event = Get(attempt: nat) | Sleep(seconds: nat)

  /** The default `retries` argument of `_fetch`. */
  const Retries: nat := 3

  /** The `sleep(2)` between attempts. */
  const Backoff: nat := 2

  /** The response of attempt `k`. */
  function AttemptResponse(responses: seq<Response>, k: nat): Response {
    if k < |responses| then responses[k] else Raises
  }

  /** The outcome and the events of the attempts from `k` on. */
  function Run(responses: seq<Response>, retries: nat, k: nat): (Option<seq<Link>>, seq<Event>)
    decreases retries - k
  {
    if k >= retries then (None, [])
    else
      match AttemptResponse(responses, k)
      case Ok(links) => (Some(links), [Get(k)])
      case NotOk(_) =>
        var rest := Run(responses, retries, k + 1);
        (rest.0, [Get(k)] + rest.1)
      case Raises =>
        var rest := Run(responses, retries, k + 1);
        (rest.0, [Get(k)] + (if k < retries - 1 then [Sleep(Backoff)] else []) + rest.1)
  }

  /** What `_fetch(url, retries)` returns: the parsed page, or `None`. */
  function FetchResult(responses: seq<Response>, retries: nat): Option<seq<Link>> {
    Run(responses, retries, 0).0
  }

  /** The requests and sleeps `_fetch(url, retries)` performs. */
  function FetchTrace(responses: seq<Response>, retries: nat): seq<Event> {
    Run(responses, retries, 0).1
  }

  /** `_fetch`: up to `retries` GET attempts; returns the first `ok`
      response's page; sleeps after a raised exception unless it was the
      last attempt; gives `None` once the attempts are used up. */
  method FetchWithRetries(responses: seq<Response>, retries: nat) returns (page: Option<seq<Link>>, trace: seq<Event>)
    ensures page == FetchResult(responses, retries)
    ensures trace == FetchTrace(responses, retries)
  {
    trace := [];
    for attempt := 0 to retries
      invariant FetchResult(responses, retries) == Run(responses, retries, attempt).0
      invariant FetchTrace(responses, retries) == trace + Run(responses, retries, attempt).1
    {
      var response := AttemptResponse(responses, attempt);
      ghost var before := trace;
      trace := trace + [Get(attempt)];
      match response
      case Ok(links) =>
        return Some(links), trace;
      case NotOk(_) =>
        assert FetchTrace(responses, retries) == trace + Run(responses, retries, attempt + 1).1 by {
          assert before + ([Get(attempt)] + Run(responses, retries, attempt + 1).1) == trace + Run(responses, retries, attempt + 1).1;
        }
      case Raises =>
        if attempt < retries - 1 {
          trace := trace + [Sleep(Backoff)];
        }
        assert FetchTrace(responses, retries) == trace + Run(responses, retries, attempt + 1).1 by {
          var mid: seq<Event> := if attempt < retries - 1 then [Sleep(Backoff)] else [];
          assert trace == before + [Get(attempt)] + mid;
          assert before + ([Get(attempt)] + mid + Run(responses, retries, attempt + 1).1) == trace + Run(responses, retries, attempt + 1).1;
        }
    }
    page := None;
  }

  /** The number of GET requests in a trace. */
  function CountGets(t: seq<Event>): nat {
    if t == [] then 0 else (if t[0].Get? then 1 else 0) + CountGets(t[1..])
  }

  lemma {:induction false} CountGetsAppend(a: seq<Event>, b: seq<Event>)
    ensures CountGets(a + b) == CountGets(a) + CountGets(b)
  {
    if a == [] {
      assert a + b == b;
    } else {
      assert (a + b)[0] == a[0];
      assert (a + b)[1..] == a[1..] + b;
      CountGetsAppend(a[1..], b);
    }
  }

  /** The attempts from `k` on issue at most `retries - k` requests, each
      for an attempt number in `k..retries`. */
  lemma {:induction false} RunBounds(responses: seq<Response>, retries: nat, k: nat)
    requires k <= retries
    ensures CountGets(Run(responses, retries, k).1) <= retries - k
    ensures forall p :: 0 <= p < |Run(responses, retries, k).1| && Run(responses, retries, k).1[p].Get? ==>
              k <= Run(responses, retries, k).1[p].attempt < retries
    decreases retries - k
  {
    if k < retries {
      RunBounds(responses, retries, k + 1);
      var rest := Run(responses, retries, k + 1).1;
      match AttemptResponse(responses, k)
      case Ok(_) =>
      case NotOk(_) =>
        CountGetsAppend([Get(k)], rest);
      case Raises =>
        var mid: seq<Event> := if k < retries - 1 then [Sleep(Backoff)] else [];
        CountGetsAppend([Get(k)] + mid, rest);
        CountGetsAppend([Get(k)], mid);
    }
  }

  /** `_fetch` issues at most `retries` GET requests. */
  lemma AtMostRetries(responses: seq<Response>, retries: nat)
    ensures CountGets(FetchTrace(responses, retries)) <= retries
  {
    RunBounds(responses, retries, 0);
  }

  /** The event at position `p` of `trace`, if it is a sleep, is the
      two-second backoff and comes right after a GET attempt that raised and
      that was not the last attempt. */
  predicate SleepFollowsRaise(responses: seq<Response>, retries: nat, trace: seq<Event>, p: nat)
    requires p < |trace|
  {
    trace[p].Sleep? ==>
      && trace[p].seconds == Backoff
      && p > 0 && trace[p - 1].Get?
      && AttemptResponse(responses, trace[p - 1].attempt).Raises?
      && trace[p - 1].attempt < retries - 1
  }

  /** Every sleep comes right after a GET attempt that raised and that was
      not the last attempt; a failing status is never followed by a sleep. */
  lemma {:induction false} SleepOnlyAfterRaise(responses: seq<Response>, retries: nat, k: nat)
    requires k <= retries
    ensures forall p :: 0 <= p < |Run(responses, retries, k).1| ==>
              SleepFollowsRaise(responses, retries, Run(responses, retries, k).1, p)
    decreases retries - k
  {
    if k < retries {
      SleepOnlyAfterRaise(responses, retries, k + 1);
      var rest := Run(responses, retries, k + 1).1;
      var t := Run(responses, retries, k).1;
      if !AttemptResponse(responses, k).Ok? {
        var head: seq<Event> := if AttemptResponse(responses, k).Raises? && k < retries - 1
                                then [Get(k), Sleep(Backoff)] else [Get(k)];
        assert t == head + rest;
        forall p | 0 <= p < |t|
          ensures SleepFollowsRaise(responses, retries, t, p)
        {
          if p >= |head| {
            var q := p - |head|;
            assert t[p] == rest[q];
            assert SleepFollowsRaise(responses, retries, rest, q);
            if q > 0 {
              assert t[p - 1] == rest[q - 1];
            }
          }
        }
      }
    }
  }

  /** `_fetch` returns a page exactly when one of its `retries` attempts got
      an `ok` response. */
  lemma {:induction false} FirstOkWins(responses: seq<Response>, retries: nat, k: nat)
    requires k <= retries
    ensures Run(responses, retries, k).0.Some? <==>
              exists i :: k <= i < retries && AttemptResponse(responses, i).Ok?
    decreases retries - k
  {
    if k < retries {
      FirstOkWins(responses, retries, k + 1);
      if !AttemptResponse(responses, k).Ok? && Run(responses, retries, k).0.None? {
        assert forall i :: k + 1 <= i < retries ==> !AttemptResponse(responses, i).Ok?;
      }
    }
  }

  /** When attempt `i` is the first with an `ok` response, `_fetch` returns
      its page, and that attempt is the last event of the trace. */
  lemma {:induction false} FirstOkPage(responses: seq<Response>, retries: nat, k: nat, i: nat)
    requires k <= i < retries && AttemptResponse(responses, i).Ok?
    requires forall j :: k <= j < i ==> !AttemptResponse(responses, j).Ok?
    ensures Run(responses, retries, k).0 == Some(AttemptResponse(responses, i).links)
    ensures |Run(responses, retries, k).1| > 0 &&
            Run(responses, retries, k).1[|Run(responses, retries, k).1| - 1] == Get(i)
    decreases i - k
  {
    if k < i {
      FirstOkPage(responses, retries, k + 1, i);
    }
  }

  /** A page returned by `_fetch` is the page of one of the responses. */
  lemma {:induction false} ResultFromResponses(responses: seq<Response>, retries: nat, k: nat)
    requires k <= retries
    requires Run(responses, retries, k).0.Some?
    ensures Ok(Run(responses, retries, k).0.value) in responses
    decreases retries - k
  {
    if k < retries && !AttemptResponse(responses, k).Ok? {
      ResultFromResponses(responses, retries, k + 1);
    }
  }

  /** A URL whose every attempt raises is requested exactly three times,
      with a two-second sleep between consecutive attempts, and gives `None`. */
  lemma AlwaysRaising(responses: seq<Response>)
    requires forall k :: 0 <= k < |responses| ==> responses[k].Raises?
    ensures FetchResult(responses, Retries) == None
    ensures FetchTrace(responses, Retries) == [Get(0), Sleep(2), Get(1), Sleep(2), Get(2)]
  {
    assert AttemptResponse(responses, 0).Raises?;
    assert AttemptResponse(responses, 1).Raises?;
    assert AttemptResponse(responses, 2).Raises?;
  }

  /** The web as one indexer sees it: for each URL, the responses of its
      successive GET attempts. */
  type Server = map<string, seq<Response>>

  /** The responses for `url`; a URL the server does not know always raises. */
  function ResponsesFor(server: Server, url: string): seq<Response> {
    if url in server then server[url] else []
  }

  /** What `self._fetch(url)` returns against `server`. */
  function Page(server: Server, url: string): Option<seq<Link>> {
    FetchResult(ResponsesFor(server, url), Retries)
  }

  /** A page is only ever the page of one of the server's responses for that URL. */
  lemma PageFromServer(server: Server, url: string)
    requires Page(server, url).Some?
    ensures url in server && Ok(Page(server, url).value) in server[url]
  {
    ResultFromResponses(ResponsesFor(server, url), Retries, 0);
  }
}
