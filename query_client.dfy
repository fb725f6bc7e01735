/** The client's request helpers of client/src/lib/queryClient.ts: error
    classification, the retrying `apiRequest` (a recursion) and the
    retrying query function (a loop). The network is an oracle `fetch`
    giving the outcome of the n-th call; the sleeps between attempts are
    recorded as a sequence of delays instead of being slept. */
module QueryClient {
  import opened Common

  datatype Category = Network | Server | Auth | ClientError | Unknown

  /** A thrown value: something that is not an `Error`, or an `Error`
      carrying its message. */
  datatype Thrown = NotAnError | ErrorWith(message: string)

  /** One call of `fetch`: a response (status, body text, status text and
      the body parsed as JSON when it parses), or a thrown value. */
  datatype FetchOutcome =
    | Reply(status: int, text: string, statusText: string, json: Option<string>)
    | FetchThrows(error: Thrown)

  /** `res.ok`. */
  predicate IsOk(status: int) { 200 <= status <= 299 }

  function Max0(n: int): nat { if n > 0 then n else 0 }

  function Pow2(n: nat): (r: nat)
    ensures r >= 1
  {
    if n == 0 then 1 else 2 * Pow2(n - 1)
  }

  /** The words that make a thrown error count as a network failure. */
  predicate MentionsConnection(message: string)
  {
    Contains(message, "network") || Contains(message, "fetch") || Contains(message, "connection")
  }

  /** `classifyError`: by status when there is one, by the error's message
      otherwise. */
  function ClassifyError(status: Option<int>, error: Thrown): (c: Category)
    ensures status.Some? ==> (c == Server <==> status.value >= 500)
    ensures status.Some? ==> (c == Auth <==> status.value == 401 || status.value == 403)
    ensures status.Some? ==> (c == ClientError <==>
      400 <= status.value < 500 && status.value != 401 && status.value != 403)
    ensures status.None? ==> (c == Network <==> error.ErrorWith? && MentionsConnection(error.message))
    ensures c == Server ==> status.Some?
    ensures c == Network ==> status.None?
  {
    if status.Some? then
      if status.value >= 500 then Server
      else if status.value == 401 || status.value == 403 then Auth
      else if 400 <= status.value < 500 then ClientError
      else Unknown
    else if error.ErrorWith? && MentionsConnection(error.message) then Network
    else Unknown
  }

  /** `isRetryableError`. */
  predicate IsRetryable(c: Category)
  {
    c == Network || c == Server
  }

  /** Only server errors and network failures are ever retried: a 4xx
      status, and in particular 401 and 403, never is. */
  lemma RetryableMeaning(status: Option<int>, error: Thrown)
    ensures IsRetryable(ClassifyError(status, error)) <==>
      (status.Some? && status.value >= 500) ||
      (status.None? && error.ErrorWith? && MentionsConnection(error.message))
  {
  }

  /** `formatErrorMessage`: the text alone without a status, otherwise
      "<status>: <detail>" whose detail falls back to the status text and
      then to "Unknown error". */
  function FormatErrorMessage(status: Option<int>, errorText: string, statusText: string): (r: string)
    ensures status.None? ==> r == errorText
    ensures status.Some? ==> IsPrefix(IntToString(status.value) + ": ", r)
    ensures status.Some? ==> |r| > |IntToString(status.value) + ": "|
    ensures status.Some? && errorText != "" ==> r[|IntToString(status.value) + ": "|..] == errorText
  {
    if status.None? then errorText
    else
      var detail := if errorText != "" then errorText else if statusText != "" then statusText else "Unknown error";
      var head := IntToString(status.value) + ": ";
      assert (head + detail)[..|head|] == head;
      head + detail
  }

  // ---------------------------------------------------------------------
  // Runs of a retrying request
  // ---------------------------------------------------------------------

  /** What a retrying request came to: its outcome, how many times it
      called `fetch`, and the delays it slept, in order. */
  datatype Run<T> = Run(outcome: T, fetches: nat, waits: seq<int>)

  /** One more attempt in front of `rest`, after sleeping `backoff`. */
  function Again<T>(rest: Run<T>, backoff: int): (r: Run<T>)
    ensures r.outcome == rest.outcome && r.fetches == rest.fetches + 1
    ensures r.waits == [backoff] + rest.waits
  {
    Run(rest.outcome, rest.fetches + 1, [backoff] + rest.waits)
  }

  datatype ApiOutcome = Responded(status: int) | Rejected(error: Thrown)

  /** `apiRequest(method, url, data, retries, backoffDelay)` starting at the
      k-th call of `fetch`. A failed response throws a formatted `Error`
      inside the `try`, so its own `catch` sees it and classifies it again
      by its message. The recursive call is returned without `await`, so
      its rejection is the caller's and is not caught a second time. */
  function ApiRequest(fetch: nat -> FetchOutcome, retries: int, backoff: int, k: nat): (r: Run<ApiOutcome>)
    decreases Max0(retries)
    ensures 1 <= r.fetches <= Max0(retries) + 1
    ensures |r.waits| == r.fetches - 1
    ensures forall i :: 0 <= i < |r.waits| ==> r.waits[i] == backoff * Pow2(i)
    ensures r.outcome.Responded? ==>
      var last := fetch(k + r.fetches - 1);
      last.Reply? && IsOk(last.status) && last.status == r.outcome.status
  {
    var f := fetch(k);
    if f.Reply? && IsOk(f.status) then Run(Responded(f.status), 1, [])
    else if f.Reply? && retries > 0 && IsRetryable(ClassifyError(Some(f.status), NotAnError)) then
      RetryApi(fetch, retries, backoff, k)
    else
      var e := if f.Reply? then ErrorWith(FormatErrorMessage(Some(f.status), f.text, f.statusText)) else f.error;
      if retries > 0 && IsRetryable(ClassifyError(None, e)) then RetryApi(fetch, retries, backoff, k)
      else Run(Rejected(e), 1, [])
  }

  /** The retry step shared by both branches of `apiRequest`: sleep
      `backoff`, then run again with one retry fewer and twice the delay. */
  function RetryApi(fetch: nat -> FetchOutcome, retries: int, backoff: int, k: nat): (r: Run<ApiOutcome>)
    requires retries > 0
    decreases Max0(retries), 0
    ensures 2 <= r.fetches <= Max0(retries) + 1
    ensures |r.waits| == r.fetches - 1
    ensures forall i :: 0 <= i < |r.waits| ==> r.waits[i] == backoff * Pow2(i)
    ensures r.outcome.Responded? ==>
      var last := fetch(k + r.fetches - 1);
      last.Reply? && IsOk(last.status) && last.status == r.outcome.status
  {
    var rest := ApiRequest(fetch, retries - 1, backoff * 2, k + 1);
    forall i | 1 <= i < |rest.waits| + 1
      ensures (backoff * 2) * Pow2(i - 1) == backoff * Pow2(i)
    {
    }
    Again(rest, backoff)
  }

  /** A client error whose text has no network word is refused at once,
      with the formatted message. */
  lemma ClientErrorFailsAtOnce(fetch: nat -> FetchOutcome, retries: int, backoff: int, k: nat)
    requires fetch(k).Reply? && 400 <= fetch(k).status < 500
    requires !MentionsConnection(FormatErrorMessage(Some(fetch(k).status), fetch(k).text, fetch(k).statusText))
    ensures ApiRequest(fetch, retries, backoff, k) ==
      Run(Rejected(ErrorWith(FormatErrorMessage(Some(fetch(k).status), fetch(k).text, fetch(k).statusText))), 1, [])
  {
  }

  /** A server that keeps answering 5xx uses up every retry, and the caller
      gets the last response's formatted error. */
  lemma {:induction false} ServerErrorsExhaustRetries(fetch: nat -> FetchOutcome, retries: nat, backoff: int, k: nat)
    requires forall j :: fetch(j).Reply? && fetch(j).status >= 500
    ensures var r := ApiRequest(fetch, retries, backoff, k);
            var last := fetch(k + retries);
            r.fetches == retries + 1 &&
            r.outcome == Rejected(ErrorWith(FormatErrorMessage(Some(last.status), last.text, last.statusText)))
    decreases retries
  {
    if retries > 0 {
      ServerErrorsExhaustRetries(fetch, retries - 1, backoff * 2, k + 1);
      assert k + 1 + (retries - 1) == k + retries;
    }
  }

  /** The error thrown for a failed response is caught by the same `try`
      and classified again by its message, so a 404 whose body says
      "could not fetch anime" is retried like a network failure. */
  lemma ClientErrorMentioningFetchIsRetried(fetch: nat -> FetchOutcome, retries: int, backoff: int)
    requires fetch(0) == Reply(404, "could not fetch anime", "Not Found", None)
    requires retries > 0
    ensures ApiRequest(fetch, retries, backoff, 0).fetches >= 2
  {
    var text := "could not fetch anime";
    var msg := FormatErrorMessage(Some(404), text, "Not Found");
    var head := IntToString(404) + ": ";
    assert msg == head + text;
    assert OccursAt(text, "fetch", 10);
    ContainsInSuffix(head, text, "fetch");
  }

  lemma ContainsInSuffix(a: string, b: string, w: string)
    requires Contains(b, w)
    ensures Contains(a + b, w)
  {
    var i :| 0 <= i <= |b| - |w| && OccursAt(b, w, i);
    assert (a + b)[|a| + i..|a| + i + |w|] == b[i..i + |w|];
    assert OccursAt(a + b, w, |a| + i);
  }

  /** `apiRequest` as its retry logic evidently intends: the error thrown
      for a failed response is the request's final answer, and only a
      value thrown by `fetch` itself is classified by its message. */
  function ApiRequestIntended(fetch: nat -> FetchOutcome, retries: int, backoff: int, k: nat): (r: Run<ApiOutcome>)
    decreases Max0(retries)
    ensures 1 <= r.fetches <= Max0(retries) + 1
    ensures |r.waits| == r.fetches - 1
  {
    var f := fetch(k);
    if f.Reply? && IsOk(f.status) then Run(Responded(f.status), 1, [])
    else if f.Reply? then
      if retries > 0 && IsRetryable(ClassifyError(Some(f.status), NotAnError)) then
        Again(ApiRequestIntended(fetch, retries - 1, backoff * 2, k + 1), backoff)
      else Run(Rejected(ErrorWith(FormatErrorMessage(Some(f.status), f.text, f.statusText))), 1, [])
    else if retries > 0 && IsRetryable(ClassifyError(None, f.error)) then
      Again(ApiRequestIntended(fetch, retries - 1, backoff * 2, k + 1), backoff)
    else Run(Rejected(f.error), 1, [])
  }

  /** In the intended version a 4xx response is never retried, whatever
      its body says, and it differs from the code as written exactly on
      the responses whose formatted error mentions a network word. */
  lemma IntendedClientErrorsAreFinal(fetch: nat -> FetchOutcome, retries: int, backoff: int, k: nat)
    requires fetch(k).Reply? && 400 <= fetch(k).status < 500
    ensures ApiRequestIntended(fetch, retries, backoff, k) ==
      Run(Rejected(ErrorWith(FormatErrorMessage(Some(fetch(k).status), fetch(k).text, fetch(k).statusText))), 1, [])
    ensures !MentionsConnection(FormatErrorMessage(Some(fetch(k).status), fetch(k).text, fetch(k).statusText)) ==>
      ApiRequestIntended(fetch, retries, backoff, k) == ApiRequest(fetch, retries, backoff, k)
  {
  }

  // ---------------------------------------------------------------------
  // The query function
  // ---------------------------------------------------------------------

  /** `on401`. */
  datatype Behavior = ReturnNull | Throw

  /** What the query function resolves to: parsed data, `null`, or a
      rejection with the thrown value. */
  datatype QueryResult = Data(json: string) | Null | Raised(error: Thrown)

  /** One pass of the query function's loop body, its `try` and both of
      its `catch` blocks, on the outcome `f` of one call of `fetch`: the
      value the query resolves to, or `None` for "sleep and go round
      again". A 401 under `returnNull` resolves to null before anything
      else; a body that is not JSON resolves to null and is never retried;
      the error thrown under `throw` is caught by the loop's own `catch`
      and classified again by its message. */
  function QueryStep(f: FetchOutcome, behavior: Behavior, retries: int): (r: Option<QueryResult>)
    ensures r.None? ==> retries > 0
    ensures r.Some? && r.value.Data? ==> f.Reply? && IsOk(f.status) && f.json == Some(r.value.json)
    ensures r.Some? && r.value.Raised? ==> behavior == Throw && (f.Reply? ==> !IsOk(f.status))
    ensures f.Reply? && f.status == 401 && behavior == ReturnNull ==> r == Some(Null)
    ensures f.Reply? && IsOk(f.status) ==> r.Some? && (r.value.Data? <==> f.json.Some?)
    ensures f.Reply? && f.status >= 500 ==> (r.None? <==> retries > 0)
  {
    if f.Reply? && f.status == 401 && behavior == ReturnNull then Some(Null)
    else if f.Reply? && IsOk(f.status) then
      Some(if f.json.Some? then Data(f.json.value) else Null)
    else if f.Reply? && retries > 0 && IsRetryable(ClassifyError(Some(f.status), NotAnError)) then None
    else if f.Reply? && behavior == ReturnNull then Some(Null)
    else
      var e := if f.Reply? then ErrorWith(FormatErrorMessage(Some(f.status), f.text, f.statusText)) else f.error;
      if retries > 0 && IsRetryable(ClassifyError(None, e)) then None
      else Some(if behavior == Throw then Raised(e) else Null)
  }

  /** The query function's loop, from the k-th call of `fetch` with
      `retries` retries left and the current delay `backoff`. */
  function QueryFn(fetch: nat -> FetchOutcome, behavior: Behavior, retries: int, backoff: int, k: nat)
    : (r: Run<QueryResult>)
    decreases Max0(retries)
    ensures 1 <= r.fetches <= Max0(retries) + 1
    ensures |r.waits| == r.fetches - 1
    ensures forall i :: 0 <= i < |r.waits| ==> r.waits[i] == backoff * Pow2(i)
    ensures r.outcome.Data? ==>
      var last := fetch(k + r.fetches - 1);
      last.Reply? && IsOk(last.status) && last.json == Some(r.outcome.json)
    ensures r.outcome.Raised? ==> behavior == Throw
  {
    var step := QueryStep(fetch(k), behavior, retries);
    if step.Some? then Run(step.value, 1, []) else RetryQuery(fetch, behavior, retries, backoff, k)
  }

  /** `retries--; backoffDelay *= 2; continue` after sleeping. */
  function RetryQuery(fetch: nat -> FetchOutcome, behavior: Behavior, retries: int, backoff: int, k: nat)
    : (r: Run<QueryResult>)
    requires retries > 0
    decreases Max0(retries), 0
    ensures 2 <= r.fetches <= Max0(retries) + 1
    ensures |r.waits| == r.fetches - 1
    ensures forall i :: 0 <= i < |r.waits| ==> r.waits[i] == backoff * Pow2(i)
    ensures r.outcome.Data? ==>
      var last := fetch(k + r.fetches - 1);
      last.Reply? && IsOk(last.status) && last.json == Some(r.outcome.json)
    ensures r.outcome.Raised? ==> behavior == Throw
  {
    var rest := QueryFn(fetch, behavior, retries - 1, backoff * 2, k + 1);
    forall i | 1 <= i < |rest.waits| + 1
      ensures (backoff * 2) * Pow2(i - 1) == backoff * Pow2(i)
    {
    }
    Again(rest, backoff)
  }

  /** The retry count used when none is given. */
  function RetriesOrDefault(maxRetries: Option<int>): int
  {
    if maxRetries.Some? then maxRetries.value else 1
  }

  /** `rest` preceded by `fetches` calls and the sleeps `waits`. */
  function After<T>(fetches: nat, waits: seq<int>, rest: Run<T>): Run<T>
  {
    Run(rest.outcome, fetches + rest.fetches, waits + rest.waits)
  }

  lemma AfterAgain<T>(fetches: nat, waits: seq<int>, backoff: int, rest: Run<T>)
    ensures After(fetches, waits, Again(rest, backoff)) == After(fetches + 1, waits + [backoff], rest)
  {
    assert waits + ([backoff] + rest.waits) == (waits + [backoff]) + rest.waits;
  }

  /** `getQueryFn({on401, maxRetries})` applied to a query: the loop of the
      source, starting with a delay of 300. */
  method GetQueryFn(fetch: nat -> FetchOutcome, behavior: Behavior, maxRetries: Option<int>)
    returns (result: QueryResult, fetches: nat, waits: seq<int>)
    ensures Run(result, fetches, waits) == QueryFn(fetch, behavior, RetriesOrDefault(maxRetries), 300, 0)
  {
    var retries := RetriesOrDefault(maxRetries);
    var backoff := 300;
    fetches, waits := 0, [];
    ghost var goal := QueryFn(fetch, behavior, retries, backoff, 0);
    while true
      invariant goal == After(fetches, waits, QueryFn(fetch, behavior, retries, backoff, fetches))
      decreases Max0(retries)
    {
      var step := QueryStep(fetch(fetches), behavior, retries);
      if step.Some? {
        result := step.value;
        fetches := fetches + 1;
        return;
      }
      AfterAgain(fetches, waits, backoff, QueryFn(fetch, behavior, retries - 1, backoff * 2, fetches + 1));
      fetches := fetches + 1;
      waits := waits + [backoff];
      retries := retries - 1;
      backoff := backoff * 2;
    }
  }

  /** A 401 under `returnNull` is null at once; under `throw` it is a
      rejection (or a retry when its text mentions a network word), never
      data. */
  lemma UnauthorizedHandling(fetch: nat -> FetchOutcome, retries: int, backoff: int, k: nat)
    requires fetch(k).Reply? && fetch(k).status == 401
    ensures QueryFn(fetch, ReturnNull, retries, backoff, k) == Run(Null, 1, [])
    ensures !MentionsConnection(FormatErrorMessage(Some(401), fetch(k).text, fetch(k).statusText)) ==>
      QueryFn(fetch, Throw, retries, backoff, k) ==
      Run(Raised(ErrorWith(FormatErrorMessage(Some(401), fetch(k).text, fetch(k).statusText))), 1, [])
  {
  }

  /** The default query function of the shared client (`throw`, two
      retries) against a server that keeps failing with 5xx: three calls,
      sleeps of 300 and 600, then a rejection. */
  lemma DefaultQueryAgainstFailingServer(fetch: nat -> FetchOutcome)
    requires forall j :: fetch(j).Reply? && fetch(j).status >= 500
    ensures var r := QueryFn(fetch, Throw, 2, 300, 0);
            r.fetches == 3 && r.waits == [300, 600] && r.outcome.Raised?
  {
    var r := QueryFn(fetch, Throw, 2, 300, 0);
    var r1 := QueryFn(fetch, Throw, 1, 600, 1);
    var r2 := QueryFn(fetch, Throw, 0, 1200, 2);
    assert r2 == Run(Raised(ErrorWith(FormatErrorMessage(Some(fetch(2).status), fetch(2).text, fetch(2).statusText))), 1, []);
    assert r1 == Again(r2, 600);
    assert r == Again(r1, 300);
  }
}
