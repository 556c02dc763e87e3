/** The retrying API call of bot.py (`tg_call`): up to RETRIES attempts,
    exponential backoff between failed attempts, the first success returned
    and the last failure raised. Each HTTP attempt's outcome is an input;
    sleeping is recorded as the list of wait lengths. */
module Retry {
  import opened Wrappers
  import opened Updates

  const RETRIES: nat := 3
  const BACKOFF_BASE: real := 1.5

  /** The decoded JSON body of a reply: its `ok` flag and its `result`
      (only getUpdates reads the latter; `None` when absent or null). */
  datatype Envelope = Envelope(ok: bool, result: Option<seq<Update>>)

  /** What one HTTP attempt produced: the request raised (connection
      error, timeout), or a reply arrived with a status code and a body
      that decodes as JSON (`Some`) or does not (`None`). */
  datatype Attempt = Raised | Responded(status: int, body: Option<Envelope>)

  /** Why an attempt counts as failed. */
  datatype Failure =
    | Transport            // the request raised
    | HttpStatus(status: int)  // status other than 200
    | Undecodable          // status 200 but `r.json()` raised
    | NotOk                // status 200, body decoded, `ok` falsy

  /** How the body of the retry loop judges one attempt. */
  function Judge(a: Attempt): (r: Result<Envelope, Failure>)
    ensures r.Success? <==> a.Responded? && a.status == 200 && a.body.Some? && a.body.value.ok
    ensures r.Success? ==> r.value == a.body.value
    ensures a.Responded? && a.status != 200 ==> r == Failure(HttpStatus(a.status))
  {
    match a
    case Raised => Failure(Transport)
    case Responded(status, body) =>
      if status != 200 then Failure(HttpStatus(status))
      else if body.None? then Failure(Undecodable)
      else if !body.value.ok then Failure(NotOk)
      else Success(body.value)
  }

  function Pow2(n: nat): (r: nat)
    ensures r >= 1
  {
    if n == 0 then 1 else 2 * Pow2(n - 1)
  }

  /** The sleep after failed attempt `attempt` (0-based): 1.5 s after the
      first, doubling after each further one. */
  function Wait(attempt: nat): (r: real)
    ensures r >= BACKOFF_BASE
    ensures attempt == 0 ==> r == BACKOFF_BASE
    ensures attempt > 0 ==> r == 2.0 * Wait(attempt - 1)
  {
    BACKOFF_BASE * Pow2(attempt) as real
  }

  /** The waits after attempts from, ..., to - 1. */
  function Backoffs(from: nat, to: nat): (r: seq<real>)
    requires from <= to
    ensures |r| == to - from
  {
    seq(to - from, k requires 0 <= k < to - from => Wait(from + k))
  }

  /** The observable effect of one call: what it returns or raises, how
      many attempts it made and the sleeps it performed, in order. */
  datatype Report = Report(result: Result<Envelope, Failure>, attempts: nat, sleeps: seq<real>)

  /** The retry schedule from attempt `i` on. Its contract is the whole
      promise of `tg_call`: every attempt before the last one made failed,
      the result is the verdict on the last attempt made (so the first
      success, or the failure of attempt RETRIES - 1), and a sleep follows
      exactly the failed attempts other than the final one. */
  function CallFrom(outcomes: seq<Attempt>, i: nat): (r: Report)
    requires |outcomes| == RETRIES && i < RETRIES
    ensures i < r.attempts <= RETRIES
    ensures forall k :: i <= k < r.attempts - 1 ==> Judge(outcomes[k]).Failure?
    ensures r.result == Judge(outcomes[r.attempts - 1])
    ensures r.result.Failure? ==> r.attempts == RETRIES
    ensures r.sleeps == Backoffs(i, if r.result.Success? then r.attempts - 1 else RETRIES - 1)
    decreases RETRIES - i
  {
    match Judge(outcomes[i])
    case Success(data) => Report(Success(data), i + 1, [])
    case Failure(e) =>
      if i == RETRIES - 1 then Report(Failure(e), RETRIES, [])
      else
        var rest := CallFrom(outcomes, i + 1);
        Report(rest.result, rest.attempts, [Wait(i)] + rest.sleeps)
  }

  /** `tg_call` as a function of the attempts' outcomes: between one and
      RETRIES attempts, the verdict on the last one made, and one sleep
      between consecutive attempts but none after the last. */
  function Call(outcomes: seq<Attempt>): (r: Report)
    requires |outcomes| == RETRIES
    ensures 1 <= r.attempts <= RETRIES && r.result == Judge(outcomes[r.attempts - 1])
    ensures |r.sleeps| == r.attempts - 1
  {
    CallFrom(outcomes, 0)
  }

  /** The call stops at the first successful attempt and returns its body. */
  lemma FirstSuccessReturned(outcomes: seq<Attempt>, k: nat)
    requires |outcomes| == RETRIES && k < RETRIES
    requires Judge(outcomes[k]).Success?
    requires forall j :: 0 <= j < k ==> Judge(outcomes[j]).Failure?
    ensures Call(outcomes) == Report(Success(outcomes[k].body.value), k + 1, Backoffs(0, k))
  {
  }

  /** When every attempt fails, the last failure is raised after exactly
      two sleeps, of 1.5 and 3.0 seconds. */
  lemma AllFailed(outcomes: seq<Attempt>)
    requires |outcomes| == RETRIES
    requires forall j :: 0 <= j < RETRIES ==> Judge(outcomes[j]).Failure?
    ensures Call(outcomes).result == Judge(outcomes[RETRIES - 1])
    ensures Call(outcomes).attempts == RETRIES
    ensures Call(outcomes).sleeps == [1.5, 3.0]
  {
    var r := Call(outcomes);
    assert Judge(outcomes[r.attempts - 1]).Failure?;
    assert r.sleeps == Backoffs(0, 2);
    assert Pow2(1) == 2;
  }

  function Sum(s: seq<real>): real
  {
    if s == [] then 0.0 else Sum(s[..|s| - 1]) + s[|s| - 1]
  }

  /** The total time slept before attempt n is BACKOFF_BASE * (2^n - 1). */
  lemma {:induction false} TotalBackoff(n: nat)
    ensures Sum(Backoffs(0, n)) == BACKOFF_BASE * (Pow2(n) - 1) as real
  {
    if n > 0 {
      TotalBackoff(n - 1);
      assert Backoffs(0, n)[..n - 1] == Backoffs(0, n - 1);
      assert Backoffs(0, n)[n - 1] == Wait(n - 1);
    }
  }

  /** `tg_call`: the loop over the RETRIES attempts that remembers the
      last exception, proved to behave as `Call` says. */
  method TgCall(outcomes: seq<Attempt>)
    returns (result: Result<Envelope, Failure>, attempts: nat, sleeps: seq<real>)
    requires |outcomes| == RETRIES
    ensures Report(result, attempts, sleeps) == Call(outcomes)
  {
    var lastFailure: Option<Failure> := None;
    sleeps := [];
    for attempt := 0 to RETRIES
      invariant forall j :: 0 <= j < attempt ==> Judge(outcomes[j]).Failure?
      invariant sleeps == Backoffs(0, if attempt < RETRIES then attempt else RETRIES - 1)
      invariant attempt > 0 ==> lastFailure == Some(Judge(outcomes[attempt - 1]).error)
    {
      match Judge(outcomes[attempt])
      case Success(data) =>
        FirstSuccessReturned(outcomes, attempt);
        return Success(data), attempt + 1, sleeps;
      case Failure(e) =>
        lastFailure := Some(e);
        if attempt < RETRIES - 1 {
          sleeps := sleeps + [Wait(attempt)];
        }
    }
    AllFailed(outcomes);
    result, attempts := Failure(lastFailure.value), RETRIES;
  }
}
