/**
 * The failures a `ModbusMaster` call can end with. Transport failures come
 * from the serial helper and are carried opaquely; the CRC and retry-limit
 * errors are raised by lib/master.js itself.
 */
module Errors {

  /** The slave, register and value of one `writeSingleRegister` call. */
  datatype WriteCall = WriteCall(slave: int, register: int, value: int)

  /**
   * The `funcId` text of one attempt, as fields: the call, the attempt
   * number `retryCount + 1 - retry` and the effective retry count.
   */
  datatype Label = Label(call: WriteCall, attempt: int, total: int)

  datatype ModbusError =
    | TransportError(reason: string)
    | CrcError
    | RetryLimitExceed(context: Label)
}

/**
 * The retry controller of `writeSingleRegister` (`performRequest` in
 * lib/master.js). The transport is abstracted as the outcome of each
 * attempt: `attempt(k)` is what the k-th call to `request` (counting from
 * 0) resolves or rejects with.
 */
module Retry {
  import opened Wrappers
  import opened Errors

  type Outcome = Result<seq<int>, ModbusError>

  /**
   * What one call of the controller yields: its result, and the label of
   * every attempt it made, in order (one `request` call per label).
   */
  datatype Run = Run(result: Outcome, log: seq<Label>)

  function Max0(n: int): nat { if n < 0 then 0 else n }

  /**
   * `retryCount || DEFAULT_RETRY_COUNT`: an omitted count (`undefined`,
   * here None) and a count of 0 both fall back to the default; every other
   * count, negative ones included, is kept.
   */
  function EffectiveRetryCount(retryCount: Option<int>, default: int): (n: int)
    ensures retryCount.None? ==> n == default
    ensures retryCount == Some(0) ==> n == default
    ensures retryCount.Some? && retryCount.value != 0 ==> n == retryCount.value
  {
    match retryCount
    case None => default
    case Some(c) => if c == 0 then default else c
  }

  /**
   * `performRequest(retry)` as the source writes it, by recursion: with
   * `retry <= 0` it rejects with the retry-limit error before any request;
   * otherwise it makes one request, resolves with its response, or on a
   * failure goes on with `retry - 1`. The attempt made with `retry` left
   * is number `total + 1 - retry`, index `total - retry` from 0.
   */
  function PerformRequest(call: WriteCall, total: int, retry: int,
                          attempt: nat -> Outcome): (run: Run)
    requires retry <= total
    ensures |run.log| <= Max0(retry)
    ensures run.result.Failure? ==> run.result.error.RetryLimitExceed?
    decreases retry
  {
    var lbl := Label(call, total + 1 - retry, total);
    if retry <= 0 then Run(Failure(RetryLimitExceed(lbl)), [])
    else
      match attempt(total - retry)
      case Success(response) => Run(Success(response), [lbl])
      case Failure(_) =>
        var rest := PerformRequest(call, total, retry - 1, attempt);
        Run(rest.result, [lbl] + rest.log)
  }

  /**
   * What `performRequest(retry)` does, stated outright: at most max(`retry`, 0)
   * attempts, labelled with consecutive attempt numbers; success exactly
   * at the first attempt that succeeds; otherwise every attempt failed and
   * the result is the retry-limit error whose label follows the last one.
   */
  lemma {:induction false} PerformRequestFacts(call: WriteCall, total: int, retry: int,
                                              attempt: nat -> Outcome)
    requires retry <= total
    ensures var run := PerformRequest(call, total, retry, attempt);
            var first := total - retry;
            && |run.log| <= Max0(retry)
            && (forall i :: 0 <= i < |run.log| ==> run.log[i] == Label(call, first + 1 + i, total))
            && (forall j :: first <= j < first + |run.log| - 1 ==> attempt(j).Failure?)
            && (run.result.Success? ==>
                  |run.log| >= 1 && run.result == attempt(first + |run.log| - 1))
            && (run.result.Failure? ==>
                  && |run.log| == Max0(retry)
                  && (forall j :: first <= j < first + |run.log| ==> attempt(j).Failure?)
                  && run.result.error == RetryLimitExceed(Label(call, first + 1 + |run.log|, total)))
    decreases retry
  {
    if retry > 0 && attempt(total - retry).Failure? {
      PerformRequestFacts(call, total, retry - 1, attempt);
    }
  }

  /**
   * The whole controller, as `writeSingleRegister` starts it with
   * `performRequest(retryCount)`: attempts are numbered 1, 2, ... of the
   * effective count, there are never more of them than max(N, 0), and the
   * call ends either with the response of the first attempt that succeeds,
   * or, when every attempt failed, with `ModbusRetryLimitExceed` labelled
   * one past the last attempt (N+1 of N; 1 of N when N is not positive).
   */
  lemma RetryController(call: WriteCall, total: int, attempt: nat -> Outcome)
    ensures var run := PerformRequest(call, total, total, attempt);
            && |run.log| <= Max0(total)
            && (forall i :: 0 <= i < |run.log| ==> run.log[i] == Label(call, i + 1, total))
            && (run.result.Success? ==>
                  && |run.log| >= 1
                  && run.result == attempt(|run.log| - 1)
                  && forall j :: 0 <= j < |run.log| - 1 ==> attempt(j).Failure?)
            && (run.result.Failure? ==>
                  && |run.log| == Max0(total)
                  && (forall j :: 0 <= j < |run.log| ==> attempt(j).Failure?)
                  && run.result.error == RetryLimitExceed(Label(call, |run.log| + 1, total)))
  {
    PerformRequestFacts(call, total, total, attempt);
  }

  /** The call succeeds if and only if one of the first N attempts succeeds. */
  lemma RetrySucceedsIff(call: WriteCall, total: int, attempt: nat -> Outcome)
    ensures PerformRequest(call, total, total, attempt).result.Success?
        <==> exists k :: 0 <= k < total && attempt(k).Success?
  {
    var run := PerformRequest(call, total, total, attempt);
    RetryController(call, total, attempt);
    if run.result.Success? {
      var k := |run.log| - 1;
      assert 0 <= k < total && attempt(k).Success?;
    }
  }

  /**
   * If attempt k (from 0) is the first that succeeds and k < N, the call
   * resolves with exactly that attempt's response after k + 1 attempts.
   */
  lemma RetryFirstSuccess(call: WriteCall, total: int, k: nat, attempt: nat -> Outcome)
    requires k < total && attempt(k).Success?
    requires forall j :: 0 <= j < k ==> attempt(j).Failure?
    ensures var run := PerformRequest(call, total, total, attempt);
            run.result == attempt(k) && |run.log| == k + 1
  {
    RetryController(call, total, attempt);
  }

  /**
   * A transport that always fails: with N >= 1 the call makes exactly N
   * attempts and rejects with `ModbusRetryLimitExceed` labelled N+1 of N,
   * never with the last transport or CRC error.
   */
  lemma RetryExhausted(call: WriteCall, total: int, attempt: nat -> Outcome)
    requires total >= 1
    requires forall j :: 0 <= j < total ==> attempt(j).Failure?
    ensures PerformRequest(call, total, total, attempt)
         == Run(Failure(RetryLimitExceed(Label(call, total + 1, total))),
                seq(total, i => Label(call, i + 1, total)))
  {
    RetryController(call, total, attempt);
  }

  /** A negative count rejects at once: no attempt is made, and the label reads 1 of N. */
  lemma RetryNegativeCount(call: WriteCall, total: int, attempt: nat -> Outcome)
    requires total < 0
    ensures PerformRequest(call, total, total, attempt)
         == Run(Failure(RetryLimitExceed(Label(call, 1, total))), [])
  {
  }

  /**
   * The controller as an explicit loop: `retry` starts at the effective
   * count and is decremented after each failed attempt, until an attempt
   * succeeds or `retry` reaches zero. It yields the same run as the
   * recursive `performRequest`.
   */
  method RetryLoop(call: WriteCall, total: int, attempt: nat -> Outcome)
    returns (result: Outcome, log: seq<Label>)
    ensures Run(result, log) == PerformRequest(call, total, total, attempt)
  {
    var retry := total;
    log := [];
    while true
      invariant retry <= total
      invariant var rest := PerformRequest(call, total, retry, attempt);
                PerformRequest(call, total, total, attempt) == Run(rest.result, log + rest.log)
      decreases retry
    {
      var lbl := Label(call, total + 1 - retry, total);
      if retry <= 0 {
        result := Failure(RetryLimitExceed(lbl));
        return;
      }
      log := log + [lbl];
      var outcome := attempt(total - retry);
      if outcome.Success? {
        result := outcome;
        return;
      }
      assert PerformRequest(call, total, retry, attempt).log
          == [lbl] + PerformRequest(call, total, retry - 1, attempt).log;
      retry := retry - 1;
    }
  }
}
