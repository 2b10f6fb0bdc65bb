/** The bounded retry loop around the remote classifier. Each attempt calls the
    classifier and validates what it returns; a failed call or a rejected
    record costs one attempt, and the loop gives up with a status-500 error
    once the bound is reached. The classifier is an oracle: `classify(i)` is
    what the call made on attempt i + 1 (counting from one) ends in. */
module Retry {
  import opened Common
  import opened Json
  import opened Validator

  /** What one call of the classifier ends in: a decoded record, or an
      `HTTPException` whose text is `message`. */
  datatype Outcome = Classified(record: JValue) | CallFailed(message: string)

  /** One attempt, classifier call and validation together. */
  datatype Attempt = Succeeded(record: JValue) | Failed(reason: string)

  /** The attempt that a classifier outcome amounts to. The reason of a failure
      is the text of the exception the loop catches. */
  function AttemptOf(o: Outcome, fmt: Formatter): (a: Attempt)
    ensures a.Succeeded? <==> o.Classified? && Validate(o.record) == Accepted
    ensures a.Succeeded? ==> a.record == o.record
  {
    match o
    case CallFailed(message) => Failed(message)
    case Classified(record) =>
      match Validate(record)
      case Accepted => Succeeded(record)
      case Rejected(e) => Failed(ErrorMessage(e, fmt))
  }

  /** How the retry loop ends: with a validated record, with the exhaustion
      error, or (for a bound of zero or less) by falling off the end, which the
      caller sees as `None`. */
  datatype RetryResult = Returned(record: JValue) | Raised(error: HttpException) | FellThrough

  /** The opening words of the exhaustion detail ("analysis failed: "). */
  const FailedPrefix: string := "분석 실패: "

  /** The closing words of the exhaustion detail ("retry count exceeded"). */
  const ExceededSuffix: string := " (재시도 횟수 초과)"

  /** The detail of the exhaustion error: the last failure's text, framed by
      the prefix and the suffix, and recoverable from between them. */
  function ExhaustedDetail(reason: string): (d: string)
    ensures StartsWith(d, FailedPrefix) && EndsWith(d, ExceededSuffix)
    ensures |d| == |FailedPrefix| + |reason| + |ExceededSuffix|
    ensures d[|FailedPrefix|..|d| - |ExceededSuffix|] == reason
  {
    FailedPrefix + reason + ExceededSuffix
  }

  /** `analyze_description_with_retry`: `calls` counts the classifier calls made. */
  method AnalyzeWithRetry(classify: nat -> Outcome, maxRetries: int, fmt: Formatter)
    returns (r: RetryResult, calls: nat)
    ensures maxRetries <= 0 ==> r == FellThrough && calls == 0
    ensures maxRetries > 0 ==> 1 <= calls <= maxRetries && !r.FellThrough?
    ensures forall i: nat :: i < calls - 1 ==> AttemptOf(classify(i), fmt).Failed?
    ensures r.Returned? ==>
              classify(calls - 1) == Classified(r.record) && Validate(r.record) == Accepted
    ensures r.Raised? ==>
              && calls == maxRetries
              && AttemptOf(classify(calls - 1), fmt).Failed?
              && r.error == HttpException(500, ExhaustedDetail(AttemptOf(classify(calls - 1), fmt).reason))
    ensures r.Raised? <==> maxRetries > 0 && forall i: nat :: i < maxRetries ==> AttemptOf(classify(i), fmt).Failed?
    ensures forall k: nat ::
              && k < maxRetries
              && AttemptOf(classify(k), fmt).Succeeded?
              && (forall i: nat :: i < k ==> AttemptOf(classify(i), fmt).Failed?)
              ==> r == Returned(classify(k).record) && calls == k + 1
  {
    var retries: nat := 0;
    calls := 0;
    while retries < maxRetries
      invariant calls == retries
      invariant maxRetries <= 0 ==> retries == 0
      invariant maxRetries > 0 ==> retries < maxRetries
      invariant forall i: nat :: i < retries ==> AttemptOf(classify(i), fmt).Failed?
      decreases maxRetries - retries
    {
      var outcome := classify(retries);
      calls := calls + 1;
      var failure: string;
      match outcome {
        case CallFailed(message) =>
          failure := message;
        case Classified(record) =>
          match Validate(record) {
            case Accepted =>
              return Returned(record), calls;
            case Rejected(e) =>
              failure := ErrorMessage(e, fmt);
          }
      }
      retries := retries + 1;
      if retries >= maxRetries {
        return Raised(HttpException(500, ExhaustedDetail(failure))), calls;
      }
    }
    r := FellThrough;
  }
}
