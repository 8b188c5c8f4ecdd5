/**
 * One run of one question (abstract_processing.py lines 88-117): up to `max_retries`
 * attempts, each a request whose streamed answer is scanned, stopping at the first
 * attempt whose scan finds 'Y' or 'N'.
 */
module QueryRunner {
  import opened Wrappers
  import opened ResponseExtractor

  /** The outcome of one `requests.post`: a `RequestException`, or a response with its
      status code and the lines of its body. A body that breaks off with an exception
      part-way through is the response holding the lines read before the break. */
  datatype Attempt = RequestError | Response(status: int, lines: seq<Line>)

  /** What the endpoint does on each successive attempt of one run (attempt 0, 1, ...). */
  type AttemptFeed = nat -> Attempt

  /** What one attempt decides: the stream's answer for a 200 response, 'N/A' otherwise. */
  function AttemptAnswer(a: Attempt): Answer {
    match a
    case RequestError => NA
    case Response(status, lines) => if status == 200 then StreamAnswer(lines) else NA
  }

  /** The first attempt, from `from` on and below `maxRetries`, that decides an answer;
      `maxRetries` (or `from`, if larger) when none does. */
  function FirstAnswered(feed: AttemptFeed, from: nat, maxRetries: int): (r: nat)
    ensures from <= r <= (if from < maxRetries then maxRetries else from)
    ensures r < maxRetries ==> AttemptAnswer(feed(r)) != NA
    ensures forall b :: from <= b < r ==> AttemptAnswer(feed(b)) == NA
    decreases maxRetries - from
  {
    if from >= maxRetries then from
    else if AttemptAnswer(feed(from)) != NA then from
    else FirstAnswered(feed, from + 1, maxRetries)
  }

  /** The run's result: the answer of the first deciding attempt, or 'N/A'. */
  function RunAnswer(feed: AttemptFeed, maxRetries: int): Answer {
    var k := FirstAnswered(feed, 0, maxRetries);
    if k < maxRetries then AttemptAnswer(feed(k)) else NA
  }

  /** How many attempts the run makes. */
  function AttemptsMade(feed: AttemptFeed, maxRetries: int): nat {
    var k := FirstAnswered(feed, 0, maxRetries);
    if k < maxRetries then k + 1 else k
  }

  /** Lines 88-117 as the script runs them. `first_valid_char` lives across all attempts
      of the run; the result is 'N/A' unless some attempt stopped on 'Y' or 'N'. */
  method RunQuery(feed: AttemptFeed, maxRetries: int) returns (answer: Answer, attempts: nat)
    ensures answer == RunAnswer(feed, maxRetries) && attempts == AttemptsMade(feed, maxRetries)
    ensures attempts <= (if maxRetries > 0 then maxRetries else 0)
    ensures answer != NA ==> attempts >= 1 && AttemptAnswer(feed(attempts - 1)) == answer
    ensures answer != NA ==> forall b :: 0 <= b < attempts - 1 ==> AttemptAnswer(feed(b)) == NA
    ensures answer == NA ==> attempts == (if maxRetries > 0 then maxRetries else 0)
                             && forall b :: 0 <= b < maxRetries ==> AttemptAnswer(feed(b)) == NA
  {
    var firstValidChar: Option<char> := None;
    attempts := 0;
    var attempt: nat := 0;
    while attempt < maxRetries
      invariant attempts == attempt
      invariant attempt <= (if maxRetries > 0 then maxRetries else 0)
      invariant !Qualifies(firstValidChar)
      invariant FirstAnswered(feed, 0, maxRetries) == FirstAnswered(feed, attempt, maxRetries)
      invariant forall b :: 0 <= b < attempt ==> AttemptAnswer(feed(b)) == NA
    {
      attempts := attempts + 1;
      match feed(attempt) {
        case RequestError =>
          // RequestException: logged; the next attempt follows
        case Response(status, lines) =>
          if status == 200 {
            firstValidChar := ScanStream(lines, firstValidChar);
            if Qualifies(firstValidChar) {
              break;
            }
          }
          // any other status: logged; the next attempt follows
      }
      attempt := attempt + 1;
    }
    answer := Decide(firstValidChar);
  }

  /** A run whose every attempt fails in transport or with a non-200 status uses up all
      `maxRetries` attempts and yields 'N/A'. */
  lemma FailuresExhaustRetries(feed: AttemptFeed, maxRetries: int)
    requires forall b :: 0 <= b < maxRetries ==> feed(b).RequestError? || feed(b).status != 200
    ensures RunAnswer(feed, maxRetries) == NA
    ensures AttemptsMade(feed, maxRetries) == (if maxRetries > 0 then maxRetries else 0)
  {
  }

  /** With no retries allowed (`max_retries <= 0`) no request is made and the run yields 'N/A'. */
  lemma NoRetriesNoAnswer(feed: AttemptFeed, maxRetries: int)
    requires maxRetries <= 0
    ensures RunAnswer(feed, maxRetries) == NA && AttemptsMade(feed, maxRetries) == 0
  {
  }

  /** What the endpoint answers after the first deciding attempt never matters. */
  lemma {:induction false} LaterAttemptsIgnored(feed: AttemptFeed, other: AttemptFeed, from: nat, maxRetries: int)
    requires forall b: nat :: b < maxRetries && b <= FirstAnswered(feed, from, maxRetries) ==> feed(b) == other(b)
    ensures FirstAnswered(other, from, maxRetries) == FirstAnswered(feed, from, maxRetries)
    ensures from == 0 ==> RunAnswer(other, maxRetries) == RunAnswer(feed, maxRetries)
                          && AttemptsMade(other, maxRetries) == AttemptsMade(feed, maxRetries)
    decreases maxRetries - from
  {
    if from < maxRetries && AttemptAnswer(feed(from)) == NA {
      LaterAttemptsIgnored(feed, other, from + 1, maxRetries);
    }
  }
}
