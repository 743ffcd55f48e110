/** The provider's request loop: retries, the call budget they spend, and the delays between them. */
module Retry {
  import opened Wrappers

  /** Go's time.Duration: nanoseconds in 64 bits. Arithmetic on it is checked not to overflow. */
  newtype Duration = x: int | -0x8000_0000_0000_0000 <= x < 0x8000_0000_0000_0000

  function Doubled(base: int, times: nat): int {
    if times == 0 then base else 2 * Doubled(base, times - 1)
  }

  function Min(a: int, b: int): int {
    if a < b then a else b
  }

  /** What a failed attempt should wait: exponential from the base unless the server named a time, never outside
      0..maximum. */
  function Wait(base: Duration, maximum: Duration, attempt: nat, retryAfter: Option<Duration>): int {
    match retryAfter
    case None => Min(Doubled(base as int, attempt), maximum as int)
    case Some(after) => if after < 0 then 0 else Min(after as int, maximum as int)
  }

  lemma {:induction false} DoublingGrows(base: int, few: nat, more: nat)
    requires base > 0 && few <= more
    ensures 0 < Doubled(base, few) <= Doubled(base, more)
  {
    if few < more {
      DoublingGrows(base, few, more - 1);
    } else if few > 0 {
      DoublingGrows(base, few - 1, more - 1);
    }
  }

  /** Without a time from the server the first wait is the base, and each next one twice the last, up to the maximum. */
  lemma WaitsDouble(base: Duration, maximum: Duration, attempt: nat)
    requires base > 0 && maximum > 0
    ensures Wait(base, maximum, 0, None) == if base < maximum then base as int else maximum as int
    ensures var now, next := Wait(base, maximum, attempt, None), Wait(base, maximum, attempt + 1, None);
      next == if now + now < maximum as int then now + now else maximum as int
  {
    DoublingGrows(base as int, attempt, attempt + 1);
  }

  /** retryDelay: the delay is doubled in 64 bits. `steps` is every value the loop gave it: from a base within the
      maximum, none is above the maximum. */
  method RetryDelay(base: Duration, maximum: Duration, attempt: nat, retryAfter: Option<Duration>)
    returns (delay: Duration, ghost steps: seq<Duration>)
    requires base > 0 && maximum > 0
    ensures delay as int == Wait(base, maximum, attempt, retryAfter) && 0 <= delay <= maximum
    ensures match retryAfter
            case None => delay > 0
            case Some(after) => delay == if after > maximum then maximum else if after > 0 then after else 0
    ensures steps != [] && steps[0] == base && forall k :: 0 < k < |steps| ==> steps[k] as int == Min(Doubled(base as int, k), maximum as int)
    ensures base <= maximum ==> forall v :: v in steps ==> 0 < v <= maximum
  {
    delay, steps := base, [base];
    var i := 0;
    while i < attempt && delay < maximum
      invariant i <= attempt && i == |steps| - 1 && steps[0] == base
      invariant delay as int == Doubled(base as int, i) && (delay <= maximum || i == 0)
      invariant forall k :: 0 < k < |steps| ==> steps[k] as int == Min(Doubled(base as int, k), maximum as int)
      invariant base <= maximum ==> forall v :: v in steps ==> 0 < v <= maximum
    {
      DoublingGrows(base as int, i + 1, attempt);
      if delay > maximum / 2 {
        delay := maximum;
        steps := steps + [delay];
        break;
      }
      delay := delay * 2;
      steps := steps + [delay];
      i := i + 1;
    }
    DoublingGrows(base as int, i, attempt);
    if retryAfter.Some? {
      delay := retryAfter.value;
    }
    if delay < 0 {
      return 0, steps;
    }
    if delay > maximum {
      return maximum, steps;
    }
  }

  datatype Kind = Unavailable | RateLimited | ResourceLimit

  /** What one request would meet if it were sent. */
  datatype Reply = Answered | Refused(kind: Kind, retryable: bool, retryAfter: Option<Duration>)

  datatype Result = Success | Interruption(kind: Kind)

  /** The reply that ends the loop, at the given attempt, for a budget of that many requests. */
  function Verdict(replies: nat -> Reply, attempt: nat, budget: nat): Result {
    if attempt >= budget then Interruption(ResourceLimit)
    else match replies(attempt)
      case Answered => Success
      case Refused(kind, _, _) => Interruption(kind)
  }

  /** The loop goes on after this attempt. */
  predicate TriesAgain(replies: nat -> Reply, attempt: nat, budget: nat, maxRetries: nat) {
    attempt < budget && attempt < maxRetries && replies(attempt).Refused? && replies(attempt).retryable
  }

  /** requestJSON with spendProviderCall: one attempt after another while they fail retryably, at most maxRetries
      times, each paid from the budget; the wait after each is the one Wait prescribes. */
  method RequestJSON(replies: nat -> Reply, budget: nat, maxRetries: nat, base: Duration, maximum: Duration)
    returns (result: Result, attempts: nat, sent: nat, waits: seq<Duration>)
    requires base > 0 && maximum > 0
    ensures 1 <= attempts <= maxRetries + 1 && sent == Min(attempts, budget)
    ensures !TriesAgain(replies, attempts - 1, budget, maxRetries) && result == Verdict(replies, attempts - 1, budget)
    ensures forall i :: 0 <= i < attempts - 1 ==> i < budget && replies(i).Refused? && replies(i).retryable
    ensures attempts > budget || attempts > maxRetries || replies(attempts - 1).Answered? || !replies(attempts - 1).retryable
    ensures result == if attempts > budget then Interruption(ResourceLimit)
                      else if replies(attempts - 1).Answered? then Success else Interruption(replies(attempts - 1).kind)
    ensures |waits| == attempts - 1 && forall i :: 0 <= i < |waits| ==>
      TriesAgain(replies, i, budget, maxRetries) && waits[i] as int == Wait(base, maximum, i, replies(i).retryAfter)
  {
    var attempt: nat, remaining: int := 0, budget;
    sent, waits := 0, [];
    while true
      invariant attempt <= maxRetries && remaining == budget - attempt && remaining >= 0 && sent == attempt == |waits|
      invariant forall i :: 0 <= i < |waits| ==>
        TriesAgain(replies, i, budget, maxRetries) && waits[i] as int == Wait(base, maximum, i, replies(i).retryAfter)
      decreases maxRetries - attempt
    {
      remaining := remaining - 1;
      var reply := Refused(ResourceLimit, false, None);
      if remaining >= 0 {
        sent := sent + 1;
        reply := replies(attempt);
      }
      if reply.Answered? {
        return Success, attempt + 1, sent, waits;
      }
      if !reply.retryable || attempt == maxRetries {
        return Interruption(reply.kind), attempt + 1, sent, waits;
      }
      var delay, _ := RetryDelay(base, maximum, attempt, reply.retryAfter);
      waits := waits + [delay];
      attempt := attempt + 1;
    }
  }
}
