/** The rate limiter's queues against an exact sliding window over all requests ever accepted. */
module RateLimiting {
  type Store = map<string, seq<int>>

  /** Request, on one snapshot of the store. */
  function RequestStep(store: Store, key: string, max: int, duration: int, now: int): (Store, bool)
    requires max >= 1
  {
    if key in store then
      var queue := store[key];
      if |queue| < max then (store[key := queue + [now]], true)
      else if now - queue[0] >= duration then (store[key := queue[1..] + [now]], true)
      else (store, false)
    else
      (store[key := [now]], true)
  }

  predicate Expired(queue: seq<int>, expire: int, now: int) {
    queue == [] || now - queue[|queue| - 1] > expire
  }

  /** One pass of clearExpiredItems. */
  function CleanStep(store: Store, expire: int, now: int): Store {
    map key | key in store && !Expired(store[key], expire, now) :: store[key]
  }

  /** The limiter as the program has it. */
  class RateLimiter {
    var store: Store
    const expire: int

    constructor (expire: int)
      ensures store == map[] && this.expire == expire
    {
      store := map[];
      this.expire := expire;
    }

    method Request(key: string, max: int, duration: int, now: int) returns (accepted: bool)
      requires max >= 1
      modifies this
      ensures (store, accepted) == RequestStep(old(store), key, max, duration, now)
    {
      if key in store {
        if |store[key]| < max {
          store := store[key := store[key] + [now]];
          return true;
        }
        if now - store[key][0] >= duration {
          store := store[key := store[key][1..]];
          store := store[key := store[key] + [now]];
          assert store == old(store)[key := old(store)[key][1..] + [now]];
          return true;
        }
        return false;
      }
      store := store[key := []];
      store := store[key := store[key] + [now]];
      assert [] + [now] == [now];
      assert store == old(store)[key := [now]];
      accepted := true;
    }

    method ClearExpiredItems(now: int)
      modifies this
      ensures store == CleanStep(old(store), expire, now)
    {
      var keys := store.Keys;
      while keys != {}
        invariant keys <= old(store).Keys && store.Keys <= old(store).Keys
        invariant forall key :: key in store ==> store[key] == old(store)[key]
        invariant forall key :: key in old(store) ==> (key in store <==> key in keys || !Expired(old(store)[key], expire, now))
        decreases keys
      {
        var key :| key in keys;
        keys := keys - {key};
        if Expired(store[key], expire, now) {
          store := store - {key};
        }
      }
    }
  }

  // ----- whole runs -----

  datatype Event = Request(key: string, now: int) | Clean(now: int)

  /** The clock never goes back. */
  predicate Monotone(events: seq<Event>) {
    forall i, j :: 0 <= i < j < |events| ==> events[i].now <= events[j].now
  }

  /** The program: store after the events, and its answers to the requests among them. */
  function Run(events: seq<Event>, max: int, duration: int): (Store, seq<bool>)
    requires max >= 1
  {
    if events == [] then (map[], [])
    else
      var n := |events| - 1;
      var (store, answers) := Run(events[..n], max, duration);
      match events[n]
      case Request(key, now) =>
        var (next, accepted) := RequestStep(store, key, max, duration, now);
        (next, answers + [accepted])
      case Clean(now) => (CleanStep(store, duration, now), answers)
  }

  function History(h: Store, key: string): seq<int> {
    if key in h then h[key] else []
  }

  /** How many of the times lie in the last `duration` seconds. */
  function InWindow(times: seq<int>, duration: int, now: int): nat {
    if times == [] then 0
    else InWindow(times[..|times| - 1], duration, now) + if now - times[|times| - 1] < duration then 1 else 0
  }

  /** The policy: every accepted request is remembered for ever, and a request is accepted exactly when fewer than
      `max` of its key's accepted requests lie in the window. */
  function Policy(events: seq<Event>, max: int, duration: int): (Store, seq<bool>) {
    if events == [] then (map[], [])
    else
      var n := |events| - 1;
      var (h, answers) := Policy(events[..n], max, duration);
      match events[n]
      case Request(key, now) =>
        var accepted := InWindow(History(h, key), duration, now) < max;
        (if accepted then h[key := History(h, key) + [now]] else h, answers + [accepted])
      case Clean(_) => (h, answers)
  }

  /** The queue is the recent end of the history; what it has lost is out of the window for good. */
  predicate Recent(queue: seq<int>, history: seq<int>, max: int, duration: int, now: int) {
    && |queue| <= max && |queue| <= |history| && history[|history| - |queue|..] == queue
    && (forall i :: 0 <= i < |history| - |queue| ==> now - history[i] >= duration)
    && (forall i, j :: 0 <= i < j < |history| ==> history[i] <= history[j])
    && (forall i :: 0 <= i < |history| ==> history[i] <= now)
  }

  lemma {:induction false} WindowCount(times: seq<int>, from: nat, duration: int, now: int)
    requires from <= |times| && (forall i :: 0 <= i < from ==> now - times[i] >= duration)
    requires forall i, j :: 0 <= i < j < |times| ==> times[i] <= times[j]
    ensures InWindow(times, duration, now) <= |times| - from
    ensures (from < |times| ==> now - times[from] < duration) ==> InWindow(times, duration, now) == |times| - from
  {
    if times != [] {
      var n := |times| - 1;
      WindowCount(times[..n], if from <= n then from else n, duration, now);
    }
  }

  lemma WindowOfRecent(queue: seq<int>, history: seq<int>, max: int, duration: int, now: int)
    requires max >= 1 && Recent(queue, history, max, duration, now)
    ensures (|queue| < max || now - queue[0] >= duration) <==> InWindow(history, duration, now) < max
  {
    var from := |history| - |queue|;
    if |queue| == max { assert history[from] == queue[0]; }
    if |queue| == max && now - queue[0] >= duration {
      WindowCount(history, from + 1, duration, now);
    } else {
      WindowCount(history, from, duration, now);
    }
  }

  lemma AppendInOrder(history: seq<int>, now: int)
    requires forall i, j :: 0 <= i < j < |history| ==> history[i] <= history[j]
    requires forall i :: 0 <= i < |history| ==> history[i] <= now
    ensures forall i, j :: 0 <= i < j < |history + [now]| ==> (history + [now])[i] <= (history + [now])[j]
    ensures forall i :: 0 <= i < |history + [now]| ==> (history + [now])[i] <= now
  {
  }

  /** The newest request joins the queue; the oldest leaves it when the queue is full and the oldest is old enough. */
  lemma AppendRecent(queue: seq<int>, history: seq<int>, max: int, duration: int, now: int)
    requires max >= 1 && Recent(queue, history, max, duration, now)
    ensures |queue| < max ==> Recent(queue + [now], history + [now], max, duration, now)
    ensures |queue| == max && now - queue[0] >= duration ==> Recent(queue[1..] + [now], history + [now], max, duration, now)
  {
    var from, h := |history| - |queue|, history + [now];
    AppendInOrder(history, now);
    assert h[from..] == queue + [now];
    if |queue| == max && now - queue[0] >= duration {
      assert history[from] == queue[0];
      assert h[from + 1..] == queue[1..] + [now];
      forall i | 0 <= i < from + 1 ensures now - h[i] >= duration { assert h[i] == history[i]; }
    }
  }

  lemma RequestAgrees(queue: seq<int>, history: seq<int>, max: int, duration: int, earlier: int, now: int)
    requires max >= 1 && Recent(queue, history, max, duration, earlier) && earlier <= now
    ensures |queue| <= max
    ensures var accepted := |queue| < max || now - queue[0] >= duration;
      && accepted == (InWindow(history, duration, now) < max)
      && (accepted ==> Recent(if |queue| < max then queue + [now] else queue[1..] + [now], history + [now], max, duration, now))
  {
    LaterRecent(queue, history, max, duration, earlier, now);
    WindowOfRecent(queue, history, max, duration, now);
    AppendRecent(queue, history, max, duration, now);
  }

  ghost predicate Linked(store: Store, h: Store, max: int, duration: int, now: int) {
    forall key {:trigger History(h, key)} :: Recent(History(store, key), History(h, key), max, duration, now)
  }

  function Last(events: seq<Event>, first: int): int {
    if events == [] then first else events[|events| - 1].now
  }

  lemma LaterRecent(queue: seq<int>, history: seq<int>, max: int, duration: int, earlier: int, now: int)
    requires Recent(queue, history, max, duration, earlier) && earlier <= now
    ensures Recent(queue, history, max, duration, now)
    ensures Expired(queue, duration, now) && max >= 0 ==> Recent([], history, max, duration, now)
  {
    if Expired(queue, duration, now) && queue != [] {
      assert history[|history| - 1] == queue[|queue| - 1];
      assert forall i :: 0 <= i < |history| ==> history[i] <= history[|history| - 1];
    }
  }

  lemma {:induction false} RunFollowsPolicy(events: seq<Event>, max: int, duration: int, first: int)
    requires max >= 1 && duration >= 0 && Monotone(events) && (events != [] ==> first <= events[0].now)
    ensures Linked(Run(events, max, duration).0, Policy(events, max, duration).0, max, duration, Last(events, first))
    ensures Run(events, max, duration).1 == Policy(events, max, duration).1
  {
    if events != [] {
      var n := |events| - 1;
      RunFollowsPolicy(events[..n], max, duration, first);
      var (store, h) := (Run(events[..n], max, duration).0, Policy(events[..n], max, duration).0);
      StepFollowsPolicy(store, h, events[n], max, duration, Last(events[..n], first));
    }
  }

  lemma RequestShape(store: Store, key: string, max: int, duration: int, now: int)
    requires max >= 1 && |History(store, key)| <= max
    ensures var queue := History(store, key); var (next, accepted) := RequestStep(store, key, max, duration, now);
      && accepted == (|queue| < max || now - queue[0] >= duration)
      && History(next, key) == (if !accepted then queue else if |queue| < max then queue + [now] else queue[1..] + [now])
      && forall other :: other != key ==> History(next, other) == History(store, other)
  {
    assert [] + [now] == [now];
  }

  lemma HistoryKept(h: Store, key: string, times: seq<int>, other: string)
    ensures History(h[key := times], other) == if other == key then times else History(h, other)
  {
  }

  lemma RequestFollowsPolicy(store: Store, h: Store, key: string, max: int, duration: int, earlier: int, now: int)
    requires max >= 1 && Linked(store, h, max, duration, earlier) && earlier <= now
    ensures var (next, accepted) := RequestStep(store, key, max, duration, now);
      && accepted == (InWindow(History(h, key), duration, now) < max)
      && Linked(next, if accepted then h[key := History(h, key) + [now]] else h, max, duration, now)
  {
    var queue, times := History(store, key), History(h, key);
    assert Recent(queue, times, max, duration, earlier);
    hide Recent, InWindow, RequestStep, History;
    RequestAgrees(queue, times, max, duration, earlier, now);
    LaterRecent(queue, times, max, duration, earlier, now);
    RequestShape(store, key, max, duration, now);
    var (next, accepted) := RequestStep(store, key, max, duration, now);
    var h' := if accepted then h[key := times + [now]] else h;
    forall other ensures Recent(History(next, other), History(h', other), max, duration, now) {
      HistoryKept(h, key, times + [now], other);
      assert Recent(History(store, other), History(h, other), max, duration, earlier);
      LaterRecent(History(store, other), History(h, other), max, duration, earlier, now);
    }
  }

  lemma CleanFollowsPolicy(store: Store, h: Store, max: int, duration: int, earlier: int, now: int)
    requires max >= 1 && Linked(store, h, max, duration, earlier) && earlier <= now
    ensures Linked(CleanStep(store, duration, now), h, max, duration, now)
  {
    hide Recent;
    forall key ensures Recent(History(CleanStep(store, duration, now), key), History(h, key), max, duration, now) {
      assert Recent(History(store, key), History(h, key), max, duration, earlier);
      LaterRecent(History(store, key), History(h, key), max, duration, earlier, now);
    }
  }

  lemma StepFollowsPolicy(store: Store, h: Store, e: Event, max: int, duration: int, earlier: int)
    requires max >= 1 && duration >= 0 && Linked(store, h, max, duration, earlier) && earlier <= e.now
    ensures e.Request? ==>
      var (next, accepted) := RequestStep(store, e.key, max, duration, e.now);
      && accepted == (InWindow(History(h, e.key), duration, e.now) < max)
      && Linked(next, if accepted then h[e.key := History(h, e.key) + [e.now]] else h, max, duration, e.now)
    ensures e.Clean? ==> Linked(CleanStep(store, duration, e.now), h, max, duration, e.now)
  {
    hide Linked, RequestStep, CleanStep, InWindow;
    match e
    case Request(key, now) => RequestFollowsPolicy(store, h, key, max, duration, earlier, now);
    case Clean(now) => CleanFollowsPolicy(store, h, max, duration, earlier, now);
  }

  /** Over every run, cleaner passes anywhere, the limiter gives exactly the answers of the sliding window. */
  lemma AnswersAreThePolicys(events: seq<Event>, max: int, duration: int)
    requires max >= 1 && duration >= 0 && Monotone(events)
    ensures Run(events, max, duration).1 == Policy(events, max, duration).1
  {
    RunFollowsPolicy(events, max, duration, if events == [] then 0 else events[0].now);
  }

  /** Any max + 1 consecutive accepted requests of a key span at least the duration. */
  ghost predicate Spaced(times: seq<int>, max: int, duration: int)
    requires max >= 1
  {
    forall i, j :: 0 <= i && j == i + max && j < |times| ==> times[j] - times[i] >= duration
  }

  lemma {:induction false} AcceptedAreSpaced(events: seq<Event>, max: int, duration: int, first: int, key: string)
    requires max >= 1 && duration >= 0 && Monotone(events) && (events != [] ==> first <= events[0].now)
    ensures Spaced(History(Policy(events, max, duration).0, key), max, duration)
  {
    if events != [] {
      var n := |events| - 1;
      AcceptedAreSpaced(events[..n], max, duration, first, key);
      RunFollowsPolicy(events[..n], max, duration, first);
      var h := Policy(events[..n], max, duration).0;
      var times := History(h, key);
      assert Recent(History(Run(events[..n], max, duration).0, key), times, max, duration, Last(events[..n], first));
      assert forall i, j :: 0 <= i < j < |times| ==> times[i] <= times[j];
      hide Recent, Linked, Run;
      if events[n].Request? && events[n].key == key && InWindow(times, duration, events[n].now) < max {
        AppendSpaced(times, max, duration, events[n].now);
      }
    }
  }

  lemma AppendSpaced(times: seq<int>, max: int, duration: int, now: int)
    requires max >= 1 && Spaced(times, max, duration) && InWindow(times, duration, now) < max
    requires forall i, j :: 0 <= i < j < |times| ==> times[i] <= times[j]
    ensures Spaced(times + [now], max, duration)
  {
    var from := |times| - max;
    if from >= 0 && now - times[from] < duration { AtLeastInWindow(times, from, duration, now); }
  }

  lemma {:induction false} AtLeastInWindow(times: seq<int>, from: nat, duration: int, now: int)
    requires from < |times| && now - times[from] < duration
    requires forall i, j :: 0 <= i < j < |times| ==> times[i] <= times[j]
    ensures InWindow(times, duration, now) >= |times| - from
  {
    var n := |times| - 1;
    if from < n { AtLeastInWindow(times[..n], from, duration, now); }
  }

  // ----- the answers, without a queue or a window -----

  /** When the program accepted requests of the key. */
  function AcceptedTimes(events: seq<Event>, max: int, duration: int, key: string): seq<int>
    requires max >= 1
  {
    if events == [] then []
    else
      var n := |events| - 1;
      var answers := Run(events, max, duration).1;
      var earlier := AcceptedTimes(events[..n], max, duration, key);
      if events[n].Request? && events[n].key == key && answers != [] && answers[|answers| - 1] then earlier + [events[n].now] else earlier
  }

  lemma {:induction false} HistoryIsAccepted(events: seq<Event>, max: int, duration: int, key: string)
    requires max >= 1 && duration >= 0 && Monotone(events)
    ensures History(Policy(events, max, duration).0, key) == AcceptedTimes(events, max, duration, key)
  {
    if events != [] {
      HistoryIsAccepted(events[..|events| - 1], max, duration, key);
      AnswersAreThePolicys(events, max, duration);
      hide Run, InWindow;
    }
  }

  lemma FullWindow(times: seq<int>, max: int, duration: int, now: int)
    requires max >= 1 && forall i, j :: 0 <= i < j < |times| ==> times[i] <= times[j]
    ensures InWindow(times, duration, now) < max <==> (|times| < max || now - times[|times| - max] >= duration)
  {
    if |times| < max {
      WindowCount(times, 0, duration, now);
    } else if now - times[|times| - max] >= duration {
      WindowCount(times, |times| - max + 1, duration, now);
    } else {
      AtLeastInWindow(times, |times| - max, duration, now);
    }
  }

  /** A request is refused exactly when `max` requests of its key have been accepted and the max-th last of them less
      than the duration ago, whatever was cleared in between. */
  lemma RefusedIffFull(events: seq<Event>, max: int, duration: int, key: string, now: int)
    requires max >= 1 && duration >= 0 && Monotone(events + [Request(key, now)])
    ensures var answers := Run(events + [Request(key, now)], max, duration).1;
      var times := AcceptedTimes(events, max, duration, key);
      && |answers| == |Run(events, max, duration).1| + 1
      && (!answers[|answers| - 1] <==> (|times| >= max && now - times[|times| - max] < duration))
  {
    var all := events + [Request(key, now)];
    assert all[..|events|] == events;
    assert Monotone(events) by { forall i, j | 0 <= i < j < |events| ensures events[i].now <= events[j].now { assert all[i] == events[i] && all[j] == events[j]; } }
    AnswersAreThePolicys(all, max, duration);
    AnswersAreThePolicys(events, max, duration);
    HistoryIsAccepted(events, max, duration, key);
    AcceptedInOrder(events, max, duration, key);
    FullWindow(AcceptedTimes(events, max, duration, key), max, duration, now);
    hide InWindow, AcceptedTimes;
  }

  lemma AcceptedInOrder(events: seq<Event>, max: int, duration: int, key: string)
    requires max >= 1 && duration >= 0 && Monotone(events)
    ensures var times := History(Policy(events, max, duration).0, key); forall i, j :: 0 <= i < j < |times| ==> times[i] <= times[j]
  {
    var first := if events == [] then 0 else events[0].now;
    RunFollowsPolicy(events, max, duration, first);
    hide Run, Policy;
    assert Recent(History(Run(events, max, duration).0, key), History(Policy(events, max, duration).0, key), max, duration, Last(events, first));
  }
}
