/** Matching an address's account history against the logs of a solidified receipt. */
module Receipts {
  import opened Order
  import opened Wrappers

  /** What decodeUSDTTransferLog reads from a USDT transfer log. */
  datatype Event = Event(from: string, to: string, amount: string)

  /** A log, as what it decodes to if it is a USDT transfer at all. */
  type Log = Option<Event>

  /** A row of account history; it has no event index. */
  datatype Record = Record(timestamp: int, event: Event)

  /** An emitted transfer; the log index is its event identity. */
  datatype Verified = Verified(logIndex: nat, event: Event, timestamp: int)

  /** The events in a list of slots. */
  function Somes(slots: seq<Option<Event>>): multiset<Event> {
    if slots == [] then multiset{}
    else Somes(slots[..|slots| - 1]) + if slots[|slots| - 1].Some? then multiset{slots[|slots| - 1].value} else multiset{}
  }

  /** The rows that the receipt's own timestamp lets match. */
  function Slots(candidates: seq<Record>, timestamp: int): seq<Option<Event>> {
    seq(|candidates|, k requires 0 <= k < |candidates| => if candidates[k].timestamp == timestamp then Some(candidates[k].event) else None)
  }

  function Matchable(candidates: seq<Record>, timestamp: int): multiset<Event> {
    Somes(Slots(candidates, timestamp))
  }

  function EventsOf(transfers: seq<Verified>): multiset<Event> {
    if transfers == [] then multiset{} else EventsOf(transfers[..|transfers| - 1]) + multiset{transfers[|transfers| - 1].event}
  }

  /** Greedy matching against a pool of events: each log takes one equal event while any is left. */
  function Emitted(logs: seq<Log>, pool: multiset<Event>, timestamp: int): seq<Verified> {
    if logs == [] then []
    else
      var n := |logs| - 1;
      var earlier := Emitted(logs[..n], pool, timestamp);
      if logs[n].Some? && logs[n].value in pool - EventsOf(earlier) then earlier + [Verified(n, logs[n].value, timestamp)]
      else earlier
  }

  lemma EventsOfSnoc(transfers: seq<Verified>, t: Verified)
    ensures EventsOf(transfers + [t]) == EventsOf(transfers) + multiset{t.event}
  {
    assert (transfers + [t])[..|transfers|] == transfers;
  }

  /** What is emitted is what logs and pool have in common. */
  lemma {:induction false} EmittedIsIntersection(logs: seq<Log>, pool: multiset<Event>, timestamp: int)
    ensures EventsOf(Emitted(logs, pool, timestamp)) == Somes(logs) * pool
  {
    if logs != [] {
      var n := |logs| - 1;
      var earlier, prior := Emitted(logs[..n], pool, timestamp), Somes(logs[..n]);
      EmittedIsIntersection(logs[..n], pool, timestamp);
      hide EventsOf;
      if logs[n].Some? {
        var e := logs[n].value;
        EventsOfSnoc(earlier, Verified(n, e, timestamp));
        NextIntersection(prior, pool, e);
        assert Somes(logs) == prior + multiset{e};
        hide Somes;
      }
    }
  }

  lemma NextIntersection(a: multiset<Event>, pool: multiset<Event>, e: Event)
    ensures (a + multiset{e}) * pool == a * pool + if e in pool - a * pool then multiset{e} else multiset{}
  {
  }

  /** For each event, as many transfers as it has logs or rows, whichever is fewer. */
  lemma EmittedPerEvent(logs: seq<Log>, pool: multiset<Event>, timestamp: int, e: Event)
    ensures EventsOf(Emitted(logs, pool, timestamp))[e] == if Somes(logs)[e] <= pool[e] then Somes(logs)[e] else pool[e]
  {
    EmittedIsIntersection(logs, pool, timestamp);
  }

  /** Where the event stands among slots. */
  function Positions(slots: seq<Option<Event>>, e: Event): set<int> {
    set k: int | 0 <= k < |slots| && slots[k] == Some(e)
  }

  lemma PositionsSnoc(slots: seq<Option<Event>>, n: nat, e: Event)
    requires n < |slots|
    ensures |Positions(slots[..n + 1], e)| == |Positions(slots[..n], e)| + if slots[n] == Some(e) then 1 else 0
  {
    assert Positions(slots[..n + 1], e) == Positions(slots[..n], e) + if slots[n] == Some(e) then {n} else {};
  }

  lemma {:induction false} SomesCount(slots: seq<Option<Event>>, n: nat, e: Event)
    requires n <= |slots|
    ensures Somes(slots[..n])[e] == |Positions(slots[..n], e)|
  {
    if n > 0 {
      SomesCount(slots, n - 1, e);
      PositionsSnoc(slots, n - 1, e);
      assert slots[..n][..n - 1] == slots[..n - 1];
      hide Positions;
    }
  }

  lemma {:induction false} EmittedAt(logs: seq<Log>, pool: multiset<Event>, timestamp: int, n: nat)
    requires n < |logs| && logs[n].Some?
    ensures Verified(n, logs[n].value, timestamp) in Emitted(logs, pool, timestamp) <==> Somes(logs[..n])[logs[n].value] < pool[logs[n].value]
  {
    hide Somes, EventsOf;
    var last, e := |logs| - 1, logs[n].value;
    var earlier := Emitted(logs[..last], pool, timestamp);
    if n < last {
      EmittedAt(logs[..last], pool, timestamp, n);
      assert logs[..last][..n] == logs[..n];
    } else {
      EmittedPerEvent(logs[..n], pool, timestamp, e);
      IdentitiesAscend(logs[..n], pool, timestamp);
      assert Verified(n, e, timestamp) !in earlier;
      assert e in pool - EventsOf(earlier) <==> Somes(logs[..n])[e] < pool[e];
    }
  }

  /** The history rows of an event with the receipt's own time. */
  function RowsOf(candidates: seq<Record>, timestamp: int, e: Event): set<int> {
    set k: int | 0 <= k < |candidates| && candidates[k].timestamp == timestamp && candidates[k].event == e
  }

  lemma RowPositions(candidates: seq<Record>, timestamp: int, e: Event)
    ensures Matchable(candidates, timestamp)[e] == |RowsOf(candidates, timestamp, e)|
  {
    var slots := Slots(candidates, timestamp);
    SomesCount(slots, |slots|, e);
    assert slots[..|slots|] == slots;
    hide Somes;
    assert Positions(slots, e) == RowsOf(candidates, timestamp, e);
  }

  /** A log becomes a transfer exactly when the rows of its own event and the receipt's time outnumber the earlier logs
      of that event: of the logs of one event the first ones are taken. */
  lemma LogIsTakenIff(logs: seq<Log>, candidates: seq<Record>, timestamp: int, n: nat)
    requires n < |logs| && logs[n].Some?
    ensures var e := logs[n].value;
      Verified(n, e, timestamp) in Emitted(logs, Matchable(candidates, timestamp), timestamp) <==>
      |Positions(logs[..n], e)| < |RowsOf(candidates, timestamp, e)|
  {
    hide *;
    EmittedAt(logs, Matchable(candidates, timestamp), timestamp, n);
    SomesCount(logs, n, logs[n].value);
    RowPositions(candidates, timestamp, logs[n].value);
  }

  predicate Identified(transfers: seq<Verified>, logs: seq<Log>, timestamp: int) {
    && (forall i, j :: 0 <= i < j < |transfers| ==> transfers[i].logIndex < transfers[j].logIndex)
    && (forall t :: t in transfers ==> t.logIndex < |logs| && logs[t.logIndex] == Some(t.event) && t.timestamp == timestamp)
  }

  lemma IdentifyNext(transfers: seq<Verified>, logs: seq<Log>, last: Log, timestamp: int)
    requires Identified(transfers, logs, timestamp)
    ensures Identified(transfers, logs + [last], timestamp)
    ensures last.Some? ==> Identified(transfers + [Verified(|logs|, last.value, timestamp)], logs + [last], timestamp)
  {
    forall i | 0 <= i < |transfers| ensures transfers[i].logIndex < |logs| { assert transfers[i] in transfers; }
  }

  /** Event identities are distinct, ascending log indices, each of a log with the transfer's own event. */
  lemma {:induction false} IdentitiesAscend(logs: seq<Log>, pool: multiset<Event>, timestamp: int)
    ensures Identified(Emitted(logs, pool, timestamp), logs, timestamp)
  {
    if logs != [] {
      var n := |logs| - 1;
      IdentitiesAscend(logs[..n], pool, timestamp);
      IdentifyNext(Emitted(logs[..n], pool, timestamp), logs[..n], logs[n], timestamp);
      assert logs == logs[..n] + [logs[n]];
      hide Identified, EventsOf;
    }
  }

  // ----- no matching emits more -----

  /** Distinct slots that hold an event. */
  predicate Picks(slots: seq<Option<Event>>, picks: seq<nat>) {
    && (forall k :: 0 <= k < |picks| ==> picks[k] < |slots| && slots[picks[k]].Some?)
    && (forall k, l :: 0 <= k < l < |picks| ==> picks[k] != picks[l])
  }

  function Picked(slots: seq<Option<Event>>, picks: seq<nat>): seq<Event>
    requires Picks(slots, picks)
  {
    seq(|picks|, k requires 0 <= k < |picks| => slots[picks[k]].value)
  }

  /** A pairing of logs with history rows that agree on the event, no log and no row used twice. */
  predicate Matching(logs: seq<Log>, candidates: seq<Record>, timestamp: int, logPicks: seq<nat>, rowPicks: seq<nat>) {
    && Picks(logs, logPicks) && Picks(Slots(candidates, timestamp), rowPicks)
    && Picked(logs, logPicks) == Picked(Slots(candidates, timestamp), rowPicks)
  }

  lemma DropPick(slots: seq<Option<Event>>, picks: seq<nat>, k: nat)
    requires Picks(slots, picks) && k < |picks| && picks[k] == |slots| - 1
    ensures var rest := picks[..k] + picks[k + 1..]; var front := slots[..|slots| - 1];
      Picks(front, rest) && multiset(Picked(slots, picks)) == multiset(Picked(front, rest)) + multiset{slots[|slots| - 1].value}
  {
    var rest, front := picks[..k] + picks[k + 1..], slots[..|slots| - 1];
    forall i | 0 <= i < |rest| ensures rest[i] == picks[if i < k then i else i + 1] {}
    var all := Picked(slots, picks);
    WithoutAt(all, k);
    assert Picked(front, rest) == all[..k] + all[k + 1..];
  }

  /** Events picked from distinct slots are among the events of all slots. */
  lemma {:induction false} PickedWithin(slots: seq<Option<Event>>, picks: seq<nat>)
    requires Picks(slots, picks)
    ensures multiset(Picked(slots, picks)) <= Somes(slots)
  {
    if slots != [] {
      var front := slots[..|slots| - 1];
      if k :| 0 <= k < |picks| && picks[k] == |slots| - 1 {
        DropPick(slots, picks, k);
        PickedWithin(front, picks[..k] + picks[k + 1..]);
      } else {
        assert Picks(front, picks) && Picked(front, picks) == Picked(slots, picks);
        PickedWithin(front, picks);
      }
    }
  }

  lemma {:induction false} EventsOfCount(transfers: seq<Verified>)
    ensures |EventsOf(transfers)| == |transfers|
  {
    if transfers != [] { EventsOfCount(transfers[..|transfers| - 1]); }
  }

  /** The greedy loop is a maximum matching of logs with history rows. */
  lemma GreedyIsMaximum(logs: seq<Log>, candidates: seq<Record>, timestamp: int, logPicks: seq<nat>, rowPicks: seq<nat>)
    requires Matching(logs, candidates, timestamp, logPicks, rowPicks)
    ensures |logPicks| <= |Emitted(logs, Matchable(candidates, timestamp), timestamp)|
  {
    var pool := Matchable(candidates, timestamp);
    EmittedIsIntersection(logs, pool, timestamp);
    EventsOfCount(Emitted(logs, pool, timestamp));
    PickedWithin(logs, logPicks);
    PickedWithin(Slots(candidates, timestamp), rowPicks);
    var a, b := multiset(Picked(logs, logPicks)), Somes(logs) * pool;
    assert a <= b && b == a + (b - a);
    assert |a| == |logPicks|;
  }

  /** Two pages of one address that split identical rows name the same log: their transfers get one identity. */
  lemma PagesRepeatAnIdentity(e: Event, timestamp: int)
    ensures var logs := [Some(e), Some(e)]; var page := [Record(timestamp, e)];
      && Emitted(logs, Matchable(page, timestamp), timestamp) == [Verified(0, e, timestamp)]
      && |Emitted(logs, Matchable(page + page, timestamp), timestamp)| == 2
  {
    var one, two := [Some(e)], [Some(e), Some(e)];
    assert one[..0] == [] && two[..1] == one;
    var row := Record(timestamp, e);
    assert Slots([row], timestamp) == one && Slots([row] + [row], timestamp) == two;
    assert Somes(one) == multiset{e};
    assert Somes(two) == multiset{e, e};
    FirstEmitted(e, multiset{e}, timestamp);
    FirstEmitted(e, multiset{e, e}, timestamp);
    EventsOfSnoc([], Verified(0, e, timestamp));
  }

  lemma FirstEmitted(e: Event, pool: multiset<Event>, timestamp: int)
    requires e in pool
    ensures Emitted([Some(e)], pool, timestamp) == [Verified(0, e, timestamp)]
  {
    assert [Some(e)][..0] == [];
  }

  // ----- the loop -----

  /** The slots of candidates not used yet. */
  function Unused(slots: seq<Option<Event>>, used: seq<bool>): seq<Option<Event>>
    requires |used| == |slots|
  {
    seq(|slots|, k requires 0 <= k < |slots| => if used[k] then None else slots[k])
  }

  lemma {:induction false} UseOne(slots: seq<Option<Event>>, k: nat)
    requires k < |slots| && slots[k].Some?
    ensures Somes(slots) == Somes(slots[k := None]) + multiset{slots[k].value}
  {
    var n := |slots| - 1;
    if k < n {
      UseOne(slots[..n], k);
      assert slots[k := None][..n] == slots[..n][k := None];
    } else {
      assert slots[k := None][..n] == slots[..n];
    }
  }

  lemma {:induction false} NotAmongSlots(slots: seq<Option<Event>>, e: Event)
    requires Some(e) !in slots
    ensures e !in Somes(slots)
  {
    if slots != [] {
      assert slots[|slots| - 1] in slots;
      NotAmongSlots(slots[..|slots| - 1], e);
    }
  }

  /** The first unused candidate for an event, marked as used. */
  method TakeCandidate(used: array<bool>, candidates: seq<Record>, timestamp: int, e: Event) returns (found: bool)
    requires used.Length == |candidates|
    modifies used
    ensures var before := old(Somes(Unused(Slots(candidates, timestamp), used[..])));
      && (found <==> e in before)
      && before == Somes(Unused(Slots(candidates, timestamp), used[..])) + if found then multiset{e} else multiset{}
  {
    ghost var slots := Slots(candidates, timestamp);
    ghost var before := used[..];
    for k := 0 to |candidates|
      invariant used[..] == before
      invariant forall j :: 0 <= j < k ==> Unused(slots, before)[j] != Some(e)
    {
      if used[k] || candidates[k].timestamp != timestamp || candidates[k].event != e {
        continue;
      }
      UseOne(Unused(slots, before), k);
      used[k] := true;
      assert Unused(slots, used[..]) == Unused(slots, before)[k := None];
      return true;
    }
    NotAmongSlots(Unused(slots, before), e);
    found := false;
  }

  /** One log: whether it takes a candidate, and what that leaves. */
  lemma EmitNext(logs: seq<Log>, n: nat, pool: multiset<Event>, timestamp: int, left: multiset<Event>)
    requires n < |logs|
    requires left + EventsOf(Emitted(logs[..n], pool, timestamp)) == pool
    ensures var earlier := Emitted(logs[..n], pool, timestamp);
      Emitted(logs[..n + 1], pool, timestamp) ==
      if logs[n].Some? && logs[n].value in left then earlier + [Verified(n, logs[n].value, timestamp)] else earlier
  {
    assert logs[..n + 1][..n] == logs[..n];
    var earlier := Emitted(logs[..n], pool, timestamp);
    assert pool - EventsOf(earlier) == left;
  }

  /** verifiedReceiptTransfers. */
  method VerifiedReceiptTransfers(logs: seq<Log>, candidates: seq<Record>, timestamp: int) returns (transfers: seq<Verified>)
    ensures transfers == Emitted(logs, Matchable(candidates, timestamp), timestamp)
  {
    ghost var slots := Slots(candidates, timestamp);
    ghost var pool := Somes(slots);
    var used := new bool[|candidates|](_ => false);
    assert Unused(slots, used[..]) == slots;
    transfers := [];
    hide Somes, Slots, Emitted, EventsOf, Unused;
    EmittedNone(logs, pool, timestamp);
    for n := 0 to |logs|
      invariant fresh(used) && transfers == Emitted(logs[..n], pool, timestamp)
      invariant Somes(Unused(slots, used[..])) + EventsOf(transfers) == pool
    {
      EmitNext(logs, n, pool, timestamp, Somes(Unused(slots, used[..])));
      if logs[n].None? {
        continue;
      }
      var e := logs[n].value;
      var found := TakeCandidate(used, candidates, timestamp, e);
      if found {
        EventsOfSnoc(transfers, Verified(n, e, timestamp));
        MoveOne(Somes(Unused(slots, used[..])), EventsOf(transfers), e);
        transfers := transfers + [Verified(n, e, timestamp)];
      }
    }
    assert logs[..|logs|] == logs;
  }

  lemma MoveOne(left: multiset<Event>, taken: multiset<Event>, e: Event)
    ensures (left + multiset{e}) + taken == left + (taken + multiset{e})
  {
  }

  lemma EmittedNone(logs: seq<Log>, pool: multiset<Event>, timestamp: int)
    ensures Emitted(logs[..0], pool, timestamp) == [] && EventsOf([]) == multiset{}
  {
  }

  lemma {:induction false} MatchableByMembers(candidates: seq<Record>, timestamp: int)
    ensures forall e :: Matchable(candidates, timestamp)[e] == multiset(candidates)[Record(timestamp, e)]
  {
    if candidates != [] {
      var n := |candidates| - 1;
      MatchableByMembers(candidates[..n], timestamp);
      assert Slots(candidates, timestamp)[..n] == Slots(candidates[..n], timestamp);
      assert candidates == candidates[..n] + [candidates[n]];
    }
  }

  /** The output depends on the history rows as a collection, not on their order. */
  lemma CandidateOrderIrrelevant(logs: seq<Log>, a: seq<Record>, b: seq<Record>, timestamp: int)
    requires multiset(a) == multiset(b)
    ensures Emitted(logs, Matchable(a, timestamp), timestamp) == Emitted(logs, Matchable(b, timestamp), timestamp)
  {
    MatchableByMembers(a, timestamp);
    MatchableByMembers(b, timestamp);
    assert Matchable(a, timestamp) == Matchable(b, timestamp);
  }

  lemma LastLogEmits(logs: seq<Log>, pool: multiset<Event>, timestamp: int, e: Event)
    requires logs != [] && logs[|logs| - 1] == Some(e) && e in pool && e !in Somes(logs[..|logs| - 1])
    ensures Verified(|logs| - 1, e, timestamp) in Emitted(logs, pool, timestamp)
  {
    var n := |logs| - 1;
    var earlier := Emitted(logs[..n], pool, timestamp);
    EmittedIsIntersection(logs[..n], pool, timestamp);
    assert e in pool - EventsOf(earlier);
    hide Somes, EventsOf;
    assert Emitted(logs, pool, timestamp) == earlier + [Verified(n, e, timestamp)];
  }

  lemma EarlierEmitted(logs: seq<Log>, pool: multiset<Event>, timestamp: int)
    requires logs != []
    ensures forall t :: t in Emitted(logs[..|logs| - 1], pool, timestamp) ==> t in Emitted(logs, pool, timestamp)
  {
  }

  lemma LastSlot(slots: seq<Option<Event>>, e: Event)
    requires e in Somes(slots)
    ensures slots != [] && (e in Somes(slots[..|slots| - 1]) || slots[|slots| - 1] == Some(e))
  {
  }

  lemma NotAmongSomes(slots: seq<Option<Event>>, e: Event)
    requires e !in Somes(slots)
    ensures forall i :: 0 <= i < |slots| ==> slots[i] != Some(e)
  {
    hide Somes;
    forall i | 0 <= i < |slots| && slots[i].Some? ensures slots[i].value in Somes(slots) { SlotCounts(slots, i); }
  }

  /** The first log of an event takes a row whenever there is one. */
  lemma {:induction false} FirstLogEmits(logs: seq<Log>, pool: multiset<Event>, timestamp: int, e: Event) returns (k: nat)
    requires e in Somes(logs) && e in pool
    ensures k < |logs| && logs[k] == Some(e) && (forall i :: 0 <= i < k ==> logs[i] != Some(e))
    ensures Verified(k, e, timestamp) in Emitted(logs, pool, timestamp)
  {
    hide Somes, Emitted;
    LastSlot(logs, e);
    var n := |logs| - 1;
    var front := logs[..n];
    if e in Somes(front) {
      k := FirstLogEmits(front, pool, timestamp, e);
      EarlierEmitted(logs, pool, timestamp);
    } else {
      k := n;
      LastLogEmits(logs, pool, timestamp, e);
      NotAmongSomes(front, e);
    }
    assert forall i :: 0 <= i < n ==> front[i] == logs[i];
  }

  lemma {:induction false} SlotCounts(slots: seq<Option<Event>>, i: nat)
    requires i < |slots| && slots[i].Some?
    ensures slots[i].value in Somes(slots)
  {
    if i < |slots| - 1 { SlotCounts(slots[..|slots| - 1], i); }
  }

  /** Two transfers of one receipt, from two pages of history, with one event identity. */
  ghost predicate ShareIdentity(logs: seq<Log>, a: seq<Record>, b: seq<Record>, timestamp: int) {
    exists s, t :: s in Emitted(logs, Matchable(a, timestamp), timestamp) && t in Emitted(logs, Matchable(b, timestamp), timestamp)
      && s.logIndex == t.logIndex
  }

  /** Exactly when two pages repeat an identity: some event of the receipt's logs has a row on both. */
  lemma PagesShareIdentityIff(logs: seq<Log>, a: seq<Record>, b: seq<Record>, timestamp: int)
    ensures ShareIdentity(logs, a, b, timestamp) <==>
            exists e :: e in Somes(logs) && Record(timestamp, e) in a && Record(timestamp, e) in b
  {
    MatchableByMembers(a, timestamp);
    MatchableByMembers(b, timestamp);
    if ShareIdentity(logs, a, b, timestamp) {
      var s, t :| s in Emitted(logs, Matchable(a, timestamp), timestamp) && t in Emitted(logs, Matchable(b, timestamp), timestamp)
        && s.logIndex == t.logIndex;
      IdentitiesAscend(logs, Matchable(a, timestamp), timestamp);
      IdentitiesAscend(logs, Matchable(b, timestamp), timestamp);
      assert s.event == t.event;
      SlotCounts(logs, s.logIndex);
      FromPool(logs, Matchable(a, timestamp), timestamp, s);
      FromPool(logs, Matchable(b, timestamp), timestamp, t);
    }
    if e :| e in Somes(logs) && Record(timestamp, e) in a && Record(timestamp, e) in b {
      var i := FirstLogEmits(logs, Matchable(a, timestamp), timestamp, e);
      var j := FirstLogEmits(logs, Matchable(b, timestamp), timestamp, e);
      assert i == j;
    }
  }

  lemma FromPool(logs: seq<Log>, pool: multiset<Event>, timestamp: int, t: Verified)
    requires t in Emitted(logs, pool, timestamp)
    ensures t.event in pool
  {
    EmittedIsIntersection(logs, pool, timestamp);
    EventHeld(Emitted(logs, pool, timestamp), t);
  }

  lemma {:induction false} EventHeld(transfers: seq<Verified>, t: Verified)
    requires t in transfers
    ensures t.event in EventsOf(transfers)
  {
    if t in transfers[..|transfers| - 1] { EventHeld(transfers[..|transfers| - 1], t); }
  }
}
