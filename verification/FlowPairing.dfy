/** FIFO pairing of inflows with later outflows, and why no causal assignment pairs more. */
module FlowPairing {
  import opened Order

  /** One side of a transfer: how much, and when (in seconds). */
  datatype Movement = Movement(amount: nat, at: int)

  datatype Pair = Pair(amount: nat, gap: int)

  /** Units of inflow i spent on outflow j. */
  datatype Move = Move(i: nat, j: nat, amount: nat)

  predicate Chronological(s: seq<Movement>) {
    forall i, j :: 0 <= i < j < |s| ==> s[i].at <= s[j].at
  }

  function Total(s: seq<Movement>): nat {
    if s == [] then 0 else Total(s[..|s| - 1]) + s[|s| - 1].amount
  }

  /** Inflow that has arrived by time t. */
  function ArrivedBy(s: seq<Movement>, t: int): nat {
    if s == [] then 0 else ArrivedBy(s[..|s| - 1], t) + if s[|s| - 1].at <= t then s[|s| - 1].amount else 0
  }

  function Select(moves: seq<Move>, p: Move -> bool): nat {
    if moves == [] then 0 else Select(moves[..|moves| - 1], p) + if p(moves[|moves| - 1]) then moves[|moves| - 1].amount else 0
  }

  function Any(): Move -> bool { (m: Move) => true }
  function FromInflow(i: int): Move -> bool { (m: Move) => m.i == i }
  function ToOutflow(j: int): Move -> bool { (m: Move) => m.j == j }
  function FromFirst(ins: seq<Movement>, n: int, t: int): Move -> bool { (m: Move) => m.i < n && m.i < |ins| && ins[m.i].at <= t }
  function ToOthers(j: int, n: int): Move -> bool { (m: Move) => j <= m.j < n }
  function ToFirst(j: int): Move -> bool { (m: Move) => m.j < j }

  function Paired(moves: seq<Move>): nat {
    Select(moves, Any())
  }

  /** Units go only to outflows that are not earlier, and nothing is over-used on either side. */
  ghost predicate Assignment(ins: seq<Movement>, outs: seq<Movement>, moves: seq<Move>) {
    && (forall m :: m in moves ==> m.i < |ins| && m.j < |outs| && ins[m.i].at <= outs[m.j].at)
    && (forall i {:trigger FromInflow(i)} :: 0 <= i < |ins| ==> Select(moves, FromInflow(i)) <= ins[i].amount)
    && (forall j {:trigger ToOutflow(j)} :: 0 <= j < |outs| ==> Select(moves, ToOutflow(j)) <= outs[j].amount)
  }

  /** Inflow that has arrived by the j-th outflow, plus all outflow after it: what no assignment can exceed. */
  function Cut(ins: seq<Movement>, outs: seq<Movement>, j: nat): nat
    requires j <= |outs|
  {
    (if j == 0 then 0 else ArrivedBy(ins, outs[j - 1].at)) + Total(outs[j..])
  }

  lemma {:induction false} SelectSplit(moves: seq<Move>, p: Move -> bool, q: Move -> bool, r: Move -> bool)
    requires forall m :: m in moves ==> (p(m) <==> q(m) || r(m)) && !(q(m) && r(m))
    ensures Select(moves, p) == Select(moves, q) + Select(moves, r)
  {
    if moves != [] {
      SelectSplit(moves[..|moves| - 1], p, q, r);
      assert moves[|moves| - 1] in moves;
    }
  }

  lemma {:induction false} SelectMonotone(moves: seq<Move>, p: Move -> bool, q: Move -> bool)
    requires forall m :: m in moves && p(m) ==> q(m)
    ensures Select(moves, p) <= Select(moves, q)
  {
    if moves != [] {
      SelectMonotone(moves[..|moves| - 1], p, q);
      assert moves[|moves| - 1] in moves;
    }
  }

  lemma {:induction false} SelectNone(moves: seq<Move>, p: Move -> bool)
    requires forall m :: m in moves ==> !p(m)
    ensures Select(moves, p) == 0
  {
    if moves != [] {
      SelectNone(moves[..|moves| - 1], p);
      assert moves[|moves| - 1] in moves;
    }
  }

  /** Units taken from inflows that have arrived by t are at most that inflow. */
  lemma {:induction false} SpentOfArrived(ins: seq<Movement>, outs: seq<Movement>, moves: seq<Move>, n: nat, t: int)
    requires Assignment(ins, outs, moves) && n <= |ins|
    ensures Select(moves, FromFirst(ins, n, t)) <= ArrivedBy(ins[..n], t)
  {
    if n == 0 {
      SelectNone(moves, FromFirst(ins, 0, t));
    } else {
      SpentOfArrived(ins, outs, moves, n - 1, t);
      assert ins[..n][..n - 1] == ins[..n - 1];
      if ins[n - 1].at <= t {
        SelectSplit(moves, FromFirst(ins, n, t), FromFirst(ins, n - 1, t), FromInflow(n - 1));
      } else {
        SelectMonotone(moves, FromFirst(ins, n, t), FromFirst(ins, n - 1, t));
      }
    }
  }

  /** Units given to a range of outflows are at most those outflows. */
  lemma {:induction false} GivenToRange(ins: seq<Movement>, outs: seq<Movement>, moves: seq<Move>, j: nat, n: nat)
    requires Assignment(ins, outs, moves) && j <= n <= |outs|
    ensures Select(moves, ToOthers(j, n)) <= Total(outs[j..n])
  {
    if j == n {
      SelectNone(moves, ToOthers(j, n));
    } else {
      GivenToRange(ins, outs, moves, j, n - 1);
      assert outs[j..n][..n - 1 - j] == outs[j..n - 1];
      SelectSplit(moves, ToOthers(j, n), ToOthers(j, n - 1), ToOutflow(n - 1));
    }
  }

  /** No causal assignment pairs more than any cut allows. */
  lemma AssignmentWithinCut(ins: seq<Movement>, outs: seq<Movement>, moves: seq<Move>, j: nat)
    requires Assignment(ins, outs, moves) && Chronological(outs) && j <= |outs|
    ensures Paired(moves) <= Cut(ins, outs, j)
  {
    SelectSplit(moves, Any(), ToFirst(j), ToOthers(j, |outs|));
    GivenToRange(ins, outs, moves, j, |outs|);
    assert outs[j..|outs|] == outs[j..];
    if j == 0 {
      SelectNone(moves, ToFirst(0));
    } else {
      var t := outs[j - 1].at;
      SelectMonotone(moves, ToFirst(j), FromFirst(ins, |ins|, t));
      SpentOfArrived(ins, outs, moves, |ins|, t);
      assert ins[..|ins|] == ins;
    }
  }

  lemma {:induction false} ArrivedIsPrefix(ins: seq<Movement>, h: nat, t: int)
    requires h <= |ins| && (forall i :: 0 <= i < h ==> ins[i].at <= t) && (forall i :: h <= i < |ins| ==> ins[i].at > t)
    ensures ArrivedBy(ins, t) == Total(ins[..h])
  {
    if ins != [] {
      var n := |ins| - 1;
      if h <= n {
        ArrivedIsPrefix(ins[..n], h, t);
        assert ins[..n][..h] == ins[..h];
      } else {
        ArrivedIsPrefix(ins[..n], n, t);
        assert ins[..h] == ins && ins[..n][..n] == ins[..n];
      }
    }
  }

  // ----- the algorithm -----

  /** The record of a pair. */
  function PairOf(ins: seq<Movement>, outs: seq<Movement>, m: Move): Pair
    requires m.i < |ins| && m.j < |outs|
  {
    Pair(m.amount, outs[m.j].at - ins[m.i].at)
  }

  ghost predicate Recorded(ins: seq<Movement>, outs: seq<Movement>, moves: seq<Move>, pairs: seq<Pair>) {
    |pairs| == |moves| && forall k :: 0 <= k < |moves| ==> moves[k].i < |ins| && moves[k].j < |outs| && pairs[k] == PairOf(ins, outs, moves[k])
  }

  /** The deque after `h` inflows are gone and `spent` units of the next: what is left, in order. */
  predicate Queue(queue: seq<Movement>, ins: seq<Movement>, h: nat, spent: nat) {
    && h <= |ins| && |queue| == |ins| - h
    && (queue == [] ==> spent == 0)
    && (queue != [] ==> spent <= ins[h].amount && queue[0] == Movement(ins[h].amount - spent, ins[h].at))
    && (forall k :: 1 <= k < |queue| ==> queue[k] == ins[h + k])
  }

  /** Inflows before h are used up, `spent` units of inflow h are used, none of the rest. */
  ghost predicate Spent(ins: seq<Movement>, moves: seq<Move>, h: nat, spent: nat) {
    && (forall i {:trigger FromInflow(i)} :: 0 <= i < |ins| ==>
          Select(moves, FromInflow(i)) == if i < h then ins[i].amount else if i == h then spent else 0)
    && h <= |ins| && Paired(moves) == Total(ins[..h]) + spent
  }

  /** Outflow j has received `given`, earlier ones at most their amount, later ones nothing. */
  ghost predicate Given(outs: seq<Movement>, moves: seq<Move>, j: nat, given: nat) {
    forall k {:trigger ToOutflow(k)} :: 0 <= k < |outs| ==>
      (k < j ==> Select(moves, ToOutflow(k)) <= outs[k].amount) && (k == j ==> Select(moves, ToOutflow(k)) == given)
      && (k > j ==> Select(moves, ToOutflow(k)) == 0)
  }

  ghost predicate Causal(ins: seq<Movement>, outs: seq<Movement>, moves: seq<Move>) {
    forall m :: m in moves ==> m.i < |ins| && m.j < |outs| && ins[m.i].at <= outs[m.j].at
  }

  lemma AppendMove(ins: seq<Movement>, outs: seq<Movement>, moves: seq<Move>, m: Move)
    ensures Select(moves + [m], Any()) == Select(moves, Any()) + m.amount
    ensures forall i {:trigger FromInflow(i)} :: Select(moves + [m], FromInflow(i)) == Select(moves, FromInflow(i)) + if m.i == i then m.amount else 0
    ensures forall j {:trigger ToOutflow(j)} :: Select(moves + [m], ToOutflow(j)) == Select(moves, ToOutflow(j)) + if m.j == j then m.amount else 0
  {
    assert (moves + [m])[..|moves|] == moves;
  }

  /** Inflows touched so far have arrived by t. */
  predicate TouchedBy(ins: seq<Movement>, h: nat, spent: nat, t: int) {
    forall i :: 0 <= i < |ins| && (i < h || (i == h && spent > 0)) ==> ins[i].at <= t
  }

  // ----- first in, first out -----

  /** The inflow at the head of the queue after the moves: the last one touched, or the next when that is used up. */
  function Head(ins: seq<Movement>, moves: seq<Move>): nat {
    if moves == [] then 0
    else
      var i := moves[|moves| - 1].i;
      if i < |ins| && Select(moves, FromInflow(i)) == ins[i].amount then i + 1 else i
  }

  predicate Satisfied(outs: seq<Movement>, moves: seq<Move>, j: nat)
    requires j < |outs|
  {
    Select(moves, ToOutflow(j)) == outs[j].amount
  }

  /** Outflows before j are satisfied, or the head of the queue had not arrived for them. */
  ghost predicate Passed(ins: seq<Movement>, outs: seq<Movement>, moves: seq<Move>, j: nat) {
    var h := Head(ins, moves);
    forall k {:trigger Satisfied(outs, moves, k)} :: 0 <= k < j && k < |outs| ==> Satisfied(outs, moves, k) || h >= |ins| || ins[h].at > outs[k].at
  }

  /** One move of the rule: the head of the queue goes to the first outflow that wants it, as much as either allows. */
  ghost predicate FifoMove(ins: seq<Movement>, outs: seq<Movement>, done: seq<Move>, m: Move) {
    && m.i == Head(ins, done) && m.i < |ins| && m.j < |outs| && ins[m.i].at <= outs[m.j].at
    && Passed(ins, outs, done, m.j)
    && var need := outs[m.j].amount - Select(done, ToOutflow(m.j)); var left := ins[m.i].amount - Select(done, FromInflow(m.i));
       need > 0 && m.amount == if need < left then need else left
  }

  /** Every move follows the rule. */
  ghost predicate FifoMoves(ins: seq<Movement>, outs: seq<Movement>, moves: seq<Move>) {
    forall k {:trigger moves[k]} :: 0 <= k < |moves| ==> FifoMove(ins, outs, moves[..k], moves[k])
  }

  /** ... and they go on until no outflow wants the head of the queue. */
  ghost predicate Fifo(ins: seq<Movement>, outs: seq<Movement>, moves: seq<Move>) {
    FifoMoves(ins, outs, moves) && Passed(ins, outs, moves, |outs|)
  }

  /** A move goes to the first outflow that wants it. */
  lemma FirstWanting(ins: seq<Movement>, outs: seq<Movement>, done: seq<Move>, m: Move, j: nat)
    requires FifoMove(ins, outs, done, m) && j < |outs| && !Satisfied(outs, done, j) && ins[m.i].at <= outs[j].at
    ensures m.j <= j
  {
    hide Select, Head;
  }

  lemma SameFifoMove(ins: seq<Movement>, outs: seq<Movement>, done: seq<Move>, a: Move, b: Move)
    requires FifoMove(ins, outs, done, a) && FifoMove(ins, outs, done, b)
    ensures a == b
  {
    hide Select, Head, Passed;
    FirstWanting(ins, outs, done, a, b.j);
    FirstWanting(ins, outs, done, b, a.j);
  }

  /** A rule that still allows a move has not ended. */
  lemma NoMoveAfterEnd(ins: seq<Movement>, outs: seq<Movement>, done: seq<Move>, m: Move)
    requires FifoMove(ins, outs, done, m)
    ensures !Passed(ins, outs, done, |outs|)
  {
    assert !Satisfied(outs, done, m.j);
  }

  lemma {:induction false} FifoPrefix(ins: seq<Movement>, outs: seq<Movement>, a: seq<Move>, b: seq<Move>, n: nat)
    requires FifoMoves(ins, outs, a) && FifoMoves(ins, outs, b) && n <= |a| && n <= |b|
    ensures a[..n] == b[..n]
  {
    hide FifoMove;
    if n > 0 {
      FifoPrefix(ins, outs, a, b, n - 1);
      SameFifoMove(ins, outs, a[..n - 1], a[n - 1], b[n - 1]);
      assert a[..n] == a[..n - 1] + [a[n - 1]] && b[..n] == b[..n - 1] + [b[n - 1]];
    }
  }

  /** First in, first out leaves no choice: the pairing is determined by the flows. */
  lemma FifoUnique(ins: seq<Movement>, outs: seq<Movement>, a: seq<Move>, b: seq<Move>)
    requires Fifo(ins, outs, a) && Fifo(ins, outs, b)
    ensures a == b
  {
    hide FifoMove, Passed;
    var n := if |a| < |b| then |a| else |b|;
    FifoPrefix(ins, outs, a, b, n);
    assert a[..|a|] == a && b[..|b|] == b;
    if n < |a| { NoMoveAfterEnd(ins, outs, a[..n], a[n]); }
    if n < |b| { NoMoveAfterEnd(ins, outs, b[..n], b[n]); }
  }

  /** The loop state while outflow j still needs `need`. */
  ghost predicate Serving(ins: seq<Movement>, outs: seq<Movement>, j: nat, need: nat, queue: seq<Movement>, pairs: seq<Pair>,
                          moves: seq<Move>, h: nat, spent: nat) {
    && j < |outs| && need <= outs[j].amount
    && Queue(queue, ins, h, spent) && Spent(ins, moves, h, spent) && Given(outs, moves, j, outs[j].amount - need)
    && Causal(ins, outs, moves) && Recorded(ins, outs, moves, pairs) && TouchedBy(ins, h, spent, outs[j].at)
    && Ruled(ins, outs, moves, j, h)
  }

  ghost predicate Ruled(ins: seq<Movement>, outs: seq<Movement>, moves: seq<Move>, j: nat, h: nat) {
    Chronological(ins) && FifoMoves(ins, outs, moves) && Head(ins, moves) == h && Passed(ins, outs, moves, j)
  }

  lemma RuleMore(ins: seq<Movement>, outs: seq<Movement>, moves: seq<Move>, j: nat, h: nat, spent: nat, need: nat, used: nat)
    requires j < |outs| && h < |ins| && spent <= ins[h].amount && 0 < need <= outs[j].amount && ins[h].at <= outs[j].at
    requires Ruled(ins, outs, moves, j, h) && Spent(ins, moves, h, spent) && Given(outs, moves, j, outs[j].amount - need)
    requires used == if need < ins[h].amount - spent then need else ins[h].amount - spent
    ensures Ruled(ins, outs, moves + [Move(h, j, used)], j, if spent + used == ins[h].amount then h + 1 else h)
  {
    var m := Move(h, j, used);
    AppendMove(ins, outs, moves, m);
    assert Select(moves, FromInflow(h)) == spent && Select(moves, ToOutflow(j)) == outs[j].amount - need;
    hide Spent, Given, Select, Passed;
    assert FifoMove(ins, outs, moves, m);
    RuleOne(ins, outs, moves, m);
    StillPassed(ins, outs, moves, m, j);
    hide FifoMoves, FifoMove;
  }

  lemma RuleOne(ins: seq<Movement>, outs: seq<Movement>, moves: seq<Move>, m: Move)
    requires FifoMoves(ins, outs, moves) && FifoMove(ins, outs, moves, m)
    ensures FifoMoves(ins, outs, moves + [m])
  {
    hide FifoMove;
    var after := moves + [m];
    forall k | 0 <= k < |after| ensures FifoMove(ins, outs, after[..k], after[k]) {
      assert after[..k] == if k < |moves| then moves[..k] else moves;
    }
  }

  lemma StillPassed(ins: seq<Movement>, outs: seq<Movement>, moves: seq<Move>, m: Move, j: nat)
    requires Chronological(ins) && Passed(ins, outs, moves, j) && m.j == j && m.i < |ins| && Head(ins, moves) == m.i <= Head(ins, moves + [m])
    ensures Passed(ins, outs, moves + [m], j)
  {
    AppendMove(ins, outs, moves, m);
    hide Head, Select;
    var after := moves + [m];
    forall k | 0 <= k < j && k < |outs| ensures Satisfied(outs, after, k) || Head(ins, after) >= |ins| || ins[Head(ins, after)].at > outs[k].at {
      assert Satisfied(outs, moves, k) || ins[m.i].at > outs[k].at;
    }
  }

  lemma SpendMore(ins: seq<Movement>, outs: seq<Movement>, moves: seq<Move>, h: nat, spent: nat, j: nat, used: nat)
    requires Spent(ins, moves, h, spent) && h < |ins| && spent + used <= ins[h].amount
    ensures spent + used == ins[h].amount ==> Spent(ins, moves + [Move(h, j, used)], h + 1, 0)
    ensures Spent(ins, moves + [Move(h, j, used)], h, spent + used)
  {
    AppendMove(ins, outs, moves, Move(h, j, used));
    assert ins[..h + 1][..h] == ins[..h];
  }

  lemma GiveMore(ins: seq<Movement>, outs: seq<Movement>, moves: seq<Move>, h: nat, j: nat, given: nat, used: nat)
    requires Given(outs, moves, j, given)
    ensures Given(outs, moves + [Move(h, j, used)], j, given + used)
  {
    AppendMove(ins, outs, moves, Move(h, j, used));
  }

  lemma RecordMore(ins: seq<Movement>, outs: seq<Movement>, moves: seq<Move>, pairs: seq<Pair>, m: Move, p: Pair)
    requires Causal(ins, outs, moves) && Recorded(ins, outs, moves, pairs)
    requires m.i < |ins| && m.j < |outs| && ins[m.i].at <= outs[m.j].at && p == PairOf(ins, outs, m)
    ensures Causal(ins, outs, moves + [m]) && Recorded(ins, outs, moves + [m], pairs + [p])
  {
    assert forall x :: x in moves + [m] <==> x in moves || x == m;
  }

  /** The rule's order, spelled out: no inflow is touched before the ones ahead of it are used up, none that is left over
      is older than one that was touched, and no outflow is served after a later one. */
  lemma NextInOrder(ins: seq<Movement>, outs: seq<Movement>, done: seq<Move>, a: Move, b: Move)
    requires Chronological(ins) && FifoMove(ins, outs, done, a) && FifoMove(ins, outs, done + [a], b)
    ensures a.i <= b.i <= a.i + 1 && a.j <= b.j
    ensures a.i < b.i ==> Select(done + [a], FromInflow(a.i)) == ins[a.i].amount
  {
    AppendMove(ins, outs, done, a);
    assert !Satisfied(outs, done, b.j);
    hide Select, Passed;
    FirstWanting(ins, outs, done, a, b.j);
  }

  lemma {:induction false} FifoInOrder(ins: seq<Movement>, outs: seq<Movement>, moves: seq<Move>, k: nat, l: nat)
    requires Chronological(ins) && FifoMoves(ins, outs, moves) && k <= l < |moves|
    ensures moves[k].i <= moves[l].i && moves[k].j <= moves[l].j
    decreases l
  {
    hide FifoMove;
    if k < l {
      FifoInOrder(ins, outs, moves, k, l - 1);
      assert moves[..l] == moves[..l - 1] + [moves[l - 1]];
      NextInOrder(ins, outs, moves[..l - 1], moves[l - 1], moves[l]);
    }
  }

  /** No inflow is passed over before it is used up. */
  ghost predicate NonePassedOver(ins: seq<Movement>, moves: seq<Move>) {
    forall m, i {:trigger m in moves, FromInflow(i)} :: m in moves && 0 <= i < m.i && i < |ins| ==> Select(moves, FromInflow(i)) == ins[i].amount
  }

  lemma QueueServesInOrder(ins: seq<Movement>, outs: seq<Movement>, moves: seq<Move>, h: nat, spent: nat, j: nat)
    requires Ruled(ins, outs, moves, j, h) && Spent(ins, moves, h, spent)
    ensures NonePassedOver(ins, moves)
  {
    hide Select, Passed, FifoMove;
    forall m | m in moves ensures m.i <= h {
      var k :| 0 <= k < |moves| && moves[k] == m;
      FifoInOrder(ins, outs, moves, k, |moves| - 1);
    }
  }

  /** One round of the inner loop. */
  method Take(ghost ins: seq<Movement>, ghost outs: seq<Movement>, ghost j: nat, at: int, need: nat, queue: seq<Movement>, pairs: seq<Pair>,
              ghost moves: seq<Move>, ghost h: nat, ghost spent: nat)
    returns (need': nat, queue': seq<Movement>, pairs': seq<Pair>, ghost moves': seq<Move>, ghost h': nat, ghost spent': nat)
    requires Serving(ins, outs, j, need, queue, pairs, moves, h, spent) && at == outs[j].at
    requires need > 0 && queue != [] && queue[0].at <= at
    ensures Serving(ins, outs, j, need', queue', pairs', moves', h', spent')
    ensures Paired(moves') == Paired(moves) + need - need' && |pairs'| == |pairs| + 1
    ensures (|queue'| == |queue| - 1 && h' == h + 1 && need' <= need) || (|queue'| == |queue| && h' == h && need' == 0)
  {
    hide *;
    var head := queue[0];
    var used := if need < head.amount then need else head.amount;
    TakeServes(ins, outs, j, need, queue, pairs, moves, h, spent, used);
    pairs' := pairs + [Pair(used, at - head.at)];
    moves' := moves + [Move(h, j, used)];
    need' := need - used;
    if used == head.amount {
      queue', h', spent' := queue[1..], h + 1, 0;
    } else {
      queue' := [Movement(head.amount - used, head.at)] + queue[1..];
      h', spent' := h, spent + used;
    }
  }

  lemma TakeServes(ins: seq<Movement>, outs: seq<Movement>, j: nat, need: nat, queue: seq<Movement>, pairs: seq<Pair>,
                   moves: seq<Move>, h: nat, spent: nat, used: nat)
    requires Serving(ins, outs, j, need, queue, pairs, moves, h, spent)
    requires need > 0 && queue != [] && queue[0].at <= outs[j].at && used == if need < queue[0].amount then need else queue[0].amount
    ensures var moves', pairs' := moves + [Move(h, j, used)], pairs + [Pair(used, outs[j].at - queue[0].at)];
      && Paired(moves') == Paired(moves) + used
      && (used == queue[0].amount ==> Serving(ins, outs, j, need - used, queue[1..], pairs', moves', h + 1, 0))
      && (used < queue[0].amount ==>
            Serving(ins, outs, j, need - used, [Movement(queue[0].amount - used, queue[0].at)] + queue[1..], pairs', moves', h, spent + used))
  {
    hide *;
    ServingParts(ins, outs, j, need, queue, pairs, moves, h, spent);
    TakeFromQueue(queue, ins, h, spent, outs[j].at, used);
    SpendMore(ins, outs, moves, h, spent, j, used);
    GiveMore(ins, outs, moves, h, j, outs[j].amount - need, used);
    PairOne(ins, outs, Move(h, j, used));
    RecordMore(ins, outs, moves, pairs, Move(h, j, used), Pair(used, outs[j].at - queue[0].at));
    RuleMore(ins, outs, moves, j, h, spent, need, used);
    PairedMore(ins, outs, moves, Move(h, j, used));
    var moves', pairs' := moves + [Move(h, j, used)], pairs + [Pair(used, outs[j].at - queue[0].at)];
    if used == queue[0].amount {
      ServingFrom(ins, outs, j, need - used, queue[1..], pairs', moves', h + 1, 0);
    } else {
      ServingFrom(ins, outs, j, need - used, [Movement(queue[0].amount - used, queue[0].at)] + queue[1..], pairs', moves', h, spent + used);
    }
  }

  lemma PairOne(ins: seq<Movement>, outs: seq<Movement>, m: Move)
    requires m.i < |ins| && m.j < |outs|
    ensures PairOf(ins, outs, m) == Pair(m.amount, outs[m.j].at - ins[m.i].at)
  {
  }

  lemma PairedMore(ins: seq<Movement>, outs: seq<Movement>, moves: seq<Move>, m: Move)
    ensures Paired(moves + [m]) == Paired(moves) + m.amount
  {
    AppendMove(ins, outs, moves, m);
  }

  lemma ServingParts(ins: seq<Movement>, outs: seq<Movement>, j: nat, need: nat, queue: seq<Movement>, pairs: seq<Pair>,
                     moves: seq<Move>, h: nat, spent: nat)
    requires Serving(ins, outs, j, need, queue, pairs, moves, h, spent)
    ensures j < |outs| && need <= outs[j].amount && Queue(queue, ins, h, spent) && Spent(ins, moves, h, spent)
    ensures Given(outs, moves, j, outs[j].amount - need) && Causal(ins, outs, moves) && Recorded(ins, outs, moves, pairs)
    ensures TouchedBy(ins, h, spent, outs[j].at) && Ruled(ins, outs, moves, j, h)
    ensures queue != [] ==> h < |ins| && queue[0].at == ins[h].at && spent <= ins[h].amount
  {
    hide Spent, Given, Causal, Recorded, TouchedBy, Ruled;
  }

  lemma ServingFrom(ins: seq<Movement>, outs: seq<Movement>, j: nat, need: nat, queue: seq<Movement>, pairs: seq<Pair>,
                    moves: seq<Move>, h: nat, spent: nat)
    requires j < |outs| && need <= outs[j].amount && Queue(queue, ins, h, spent) && Spent(ins, moves, h, spent)
    requires Given(outs, moves, j, outs[j].amount - need) && Causal(ins, outs, moves) && Recorded(ins, outs, moves, pairs)
    requires TouchedBy(ins, h, spent, outs[j].at) && Ruled(ins, outs, moves, j, h)
    ensures Serving(ins, outs, j, need, queue, pairs, moves, h, spent)
  {
    hide Spent, Given, Causal, Recorded, TouchedBy, Ruled, Queue;
  }

  lemma TakeFromQueue(queue: seq<Movement>, ins: seq<Movement>, h: nat, spent: nat, at: int, used: nat)
    requires Queue(queue, ins, h, spent) && queue != [] && used <= queue[0].amount && queue[0].at <= at && TouchedBy(ins, h, spent, at)
    ensures spent + queue[0].amount == ins[h].amount
    ensures used == queue[0].amount ==> Queue(queue[1..], ins, h + 1, 0) && TouchedBy(ins, h + 1, 0, at)
    ensures used < queue[0].amount ==>
      Queue([Movement(queue[0].amount - used, queue[0].at)] + queue[1..], ins, h, spent + used) && TouchedBy(ins, h, spent + used, at)
  {
  }

  /** Serve one outflow from the queue; `remaining` is what it could not be given. */
  method Serve(ghost ins: seq<Movement>, ghost outs: seq<Movement>, ghost j: nat, out: Movement, queue: seq<Movement>, pairs: seq<Pair>,
               ghost moves: seq<Move>, ghost h: nat, ghost spent: nat)
    returns (queue': seq<Movement>, pairs': seq<Pair>, ghost moves': seq<Move>, ghost h': nat, ghost spent': nat, ghost remaining: nat)
    requires Serving(ins, outs, j, out.amount, queue, pairs, moves, h, spent) && out == outs[j]
    ensures Serving(ins, outs, j, remaining, queue', pairs', moves', h', spent')
    ensures Paired(moves') == Paired(moves) + out.amount - remaining
    ensures remaining > 0 ==> queue' == [] || queue'[0].at > out.at
    ensures h <= h' && |pairs'| <= |pairs| + (h' - h) + 1
  {
    hide Serving, Paired;
    queue', pairs', moves', h', spent' := queue, pairs, moves, h, spent;
    var need := out.amount;
    while need > 0 && |queue'| > 0 && queue'[0].at <= out.at
      invariant Serving(ins, outs, j, need, queue', pairs', moves', h', spent')
      invariant Paired(moves') == Paired(moves) + out.amount - need
      invariant h <= h' && |pairs'| <= |pairs| + (h' - h) + (if need == 0 then 1 else 0)
      decreases |queue'|, need
    {
      need, queue', pairs', moves', h', spent' := Take(ins, outs, j, out.at, need, queue', pairs', moves', h', spent');
    }
    remaining := need;
  }

  /** Between outflows: the first j are served, and some cut is reached exactly. */
  ghost predicate Served(ins: seq<Movement>, outs: seq<Movement>, j: nat, queue: seq<Movement>, pairs: seq<Pair>,
                         moves: seq<Move>, h: nat, spent: nat, cut: nat) {
    && j <= |outs| && cut <= j && Queue(queue, ins, h, spent) && Spent(ins, moves, h, spent) && Given(outs, moves, j, 0)
    && Causal(ins, outs, moves) && Recorded(ins, outs, moves, pairs)
    && (j > 0 ==> TouchedBy(ins, h, spent, outs[j - 1].at)) && (j == 0 ==> h == 0 && spent == 0)
    && Paired(moves) == (if cut == 0 then 0 else ArrivedBy(ins, outs[cut - 1].at)) + Total(outs[cut..j]) && Ruled(ins, outs, moves, j, h)
  }

  lemma BeginServing(ins: seq<Movement>, outs: seq<Movement>, j: nat, queue: seq<Movement>, pairs: seq<Pair>,
                     moves: seq<Move>, h: nat, spent: nat, cut: nat)
    requires Served(ins, outs, j, queue, pairs, moves, h, spent, cut) && j < |outs| && Chronological(outs)
    ensures Serving(ins, outs, j, outs[j].amount, queue, pairs, moves, h, spent)
  {
    hide Ruled;
  }

  lemma PassOne(ins: seq<Movement>, outs: seq<Movement>, j: nat, queue: seq<Movement>, moves: seq<Move>, h: nat, spent: nat, remaining: nat)
    requires Ruled(ins, outs, moves, j, h) && Queue(queue, ins, h, spent) && j < |outs| && remaining <= outs[j].amount
    requires Given(outs, moves, j, outs[j].amount - remaining) && (remaining > 0 ==> queue == [] || queue[0].at > outs[j].at)
    ensures Ruled(ins, outs, moves, j + 1, h)
  {
    assert remaining == 0 ==> Satisfied(outs, moves, j);
    hide Select, FifoMoves, Given;
  }

  /** An outflow that was not satisfied has drained every inflow that could serve it: the cut moves up to it. */
  lemma EndServing(ins: seq<Movement>, outs: seq<Movement>, j: nat, queue: seq<Movement>, pairs: seq<Pair>,
                   moves: seq<Move>, h: nat, spent: nat, cut: nat, paired: nat, remaining: nat)
    requires Serving(ins, outs, j, remaining, queue, pairs, moves, h, spent) && Chronological(ins) && cut <= j
    requires paired == (if cut == 0 then 0 else ArrivedBy(ins, outs[cut - 1].at)) + Total(outs[cut..j])
    requires Paired(moves) == paired + outs[j].amount - remaining
    requires remaining > 0 ==> queue == [] || queue[0].at > outs[j].at
    ensures Served(ins, outs, j + 1, queue, pairs, moves, h, spent, if remaining > 0 then j + 1 else cut)
  {
    hide Ruled, FifoMoves;
    PassOne(ins, outs, j, queue, moves, h, spent, remaining);
    hide Causal, Recorded, Select, Spent;
    if remaining > 0 {
      assert h < |ins| ==> queue[0].at == ins[h].at;
      ArrivedIsPrefix(ins, h, outs[j].at);
    } else {
      assert outs[cut..j + 1][..j - cut] == outs[cut..j];
    }
  }

  /** _pair_flows on flows already in time order. */
  method PairSorted(ins: seq<Movement>, outs: seq<Movement>) returns (pairs: seq<Pair>, ghost moves: seq<Move>, ghost cut: nat)
    requires Chronological(ins) && Chronological(outs)
    ensures Assignment(ins, outs, moves) && Recorded(ins, outs, moves, pairs)
    ensures cut <= |outs| && Paired(moves) == Cut(ins, outs, cut)
    ensures Fifo(ins, outs, moves) && NonePassedOver(ins, moves) && |pairs| <= |ins| + |outs|
  {
    hide *;
    var queue := ins;
    pairs, moves, cut := [], [], 0;
    ghost var h, spent := 0, 0;
    Start(ins, outs);
    for j := 0 to |outs|
      invariant Served(ins, outs, j, queue, pairs, moves, h, spent, cut)
      invariant h >= 0 && |pairs| <= h + j
    {
      BeginServing(ins, outs, j, queue, pairs, moves, h, spent, cut);
      CutBelow(ins, outs, j, queue, pairs, moves, h, spent, cut);
      ghost var paired, remaining := Paired(moves), 0;
      queue, pairs, moves, h, spent, remaining := Serve(ins, outs, j, outs[j], queue, pairs, moves, h, spent);
      EndServing(ins, outs, j, queue, pairs, moves, h, spent, cut, paired, remaining);
      cut := if remaining > 0 then j + 1 else cut;
    }
    Finish(ins, outs, queue, pairs, moves, h, spent, cut);
  }

  lemma Start(ins: seq<Movement>, outs: seq<Movement>)
    requires Chronological(ins)
    ensures Served(ins, outs, 0, ins, [], [], 0, 0, 0)
  {
  }

  lemma CutBelow(ins: seq<Movement>, outs: seq<Movement>, j: nat, queue: seq<Movement>, pairs: seq<Pair>,
                 moves: seq<Move>, h: nat, spent: nat, cut: nat)
    requires Served(ins, outs, j, queue, pairs, moves, h, spent, cut)
    ensures cut <= j <= |outs| && Paired(moves) == (if cut == 0 then 0 else ArrivedBy(ins, outs[cut - 1].at)) + Total(outs[cut..j])
  {
  }

  lemma Finish(ins: seq<Movement>, outs: seq<Movement>, queue: seq<Movement>, pairs: seq<Pair>,
               moves: seq<Move>, h: nat, spent: nat, cut: nat)
    requires Served(ins, outs, |outs|, queue, pairs, moves, h, spent, cut)
    ensures Assignment(ins, outs, moves) && Recorded(ins, outs, moves, pairs) && Fifo(ins, outs, moves) && h <= |ins|
    ensures NonePassedOver(ins, moves)
    ensures cut <= |outs| && Paired(moves) == Cut(ins, outs, cut)
  {
    QueueServesInOrder(ins, outs, moves, h, spent, |outs|);
    hide NonePassedOver, FifoMoves;
    assert outs[cut..|outs|] == outs[cut..];
  }

  // ----- optimality -----

  /** FIFO pairs as much as any causal assignment could: its total is the least cut, and the most that can be paired. */
  lemma FifoIsOptimal(ins: seq<Movement>, outs: seq<Movement>, fifo: seq<Move>, cut: nat, other: seq<Move>, j: nat)
    requires Chronological(outs) && Assignment(ins, outs, fifo) && cut <= |outs| && Paired(fifo) == Cut(ins, outs, cut)
    requires Assignment(ins, outs, other) && j <= |outs|
    ensures Paired(other) <= Paired(fifo) <= Cut(ins, outs, j)
  {
    AssignmentWithinCut(ins, outs, other, cut);
    AssignmentWithinCut(ins, outs, fifo, j);
  }

  predicate Earlier(a: Movement, b: Movement) {
    a.at < b.at
  }

  /** Sorted by time, and equal times in the order given: what a stable sort leaves of a list. */
  ghost predicate InTimeOrder(sorted: seq<Movement>, given: seq<Movement>) {
    multiset(sorted) == multiset(given) && Chronological(sorted) && forall x :: Ties(Earlier, sorted, x) == Ties(Earlier, given, x)
  }

  /** _pair_flows. The order of both sides and every pair are determined: InTimeOrder leaves one arrangement of each
      side, and Fifo one list of moves. */
  method PairFlows(inflow: seq<Movement>, outflow: seq<Movement>)
    returns (pairs: seq<Pair>, ghost ins: seq<Movement>, ghost outs: seq<Movement>, ghost moves: seq<Move>)
    ensures InTimeOrder(ins, inflow) && InTimeOrder(outs, outflow)
    ensures Assignment(ins, outs, moves) && Recorded(ins, outs, moves, pairs)
    ensures Fifo(ins, outs, moves) && NonePassedOver(ins, moves)
    ensures forall k, l :: 0 <= k <= l < |moves| ==> moves[k].i <= moves[l].i && moves[k].j <= moves[l].j
    ensures |pairs| == |moves| && forall k :: 0 <= k < |moves| ==> moves[k].i < |ins| && moves[k].j < |outs|
    ensures forall k :: 0 <= k < |moves| ==> pairs[k].amount == moves[k].amount && pairs[k].gap == outs[moves[k].j].at - ins[moves[k].i].at
    ensures forall other :: Assignment(ins, outs, other) ==> Paired(other) <= Paired(moves)
    ensures |pairs| <= |inflow| + |outflow|
  {
    var first := Sort(Earlier, inflow);
    var second := Sort(Earlier, outflow);
    assert Chronological(first) && Chronological(second);
    ghost var cut;
    hide Fifo, Ties, Chronological, NonePassedOver, Recorded, Assignment;
    pairs, moves, cut := PairSorted(first, second);
    ins, outs := first, second;
    MovesRead(ins, outs, moves, pairs);
    forall other | Assignment(ins, outs, other) ensures Paired(other) <= Paired(moves) {
      FifoIsOptimal(ins, outs, moves, cut, other, cut);
    }
  }

  lemma MovesRead(ins: seq<Movement>, outs: seq<Movement>, moves: seq<Move>, pairs: seq<Pair>)
    requires Chronological(ins) && Fifo(ins, outs, moves) && Recorded(ins, outs, moves, pairs)
    ensures forall k, l :: 0 <= k <= l < |moves| ==> moves[k].i <= moves[l].i && moves[k].j <= moves[l].j
    ensures |pairs| == |moves| && forall k :: 0 <= k < |moves| ==> moves[k].i < |ins| && moves[k].j < |outs|
    ensures forall k :: 0 <= k < |moves| ==> pairs[k].amount == moves[k].amount && pairs[k].gap == outs[moves[k].j].at - ins[moves[k].i].at
  {
    hide FifoMoves, Passed;
    forall k, l | 0 <= k <= l < |moves| ensures moves[k].i <= moves[l].i && moves[k].j <= moves[l].j { FifoInOrder(ins, outs, moves, k, l); }
  }

  lemma EarlierIsStrictWeak()
    ensures StrictWeak(Earlier)
  {
  }

  /** Two lists in the time order of one list are one list, and with FifoUnique so are their pairs. */
  lemma PairsDetermined(inflow: seq<Movement>, outflow: seq<Movement>, ins: seq<Movement>, outs: seq<Movement>, moves: seq<Move>, pairs: seq<Pair>,
                        ins': seq<Movement>, outs': seq<Movement>, moves': seq<Move>, pairs': seq<Pair>)
    requires InTimeOrder(ins, inflow) && InTimeOrder(outs, outflow) && Fifo(ins, outs, moves) && Recorded(ins, outs, moves, pairs)
    requires InTimeOrder(ins', inflow) && InTimeOrder(outs', outflow) && Fifo(ins', outs', moves') && Recorded(ins', outs', moves', pairs')
    ensures pairs == pairs'
  {
    hide Fifo, Ties;
    EarlierIsStrictWeak();
    StableUnique(Earlier, ins, ins');
    StableUnique(Earlier, outs, outs');
    FifoUnique(ins, outs, moves, moves');
  }

  function ForwardedWithin(pairs: seq<Pair>, seconds: int): nat {
    if pairs == [] then 0 else ForwardedWithin(pairs[..|pairs| - 1], seconds) + if pairs[|pairs| - 1].gap <= seconds then pairs[|pairs| - 1].amount else 0
  }

  /** What is forwarded within a time adds up over any split of the pairs, and a pair counts, whole, iff its gap is not
      longer. */
  lemma {:induction false} ForwardedJoined(a: seq<Pair>, b: seq<Pair>, seconds: int)
    ensures ForwardedWithin(a + b, seconds) == ForwardedWithin(a, seconds) + ForwardedWithin(b, seconds)
    ensures |a| == 1 ==> ForwardedWithin(a, seconds) == if a[0].gap > seconds then 0 else a[0].amount
  {
    if b != [] {
      var n := |b| - 1;
      ForwardedJoined(a, b[..n], seconds);
      assert (a + b)[..|a| + n] == a + b[..n];
    } else {
      assert a + b == a;
    }
    if |a| == 1 { assert a[..0] == []; }
  }

  lemma {:induction false} ForwardedWithinPaired(ins: seq<Movement>, outs: seq<Movement>, moves: seq<Move>, pairs: seq<Pair>, seconds: int)
    requires Recorded(ins, outs, moves, pairs)
    ensures ForwardedWithin(pairs, seconds) <= Paired(moves)
  {
    if pairs != [] {
      var n := |pairs| - 1;
      ForwardedWithinPaired(ins, outs, moves[..n], pairs[..n], seconds);
    }
  }

  lemma {:induction false} ArrivedWithinTotal(s: seq<Movement>, t: int)
    ensures ArrivedBy(s, t) <= Total(s)
  {
    if s != [] { ArrivedWithinTotal(s[..|s| - 1], t); }
  }

  /** Every gap is non-negative, and what is forwarded within any time never exceeds the total inflow: the
      pass-through share is at most one. */
  lemma ForwardedNeverExceedsInflow(ins: seq<Movement>, outs: seq<Movement>, moves: seq<Move>, pairs: seq<Pair>, seconds: int)
    requires Chronological(outs) && Assignment(ins, outs, moves) && Recorded(ins, outs, moves, pairs)
    ensures forall p :: p in pairs ==> p.gap >= 0
    ensures ForwardedWithin(pairs, seconds) <= Total(ins)
  {
    forall p | p in pairs ensures p.gap >= 0 {
      var k :| 0 <= k < |pairs| && pairs[k] == p;
      assert moves[k] in moves;
    }
    ForwardedWithinPaired(ins, outs, moves, pairs, seconds);
    AssignmentWithinCut(ins, outs, moves, |outs|);
    if outs != [] { ArrivedWithinTotal(ins, outs[|outs| - 1].at); }
  }
}
