/** The rules-v1 signals as sets of addresses over a set of transfers, and the evaluation they add up to. */
module RulesModel {
  import opened Wrappers
  import opened Chain
  import opened Order
  import opened CycleSearch

  /** rulesV1Transfer */
  datatype Flow = Flow(key: string, from: string, to: string, amount: nat, at: Time)

  /** Instants are nanoseconds, as in Go's time package. */
  const MINUTE := 60_000_000_000
  const FAN_THRESHOLD := 10
  const RAPID_WINDOW := 60 * MINUTE
  const PATH_WINDOW := 24 * 60 * MINUTE

  /** atLeastRatio: a ratio compared without dividing. */
  predicate AtLeastRatio(numerator: nat, denominator: nat, thresholdNumerator: nat, thresholdDenominator: nat) {
    denominator > 0 && numerator * thresholdDenominator >= denominator * thresholdNumerator
  }

  /** The cross-multiplied comparison is the comparison of the exact quotients. */
  lemma RatioIsExact(n: nat, d: nat, tn: nat, td: nat)
    requires d > 0 && td > 0
    ensures AtLeastRatio(n, d, tn, td) <==> n as real / d as real >= tn as real / td as real
  {
    var x, y := n as real / d as real, tn as real / td as real;
    var dt := d as real * td as real;
    assert x * d as real == n as real && y * td as real == tn as real;
    assert x * dt == n as real * td as real;
    assert y * dt == tn as real * d as real;
    assert x >= y <==> x * dt >= y * dt;
    assert (n * td) as real == n as real * td as real && (d * tn) as real == d as real * tn as real;
  }

  predicate BetweenOthers(f: Flow) {
    f.from != "" && f.to != "" && f.from != f.to
  }

  function Recipients(flows: set<Flow>, a: string): set<string> {
    set f | f in flows && BetweenOthers(f) && f.from == a :: f.to
  }

  function Senders(flows: set<Flow>, a: string): set<string> {
    set f | f in flows && BetweenOthers(f) && f.to == a :: f.from
  }

  function FanOut(flows: set<Flow>): set<string> {
    set f | f in flows && |Recipients(flows, f.from)| >= FAN_THRESHOLD :: f.from
  }

  function FanIn(flows: set<Flow>): set<string> {
    set f | f in flows && |Senders(flows, f.to)| >= FAN_THRESHOLD :: f.to
  }

  /** `sent` leaves the receiving address within the hour after `receipt`. */
  predicate ForwardedFrom(receipt: Flow, sent: Flow) {
    sent.from == receipt.to && sent.key != receipt.key && receipt.at <= sent.at <= receipt.at + RAPID_WINDOW
  }

  function Forwardings(flows: set<Flow>, receipt: Flow): set<Flow> {
    set s | s in flows && ForwardedFrom(receipt, s)
  }

  ghost function SumAmounts(flows: set<Flow>): nat {
    if flows == {} then 0 else var f :| f in flows; f.amount + SumAmounts(flows - {f})
  }

  ghost predicate ForwardsRapidly(flows: set<Flow>, receipt: Flow) {
    receipt.amount != 0 && AtLeastRatio(SumAmounts(Forwardings(flows, receipt)), receipt.amount, 80, 100)
  }

  ghost function Rapid(flows: set<Flow>): set<string> {
    set r | r in flows && ForwardsRapidly(flows, r) :: r.to
  }

  /** target -> first.to -> second.to within a day, with at least 70% passed on. */
  predicate ForwardingPath(target: string, first: Flow, second: Flow) {
    && first.from == target && first.to != target && first.amount != 0
    && second.from == first.to && second.key != first.key && second.to != first.to
    && first.at <= second.at <= first.at + PATH_WINDOW
    && AtLeastRatio(second.amount, first.amount, 70, 100)
  }

  ghost predicate OnForwardingPath(flows: set<Flow>, target: string, a: string) {
    target != "" && exists f, s :: f in flows && s in flows && ForwardingPath(target, f, s) && a in {target, f.to, s.to}
  }

  ghost function TargetConnected(flows: set<Flow>, target: string): set<string> {
    set f, a | f in flows && a in {f.from, f.to} && OnForwardingPath(flows, target, a) :: a
  }

  function FlowEdges(flows: set<Flow>): Edges {
    set f | f in flows && BetweenOthers(f) :: (f.from, f.to)
  }

  ghost function Circular(flows: set<Flow>): set<string> {
    set f | f in flows && OnCycle(FlowEdges(flows), f.from) :: f.from
  }

  // ----- the evaluation -----

  datatype Signal = Signal(reason: string, weight: nat, qualifying: set<string>)

  datatype NodeAssessment = NodeAssessment(address: string, score: int, level: string, reasons: seq<string>)

  datatype Evaluation = Evaluation(score: Option<int>, level: string, reasons: seq<string>, nodes: seq<NodeAssessment>, source: string)

  const RULES_SOURCE := "rules-v1"

  ghost function Signals(flows: set<Flow>, target: string): seq<Signal> {
    [Signal("fan_out", 20, FanOut(flows)),
     Signal("fan_in", 15, FanIn(flows)),
     Signal("rapid_forwarding", 25, Rapid(flows)),
     Signal("target_connected_forwarding", 25, TargetConnected(flows, target)),
     Signal("circular_flow", 15, Circular(flows))]
  }

  function Level(score: int): string {
    if score >= 75 then "critical" else if score >= 50 then "high" else if score >= 25 then "medium" else "low"
  }

  predicate Fires(s: Signal) {
    s.qualifying != {}
  }

  function WeightOf(signals: seq<Signal>, p: Signal -> bool): nat {
    if signals == [] then 0 else WeightOf(signals[..|signals| - 1], p) + if p(signals[|signals| - 1]) then signals[|signals| - 1].weight else 0
  }

  function ReasonsOf(signals: seq<Signal>, p: Signal -> bool): seq<string> {
    if signals == [] then [] else ReasonsOf(signals[..|signals| - 1], p) + if p(signals[|signals| - 1]) then [signals[|signals| - 1].reason] else []
  }

  function Qualified(signals: seq<Signal>): set<string> {
    set s, a | s in signals && a in s.qualifying :: a
  }

  function Qualifies(a: string): Signal -> bool {
    (s: Signal) => a in s.qualifying
  }

  /** An address scores the weights of the signals it qualifies for, and carries their reasons in order. */
  function Node(signals: seq<Signal>, a: string): NodeAssessment {
    NodeAssessment(a, WeightOf(signals, Qualifies(a)), Level(WeightOf(signals, Qualifies(a))), ReasonsOf(signals, Qualifies(a)))
  }

  /** What rules-v1 must say of a set of transfers: no score for none; otherwise the weights of the signals that
      fire, uncapped, their reasons, and one node per qualifying address, in address order. */
  ghost predicate IsVerdict(flows: set<Flow>, target: string, e: Evaluation) {
    if flows == {} then e == Evaluation(None, "", [], [], RULES_SOURCE)
    else
      var signals := Signals(flows, target);
      && e.score == Some(WeightOf(signals, Fires)) && e.level == Level(WeightOf(signals, Fires))
      && e.reasons == ReasonsOf(signals, Fires) && e.source == RULES_SOURCE
      && AreNodes(signals, e.nodes)
  }

  ghost predicate AreNodes(signals: seq<Signal>, nodes: seq<NodeAssessment>) {
    && (forall i, j :: 0 <= i < j < |nodes| ==> Before(nodes[i].address, nodes[j].address))
    && (forall n :: n in nodes ==> n.address in Qualified(signals) && n == Node(signals, n.address))
    && (forall a :: a in Qualified(signals) ==> Node(signals, a) in nodes)
  }

  lemma {:induction false} AscendingUnique(a: seq<NodeAssessment>, b: seq<NodeAssessment>)
    requires forall i, j :: 0 <= i < j < |a| ==> Before(a[i].address, a[j].address)
    requires forall i, j :: 0 <= i < j < |b| ==> Before(b[i].address, b[j].address)
    requires forall n :: n in a <==> n in b
    ensures a == b
  {
    if a == [] {
      NoMembers(b);
    } else {
      assert a[0] in b && (b != [] ==> b[0] in a);
      var i :| 0 <= i < |b| && b[i] == a[0];
      var j :| 0 <= j < |a| && a[j] == b[0];
      BeforeTotal(a[0].address, b[0].address);
      assert a[0] == b[0];
      forall n ensures n in a[1..] <==> n in b[1..] {
        AfterFirst(a, n);
        AfterFirst(b, n);
      }
      AscendingUnique(a[1..], b[1..]);
      assert a == [a[0]] + a[1..] && b == [b[0]] + b[1..];
    }
  }

  lemma AfterFirst(s: seq<NodeAssessment>, n: NodeAssessment)
    requires s != [] && forall i, j :: 0 <= i < j < |s| ==> Before(s[i].address, s[j].address)
    ensures n in s[1..] <==> n in s && n != s[0]
  {
    if n in s[1..] {
      var i :| 0 <= i < |s[1..]| && s[1..][i] == n;
      assert Before(s[0].address, s[i + 1].address);
      BeforeTotal(s[0].address, s[0].address);
    }
  }

  /** The verdict on a set of transfers is unique: reordering or repeating transfers cannot change it. */
  lemma VerdictUnique(flows: set<Flow>, target: string, e1: Evaluation, e2: Evaluation)
    requires IsVerdict(flows, target, e1) && IsVerdict(flows, target, e2)
    ensures e1 == e2
  {
    if flows != {} {
      var signals := Signals(flows, target);
      forall n ensures n in e1.nodes <==> n in e2.nodes {
        if n in e1.nodes { assert Node(signals, n.address) in e2.nodes; }
        if n in e2.nodes { assert Node(signals, n.address) in e1.nodes; }
      }
      AscendingUnique(e1.nodes, e2.nodes);
    }
  }

  /** The weights add up to the maximum score, so the cap at 100 never fires. */
  lemma {:induction false} WeightBounds(signals: seq<Signal>, p: Signal -> bool, q: Signal -> bool)
    requires forall s :: s in signals && p(s) ==> q(s)
    ensures WeightOf(signals, p) <= WeightOf(signals, q)
    ensures forall r :: r in ReasonsOf(signals, p) ==> r in ReasonsOf(signals, q)
  {
    if signals != [] { WeightBounds(signals[..|signals| - 1], p, q); }
  }

  lemma ScoreNeverCapped(flows: set<Flow>, target: string, p: Signal -> bool)
    ensures WeightOf(Signals(flows, target), p) <= 100
  {
    var all := (s: Signal) => true;
    var s := Signals(flows, target);
    WeightBounds(s, p, all);
    assert s[..4][..3][..2][..1][..0] == [];
    assert s[..4][..3] == s[..3] && s[..3][..2] == s[..2] && s[..2][..1] == s[..1];
    assert WeightOf(s[..1], all) == 20;
    assert WeightOf(s[..2], all) == 35;
    assert WeightOf(s[..3], all) == 60;
    assert WeightOf(s[..4], all) == 85;
  }

  /** No node outscores the whole, and the overall reasons are the union of the nodes' reasons. */
  lemma NodesWithinVerdict(flows: set<Flow>, target: string, e: Evaluation)
    requires IsVerdict(flows, target, e) && flows != {}
    ensures e.score.Some? && 0 <= e.score.value <= 100
    ensures forall n :: n in e.nodes ==> 0 <= n.score <= e.score.value
    ensures forall r :: r in e.reasons <==> exists n :: n in e.nodes && r in n.reasons
  {
    var signals := Signals(flows, target);
    ScoreNeverCapped(flows, target, Fires);
    forall n | n in e.nodes ensures 0 <= n.score <= e.score.value && forall r :: r in n.reasons ==> r in e.reasons {
      WeightBounds(signals, Qualifies(n.address), Fires);
    }
    forall r | r in e.reasons ensures exists n :: n in e.nodes && r in n.reasons {
      var s := ReasonSource(signals, Fires, r);
      var a :| a in s.qualifying;
      SourceReason(signals, Qualifies(a), s);
      assert a in Qualified(signals);
      assert Node(signals, a) in e.nodes;
    }
  }

  lemma EmptyVerdict(target: string, e: Evaluation)
    requires IsVerdict({}, target, e)
    ensures e.score.None? && e.level == "" && e.source != ""
  {
  }

  lemma VerdictLevel(flows: set<Flow>, target: string, e: Evaluation)
    requires IsVerdict(flows, target, e) && flows != {}
    ensures e.level != "" && e.source != ""
  {
  }

  lemma {:induction false} ReasonSource(signals: seq<Signal>, p: Signal -> bool, r: string) returns (s: Signal)
    requires r in ReasonsOf(signals, p)
    ensures s in signals && p(s) && s.reason == r
  {
    var n := |signals| - 1;
    if r in ReasonsOf(signals[..n], p) { s := ReasonSource(signals[..n], p, r); } else { s := signals[n]; }
  }

  lemma {:induction false} SourceReason(signals: seq<Signal>, p: Signal -> bool, s: Signal)
    requires s in signals && p(s)
    ensures s.reason in ReasonsOf(signals, p)
  {
    var n := |signals| - 1;
    if s != signals[n] {
      assert s in signals[..n];
      SourceReason(signals[..n], p, s);
    }
  }

  lemma {:induction false} SumWithout(flows: set<Flow>, f: Flow)
    requires f in flows
    ensures SumAmounts(flows) == f.amount + SumAmounts(flows - {f})
  {
    var first :| first in flows && SumAmounts(flows) == first.amount + SumAmounts(flows - {first});
    if first != f {
      SumWithout(flows - {first}, f);
      SumWithout(flows - {f}, first);
      assert flows - {first} - {f} == flows - {f} - {first};
    }
  }

  // ----- what the signals and the score are, in numbers -----

  /** fan_out: at least ten distinct other recipients. */
  lemma FanOutIs(flows: set<Flow>, a: string)
    ensures a in FanOut(flows) <==> (a != "" && |set f | f in flows && f.from == a && f.to != "" && f.to != a :: f.to| >= 10)
  {
    assert a != "" ==> Recipients(flows, a) == set f | f in flows && f.from == a && f.to != "" && f.to != a :: f.to;
    if a == "" { assert Recipients(flows, a) == {}; }
    if |Recipients(flows, a)| >= 10 {
      var b :| b in Recipients(flows, a);
    }
  }

  /** fan_in: at least ten distinct other senders. */
  lemma FanInIs(flows: set<Flow>, a: string)
    ensures a in FanIn(flows) <==> (a != "" && |set f | f in flows && f.to == a && f.from != "" && f.from != a :: f.from| >= 10)
  {
    assert a != "" ==> Senders(flows, a) == set f | f in flows && f.to == a && f.from != "" && f.from != a :: f.from;
    if a == "" { assert Senders(flows, a) == {}; }
    if |Senders(flows, a)| >= 10 {
      var b :| b in Senders(flows, a);
    }
  }

  /** The other transfers that leave the receiving address from the receipt on, up to an hour later. */
  function SentWithinTheHour(flows: set<Flow>, receipt: Flow): set<Flow> {
    set s | s in flows && s.from == receipt.to && s.key != receipt.key && 0 <= s.at - receipt.at <= 3_600_000_000_000
  }

  /** rapid_forwarding: four fifths of some receipt sent on within the hour. */
  lemma RapidIs(flows: set<Flow>, a: string)
    ensures a in Rapid(flows) <==> exists r :: r in flows && r.to == a && r.amount > 0 && 5 * SumAmounts(SentWithinTheHour(flows, r)) >= 4 * r.amount
  {
    forall r ensures Forwardings(flows, r) == SentWithinTheHour(flows, r) { }
    hide SumAmounts, Forwardings, SentWithinTheHour;
  }

  /** The second transfer passes at least seven tenths of the first on within a day. */
  predicate PassesOn(first: Flow, second: Flow) {
    && second.from == first.to && second.to != first.to && second.key != first.key
    && first.amount > 0 && 10 * second.amount >= 7 * first.amount && 0 <= second.at - first.at <= 86_400_000_000_000
  }

  /** target_connected_forwarding: the target, and the two addresses after it on such a path. */
  lemma TargetConnectedIs(flows: set<Flow>, target: string, a: string)
    ensures a in TargetConnected(flows, target) <==>
      (target != "" && exists f, s :: f in flows && s in flows && f.from == target && f.to != target && PassesOn(f, s) && (a == target || a == f.to || a == s.to))
  {
    forall f, s ensures ForwardingPath(target, f, s) <==> f.from == target && f.to != target && PassesOn(f, s) { }
    hide ForwardingPath, PassesOn;
    if target != "" {
      forall f, s | f in flows && s in flows && ForwardingPath(target, f, s) && a in {target, f.to, s.to} ensures a in TargetConnected(flows, target) {
        PathEnds(target, f, s);
        assert OnForwardingPath(flows, target, a);
        if a == s.to { assert s in flows && a in {s.from, s.to}; } else { assert f in flows && a in {f.from, f.to}; }
      }
    }
  }

  lemma PathEnds(target: string, f: Flow, s: Flow)
    requires ForwardingPath(target, f, s)
    ensures f.from == target && s.from == f.to
  {
  }

  /** Some transfer goes from one address to the other, two different ones. */
  predicate Sends(flows: set<Flow>, a: string, b: string) {
    a != "" && b != "" && a != b && exists f :: f in flows && f.from == a && f.to == b
  }

  lemma EdgeIsSend(flows: set<Flow>, a: string, b: string)
    ensures (a, b) in FlowEdges(flows) <==> Sends(flows, a, b)
  {
  }

  /** circular_flow: the money can come back over two, three or four transfers between different addresses. */
  ghost predicate ComesBack(flows: set<Flow>, a: string) {
    || (exists b :: Sends(flows, a, b) && Sends(flows, b, a))
    || (exists b, c :: c != a && Sends(flows, a, b) && Sends(flows, b, c) && Sends(flows, c, a))
    || (exists b, c, d :: c != a && d != b && Sends(flows, a, b) && Sends(flows, b, c) && Sends(flows, c, d) && Sends(flows, d, a))
  }

  lemma CircularIs(flows: set<Flow>, a: string)
    ensures a in Circular(flows) <==> ComesBack(flows, a)
  {
    var edges := FlowEdges(flows);
    forall x, y ensures (x, y) in edges <==> Sends(flows, x, y) { EdgeIsSend(flows, x, y); }
    hide Sends, FlowEdges;
    if a in Circular(flows) {
      var q := CycleFrom(edges, a);
      CycleComesBack(flows, edges, q);
    }
    if ComesBack(flows, a) {
      var q := ReturningPath(flows, edges, a);
      assert OnCycle(edges, a);
      var b :| b in q && (a, b) in edges;
      FlowOfSend(flows, a, b);
    }
  }

  lemma FlowOfSend(flows: set<Flow>, a: string, b: string)
    requires Sends(flows, a, b)
    ensures exists f :: f in flows && f.from == a
  {
  }

  /** A cycle can be read from any of its addresses. */
  lemma CycleFrom(edges: Edges, a: string) returns (q: seq<string>)
    requires OnCycle(edges, a)
    ensures Cycle(edges, q) && q[0] == a
  {
    var p :| Cycle(edges, p) && a in p;
    var k :| 0 <= k < |p| && p[k] == a;
    q := p[k..] + p[..k];
    forall i ensures 0 <= i < |q| - 1 ==> (q[i], q[i + 1]) in edges {
      if 0 <= i < |p| - k - 1 { assert q[i] == p[k + i] && q[i + 1] == p[k + i + 1]; }
      if |p| - k <= i < |q| - 1 {
        var j := i - (|p| - k);
        assert q[i] == p[j] && q[i + 1] == p[j + 1];
      }
    }
  }

  lemma CycleComesBack(flows: set<Flow>, edges: Edges, q: seq<string>)
    requires Cycle(edges, q) && forall x, y :: (x, y) in edges <==> Sends(flows, x, y)
    ensures ComesBack(flows, q[0])
  {
    hide Sends;
    assert Sends(flows, q[0], q[1]);
    if |q| == 2 {
    } else if |q| == 3 {
      assert Sends(flows, q[1], q[2]) && q[2] != q[0];
    } else {
      assert Sends(flows, q[1], q[2]) && Sends(flows, q[2], q[3]) && q[2] != q[0] && q[3] != q[1];
    }
  }

  lemma ReturningPath(flows: set<Flow>, edges: Edges, a: string) returns (q: seq<string>)
    requires ComesBack(flows, a) && forall x, y :: (x, y) in edges <==> Sends(flows, x, y)
    ensures Cycle(edges, q) && a in q && exists b :: b in q && (a, b) in edges
  {
    hide Sends;
    if b :| Sends(flows, a, b) && Sends(flows, b, a) {
      q := [a, b];
      assert (a, b) in edges && (b, a) in edges;
    } else if b, c :| c != a && Sends(flows, a, b) && Sends(flows, b, c) && Sends(flows, c, a) {
      q := [a, b, c];
      assert (a, b) in edges && (b, c) in edges && (c, a) in edges;
    } else {
      var b, c, d :| c != a && d != b && Sends(flows, a, b) && Sends(flows, b, c) && Sends(flows, c, d) && Sends(flows, d, a);
      q := [a, b, c, d];
      assert (a, b) in edges && (b, c) in edges && (c, d) in edges && (d, a) in edges;
    }
  }

  /** The weights and reasons of the five signals, counted where the given one holds. */
  lemma FiveSignals(flows: set<Flow>, target: string, p: Signal -> bool)
    ensures var s := Signals(flows, target);
      && WeightOf(s, p) == (if p(s[0]) then 20 else 0) + (if p(s[1]) then 15 else 0) + (if p(s[2]) then 25 else 0)
                           + (if p(s[3]) then 25 else 0) + (if p(s[4]) then 15 else 0)
      && ReasonsOf(s, p) == (if p(s[0]) then ["fan_out"] else []) + (if p(s[1]) then ["fan_in"] else []) + (if p(s[2]) then ["rapid_forwarding"] else [])
                           + (if p(s[3]) then ["target_connected_forwarding"] else []) + (if p(s[4]) then ["circular_flow"] else [])
  {
    hide FanOut, FanIn, Rapid, TargetConnected, Circular, WeightOf, ReasonsOf;
    FiveCounted(Signals(flows, target), p);
  }

  lemma FiveCounted(s: seq<Signal>, p: Signal -> bool)
    requires |s| == 5
    ensures WeightOf(s, p) == (if p(s[0]) then s[0].weight else 0) + (if p(s[1]) then s[1].weight else 0) + (if p(s[2]) then s[2].weight else 0)
                              + (if p(s[3]) then s[3].weight else 0) + (if p(s[4]) then s[4].weight else 0)
    ensures ReasonsOf(s, p) == (if p(s[0]) then [s[0].reason] else []) + (if p(s[1]) then [s[1].reason] else []) + (if p(s[2]) then [s[2].reason] else [])
                               + (if p(s[3]) then [s[3].reason] else []) + (if p(s[4]) then [s[4].reason] else [])
  {
    hide WeightOf, ReasonsOf;
    SnocWeight(s, p, 0);
    SnocWeight(s, p, 1);
    SnocWeight(s, p, 2);
    SnocWeight(s, p, 3);
    SnocWeight(s, p, 4);
    assert s[..5] == s;
    assert ReasonsOf(s[..0], p) == [];
  }

  lemma SnocWeight(s: seq<Signal>, p: Signal -> bool, k: nat)
    requires k < |s|
    ensures WeightOf(s[..k + 1], p) == WeightOf(s[..k], p) + (if p(s[k]) then s[k].weight else 0)
    ensures ReasonsOf(s[..k + 1], p) == ReasonsOf(s[..k], p) + (if p(s[k]) then [s[k].reason] else [])
    ensures WeightOf(s[..0], p) == 0 && ReasonsOf(s[..0], p) == []
  {
    assert s[..k + 1][..k] == s[..k];
  }

  /** Risk levels begin at 25, 50 and 75. */
  predicate LevelFits(level: string, score: int) {
    && (level == "low" <==> score < 25) && (level == "medium" <==> 25 <= score < 50)
    && (level == "high" <==> 50 <= score < 75) && (level == "critical" <==> 75 <= score)
  }

  /** Twenty points for fan_out, fifteen for fan_in, twenty-five for each forwarding signal, fifteen for circular_flow. */
  predicate Adds(score: int, reasons: seq<string>, fanOut: bool, fanIn: bool, rapid: bool, connected: bool, circular: bool) {
    && score == (if fanOut then 20 else 0) + (if fanIn then 15 else 0) + (if rapid then 25 else 0) + (if connected then 25 else 0) + (if circular then 15 else 0)
    && reasons == (if fanOut then ["fan_out"] else []) + (if fanIn then ["fan_in"] else []) + (if rapid then ["rapid_forwarding"] else [])
                  + (if connected then ["target_connected_forwarding"] else []) + (if circular then ["circular_flow"] else [])
  }

  /** The node's own points, for the signals its address qualifies for. */
  ghost predicate NodeAdds(flows: set<Flow>, target: string, n: NodeAssessment) {
    && LevelFits(n.level, n.score)
    && Adds(n.score, n.reasons, n.address in FanOut(flows), n.address in FanIn(flows), n.address in Rapid(flows),
            n.address in TargetConnected(flows, target), n.address in Circular(flows))
  }

  ghost predicate HasSignal(flows: set<Flow>, target: string, a: string) {
    a in FanOut(flows) || a in FanIn(flows) || a in Rapid(flows) || a in TargetConnected(flows, target) || a in Circular(flows)
  }

  /** The verdict in numbers: what each signal adds to the score of the whole and of each address, and who is a node. */
  lemma VerdictReads(flows: set<Flow>, target: string, e: Evaluation)
    requires IsVerdict(flows, target, e) && flows != {}
    ensures e.score.Some? && LevelFits(e.level, e.score.value)
    ensures Adds(e.score.value, e.reasons, FanOut(flows) != {}, FanIn(flows) != {}, Rapid(flows) != {}, TargetConnected(flows, target) != {}, Circular(flows) != {})
    ensures forall n :: n in e.nodes ==> NodeAdds(flows, target, n)
    ensures forall a :: (exists n :: n in e.nodes && n.address == a) <==> HasSignal(flows, target, a)
  {
    var signals := Signals(flows, target);
    hide FanOut, FanIn, Rapid, TargetConnected, Circular, WeightOf, ReasonsOf, Adds, NodeAdds, HasSignal, Qualified, Node, Signals;
    WholeReads(flows, target);
    forall n | n in e.nodes ensures NodeAdds(flows, target, n) { NodeReads(flows, target, n.address); }
    forall a ensures (exists n :: n in e.nodes && n.address == a) <==> HasSignal(flows, target, a) {
      QualifiedBy(flows, target, a);
      NodeIsOf(signals, a);
      if a in Qualified(signals) { assert Node(signals, a) in e.nodes; }
    }
  }

  lemma WholeReads(flows: set<Flow>, target: string)
    ensures LevelFits(Level(WeightOf(Signals(flows, target), Fires)), WeightOf(Signals(flows, target), Fires))
    ensures var s := Signals(flows, target);
      Adds(WeightOf(s, Fires), ReasonsOf(s, Fires), FanOut(flows) != {}, FanIn(flows) != {}, Rapid(flows) != {}, TargetConnected(flows, target) != {}, Circular(flows) != {})
  {
    FiveSignals(flows, target, Fires);
    hide FanOut, FanIn, Rapid, TargetConnected, Circular, WeightOf, ReasonsOf;
  }

  lemma NodeIsOf(signals: seq<Signal>, a: string)
    ensures Node(signals, a).address == a
  {
  }

  lemma NodeReads(flows: set<Flow>, target: string, a: string)
    ensures NodeAdds(flows, target, Node(Signals(flows, target), a))
  {
    FiveSignals(flows, target, Qualifies(a));
    hide FanOut, FanIn, Rapid, TargetConnected, Circular, WeightOf, ReasonsOf;
  }

  lemma QualifiedBy(flows: set<Flow>, target: string, a: string)
    ensures a in Qualified(Signals(flows, target)) <==> HasSignal(flows, target, a)
  {
    var s := Signals(flows, target);
    hide FanOut, FanIn, Rapid, TargetConnected, Circular;
    forall k | 0 <= k < 5 ensures s[k] in s { }
  }
}
