/** Per-tick accumulation of link heat flows into the node accumulators.

    Every link evaluation ends with the same two writes: the power is taken
    off the accumulator of the link's first node and added to that of its
    second node. This module names those writes (`Deposit`), shows that they
    conserve the sum of the accumulators over all nodes, and gives the closed
    form of a whole phase of deposits (`Settle`), which depends only on the
    multiset of links and not on their order.
 */
module Accumulation {
  import opened Capacitor

  function Acc(node: Node, ch: Channel): real {
    match ch
    case Conductive => node.conPower
    case Radiative => node.radPower
  }

  /** The node with the accumulator of `ch` set to `v` and everything else,
      the other accumulator included, kept. */
  function WithAcc(node: Node, ch: Channel, v: real): (r: Node)
    ensures Acc(r, ch) == v
    ensures r.(conPower := node.conPower, radPower := node.radPower) == node
    ensures ch.Conductive? ==> r.radPower == node.radPower
    ensures ch.Radiative? ==> r.conPower == node.conPower
  {
    match ch
    case Conductive => node.(conPower := v)
    case Radiative => node.(radPower := v)
  }

  /** A heat flow of `power` out of node `source` into node `sink`, both
      given by position in the node list. */
  datatype Flow = Flow(source: nat, sink: nat, power: real)

  /** The series key of a link from node `a` to node `b`. */
  function FromTo(a: string, b: string): string {
    a + "->" + b
  }

  /** True when every resolved end of a link names a node of the list. */
  predicate EndsIn(ends: seq<nat>, n: nat) {
    forall k :: 0 <= k < |ends| ==> ends[k] < n
  }

  /** The outcome of one link evaluation: the nodes with updated
      accumulators, the power from the first node to the second, and the two
      nodes, by position. */
  datatype Transferred = Transferred(nodes: seq<Node>, power: real, a: nat, b: nat)

  predicate FlowIn(f: Flow, n: nat) {
    f.source < n && f.sink < n
  }

  /** What a flow adds to the accumulator of node `i`. */
  function Contribution(f: Flow, i: nat): real {
    (if f.sink == i then f.power else 0.0) - (if f.source == i then f.power else 0.0)
  }

  /** `cap_a.x -= power; cap_b.x += power`, in that order (so a link whose two
      ends are one node leaves it unchanged). */
  function Deposit(nodes: seq<Node>, f: Flow, ch: Channel): (r: seq<Node>)
    requires FlowIn(f, |nodes|)
    ensures |r| == |nodes|
    ensures forall i :: 0 <= i < |nodes| ==>
              r[i] == WithAcc(nodes[i], ch, Acc(nodes[i], ch) + Contribution(f, i))
    ensures f.source != f.sink ==> Acc(r[f.source], ch) == Acc(nodes[f.source], ch) - f.power
    ensures f.source != f.sink ==> Acc(r[f.sink], ch) == Acc(nodes[f.sink], ch) + f.power
  {
    var a := nodes[f.source := WithAcc(nodes[f.source], ch, Acc(nodes[f.source], ch) - f.power)];
    a[f.sink := WithAcc(a[f.sink], ch, Acc(a[f.sink], ch) + f.power)]
  }

  /** A deposit touches only its two ends, and one whose ends are the same
      node (subtract, then add back) leaves every node as it was. */
  lemma DepositFrames(nodes: seq<Node>, f: Flow, ch: Channel)
    requires FlowIn(f, |nodes|)
    ensures forall i :: 0 <= i < |nodes| && i != f.source && i != f.sink ==> Deposit(nodes, f, ch)[i] == nodes[i]
    ensures f.source == f.sink ==> Deposit(nodes, f, ch) == nodes
  {
    var d := Deposit(nodes, f, ch);
    forall i | 0 <= i < |nodes| && (f.source == f.sink || (i != f.source && i != f.sink))
      ensures d[i] == nodes[i]
    {
      assert Contribution(f, i) == 0.0;
      WithAccSame(nodes[i], ch);
    }
  }

  /** Writing an accumulator's own value back changes nothing. */
  lemma WithAccSame(node: Node, ch: Channel)
    ensures WithAcc(node, ch, Acc(node, ch)) == node
  {
  }

  /** `after` is `before` once the flow `f` has been taken out of the
      accumulator `ch` of its source and put into that of its sink: each
      node's accumulator moves by what the flow contributes to it, so no node
      but the two ends changes, a flow whose two ends are one node changes
      nothing, and the total over all nodes is kept. */
  predicate Moved(before: seq<Node>, after: seq<Node>, f: Flow, ch: Channel) {
    |after| == |before| &&
    (forall i :: 0 <= i < |before| ==> after[i] == WithAcc(before[i], ch, Acc(before[i], ch) + Contribution(f, i))) &&
    (forall i :: 0 <= i < |before| && i != f.source && i != f.sink ==> after[i] == before[i]) &&
    (f.source == f.sink ==> after == before) &&
    SumAcc(after, ch) == SumAcc(before, ch)
  }

  /** One link evaluation's writes, `cap_a.x -= power; cap_b.x += power`:
      the flow is moved from its source to its sink, and when the two differ
      the source's accumulator drops by the power and the sink's rises by it. */
  function Transfer(nodes: seq<Node>, f: Flow, ch: Channel): (r: Transferred)
    requires FlowIn(f, |nodes|)
    ensures r.power == f.power && r.a == f.source && r.b == f.sink
    ensures Moved(nodes, r.nodes, f, ch)
    ensures f.source != f.sink ==> Acc(r.nodes[f.source], ch) == Acc(nodes[f.source], ch) - f.power &&
                                   Acc(r.nodes[f.sink], ch) == Acc(nodes[f.sink], ch) + f.power
  {
    DepositConserves(nodes, f, ch);
    DepositFrames(nodes, f, ch);
    Transferred(Deposit(nodes, f, ch), f.power, f.source, f.sink)
  }

  /** Two successive changes to the radiation accumulators alone are one
      such change. */
  lemma OnlyRadTrans(a: seq<Node>, b: seq<Node>, c: seq<Node>)
    requires |b| == |a| && |c| == |a|
    requires forall i :: 0 <= i < |a| ==> b[i].(radPower := a[i].radPower) == a[i]
    requires forall i :: 0 <= i < |a| ==> c[i].(radPower := b[i].radPower) == b[i]
    ensures forall i :: 0 <= i < |a| ==> c[i].(radPower := a[i].radPower) == a[i]
  {
  }

  /** Likewise for the conduction accumulators. */
  lemma OnlyConTrans(a: seq<Node>, b: seq<Node>, c: seq<Node>)
    requires |b| == |a| && |c| == |a|
    requires forall i :: 0 <= i < |a| ==> b[i].(conPower := a[i].conPower) == a[i]
    requires forall i :: 0 <= i < |a| ==> c[i].(conPower := b[i].conPower) == b[i]
    ensures forall i :: 0 <= i < |a| ==> c[i].(conPower := a[i].conPower) == a[i]
  {
  }

  /** The sum of one accumulator over all nodes. */
  function SumAcc(nodes: seq<Node>, ch: Channel): real
    decreases |nodes|
  {
    if |nodes| == 0 then 0.0
    else SumAcc(nodes[..|nodes| - 1], ch) + Acc(nodes[|nodes| - 1], ch)
  }

  lemma {:induction false} SumAccUpdate(nodes: seq<Node>, k: nat, ch: Channel, v: real)
    requires k < |nodes|
    ensures SumAcc(nodes[k := WithAcc(nodes[k], ch, v)], ch) == SumAcc(nodes, ch) - Acc(nodes[k], ch) + v
    decreases |nodes|
  {
    var n := |nodes|;
    var u := nodes[k := WithAcc(nodes[k], ch, v)];
    if k == n - 1 {
      assert u[..n - 1] == nodes[..n - 1];
    } else {
      assert u[..n - 1] == nodes[..n - 1][k := WithAcc(nodes[k], ch, v)];
      SumAccUpdate(nodes[..n - 1], k, ch, v);
    }
  }

  /** A deposit moves power between two nodes and leaves the total of the
      accumulator over all nodes as it was. */
  lemma DepositConserves(nodes: seq<Node>, f: Flow, ch: Channel)
    requires FlowIn(f, |nodes|)
    ensures SumAcc(Deposit(nodes, f, ch), ch) == SumAcc(nodes, ch)
  {
    var s0 := Acc(nodes[f.source], ch) - f.power;
    var a := nodes[f.source := WithAcc(nodes[f.source], ch, s0)];
    assert SumAcc(a, ch) == SumAcc(nodes, ch) - f.power by {
      SumAccUpdate(nodes, f.source, ch, s0);
    }
    var s1 := Acc(a[f.sink], ch) + f.power;
    var d := a[f.sink := WithAcc(a[f.sink], ch, s1)];
    assert SumAcc(d, ch) == SumAcc(a, ch) + f.power by {
      SumAccUpdate(a, f.sink, ch, s1);
    }
    assert Deposit(nodes, f, ch) == d;
  }

  /** The total that a sequence of links, each seen through `flowOf`, adds to
      the accumulator of node `i`. */
  function SumContrib<L>(ls: seq<L>, flowOf: L -> Flow, i: nat): real
    decreases |ls|
  {
    if |ls| == 0 then 0.0 else Contribution(flowOf(ls[0]), i) + SumContrib(ls[1..], flowOf, i)
  }

  lemma {:induction false} SumContribAppend<L>(xs: seq<L>, ys: seq<L>, flowOf: L -> Flow, i: nat)
    ensures SumContrib(xs + ys, flowOf, i) == SumContrib(xs, flowOf, i) + SumContrib(ys, flowOf, i)
    decreases |xs|
  {
    if |xs| == 0 {
      assert xs + ys == ys;
    } else {
      assert (xs + ys)[0] == xs[0];
      assert (xs + ys)[1..] == xs[1..] + ys;
      SumContribAppend(xs[1..], ys, flowOf, i);
    }
  }

  /** The sum does not depend on the order of the links. */
  lemma {:induction false} SumContribPermutation<L>(xs: seq<L>, ys: seq<L>, flowOf: L -> Flow, i: nat)
    requires multiset(xs) == multiset(ys)
    ensures SumContrib(xs, flowOf, i) == SumContrib(ys, flowOf, i)
    decreases |xs|
  {
    if |xs| == 0 {
      assert |ys| == |multiset(ys)| == 0;
    } else {
      var x := xs[0];
      assert x in multiset(ys);
      var k :| 0 <= k < |ys| && ys[k] == x;
      var rest := ys[..k] + ys[k + 1..];
      assert ys == ys[..k] + [x] + ys[k + 1..];
      assert xs == [x] + xs[1..];
      assert multiset(ys) == multiset(ys[..k]) + multiset([x]) + multiset(ys[k + 1..]);
      assert multiset(xs) == multiset([x]) + multiset(xs[1..]);
      assert multiset(rest) == multiset(ys[..k]) + multiset(ys[k + 1..]);
      assert multiset(xs[1..]) == multiset(xs) - multiset([x]);
      assert multiset(rest) == multiset(ys) - multiset([x]);
      SumContribPermutation(xs[1..], rest, flowOf, i);
      SumContribAppend(ys[..k], ys[k + 1..], flowOf, i);
      SumContribAppend(ys[..k] + [x], ys[k + 1..], flowOf, i);
      SumContribAppend(ys[..k], [x], flowOf, i);
    }
  }

  ghost predicate FlowsIn<L>(ls: seq<L>, flowOf: L -> Flow, n: nat) {
    forall l :: l in ls ==> FlowIn(flowOf(l), n)
  }

  /** The nodes after the flows of all of `ls` have been deposited: each
      accumulator moves by the sum of the contributions to its node. */
  function Settle<L>(nodes: seq<Node>, ls: seq<L>, flowOf: L -> Flow, ch: Channel): (r: seq<Node>)
    ensures |r| == |nodes|
  {
    seq(|nodes|, i requires 0 <= i < |nodes| =>
      WithAcc(nodes[i], ch, Acc(nodes[i], ch) + SumContrib(ls, flowOf, i)))
  }

  /** Depositing the first link's flow and settling the rest is settling all
      of them: the recurrence that a phase of link evaluations follows. */
  lemma SettleStep<L>(nodes: seq<Node>, ls: seq<L>, flowOf: L -> Flow, ch: Channel)
    requires |ls| > 0 && FlowIn(flowOf(ls[0]), |nodes|)
    ensures Settle(Deposit(nodes, flowOf(ls[0]), ch), ls[1..], flowOf, ch) == Settle(nodes, ls, flowOf, ch)
  {
    var d := Deposit(nodes, flowOf(ls[0]), ch);
    var lhs := Settle(d, ls[1..], flowOf, ch);
    var rhs := Settle(nodes, ls, flowOf, ch);
    forall i | 0 <= i < |nodes|
      ensures lhs[i] == rhs[i]
    {
      assert Acc(d[i], ch) == Acc(nodes[i], ch) + Contribution(flowOf(ls[0]), i);
    }
  }

  /** Settling an empty phase changes nothing. */
  lemma SettleEmpty<L>(nodes: seq<Node>, flowOf: L -> Flow, ch: Channel)
    ensures Settle(nodes, [], flowOf, ch) == nodes
  {
    forall i | 0 <= i < |nodes|
      ensures Settle(nodes, [], flowOf, ch)[i] == nodes[i]
    {
    }
  }

  /** The order of the links of a phase does not matter. */
  lemma SettlePermutation<L>(nodes: seq<Node>, xs: seq<L>, ys: seq<L>, flowOf: L -> Flow, ch: Channel)
    requires multiset(xs) == multiset(ys)
    ensures Settle(nodes, xs, flowOf, ch) == Settle(nodes, ys, flowOf, ch)
  {
    forall i | 0 <= i < |nodes|
      ensures Settle(nodes, xs, flowOf, ch)[i] == Settle(nodes, ys, flowOf, ch)[i]
    {
      SumContribPermutation(xs, ys, flowOf, i);
    }
  }
}
