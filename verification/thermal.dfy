/** The simulation driver (`Thermal`): building and wiring the node network,
    and the fixed-step run loop.

    Each tick has three phases, in this order: every conductor moves heat
    between the conduction accumulators of its two nodes, every radiator does
    the same for the radiation accumulators, and every node then takes one
    explicit-Euler step and resets both accumulators. No temperature changes
    during the two link phases, so every flow of a tick is computed from the
    temperatures at the start of the tick (a Jacobi update): the outcome of a
    tick does not depend on the order of the links, and the link phases only
    move heat between nodes.
 */
module Thermal {
  import opened Outcomes
  import opened Tables
  import opened Capacitor
  import opened Accumulation
  import Conductor
  import Radiator
  import Cooler

  /** The tick length and run length that `run` uses: 1 s, for six hours. */
  const DeltaTime: real := 1.0
  const RunTime: real := 21600.0

  // ---------------------------------------------------------------- nodes

  /** One entry of the node list of the model: the arguments of a
      `Capacitor` (with its optional cooler curve) or of a `Cooler`. */
  datatype NodeSpec =
    | CapacitorSpec(name: string, material: string, mass: real, temperature: real, cooler: Option<string>)
    | CoolerSpec(name: string, material: string, mass: real, temperature: real)

  function SpecKind(spec: NodeSpec): Kind {
    match spec
    case CapacitorSpec(_, _, _, _, cooler) => PlainKind(cooler)
    case CoolerSpec(_, _, _, _) => CoolerKind
  }

  predicate AllReset(nodes: seq<Node>) {
    forall i :: 0 <= i < |nodes| ==> nodes[i].conPower == 0.0 && nodes[i].radPower == 0.0
  }

  predicate DistinctNames(nodes: seq<Node>) {
    forall i, j :: 0 <= i < |nodes| && 0 <= j < |nodes| && i != j ==> nodes[i].name != nodes[j].name
  }

  /** Constructing the node list in order: node `i` draws index `counter + i`
      from the counter shared by capacitors and coolers, so indices are
      distinct and increasing along the list, and every accumulator starts at
      zero. */
  function BuildNodes(specs: seq<NodeSpec>, counter: nat): (r: (seq<Node>, nat))
    ensures |r.0| == |specs| && r.1 == counter + |specs|
    ensures forall i :: 0 <= i < |specs| ==> r.0[i].index == counter + i
    ensures forall i, j :: 0 <= i < j < |specs| ==> r.0[i].index < r.0[j].index
    ensures forall i :: 0 <= i < |specs| ==>
              r.0[i].name == specs[i].name && r.0[i].material == specs[i].material &&
              r.0[i].mass == specs[i].mass && r.0[i].temperature == specs[i].temperature &&
              r.0[i].kind == SpecKind(specs[i])
    ensures AllReset(r.0)
    decreases |specs|
  {
    if |specs| == 0 then ([], counter)
    else
      var first := match specs[0]
        case CapacitorSpec(name, material, mass, temperature, cooler) =>
          NewCapacitor(counter, name, material, mass, temperature, cooler)
        case CoolerSpec(name, material, mass, temperature) =>
          Cooler.NewCooler(counter, name, material, mass, temperature);
      var rest := BuildNodes(specs[1..], first.1);
      ([first.0] + rest.0, rest.1)
  }

  // ---------------------------------------------------------------- loading

  /** Two nodes that differ at most in their link bookkeeping (the links
      recorded and the `con`/`rad` active flags). */
  predicate SamePhysics(a: Node, b: Node) {
    a.name == b.name && a.material == b.material && a.mass == b.mass &&
    a.temperature == b.temperature && a.conPower == b.conPower && a.radPower == b.radPower &&
    a.kind == b.kind && a.heatSources == b.heatSources && a.activeCool == b.activeCool &&
    a.tempLog == b.tempLog && a.index == b.index
  }

  predicate SameNames(a: seq<Node>, b: seq<Node>) {
    |a| == |b| && forall i :: 0 <= i < |a| ==> a[i].name == b[i].name
  }

  lemma {:induction false} FirstNamedFromSameNames(a: seq<Node>, b: seq<Node>, name: string, from: nat)
    requires SameNames(a, b) && from <= |a|
    ensures FirstNamedFrom(a, name, from) == FirstNamedFrom(b, name, from)
    decreases |a| - from
  {
    if from < |a| && a[from].name != name {
      FirstNamedFromSameNames(a, b, name, from + 1);
    }
  }

  /** Resolution reads only node names. */
  lemma {:induction false} ResolveSameNames(names: seq<string>, a: seq<Node>, b: seq<Node>)
    requires SameNames(a, b)
    ensures Resolve(names, a) == Resolve(names, b)
    decreases |names|
  {
    if |names| > 0 {
      FirstNamedFromSameNames(a, b, names[0], 0);
      ResolveSameNames(names[1..], a, b);
    }
  }

  /** A conductor after `create_links` against `nodes`. */
  function WithEnds(c: Conductor.Conductor, nodes: seq<Node>): Conductor.Conductor {
    c.(ends := c.ends + Resolve(c.capNames, nodes))
  }

  /** A radiator after `create_links` against `nodes`. */
  function WithRadEnds(rad: Radiator.Radiator, nodes: seq<Node>): Radiator.Radiator {
    rad.(ends := rad.ends + Resolve(rad.capNames, nodes))
  }

  /** The `for conductor in marvel_conductors` loop of `load_model`: each
      conductor, in order, resolves its node names against the node list and
      is recorded by those nodes as conductor number `id + k`. Attaching never
      changes a name, so every conductor resolves as it would against the
      list as given, and nothing but link bookkeeping changes on the nodes. */
  function LinkConductors(cs: seq<Conductor.Conductor>, nodes: seq<Node>, id: nat)
    : (r: (seq<Conductor.Conductor>, seq<Node>))
    ensures |r.0| == |cs| && |r.1| == |nodes|
    decreases |cs|
  {
    if |cs| == 0 then ([], nodes)
    else
      var first := Conductor.CreateLinks(cs[0], nodes, id);
      var rest := LinkConductors(cs[1..], first.1, id + 1);
      ([first.0] + rest.0, rest.1)
  }

  /** Linking changes no node's name or physics. */
  lemma {:induction false} LinkConductorsPhysics(cs: seq<Conductor.Conductor>, nodes: seq<Node>, id: nat)
    ensures SameNames(LinkConductors(cs, nodes, id).1, nodes)
    ensures forall i :: 0 <= i < |nodes| ==> SamePhysics(LinkConductors(cs, nodes, id).1[i], nodes[i])
    decreases |cs|
  {
    if |cs| > 0 {
      var first := Conductor.CreateLinks(cs[0], nodes, id);
      assert SameNames(first.1, nodes) && forall i :: 0 <= i < |nodes| ==> SamePhysics(first.1[i], nodes[i]) by {
        AttachedKeepsPhysics(nodes, first.1, Conductive, id, Resolve(cs[0].capNames, nodes));
      }
      LinkConductorsPhysics(cs[1..], first.1, id + 1);
      var rest := LinkConductors(cs[1..], first.1, id + 1);
      assert LinkConductors(cs, nodes, id).1 == rest.1;
      SamePhysicsTrans(rest.1, first.1, nodes);
    }
  }

  /** Every link resolves its node names as it would against the node list
      as given, and the links keep their order. */
  lemma {:induction false} LinkConductorsEnds(cs: seq<Conductor.Conductor>, nodes: seq<Node>, id: nat)
    ensures forall k :: 0 <= k < |cs| ==> LinkConductors(cs, nodes, id).0[k] == WithEnds(cs[k], nodes)
    decreases |cs|
  {
    if |cs| > 0 {
      var first := Conductor.CreateLinks(cs[0], nodes, id);
      assert SameNames(first.1, nodes) by {
        AttachedKeepsPhysics(nodes, first.1, Conductive, id, Resolve(cs[0].capNames, nodes));
      }
      LinkConductorsEnds(cs[1..], first.1, id + 1);
      var rest := LinkConductors(cs[1..], first.1, id + 1);
      EndsShift(cs, first.1, nodes, first.0, rest.0);
      assert LinkConductors(cs, nodes, id).0 == [first.0] + rest.0;
    }
  }

  /** The step of `LinkConductorsEnds`: the later conductors, resolved
      against a list with the same names, resolve as against the original. */
  lemma EndsShift(cs: seq<Conductor.Conductor>, a: seq<Node>, b: seq<Node>,
                  head: Conductor.Conductor, rest: seq<Conductor.Conductor>)
    requires |cs| > 0 && SameNames(a, b) && head == WithEnds(cs[0], b)
    requires |rest| == |cs| - 1 && forall k :: 0 <= k < |rest| ==> rest[k] == WithEnds(cs[1..][k], a)
    ensures forall k :: 0 <= k < |cs| ==> ([head] + rest)[k] == WithEnds(cs[k], b)
  {
    forall k | 1 <= k < |cs|
      ensures ([head] + rest)[k] == WithEnds(cs[k], b)
    {
      assert ([head] + rest)[k] == rest[k - 1] && cs[1..][k - 1] == cs[k];
      ResolveSameNames(cs[k].capNames, a, b);
    }
  }

  lemma SamePhysicsTrans(a: seq<Node>, b: seq<Node>, c: seq<Node>)
    requires |a| == |b| == |c|
    requires forall i :: 0 <= i < |a| ==> SamePhysics(a[i], b[i])
    requires forall i :: 0 <= i < |b| ==> SamePhysics(b[i], c[i])
    ensures forall i :: 0 <= i < |a| ==> SamePhysics(a[i], c[i])
  {
  }

  /** Recording links changes no node's physics or name. */
  lemma AttachedKeepsPhysics(nodes: seq<Node>, after: seq<Node>, ch: Channel, id: nat, targets: seq<nat>)
    requires |after| == |nodes|
    requires forall i :: 0 <= i < |nodes| ==> after[i] == Attached(nodes[i], ch, id, multiset(targets)[i])
    ensures SameNames(after, nodes) && forall i :: 0 <= i < |nodes| ==> SamePhysics(after[i], nodes[i])
  {
    forall i | 0 <= i < |nodes|
      ensures after[i].name == nodes[i].name && SamePhysics(after[i], nodes[i])
    {
      var n := nodes[i];
      assert after[i].(connectors := n.connectors, radiators := n.radiators,
                       activeCon := n.activeCon, activeRad := n.activeRad) == n;
    }
  }

  /** The `for radiator in marvel_radiators` loop of `load_model`. */
  function LinkRadiators(rs: seq<Radiator.Radiator>, nodes: seq<Node>, id: nat)
    : (r: (seq<Radiator.Radiator>, seq<Node>))
    ensures |r.0| == |rs| && |r.1| == |nodes|
    decreases |rs|
  {
    if |rs| == 0 then ([], nodes)
    else
      var first := Radiator.CreateLinks(rs[0], nodes, id);
      var rest := LinkRadiators(rs[1..], first.1, id + 1);
      ([first.0] + rest.0, rest.1)
  }

  /** Linking changes no node's name or physics. */
  lemma {:induction false} LinkRadiatorsPhysics(rs: seq<Radiator.Radiator>, nodes: seq<Node>, id: nat)
    ensures SameNames(LinkRadiators(rs, nodes, id).1, nodes)
    ensures forall i :: 0 <= i < |nodes| ==> SamePhysics(LinkRadiators(rs, nodes, id).1[i], nodes[i])
    decreases |rs|
  {
    if |rs| > 0 {
      var first := Radiator.CreateLinks(rs[0], nodes, id);
      assert SameNames(first.1, nodes) && forall i :: 0 <= i < |nodes| ==> SamePhysics(first.1[i], nodes[i]) by {
        AttachedKeepsPhysics(nodes, first.1, Radiative, id, Resolve(rs[0].capNames, nodes));
      }
      LinkRadiatorsPhysics(rs[1..], first.1, id + 1);
      var rest := LinkRadiators(rs[1..], first.1, id + 1);
      assert LinkRadiators(rs, nodes, id).1 == rest.1;
      SamePhysicsTrans(rest.1, first.1, nodes);
    }
  }

  /** Every link resolves its node names as it would against the node list
      as given, and the links keep their order. */
  lemma {:induction false} LinkRadiatorsEnds(rs: seq<Radiator.Radiator>, nodes: seq<Node>, id: nat)
    ensures forall k :: 0 <= k < |rs| ==> LinkRadiators(rs, nodes, id).0[k] == WithRadEnds(rs[k], nodes)
    decreases |rs|
  {
    if |rs| > 0 {
      var first := Radiator.CreateLinks(rs[0], nodes, id);
      assert SameNames(first.1, nodes) by {
        AttachedKeepsPhysics(nodes, first.1, Radiative, id, Resolve(rs[0].capNames, nodes));
      }
      LinkRadiatorsEnds(rs[1..], first.1, id + 1);
      var rest := LinkRadiators(rs[1..], first.1, id + 1);
      RadEndsShift(rs, first.1, nodes, first.0, rest.0);
      assert LinkRadiators(rs, nodes, id).0 == [first.0] + rest.0;
    }
  }

  /** The step of `LinkRadiatorsEnds`, as `EndsShift` for conductors. */
  lemma RadEndsShift(rs: seq<Radiator.Radiator>, a: seq<Node>, b: seq<Node>,
                     head: Radiator.Radiator, rest: seq<Radiator.Radiator>)
    requires |rs| > 0 && SameNames(a, b) && head == WithRadEnds(rs[0], b)
    requires |rest| == |rs| - 1 && forall k :: 0 <= k < |rest| ==> rest[k] == WithRadEnds(rs[1..][k], a)
    ensures forall k :: 0 <= k < |rs| ==> ([head] + rest)[k] == WithRadEnds(rs[k], b)
  {
    forall k | 1 <= k < |rs|
      ensures ([head] + rest)[k] == WithRadEnds(rs[k], b)
    {
      assert ([head] + rest)[k] == rest[k - 1] && rs[1..][k - 1] == rs[k];
      ResolveSameNames(rs[k].capNames, a, b);
    }
  }

  lemma ResolveAllSameNamesRad(rs: seq<Radiator.Radiator>, a: seq<Node>, b: seq<Node>)
    requires SameNames(a, b)
    ensures forall k :: 0 <= k < |rs| ==> Resolve(rs[k].capNames, a) == Resolve(rs[k].capNames, b)
  {
    forall k | 0 <= k < |rs| {
      ResolveSameNames(rs[k].capNames, a, b);
    }
  }

  /** The network: nodes, conductors and radiators, links referring to nodes
      by position in `nodes`. */
  datatype Model = Model(nodes: seq<Node>, conductors: seq<Conductor.Conductor>, radiators: seq<Radiator.Radiator>)

  /** Every resolved end of every link is a node of the model. */
  predicate LinksIn(m: Model) {
    (forall k :: 0 <= k < |m.conductors| ==> EndsIn(m.conductors[k].ends, |m.nodes|)) &&
    (forall k :: 0 <= k < |m.radiators| ==> EndsIn(m.radiators[k].ends, |m.nodes|))
  }

  // ------------------------------------------------------ node-side links

  function ConductorNames(c: Conductor.Conductor): seq<string> {
    c.capNames
  }

  function RadiatorNames(rad: Radiator.Radiator): seq<string> {
    rad.capNames
  }

  /** The link numbers node `i` records when the links `ls`, numbered from
      `id`, create their links in order against `nodes`: link `id + k` once
      for every one of its resolved ends that is node `i`, in link order. */
  function Recorded<L>(ls: seq<L>, namesOf: L -> seq<string>, nodes: seq<Node>, i: nat, id: nat): (r: seq<nat>)
    ensures forall k :: 0 <= k < |ls| ==> multiset(r)[id + k] == multiset(Resolve(namesOf(ls[k]), nodes))[i]
    ensures forall x :: x in r ==> id <= x < id + |ls|
    ensures forall a, b :: 0 <= a < b < |r| ==> r[a] <= r[b]
    decreases |ls|
  {
    if |ls| == 0 then []
    else
      var head := seq(multiset(Resolve(namesOf(ls[0]), nodes))[i], _ => id);
      var rest := Recorded(ls[1..], namesOf, nodes, i, id + 1);
      RecordedCons(ls, namesOf, nodes, i, id, head, rest);
      head + rest
  }

  lemma RecordedCons<L>(ls: seq<L>, namesOf: L -> seq<string>, nodes: seq<Node>, i: nat, id: nat,
                        head: seq<nat>, rest: seq<nat>)
    requires |ls| > 0 && head == seq(multiset(Resolve(namesOf(ls[0]), nodes))[i], _ => id)
    requires forall k :: 0 <= k < |ls| - 1 ==>
               multiset(rest)[id + 1 + k] == multiset(Resolve(namesOf(ls[1..][k]), nodes))[i]
    requires forall x :: x in rest ==> id + 1 <= x < id + 1 + (|ls| - 1)
    requires forall a, b :: 0 <= a < b < |rest| ==> rest[a] <= rest[b]
    ensures forall k :: 0 <= k < |ls| ==> multiset(head + rest)[id + k] == multiset(Resolve(namesOf(ls[k]), nodes))[i]
    ensures forall x :: x in head + rest ==> id <= x < id + |ls|
    ensures forall a, b :: 0 <= a < b < |head + rest| ==> (head + rest)[a] <= (head + rest)[b]
  {
    RecordedConsCounts(ls, namesOf, nodes, i, id, head, rest);
    RecordedConsOrder(head, rest, id, |ls|);
  }

  lemma RecordedConsCounts<L>(ls: seq<L>, namesOf: L -> seq<string>, nodes: seq<Node>, i: nat, id: nat,
                              head: seq<nat>, rest: seq<nat>)
    requires |ls| > 0 && head == seq(multiset(Resolve(namesOf(ls[0]), nodes))[i], _ => id)
    requires forall k :: 0 <= k < |ls| - 1 ==>
               multiset(rest)[id + 1 + k] == multiset(Resolve(namesOf(ls[1..][k]), nodes))[i]
    requires forall x :: x in rest ==> id + 1 <= x
    ensures forall k :: 0 <= k < |ls| ==> multiset(head + rest)[id + k] == multiset(Resolve(namesOf(ls[k]), nodes))[i]
  {
    RepeatCount(head, id);
    assert multiset(head + rest) == multiset(head) + multiset(rest);
    assert id !in rest;
    forall k | 1 <= k < |ls|
      ensures multiset(head + rest)[id + k] == multiset(Resolve(namesOf(ls[k]), nodes))[i]
    {
      assert ls[1..][k - 1] == ls[k];
      assert multiset(rest)[id + 1 + (k - 1)] == multiset(Resolve(namesOf(ls[k]), nodes))[i];
    }
  }

  lemma RecordedConsOrder(head: seq<nat>, rest: seq<nat>, id: nat, n: nat)
    requires n > 0 && forall j :: 0 <= j < |head| ==> head[j] == id
    requires forall x :: x in rest ==> id + 1 <= x < id + 1 + (n - 1)
    requires forall a, b :: 0 <= a < b < |rest| ==> rest[a] <= rest[b]
    ensures forall x :: x in head + rest ==> id <= x < id + n
    ensures forall a, b :: 0 <= a < b < |head + rest| ==> (head + rest)[a] <= (head + rest)[b]
  {
    var r := head + rest;
    forall x | x in r
      ensures id <= x < id + n
    {
      if x !in rest {
        var j :| 0 <= j < |r| && r[j] == x;
        assert j < |head|;
      }
    }
    forall a, b | 0 <= a < b < |r|
      ensures r[a] <= r[b]
    {
      if b >= |head| && a < |head| {
        assert rest[b - |head|] in rest;
      } else if a >= |head| {
        assert r[a] == rest[a - |head|] && r[b] == rest[b - |head|];
      }
    }
  }

  /** A sequence of copies of `x` holds `x` once per element and nothing else. */
  lemma {:induction false} RepeatCount(s: seq<nat>, x: nat)
    requires forall j :: 0 <= j < |s| ==> s[j] == x
    ensures multiset(s)[x] == |s|
    ensures forall y :: y != x ==> multiset(s)[y] == 0
    decreases |s|
  {
    if |s| > 0 {
      RepeatCount(s[..|s| - 1], x);
      assert s == s[..|s| - 1] + [x];
    }
  }

  /** Node `after` is `before` with the link numbers `rec` recorded on
      channel `ch`, that channel's path flag set when `rec` is not empty, and
      the other channel untouched. */
  predicate Records(before: Node, after: Node, ch: Channel, rec: seq<nat>) {
    Links(after, ch) == Links(before, ch) + rec && Active(after, ch) == (Active(before, ch) || |rec| > 0) &&
    Links(after, Other(ch)) == Links(before, Other(ch)) && Active(after, Other(ch)) == Active(before, Other(ch))
  }

  lemma RecordsTrans(a: Node, b: Node, c: Node, ch: Channel, r1: seq<nat>, r2: seq<nat>)
    requires Records(a, b, ch, r1) && Records(b, c, ch, r2)
    ensures Records(a, c, ch, r1 + r2)
  {
    assert Links(a, ch) + r1 + r2 == Links(a, ch) + (r1 + r2);
  }

  /** Only names enter the recorded numbers. */
  lemma {:induction false} RecordedSameNames<L>(ls: seq<L>, namesOf: L -> seq<string>, a: seq<Node>, b: seq<Node>,
                                                i: nat, id: nat)
    requires SameNames(a, b)
    ensures Recorded(ls, namesOf, a, i, id) == Recorded(ls, namesOf, b, i, id)
    decreases |ls|
  {
    if |ls| > 0 {
      ResolveSameNames(namesOf(ls[0]), a, b);
      RecordedSameNames(ls[1..], namesOf, a, b, i, id + 1);
    }
  }

  /** One conductor records its number once per occurrence of the node
      among its resolved ends, on the conductive channel only. */
  lemma ConductorLinkRecords(c: Conductor.Conductor, nodes: seq<Node>, id: nat, i: nat)
    requires i < |nodes|
    ensures var counts: multiset<nat> := multiset(Resolve(c.capNames, nodes));
            Records(nodes[i], Conductor.CreateLinks(c, nodes, id).1[i], Conductive, seq(counts[i], _ => id))
  {
  }

  /** After the conductor loop every node has recorded, on the conductive
      channel only, exactly the conductors that resolved to it. */
  lemma {:induction false} LinkConductorsRecords(cs: seq<Conductor.Conductor>, nodes: seq<Node>, id: nat)
    ensures forall i :: 0 <= i < |nodes| ==>
              Records(nodes[i], LinkConductors(cs, nodes, id).1[i], Conductive, Recorded(cs, ConductorNames, nodes, i, id))
    decreases |cs|
  {
    if |cs| == 0 {
      forall i | 0 <= i < |nodes|
        ensures Records(nodes[i], nodes[i], Conductive, Recorded(cs, ConductorNames, nodes, i, id))
      {
        assert Links(nodes[i], Conductive) + [] == Links(nodes[i], Conductive);
      }
    } else {
      var targets := Resolve(cs[0].capNames, nodes);
      var first := Conductor.CreateLinks(cs[0], nodes, id);
      assert SameNames(first.1, nodes) by {
        AttachedKeepsPhysics(nodes, first.1, Conductive, id, targets);
      }
      LinkConductorsRecords(cs[1..], first.1, id + 1);
      var rest := LinkConductors(cs[1..], first.1, id + 1);
      assert LinkConductors(cs, nodes, id).1 == rest.1;
      forall i | 0 <= i < |nodes|
        ensures Records(nodes[i], rest.1[i], Conductive, Recorded(cs, ConductorNames, nodes, i, id))
      {
        var counts: multiset<nat> := multiset(targets);
        var m := counts[i];
        ConductorLinkRecords(cs[0], nodes, id, i);
        RecordedSameNames(cs[1..], ConductorNames, first.1, nodes, i, id + 1);
        RecordsTrans(nodes[i], first.1[i], rest.1[i], Conductive,
                     seq(m, _ => id), Recorded(cs[1..], ConductorNames, nodes, i, id + 1));
      }
    }
  }

  /** One radiator records its number once per occurrence of the node
      among its resolved ends, on the radiative channel only. */
  lemma RadiatorLinkRecords(c: Radiator.Radiator, nodes: seq<Node>, id: nat, i: nat)
    requires i < |nodes|
    ensures var counts: multiset<nat> := multiset(Resolve(c.capNames, nodes));
            Records(nodes[i], Radiator.CreateLinks(c, nodes, id).1[i], Radiative, seq(counts[i], _ => id))
  {
  }

  /** After the radiator loop every node has recorded, on the radiative
      channel only, exactly the radiators that resolved to it. */
  lemma {:induction false} LinkRadiatorsRecords(rs: seq<Radiator.Radiator>, nodes: seq<Node>, id: nat)
    ensures forall i :: 0 <= i < |nodes| ==>
              Records(nodes[i], LinkRadiators(rs, nodes, id).1[i], Radiative, Recorded(rs, RadiatorNames, nodes, i, id))
    decreases |rs|
  {
    if |rs| == 0 {
      forall i | 0 <= i < |nodes|
        ensures Records(nodes[i], nodes[i], Radiative, Recorded(rs, RadiatorNames, nodes, i, id))
      {
        assert Links(nodes[i], Radiative) + [] == Links(nodes[i], Radiative);
      }
    } else {
      var targets := Resolve(rs[0].capNames, nodes);
      var first := Radiator.CreateLinks(rs[0], nodes, id);
      assert SameNames(first.1, nodes) by {
        AttachedKeepsPhysics(nodes, first.1, Radiative, id, targets);
      }
      LinkRadiatorsRecords(rs[1..], first.1, id + 1);
      var rest := LinkRadiators(rs[1..], first.1, id + 1);
      assert LinkRadiators(rs, nodes, id).1 == rest.1;
      forall i | 0 <= i < |nodes|
        ensures Records(nodes[i], rest.1[i], Radiative, Recorded(rs, RadiatorNames, nodes, i, id))
      {
        var counts: multiset<nat> := multiset(targets);
        var m := counts[i];
        RadiatorLinkRecords(rs[0], nodes, id, i);
        RecordedSameNames(rs[1..], RadiatorNames, first.1, nodes, i, id + 1);
        RecordsTrans(nodes[i], first.1[i], rest.1[i], Radiative,
                     seq(m, _ => id), Recorded(rs[1..], RadiatorNames, nodes, i, id + 1));
      }
    }
  }

  /** `load_model`: the node list is taken as it is, every conductor and
      then every radiator creates its links against it, and both link lists
      keep their order. */
  function LoadModel(nodes: seq<Node>, cs: seq<Conductor.Conductor>, rs: seq<Radiator.Radiator>): (r: Model)
    ensures |r.nodes| == |nodes| && forall i :: 0 <= i < |nodes| ==> SamePhysics(r.nodes[i], nodes[i])
    ensures |r.conductors| == |cs|
    ensures forall k :: 0 <= k < |cs| ==> r.conductors[k] == WithEnds(cs[k], nodes)
    ensures |r.radiators| == |rs|
    ensures forall k :: 0 <= k < |rs| ==> r.radiators[k] == WithRadEnds(rs[k], nodes)
    ensures ((forall k :: 0 <= k < |cs| ==> EndsIn(cs[k].ends, |nodes|)) &&
             (forall k :: 0 <= k < |rs| ==> EndsIn(rs[k].ends, |nodes|))) ==> LinksIn(r)
    ensures forall i :: 0 <= i < |nodes| ==> LoadedLinks(nodes[i], r.nodes[i], cs, rs, nodes, i)
  {
    LoadedRecords(nodes, cs, rs);
    var linkedC := LinkConductors(cs, nodes, 0);
    LinkConductorsPhysics(cs, nodes, 0);
    LinkConductorsEnds(cs, nodes, 0);
    var linkedR := LinkRadiators(rs, linkedC.1, 0);
    LinkRadiatorsPhysics(rs, linkedC.1, 0);
    LinkRadiatorsEnds(rs, linkedC.1, 0);
    SamePhysicsTrans(linkedR.1, linkedC.1, nodes);
    ResolveAllSameNamesRad(rs, linkedC.1, nodes);
    var m := Model(linkedR.1, linkedC.0, linkedR.0);
    LoadedLinksIn(nodes, cs, rs, m);
    m
  }

  /** Node `i` after loading: it has recorded, in order, every conductor and
      every radiator once per end that resolved to it, and its `con` and
      `rad` flags are set exactly when it recorded one. */
  predicate LoadedLinks(before: Node, after: Node, cs: seq<Conductor.Conductor>, rs: seq<Radiator.Radiator>,
                        nodes: seq<Node>, i: nat) {
    var rc := Recorded(cs, ConductorNames, nodes, i, 0);
    var rr := Recorded(rs, RadiatorNames, nodes, i, 0);
    after.connectors == before.connectors + rc && after.activeCon == (before.activeCon || |rc| > 0) &&
    after.radiators == before.radiators + rr && after.activeRad == (before.activeRad || |rr| > 0)
  }

  lemma LoadedRecords(nodes: seq<Node>, cs: seq<Conductor.Conductor>, rs: seq<Radiator.Radiator>)
    ensures forall i :: 0 <= i < |nodes| ==>
              LoadedLinks(nodes[i], LinkRadiators(rs, LinkConductors(cs, nodes, 0).1, 0).1[i], cs, rs, nodes, i)
  {
    var linkedC := LinkConductors(cs, nodes, 0);
    var linkedR := LinkRadiators(rs, linkedC.1, 0);
    LinkConductorsRecords(cs, nodes, 0);
    LinkRadiatorsRecords(rs, linkedC.1, 0);
    LinkConductorsPhysics(cs, nodes, 0);
    forall i | 0 <= i < |nodes|
      ensures LoadedLinks(nodes[i], linkedR.1[i], cs, rs, nodes, i)
    {
      RecordedSameNames(rs, RadiatorNames, linkedC.1, nodes, i, 0);
      assert Records(nodes[i], linkedC.1[i], Conductive, Recorded(cs, ConductorNames, nodes, i, 0));
      assert Records(linkedC.1[i], linkedR.1[i], Radiative, Recorded(rs, RadiatorNames, nodes, i, 0));
    }
  }

  lemma LoadedLinksIn(nodes: seq<Node>, cs: seq<Conductor.Conductor>, rs: seq<Radiator.Radiator>, m: Model)
    requires |m.nodes| == |nodes| && |m.conductors| == |cs| && |m.radiators| == |rs|
    requires forall k :: 0 <= k < |cs| ==> m.conductors[k] == WithEnds(cs[k], nodes)
    requires forall k :: 0 <= k < |rs| ==> m.radiators[k] == WithRadEnds(rs[k], nodes)
    ensures ((forall k :: 0 <= k < |cs| ==> EndsIn(cs[k].ends, |nodes|)) &&
             (forall k :: 0 <= k < |rs| ==> EndsIn(rs[k].ends, |nodes|))) ==> LinksIn(m)
  {
    if (forall k :: 0 <= k < |cs| ==> EndsIn(cs[k].ends, |nodes|)) &&
       (forall k :: 0 <= k < |rs| ==> EndsIn(rs[k].ends, |nodes|)) {
      forall k | 0 <= k < |cs|
        ensures EndsIn(m.conductors[k].ends, |m.nodes|)
      {
        var e := Resolve(cs[k].capNames, nodes);
        assert m.conductors[k].ends == cs[k].ends + e;
      }
      forall k | 0 <= k < |rs|
        ensures EndsIn(m.radiators[k].ends, |m.nodes|)
      {
        var e := Resolve(rs[k].capNames, nodes);
        assert m.radiators[k].ends == rs[k].ends + e;
      }
    }
  }

  /** The series key `run` builds for a link from its first two resolved
      nodes: `cap_a.name + '->' + cap_b.name`. */
  function LinkKey(ends: seq<nat>, nodes: seq<Node>): string
    requires |ends| >= 2 && EndsIn(ends, |nodes|)
  {
    FromTo(nodes[ends[0]].name, nodes[ends[1]].name)
  }

  /** When the first two names of a link both name nodes, its first two
      resolved nodes carry exactly those names. */
  lemma ResolveFirstTwo(names: seq<string>, nodes: seq<Node>)
    requires |names| >= 2
    requires FirstNamed(nodes, names[0]).Some? && FirstNamed(nodes, names[1]).Some?
    ensures |Resolve(names, nodes)| >= 2
    ensures nodes[Resolve(names, nodes)[0]].name == names[0]
    ensures nodes[Resolve(names, nodes)[1]].name == names[1]
  {
    assert names[1..][0] == names[1];
  }

  // ---------------------------------------------------------------- series

  /** `temp_series`, `con_series` and `rad_series`. */
  datatype Series = Series(temps: map<string, seq<real>>, con: map<string, seq<real>>, rad: map<string, seq<real>>)

  /** The empty series `run` starts from: one per node name and one per link
      `from_to_name`, and no others. */
  function InitialSeries(m: Model): (r: Series)
    ensures forall i :: 0 <= i < |m.nodes| ==> m.nodes[i].name in r.temps && r.temps[m.nodes[i].name] == []
    ensures forall key :: key in r.temps ==> exists i :: 0 <= i < |m.nodes| && m.nodes[i].name == key
    ensures forall k :: 0 <= k < |m.conductors| ==> m.conductors[k].fromToName in r.con && r.con[m.conductors[k].fromToName] == []
    ensures forall key :: key in r.con ==> exists k :: 0 <= k < |m.conductors| && m.conductors[k].fromToName == key
    ensures forall k :: 0 <= k < |m.radiators| ==> m.radiators[k].fromToName in r.rad && r.rad[m.radiators[k].fromToName] == []
    ensures forall key :: key in r.rad ==> exists k :: 0 <= k < |m.radiators| && m.radiators[k].fromToName == key
  {
    Series(EmptySeries(m.nodes, (n: Node) => n.name),
           EmptySeries(m.conductors, (c: Conductor.Conductor) => c.fromToName),
           EmptySeries(m.radiators, (rad: Radiator.Radiator) => rad.fromToName))
  }

  /** An empty series under the key of each element, and under nothing else. */
  function EmptySeries<L>(ls: seq<L>, keyOf: L -> string): (r: map<string, seq<real>>)
    ensures forall k :: 0 <= k < |ls| ==> keyOf(ls[k]) in r && r[keyOf(ls[k])] == []
    ensures forall key :: key in r ==> exists k :: 0 <= k < |ls| && keyOf(ls[k]) == key
  {
    map k | 0 <= k < |ls| :: keyOf(ls[k]) := []
  }

  /** A link whose key is known (its flow can be evaluated) and registered. */
  predicate Keyed(key: Option<string>, keys: set<string>) {
    key.Some? && key.value in keys
  }

  /** A link as its constructor left it (nothing resolved, series key built
      from its first two names) whose first two names both name nodes. */
  predicate FreshAndNamed(ends: seq<nat>, capNames: seq<string>, fromToName: string, nodes: seq<Node>) {
    ends == [] && |capNames| >= 2 && fromToName == FromTo(capNames[0], capNames[1]) &&
    FirstNamed(nodes, capNames[0]).Some? && FirstNamed(nodes, capNames[1]).Some?
  }

  /** The key `run` builds for such a link once loaded is the link's own
      `from_to_name`. */
  lemma LoadedKey(ends: seq<nat>, capNames: seq<string>, fromToName: string, nodes: seq<Node>, m: Model)
    requires FreshAndNamed(ends, capNames, fromToName, nodes) && SameNames(m.nodes, nodes)
    ensures var e := ends + Resolve(capNames, nodes);
            |e| >= 2 && EndsIn(e, |m.nodes|) && LinkKey(e, m.nodes) == fromToName
  {
    ResolveFirstTwo(capNames, nodes);
  }

  lemma LoadedConductorKey(nodes: seq<Node>, cs: seq<Conductor.Conductor>, m: Model, k: nat)
    requires SameNames(m.nodes, nodes) && |m.conductors| == |cs| && k < |cs|
    requires FreshAndNamed(cs[k].ends, cs[k].capNames, cs[k].fromToName, nodes)
    requires m.conductors[k] == WithEnds(cs[k], nodes)
    ensures |m.conductors[k].ends| >= 2 && EndsIn(m.conductors[k].ends, |m.nodes|)
    ensures LinkKey(m.conductors[k].ends, m.nodes) == m.conductors[k].fromToName
  {
    LoadedKey(cs[k].ends, cs[k].capNames, cs[k].fromToName, nodes, m);
    assert m.conductors[k].ends == cs[k].ends + Resolve(cs[k].capNames, nodes);
  }

  lemma LoadedRadiatorKey(nodes: seq<Node>, rs: seq<Radiator.Radiator>, m: Model, k: nat)
    requires SameNames(m.nodes, nodes) && |m.radiators| == |rs| && k < |rs|
    requires FreshAndNamed(rs[k].ends, rs[k].capNames, rs[k].fromToName, nodes)
    requires m.radiators[k] == WithRadEnds(rs[k], nodes)
    ensures |m.radiators[k].ends| >= 2 && EndsIn(m.radiators[k].ends, |m.nodes|)
    ensures LinkKey(m.radiators[k].ends, m.nodes) == m.radiators[k].fromToName
  {
    LoadedKey(rs[k].ends, rs[k].capNames, rs[k].fromToName, nodes, m);
    assert m.radiators[k].ends == rs[k].ends + Resolve(rs[k].capNames, nodes);
  }

  /** In a freshly loaded model whose links all name nodes with their first
      two names, every link's key is the `from_to_name` registered in the
      series `run` starts from. */
  lemma LoadedKeysRegistered(nodes: seq<Node>, cs: seq<Conductor.Conductor>, rs: seq<Radiator.Radiator>, m: Model)
    requires forall k :: 0 <= k < |cs| ==> FreshAndNamed(cs[k].ends, cs[k].capNames, cs[k].fromToName, nodes)
    requires forall k :: 0 <= k < |rs| ==> FreshAndNamed(rs[k].ends, rs[k].capNames, rs[k].fromToName, nodes)
    requires SameNames(m.nodes, nodes) && |m.conductors| == |cs| && |m.radiators| == |rs|
    requires forall k :: 0 <= k < |cs| ==> m.conductors[k] == WithEnds(cs[k], nodes)
    requires forall k :: 0 <= k < |rs| ==> m.radiators[k] == WithRadEnds(rs[k], nodes)
    ensures LinksIn(m)
    ensures forall k :: 0 <= k < |m.conductors| ==>
              |m.conductors[k].ends| >= 2 && LinkKey(m.conductors[k].ends, m.nodes) in InitialSeries(m).con
    ensures forall k :: 0 <= k < |m.radiators| ==>
              |m.radiators[k].ends| >= 2 && LinkKey(m.radiators[k].ends, m.nodes) in InitialSeries(m).rad
  {
    LoadedConductorsRegistered(nodes, cs, m);
    LoadedRadiatorsRegistered(nodes, rs, m);
  }

  lemma LoadedConductorsRegistered(nodes: seq<Node>, cs: seq<Conductor.Conductor>, m: Model)
    requires forall k :: 0 <= k < |cs| ==> FreshAndNamed(cs[k].ends, cs[k].capNames, cs[k].fromToName, nodes)
    requires SameNames(m.nodes, nodes) && |m.conductors| == |cs|
    requires forall k :: 0 <= k < |cs| ==> m.conductors[k] == WithEnds(cs[k], nodes)
    ensures forall k :: 0 <= k < |m.conductors| ==> EndsIn(m.conductors[k].ends, |m.nodes|)
    ensures forall k :: 0 <= k < |m.conductors| ==>
              |m.conductors[k].ends| >= 2 && LinkKey(m.conductors[k].ends, m.nodes) in InitialSeries(m).con
  {
    forall k | 0 <= k < |cs|
      ensures EndsIn(m.conductors[k].ends, |m.nodes|)
      ensures |m.conductors[k].ends| >= 2 && LinkKey(m.conductors[k].ends, m.nodes) in InitialSeries(m).con
    {
      LoadedConductorKey(nodes, cs, m, k);
      RegisteredConductor(m, k);
    }
  }

  lemma LoadedRadiatorsRegistered(nodes: seq<Node>, rs: seq<Radiator.Radiator>, m: Model)
    requires forall k :: 0 <= k < |rs| ==> FreshAndNamed(rs[k].ends, rs[k].capNames, rs[k].fromToName, nodes)
    requires SameNames(m.nodes, nodes) && |m.radiators| == |rs|
    requires forall k :: 0 <= k < |rs| ==> m.radiators[k] == WithRadEnds(rs[k], nodes)
    ensures forall k :: 0 <= k < |m.radiators| ==> EndsIn(m.radiators[k].ends, |m.nodes|)
    ensures forall k :: 0 <= k < |m.radiators| ==>
              |m.radiators[k].ends| >= 2 && LinkKey(m.radiators[k].ends, m.nodes) in InitialSeries(m).rad
  {
    forall k | 0 <= k < |rs|
      ensures EndsIn(m.radiators[k].ends, |m.nodes|)
      ensures |m.radiators[k].ends| >= 2 && LinkKey(m.radiators[k].ends, m.nodes) in InitialSeries(m).rad
    {
      LoadedRadiatorKey(nodes, rs, m, k);
      RegisteredRadiator(m, k);
    }
  }

  lemma RegisteredConductor(m: Model, k: nat)
    requires k < |m.conductors|
    ensures m.conductors[k].fromToName in InitialSeries(m).con
  {
  }

  lemma RegisteredRadiator(m: Model, k: nat)
    requires k < |m.radiators|
    ensures m.radiators[k].fromToName in InitialSeries(m).rad
  {
  }

  /** The powers a phase appends under `key`, in link order. */
  function PowersUnder<L>(ls: seq<L>, keyOf: L -> Option<string>, flowOf: L -> Flow, key: string): seq<real>
    decreases |ls|
  {
    if |ls| == 0 then []
    else (if keyOf(ls[0]) == Some(key) then [flowOf(ls[0]).power] else []) + PowersUnder(ls[1..], keyOf, flowOf, key)
  }

  lemma {:induction false} PowersUnderAbsent<L>(ls: seq<L>, keyOf: L -> Option<string>, flowOf: L -> Flow, key: string)
    requires forall j :: 0 <= j < |ls| ==> keyOf(ls[j]) != Some(key)
    ensures PowersUnder(ls, keyOf, flowOf, key) == []
    decreases |ls|
  {
    if |ls| > 0 {
      assert forall j :: 0 <= j < |ls| - 1 ==> ls[1..][j] == ls[j + 1];
      PowersUnderAbsent(ls[1..], keyOf, flowOf, key);
    }
  }

  /** With pairwise distinct keys, each link appends exactly one entry, its
      own power, under its own key. */
  lemma {:induction false} PowersUnderDistinct<L>(ls: seq<L>, keyOf: L -> Option<string>, flowOf: L -> Flow, k: nat)
    requires k < |ls| && keyOf(ls[k]).Some?
    requires forall j :: 0 <= j < |ls| && j != k ==> keyOf(ls[j]) != keyOf(ls[k])
    ensures PowersUnder(ls, keyOf, flowOf, keyOf(ls[k]).value) == [flowOf(ls[k]).power]
    decreases |ls|
  {
    var key := keyOf(ls[k]).value;
    assert forall j :: 0 <= j < |ls| - 1 ==> ls[1..][j] == ls[j + 1];
    if k == 0 {
      PowersUnderAbsent(ls[1..], keyOf, flowOf, key);
    } else {
      PowersUnderDistinct(ls[1..], keyOf, flowOf, k - 1);
    }
  }

  // ---------------------------------------------------------------- flows at the start of a tick

  /** Two node lists with the same names and temperatures: every flow and
      every series key computed from one equals the one computed from the
      other. */
  predicate Agree(a: seq<Node>, b: seq<Node>) {
    |a| == |b| && forall i :: 0 <= i < |a| ==> a[i].name == b[i].name && a[i].temperature == b[i].temperature
  }

  /** The flow of a conductor at the temperatures of `snapshot` (zero for a
      conductor that cannot be evaluated; no phase that succeeds has one). */
  function ConFlowOf(snapshot: seq<Node>, cat: Catalogs): Conductor.Conductor -> Flow {
    (c: Conductor.Conductor) => if EndsIn(c.ends, |snapshot|) && Conductor.ConductorFlow(c, snapshot, cat).Ok?
         then Conductor.ConductorFlow(c, snapshot, cat).value else Flow(0, 0, 0.0)
  }

  /** The series key of a conductor in `snapshot`, if its flow can be
      evaluated. */
  function ConKeyOf(snapshot: seq<Node>, cat: Catalogs): Conductor.Conductor -> Option<string> {
    (c: Conductor.Conductor) => if EndsIn(c.ends, |snapshot|) && Conductor.ConductorFlow(c, snapshot, cat).Ok?
         then Some(LinkKey(c.ends, snapshot)) else None
  }

  function RadFlowOf(snapshot: seq<Node>): Radiator.Radiator -> Flow {
    (r: Radiator.Radiator) => if EndsIn(r.ends, |snapshot|) && Radiator.RadiatorFlow(r, snapshot).Ok?
         then Radiator.RadiatorFlow(r, snapshot).value else Flow(0, 0, 0.0)
  }

  function RadKeyOf(snapshot: seq<Node>): Radiator.Radiator -> Option<string> {
    (r: Radiator.Radiator) => if EndsIn(r.ends, |snapshot|) && Radiator.RadiatorFlow(r, snapshot).Ok?
         then Some(LinkKey(r.ends, snapshot)) else None
  }

  lemma ConductorFlowAgree(c: Conductor.Conductor, a: seq<Node>, b: seq<Node>, cat: Catalogs)
    requires Agree(a, b) && EndsIn(c.ends, |a|)
    ensures Conductor.ConductorFlow(c, a, cat) == Conductor.ConductorFlow(c, b, cat)
  {
    var fa, fb := Conductor.ConductorFlow(c, a, cat), Conductor.ConductorFlow(c, b, cat);
    if fa.Ok? {
      assert a[c.ends[0]].temperature == b[c.ends[0]].temperature;
      assert a[c.ends[1]].temperature == b[c.ends[1]].temperature;
      assert fa.value == fb.value;
    }
  }

  lemma RadiatorFlowAgree(rad: Radiator.Radiator, a: seq<Node>, b: seq<Node>)
    requires Agree(a, b) && EndsIn(rad.ends, |a|)
    ensures Radiator.RadiatorFlow(rad, a) == Radiator.RadiatorFlow(rad, b)
  {
  }

  // ---------------------------------------------------------------- the three phases

  /** The conductor loop of a tick: each conductor in turn transfers heat and
      appends its power under `cap_a.name + '->' + cap_b.name`, which must
      already be a key of `con_series` (KeyError otherwise). The loop only
      moves heat between conduction accumulators: their total is unchanged
      and nothing else about any node changes. */
  function ConductorPhase(nodes: seq<Node>, cs: seq<Conductor.Conductor>, series: map<string, seq<real>>, cat: Catalogs)
    : (r: Result<(seq<Node>, map<string, seq<real>>)>)
    requires forall k :: 0 <= k < |cs| ==> EndsIn(cs[k].ends, |nodes|)
    ensures r.Ok? ==> |r.value.0| == |nodes|
    ensures r.Ok? ==> SumAcc(r.value.0, Conductive) == SumAcc(nodes, Conductive)
    ensures r.Ok? ==> forall i :: 0 <= i < |nodes| ==> r.value.0[i].(conPower := nodes[i].conPower) == nodes[i]
    ensures r.Ok? ==> r.value.1.Keys == series.Keys
    decreases |cs|
  {
    if |cs| == 0 then Ok((nodes, series))
    else
      var t :- Conductor.TransferHeat(cs[0], nodes, cat);
      var key := FromTo(nodes[t.a].name, nodes[t.b].name);
      if key !in series then Err(KeyMissing(key))
      else
        var rest := ConductorPhase(t.nodes, cs[1..], series[key := series[key] + [t.power]], cat);
        if rest.Ok? then
          OnlyConTrans(nodes, t.nodes, rest.value.0);
          rest
        else rest
  }

  /** The radiator loop of a tick: as the conductor loop, on the radiation
      accumulators and `rad_series`, and each radiator logs `[time, power]`. */
  function RadiatorPhase(nodes: seq<Node>, rs: seq<Radiator.Radiator>, series: map<string, seq<real>>, time: real)
    : (r: Result<(seq<Node>, seq<Radiator.Radiator>, map<string, seq<real>>)>)
    requires forall k :: 0 <= k < |rs| ==> EndsIn(rs[k].ends, |nodes|)
    ensures r.Ok? ==> |r.value.0| == |nodes| && |r.value.1| == |rs|
    ensures r.Ok? ==> SumAcc(r.value.0, Radiative) == SumAcc(nodes, Radiative)
    ensures r.Ok? ==> forall i :: 0 <= i < |nodes| ==> r.value.0[i].(radPower := nodes[i].radPower) == nodes[i]
    ensures r.Ok? ==> forall k :: 0 <= k < |rs| ==> r.value.1[k].ends == rs[k].ends
    ensures r.Ok? ==> r.value.2.Keys == series.Keys
    decreases |rs|
  {
    if |rs| == 0 then Ok((nodes, [], series))
    else
      var t :- Radiator.TransferHeat(rs[0], nodes, time);
      var key := FromTo(nodes[t.transfer.a].name, nodes[t.transfer.b].name);
      if key !in series then Err(KeyMissing(key))
      else
        var rest :- RadiatorPhase(t.transfer.nodes, rs[1..], series[key := series[key] + [t.transfer.power]], time);
        OnlyRadTrans(nodes, t.transfer.nodes, rest.0);
        Ok((rest.0, [t.radiator] + rest.1, rest.2))
  }

  /** `find_new_temperature`, dispatched on the class of the node. Either way
      the old temperature is logged, the temperature takes one explicit-Euler
      step and both accumulators are reset. */
  function Step(node: Node, time: real, deltaTime: real, cat: Catalogs): (r: Result<Updated>)
    ensures r.Ok? ==> Capacity(node, cat).Ok? &&
                      (if node.kind.CoolerKind? then Cooler.CoolerPower(node, cat).Ok? else CoolingPower(node, cat).Ok?)
    ensures r.Ok? ==> r.value.node.conPower == 0.0 && r.value.node.radPower == 0.0
    ensures r.Ok? ==> r.value.node.tempLog == node.tempLog + [Entry(time, node.temperature)]
    ensures r.Ok? ==> r.value.node.name == node.name
    ensures r.Ok? ==> EnergyBalanced(node, r.value, Capacity(node, cat).value, deltaTime)
    ensures r.Ok? ==> r.value.totalPower == node.conPower + node.radPower -
                        (if node.kind.CoolerKind? then Cooler.CoolerPower(node, cat).value
                         else CoolingPower(node, cat).value)
  {
    match node.kind
    case CoolerKind => Cooler.FindNewTemperature(node, time, deltaTime, cat)
    case PlainKind(_) => Capacitor.FindNewTemperature(node, time, deltaTime, cat)
  }

  /** The temperatures, in order, of the nodes called `key`. */
  function TemperaturesNamed(nodes: seq<Node>, key: string): seq<real>
    decreases |nodes|
  {
    if |nodes| == 0 then []
    else (if nodes[0].name == key then [nodes[0].temperature] else []) + TemperaturesNamed(nodes[1..], key)
  }

  lemma {:induction false} TemperaturesNamedDistinct(nodes: seq<Node>, i: nat)
    requires i < |nodes| && DistinctNames(nodes)
    ensures TemperaturesNamed(nodes, nodes[i].name) == [nodes[i].temperature]
    decreases |nodes|
  {
    var rest := nodes[1..];
    assert forall j :: 0 <= j < |rest| ==> rest[j] == nodes[j + 1];
    if i == 0 {
      TemperaturesNamedAbsent(rest, nodes[0].name);
    } else {
      TemperaturesNamedDistinct(rest, i - 1);
    }
  }

  lemma {:induction false} TemperaturesNamedAbsent(nodes: seq<Node>, key: string)
    requires forall j :: 0 <= j < |nodes| ==> nodes[j].name != key
    ensures TemperaturesNamed(nodes, key) == []
    decreases |nodes|
  {
    if |nodes| > 0 {
      assert forall j :: 0 <= j < |nodes| - 1 ==> nodes[1..][j] == nodes[j + 1];
      TemperaturesNamedAbsent(nodes[1..], key);
    }
  }

  lemma TemperaturesNamedAllDistinct(nodes: seq<Node>)
    requires DistinctNames(nodes)
    ensures forall i :: 0 <= i < |nodes| ==> TemperaturesNamed(nodes, nodes[i].name) == [nodes[i].temperature]
  {
    forall i | 0 <= i < |nodes| {
      TemperaturesNamedDistinct(nodes, i);
    }
  }

  /** The node loop of a tick: every node steps on its own state alone, and
      its new temperature is appended under its name, which must be a key of
      `temp_series`. The loop stops at the first node that fails. */
  function NodePhase(nodes: seq<Node>, temps: map<string, seq<real>>, time: real, deltaTime: real, cat: Catalogs)
    : (r: Result<(seq<Node>, map<string, seq<real>>)>)
    ensures r.Ok? <==> forall i :: 0 <= i < |nodes| ==> Steps(nodes[i], temps.Keys, time, deltaTime, cat)
    ensures r.Ok? ==> Mapped(nodes, r.value.0, StepOf(time, deltaTime, cat))
    ensures r.Ok? ==> r.value.1.Keys == temps.Keys
    decreases |nodes|
  {
    if |nodes| == 0 then Ok(([], temps))
    else
      var u :- Step(nodes[0], time, deltaTime, cat);
      var key := nodes[0].name;
      if key !in temps then Err(KeyMissing(key))
      else
        var temps1 := temps[key := temps[key] + [u.node.temperature]];
        assert temps1.Keys == temps.Keys;
        assert forall i :: 1 <= i < |nodes| ==> nodes[1..][i - 1] == nodes[i];
        var rest :- NodePhase(nodes[1..], temps1, time, deltaTime, cat);
        MappedCons(nodes, u.node, rest.0, StepOf(time, deltaTime, cat));
        Ok(([u.node] + rest.0, rest.1))
  }

  /** A node takes its update and has a temperature series to extend. */
  predicate Steps(n: Node, keys: set<string>, time: real, deltaTime: real, cat: Catalogs) {
    Step(n, time, deltaTime, cat).Ok? && n.name in keys
  }

  /** The update of each node on its own: `find_new_temperature` at `time`. */
  function StepOf(time: real, deltaTime: real, cat: Catalogs): Node -> Result<Updated> {
    (n: Node) => Step(n, time, deltaTime, cat)
  }

  /** Each node of `out` is the update, by `f`, of the node at the same
      position of `nodes`. */
  predicate Mapped(nodes: seq<Node>, out: seq<Node>, f: Node -> Result<Updated>) {
    |out| == |nodes| && forall i :: 0 <= i < |nodes| ==> f(nodes[i]).Ok? && out[i] == f(nodes[i]).value.node
  }

  lemma MappedCons(nodes: seq<Node>, head: Node, rest: seq<Node>, f: Node -> Result<Updated>)
    requires |nodes| > 0 && f(nodes[0]).Ok? && head == f(nodes[0]).value.node
    requires Mapped(nodes[1..], rest, f)
    ensures Mapped(nodes, [head] + rest, f)
  {
    var out := [head] + rest;
    forall i | 1 <= i < |nodes|
      ensures f(nodes[i]).Ok? && out[i] == f(nodes[i]).value.node
    {
      assert out[i] == rest[i - 1];
      assert nodes[1..][i - 1] == nodes[i];
    }
  }

  /** The node loop appends to each name's series the new temperatures of
      the nodes of that name, in order. */
  lemma {:induction false} NodePhaseSeries(nodes: seq<Node>, temps: map<string, seq<real>>, time: real,
                                           deltaTime: real, cat: Catalogs)
    requires NodePhase(nodes, temps, time, deltaTime, cat).Ok?
    ensures var r := NodePhase(nodes, temps, time, deltaTime, cat).value;
            forall key :: key in temps ==> r.1[key] == temps[key] + TemperaturesNamed(r.0, key)
    decreases |nodes|
  {
    var r := NodePhase(nodes, temps, time, deltaTime, cat).value;
    if |nodes| > 0 {
      var u := Step(nodes[0], time, deltaTime, cat).value;
      var key := nodes[0].name;
      var temps1 := temps[key := temps[key] + [u.node.temperature]];
      var rest := NodePhase(nodes[1..], temps1, time, deltaTime, cat);
      assert rest.Ok? && r == ([u.node] + rest.value.0, rest.value.1);
      NodePhaseSeries(nodes[1..], temps1, time, deltaTime, cat);
      assert r.0[1..] == rest.value.0;
      assert u.node.name == key;
      forall k | k in temps
        ensures r.1[k] == temps[k] + TemperaturesNamed(r.0, k)
      {
        assert k in temps1;
        SeriesCons(temps, u.node, rest.value.0, rest.value.1, k);
      }
    }
  }

  /** One step of the series recurrence: appending a node's temperature
      under its name, then the rest's, is appending all of them. */
  lemma SeriesCons(temps: map<string, seq<real>>, n: Node, ns: seq<Node>, out: map<string, seq<real>>, k: string)
    requires n.name in temps && k in temps && k in out
    requires out[k] == temps[n.name := temps[n.name] + [n.temperature]][k] + TemperaturesNamed(ns, k)
    ensures out[k] == temps[k] + TemperaturesNamed([n] + ns, k)
  {
    assert ([n] + ns)[0] == n;
    assert ([n] + ns)[1..] == ns;
    if n.name == k {
      assert out[k] == (temps[k] + [n.temperature]) + TemperaturesNamed(ns, k);
    } else {
      assert out[k] == temps[k] + TemperaturesNamed(ns, k);
    }
  }

  // ---------------------------------------------------------------- one tick

  /** The nodes and series after the two link phases of a tick. */
  datatype Linked = Linked(nodes: seq<Node>, radiators: seq<Radiator.Radiator>,
                           con: map<string, seq<real>>, rad: map<string, seq<real>>)

  /** The conductor loop, then the radiator loop. Temperatures and names stay
      as they were, and each accumulator's total over all nodes is unchanged. */
  function LinkPhases(m: Model, series: Series, time: real, cat: Catalogs): (r: Result<Linked>)
    requires LinksIn(m)
    ensures r.Ok? ==> Agree(r.value.nodes, m.nodes)
    ensures r.Ok? ==> SumAcc(r.value.nodes, Conductive) == SumAcc(m.nodes, Conductive)
    ensures r.Ok? ==> SumAcc(r.value.nodes, Radiative) == SumAcc(m.nodes, Radiative)
    ensures r.Ok? ==> |r.value.radiators| == |m.radiators| &&
                      forall k :: 0 <= k < |m.radiators| ==> r.value.radiators[k].ends == m.radiators[k].ends
    ensures r.Ok? ==> r.value.con.Keys == series.con.Keys && r.value.rad.Keys == series.rad.Keys
  {
    var c :- ConductorPhase(m.nodes, m.conductors, series.con, cat);
    var rp :- RadiatorPhase(c.0, m.radiators, series.rad, time);
    LinkPhasesFacts(m.nodes, c.0, rp.0);
    Ok(Linked(rp.0, rp.1, c.1, rp.2))
  }

  lemma LinkPhasesFacts(nodes: seq<Node>, mid: seq<Node>, after: seq<Node>)
    requires |mid| == |nodes| && |after| == |nodes|
    requires forall i :: 0 <= i < |nodes| ==> mid[i].(conPower := nodes[i].conPower) == nodes[i]
    requires forall i :: 0 <= i < |nodes| ==> after[i].(radPower := mid[i].radPower) == mid[i]
    ensures Agree(after, nodes)
    ensures SumAcc(after, Conductive) == SumAcc(mid, Conductive)
    ensures SumAcc(mid, Radiative) == SumAcc(nodes, Radiative)
  {
    forall i | 0 <= i < |nodes|
      ensures after[i].name == nodes[i].name && after[i].temperature == nodes[i].temperature
      ensures Acc(after[i], Conductive) == Acc(mid[i], Conductive)
      ensures Acc(mid[i], Radiative) == Acc(nodes[i], Radiative)
    {
      assert mid[i].name == nodes[i].name && mid[i].temperature == nodes[i].temperature;
      assert mid[i].radPower == nodes[i].radPower;
      assert after[i].conPower == mid[i].conPower;
    }
    SumAccPointwise(after, mid, Conductive);
    SumAccPointwise(mid, nodes, Radiative);
  }

  lemma {:induction false} SumAccPointwise(a: seq<Node>, b: seq<Node>, ch: Channel)
    requires |a| == |b| && forall i :: 0 <= i < |a| ==> Acc(a[i], ch) == Acc(b[i], ch)
    ensures SumAcc(a, ch) == SumAcc(b, ch)
    decreases |a|
  {
    if |a| > 0 {
      SumAccPointwise(a[..|a| - 1], b[..|b| - 1], ch);
    }
  }

  lemma {:induction false} SumAccReset(nodes: seq<Node>, ch: Channel)
    requires AllReset(nodes)
    ensures SumAcc(nodes, ch) == 0.0
    decreases |nodes|
  {
    if |nodes| > 0 {
      SumAccReset(nodes[..|nodes| - 1], ch);
    }
  }

  /** Starting from reset accumulators, the link phases of a tick leave both
      accumulators summing to zero over all nodes: every watt taken from one
      node was given to another. */
  lemma LinkPhasesBalance(m: Model, series: Series, time: real, cat: Catalogs)
    requires LinksIn(m) && AllReset(m.nodes)
    requires LinkPhases(m, series, time, cat).Ok?
    ensures SumAcc(LinkPhases(m, series, time, cat).value.nodes, Conductive) == 0.0
    ensures SumAcc(LinkPhases(m, series, time, cat).value.nodes, Radiative) == 0.0
  {
    SumAccReset(m.nodes, Conductive);
    SumAccReset(m.nodes, Radiative);
  }

  /** The state `run` carries from tick to tick. */
  datatype State = State(model: Model, series: Series)

  /** One pass of the `for time in times` loop of `run`. */
  function Tick(s: State, time: real, deltaTime: real, cat: Catalogs): (r: Result<State>)
    requires LinksIn(s.model)
    ensures r.Ok? ==> r.value.model.conductors == s.model.conductors
    ensures r.Ok? ==> |r.value.model.nodes| == |s.model.nodes|
    ensures r.Ok? ==> forall i :: 0 <= i < |s.model.nodes| ==> r.value.model.nodes[i].name == s.model.nodes[i].name
    ensures r.Ok? ==> LinksIn(r.value.model)
    ensures r.Ok? ==> AllReset(r.value.model.nodes)
    ensures r.Ok? ==> r.value.series.temps.Keys == s.series.temps.Keys &&
                      r.value.series.con.Keys == s.series.con.Keys &&
                      r.value.series.rad.Keys == s.series.rad.Keys
    ensures r.Ok? && DistinctNames(s.model.nodes) ==> forall i :: 0 <= i < |s.model.nodes| ==>
              s.model.nodes[i].name in s.series.temps &&
              r.value.series.temps[s.model.nodes[i].name] ==
                s.series.temps[s.model.nodes[i].name] + [r.value.model.nodes[i].temperature]
  {
    var l :- LinkPhases(s.model, s.series, time, cat);
    var n :- NodePhase(l.nodes, s.series.temps, time, deltaTime, cat);
    NodePhaseSeries(l.nodes, s.series.temps, time, deltaTime, cat);
    var next := State(Model(n.0, s.model.conductors, l.radiators), Series(n.1, l.con, l.rad));
    if DistinctNames(s.model.nodes) then
      TemperaturesNamedAllDistinct(n.0);
      Ok(next)
    else Ok(next)
  }

  /** The node list after both link phases in closed form: each accumulator
      has moved by the contributions of all conductors and then all
      radiators, every flow taken at the start-of-tick temperatures. */
  function Settled(m: Model, cat: Catalogs): (r: seq<Node>)
    ensures Agree(r, m.nodes)
  {
    Settle(Settle(m.nodes, m.conductors, ConFlowOf(m.nodes, cat), Conductive), m.radiators, RadFlowOf(m.nodes), Radiative)
  }

  /** Every link can be evaluated and its key is registered. */
  predicate LinksReady(m: Model, series: Series, cat: Catalogs) {
    ConductorsKeyed(m.nodes, m.conductors, series.con, cat) && RadiatorsKeyed(m.nodes, m.radiators, series.rad)
  }

  /** Every conductor has a known key, registered in `series`. */
  predicate ConductorsKeyed(snapshot: seq<Node>, cs: seq<Conductor.Conductor>, series: map<string, seq<real>>, cat: Catalogs) {
    forall c :: c in cs ==> Keyed(ConKeyOf(snapshot, cat)(c), series.Keys)
  }

  /** Every radiator has a known key, registered in `series`. */
  predicate RadiatorsKeyed(snapshot: seq<Node>, rs: seq<Radiator.Radiator>, series: map<string, seq<real>>) {
    forall rad :: rad in rs ==> Keyed(RadKeyOf(snapshot)(rad), series.Keys)
  }

  /** One conductor of the loop: when its key is known and registered, the
      loop deposits its flow at the snapshot temperatures, appends its power
      under its key and goes on with the rest; otherwise the loop fails. */
  lemma ConductorPhaseStep(nodes: seq<Node>, snapshot: seq<Node>, cs: seq<Conductor.Conductor>,
                           series: map<string, seq<real>>, cat: Catalogs)
    requires Agree(nodes, snapshot) && |cs| > 0
    requires forall k :: 0 <= k < |cs| ==> EndsIn(cs[k].ends, |nodes|)
    ensures !Keyed(ConKeyOf(snapshot, cat)(cs[0]), series.Keys) ==> ConductorPhase(nodes, cs, series, cat).Err?
    ensures Keyed(ConKeyOf(snapshot, cat)(cs[0]), series.Keys) ==>
              var f := ConFlowOf(snapshot, cat)(cs[0]);
              var key := ConKeyOf(snapshot, cat)(cs[0]).value;
              FlowIn(f, |nodes|) && Agree(Deposit(nodes, f, Conductive), snapshot) &&
              (forall k :: 0 <= k < |cs| - 1 ==> EndsIn(cs[1..][k].ends, |nodes|)) &&
              ConductorPhase(nodes, cs, series, cat) ==
                ConductorPhase(Deposit(nodes, f, Conductive), cs[1..], series[key := series[key] + [f.power]], cat)
  {
    ConductorTransferAgree(cs[0], nodes, snapshot, cat);
    assert forall k :: 0 <= k < |cs| - 1 ==> cs[1..][k] == cs[k + 1];
  }

  /** One conductor transfer on a list that agrees with `snapshot` deposits
      the flow and has the key computed from `snapshot`. */
  lemma ConductorTransferAgree(c: Conductor.Conductor, nodes: seq<Node>, snapshot: seq<Node>, cat: Catalogs)
    requires Agree(nodes, snapshot) && EndsIn(c.ends, |nodes|)
    ensures Conductor.TransferHeat(c, nodes, cat).Ok? <==> ConKeyOf(snapshot, cat)(c).Some?
    ensures Conductor.TransferHeat(c, nodes, cat).Ok? ==>
              var t := Conductor.TransferHeat(c, nodes, cat).value;
              var f := ConFlowOf(snapshot, cat)(c);
              FlowIn(f, |nodes|) && t.nodes == Deposit(nodes, f, Conductive) && t.power == f.power &&
              Agree(t.nodes, snapshot) &&
              ConKeyOf(snapshot, cat)(c) == Some(FromTo(nodes[t.a].name, nodes[t.b].name))
  {
    ConductorFlowAgree(c, nodes, snapshot, cat);
    var tr := Conductor.TransferHeat(c, nodes, cat);
    if tr.Ok? {
      var t := tr.value;
      assert ConFlowOf(snapshot, cat)(c) == Conductor.ConductorFlow(c, nodes, cat).value;
      assert t.nodes == Deposit(nodes, ConFlowOf(snapshot, cat)(c), Conductive);
    }
  }

  /** The conductor loop succeeds exactly when every conductor can be
      evaluated and has a registered key. */
  lemma {:induction false} ConductorPhaseReady(nodes: seq<Node>, snapshot: seq<Node>, cs: seq<Conductor.Conductor>,
                                                series: map<string, seq<real>>, cat: Catalogs)
    requires Agree(nodes, snapshot)
    requires forall k :: 0 <= k < |cs| ==> EndsIn(cs[k].ends, |nodes|)
    ensures ConductorPhase(nodes, cs, series, cat).Ok? <==>
              forall c :: c in cs ==> Keyed(ConKeyOf(snapshot, cat)(c), series.Keys)
    decreases |cs|
  {
    if |cs| > 0 {
      assert cs == [cs[0]] + cs[1..];
      assert forall x :: x in cs <==> x == cs[0] || x in cs[1..];
      ConductorPhaseStep(nodes, snapshot, cs, series, cat);
      var keyOf, flowOf := ConKeyOf(snapshot, cat), ConFlowOf(snapshot, cat);
      if Keyed(keyOf(cs[0]), series.Keys) {
        var key := keyOf(cs[0]).value;
        var next := series[key := series[key] + [flowOf(cs[0]).power]];
        assert next.Keys == series.Keys;
        ConductorPhaseReady(Deposit(nodes, flowOf(cs[0]), Conductive), snapshot, cs[1..], next, cat);
      }
    }
  }

  /** A successful conductor loop is the settlement of all conductors at the
      snapshot temperatures. */
  lemma {:induction false} ConductorPhaseSettles(nodes: seq<Node>, snapshot: seq<Node>, cs: seq<Conductor.Conductor>,
                                                  series: map<string, seq<real>>, cat: Catalogs)
    requires Agree(nodes, snapshot)
    requires forall k :: 0 <= k < |cs| ==> EndsIn(cs[k].ends, |nodes|)
    requires ConductorPhase(nodes, cs, series, cat).Ok?
    ensures ConductorPhase(nodes, cs, series, cat).value.0 == Settle(nodes, cs, ConFlowOf(snapshot, cat), Conductive)
    decreases |cs|
  {
    var flowOf := ConFlowOf(snapshot, cat);
    if |cs| == 0 {
      SettleEmpty(nodes, flowOf, Conductive);
    } else {
      ConductorPhaseStep(nodes, snapshot, cs, series, cat);
      var key := ConKeyOf(snapshot, cat)(cs[0]).value;
      var next := series[key := series[key] + [flowOf(cs[0]).power]];
      ConductorPhaseSettles(Deposit(nodes, flowOf(cs[0]), Conductive), snapshot, cs[1..], next, cat);
      SettleStep(nodes, cs, flowOf, Conductive);
    }
  }

  /** A successful conductor loop appends to each key the powers, at the
      snapshot temperatures, of the conductors with that key, in order. */
  lemma {:induction false} ConductorPhaseSeries(nodes: seq<Node>, snapshot: seq<Node>, cs: seq<Conductor.Conductor>,
                                                 series: map<string, seq<real>>, cat: Catalogs)
    requires Agree(nodes, snapshot)
    requires forall k :: 0 <= k < |cs| ==> EndsIn(cs[k].ends, |nodes|)
    requires ConductorPhase(nodes, cs, series, cat).Ok?
    ensures forall key :: key in series ==>
              ConductorPhase(nodes, cs, series, cat).value.1[key] ==
                series[key] + PowersUnder(cs, ConKeyOf(snapshot, cat), ConFlowOf(snapshot, cat), key)
    decreases |cs|
  {
    var keyOf, flowOf := ConKeyOf(snapshot, cat), ConFlowOf(snapshot, cat);
    if |cs| > 0 {
      ConductorPhaseStep(nodes, snapshot, cs, series, cat);
      var key := keyOf(cs[0]).value;
      var next := series[key := series[key] + [flowOf(cs[0]).power]];
      ConductorPhaseSeries(Deposit(nodes, flowOf(cs[0]), Conductive), snapshot, cs[1..], next, cat);
      SeriesStep(series, cs, keyOf, flowOf, ConductorPhase(nodes, cs, series, cat).value.1, next);
    }
  }

  /** One step of the link-series recurrence: appending the first link's
      power under its key, then the rest's powers key by key, is appending
      all the links' powers key by key. */
  lemma SeriesStep<L>(series: map<string, seq<real>>, ls: seq<L>, keyOf: L -> Option<string>, flowOf: L -> Flow,
                      out: map<string, seq<real>>, next: map<string, seq<real>>)
    requires |ls| > 0 && keyOf(ls[0]).Some? && keyOf(ls[0]).value in series
    requires next == series[keyOf(ls[0]).value := series[keyOf(ls[0]).value] + [flowOf(ls[0]).power]]
    requires forall k :: k in next ==> k in out && out[k] == next[k] + PowersUnder(ls[1..], keyOf, flowOf, k)
    ensures forall k :: k in series ==> k in out && out[k] == series[k] + PowersUnder(ls, keyOf, flowOf, k)
  {
    forall k | k in series
      ensures k in out && out[k] == series[k] + PowersUnder(ls, keyOf, flowOf, k)
    {
      var head := if keyOf(ls[0]) == Some(k) then [flowOf(ls[0]).power] else [];
      var tail := PowersUnder(ls[1..], keyOf, flowOf, k);
      assert PowersUnder(ls, keyOf, flowOf, k) == head + tail;
      assert next[k] == series[k] + head;
      assert k in next && out[k] == next[k] + tail;
      AppendAssoc(series[k], head, tail);
    }
  }

  lemma AppendAssoc(a: seq<real>, b: seq<real>, c: seq<real>)
    ensures (a + b) + c == a + (b + c)
  {
  }

  /** One radiator of the loop, likewise; the radiator also logs its power. */
  lemma RadiatorPhaseStep(nodes: seq<Node>, snapshot: seq<Node>, rs: seq<Radiator.Radiator>,
                          series: map<string, seq<real>>, time: real)
    requires Agree(nodes, snapshot) && |rs| > 0
    requires forall k :: 0 <= k < |rs| ==> EndsIn(rs[k].ends, |nodes|)
    ensures !Keyed(RadKeyOf(snapshot)(rs[0]), series.Keys) ==> RadiatorPhase(nodes, rs, series, time).Err?
    ensures Keyed(RadKeyOf(snapshot)(rs[0]), series.Keys) ==>
              var f := RadFlowOf(snapshot)(rs[0]);
              var key := RadKeyOf(snapshot)(rs[0]).value;
              FlowIn(f, |nodes|) && Agree(Deposit(nodes, f, Radiative), snapshot) &&
              (forall k :: 0 <= k < |rs| - 1 ==> EndsIn(rs[1..][k].ends, |nodes|)) &&
              var rest := RadiatorPhase(Deposit(nodes, f, Radiative), rs[1..], series[key := series[key] + [f.power]], time);
              RadiatorPhase(nodes, rs, series, time).Ok? == rest.Ok? &&
              (rest.Ok? ==>
                 RadiatorPhase(nodes, rs, series, time).value ==
                 (rest.value.0, [rs[0].(powerLog := rs[0].powerLog + [Entry(time, f.power)])] + rest.value.1, rest.value.2))
  {
    RadiatorTransferAgree(rs[0], nodes, snapshot, time);
    assert forall k :: 0 <= k < |rs| - 1 ==> rs[1..][k] == rs[k + 1];
  }

  /** One radiator transfer on a list that agrees with `snapshot` deposits
      the flow, logs its power and has the key computed from `snapshot`. */
  lemma RadiatorTransferAgree(rad: Radiator.Radiator, nodes: seq<Node>, snapshot: seq<Node>, time: real)
    requires Agree(nodes, snapshot) && EndsIn(rad.ends, |nodes|)
    ensures Radiator.TransferHeat(rad, nodes, time).Ok? <==> RadKeyOf(snapshot)(rad).Some?
    ensures Radiator.TransferHeat(rad, nodes, time).Ok? ==>
              var t := Radiator.TransferHeat(rad, nodes, time).value;
              var f := RadFlowOf(snapshot)(rad);
              FlowIn(f, |nodes|) && t.transfer.nodes == Deposit(nodes, f, Radiative) &&
              t.transfer.power == f.power && Agree(t.transfer.nodes, snapshot) &&
              t.radiator == rad.(powerLog := rad.powerLog + [Entry(time, f.power)]) &&
              RadKeyOf(snapshot)(rad) == Some(FromTo(nodes[t.transfer.a].name, nodes[t.transfer.b].name))
  {
    RadiatorFlowAgree(rad, nodes, snapshot);
    var tr := Radiator.TransferHeat(rad, nodes, time);
    if tr.Ok? {
      var t := tr.value;
      assert RadFlowOf(snapshot)(rad) == Radiator.RadiatorFlow(rad, nodes).value;
      assert t.transfer.nodes == Deposit(nodes, RadFlowOf(snapshot)(rad), Radiative);
    }
  }

  /** The radiator loop succeeds exactly when every radiator can be
      evaluated and has a registered key. */
  lemma {:induction false} RadiatorPhaseReady(nodes: seq<Node>, snapshot: seq<Node>, rs: seq<Radiator.Radiator>,
                                               series: map<string, seq<real>>, time: real)
    requires Agree(nodes, snapshot)
    requires forall k :: 0 <= k < |rs| ==> EndsIn(rs[k].ends, |nodes|)
    ensures RadiatorPhase(nodes, rs, series, time).Ok? <==>
              forall rad :: rad in rs ==> Keyed(RadKeyOf(snapshot)(rad), series.Keys)
    decreases |rs|
  {
    if |rs| > 0 {
      assert rs == [rs[0]] + rs[1..];
      assert forall x :: x in rs <==> x == rs[0] || x in rs[1..];
      RadiatorPhaseStep(nodes, snapshot, rs, series, time);
      var keyOf, flowOf := RadKeyOf(snapshot), RadFlowOf(snapshot);
      if Keyed(keyOf(rs[0]), series.Keys) {
        var key := keyOf(rs[0]).value;
        var next := series[key := series[key] + [flowOf(rs[0]).power]];
        assert next.Keys == series.Keys;
        RadiatorPhaseReady(Deposit(nodes, flowOf(rs[0]), Radiative), snapshot, rs[1..], next, time);
      }
    }
  }

  /** A successful radiator loop is the settlement of all radiators at the
      snapshot temperatures, and every radiator logs `[time, power]` with its
      power at those temperatures. */
  lemma {:induction false} RadiatorPhaseSettles(nodes: seq<Node>, snapshot: seq<Node>, rs: seq<Radiator.Radiator>,
                                                 series: map<string, seq<real>>, time: real)
    requires Agree(nodes, snapshot)
    requires forall k :: 0 <= k < |rs| ==> EndsIn(rs[k].ends, |nodes|)
    requires RadiatorPhase(nodes, rs, series, time).Ok?
    ensures RadiatorPhase(nodes, rs, series, time).value.0 == Settle(nodes, rs, RadFlowOf(snapshot), Radiative)
    decreases |rs|
  {
    var flowOf := RadFlowOf(snapshot);
    if |rs| == 0 {
      SettleEmpty(nodes, flowOf, Radiative);
    } else {
      var f := flowOf(rs[0]);
      var d := Deposit(nodes, f, Radiative);
      var key := RadKeyOf(snapshot)(rs[0]).value;
      var rest := RadiatorPhase(d, rs[1..], series[key := series[key] + [f.power]], time);
      assert FlowIn(f, |nodes|) && Agree(d, snapshot) && (forall k :: 0 <= k < |rs| - 1 ==> EndsIn(rs[1..][k].ends, |d|)) &&
             rest.Ok? && RadiatorPhase(nodes, rs, series, time).value.0 == rest.value.0 by {
        RadiatorPhaseStep(nodes, snapshot, rs, series, time);
      }
      assert rest.value.0 == Settle(d, rs[1..], flowOf, Radiative) by {
        RadiatorPhaseSettles(d, snapshot, rs[1..], series[key := series[key] + [f.power]], time);
      }
      SettleStep(nodes, rs, flowOf, Radiative);
    }
  }

  /** A successful radiator loop logs, on every radiator in turn, its power
      at the snapshot temperatures. */
  lemma {:induction false} RadiatorPhaseLogs(nodes: seq<Node>, snapshot: seq<Node>, rs: seq<Radiator.Radiator>,
                                              series: map<string, seq<real>>, time: real)
    requires Agree(nodes, snapshot)
    requires forall k :: 0 <= k < |rs| ==> EndsIn(rs[k].ends, |nodes|)
    requires RadiatorPhase(nodes, rs, series, time).Ok?
    ensures forall k :: 0 <= k < |rs| ==>
              RadiatorPhase(nodes, rs, series, time).value.1[k] ==
                rs[k].(powerLog := rs[k].powerLog + [Entry(time, RadFlowOf(snapshot)(rs[k]).power)])
    decreases |rs|
  {
    var flowOf := RadFlowOf(snapshot);
    if |rs| > 0 {
      var f := flowOf(rs[0]);
      var d := Deposit(nodes, f, Radiative);
      var key := RadKeyOf(snapshot)(rs[0]).value;
      var rest := RadiatorPhase(d, rs[1..], series[key := series[key] + [f.power]], time);
      var head := rs[0].(powerLog := rs[0].powerLog + [Entry(time, f.power)]);
      assert Agree(d, snapshot) && (forall k :: 0 <= k < |rs| - 1 ==> EndsIn(rs[1..][k].ends, |d|)) &&
             rest.Ok? && RadiatorPhase(nodes, rs, series, time).value.1 == [head] + rest.value.1 by {
        RadiatorPhaseStep(nodes, snapshot, rs, series, time);
      }
      assert forall k :: 0 <= k < |rs| - 1 ==>
               rest.value.1[k] == rs[1..][k].(powerLog := rs[1..][k].powerLog + [Entry(time, flowOf(rs[1..][k]).power)]) by {
        RadiatorPhaseLogs(d, snapshot, rs[1..], series[key := series[key] + [f.power]], time);
      }
      LogsCons(RadiatorPhase(nodes, rs, series, time).value.1, rest.value.1, rs, flowOf, time);
    }
  }

  /** The logs of a whole radiator loop from the log of its first radiator
      and the logs of the rest. */
  lemma LogsCons(out: seq<Radiator.Radiator>, rest: seq<Radiator.Radiator>, rs: seq<Radiator.Radiator>,
                 flowOf: Radiator.Radiator -> Flow, time: real)
    requires |rs| > 0 && |rest| == |rs| - 1
    requires out == [rs[0].(powerLog := rs[0].powerLog + [Entry(time, flowOf(rs[0]).power)])] + rest
    requires forall k :: 0 <= k < |rs| - 1 ==>
               rest[k] == rs[1..][k].(powerLog := rs[1..][k].powerLog + [Entry(time, flowOf(rs[1..][k]).power)])
    ensures forall k :: 0 <= k < |rs| ==> out[k] == rs[k].(powerLog := rs[k].powerLog + [Entry(time, flowOf(rs[k]).power)])
  {
    forall k | 1 <= k < |rs|
      ensures out[k] == rs[k].(powerLog := rs[k].powerLog + [Entry(time, flowOf(rs[k]).power)])
    {
      assert out[k] == rest[k - 1];
      assert rs[1..][k - 1] == rs[k];
    }
  }

  /** A successful radiator loop appends to each key the powers, at the
      snapshot temperatures, of the radiators with that key, in order. */
  lemma {:induction false} RadiatorPhaseSeries(nodes: seq<Node>, snapshot: seq<Node>, rs: seq<Radiator.Radiator>,
                                                series: map<string, seq<real>>, time: real)
    requires Agree(nodes, snapshot)
    requires forall k :: 0 <= k < |rs| ==> EndsIn(rs[k].ends, |nodes|)
    requires RadiatorPhase(nodes, rs, series, time).Ok?
    ensures forall key :: key in series ==>
              RadiatorPhase(nodes, rs, series, time).value.2[key] ==
                series[key] + PowersUnder(rs, RadKeyOf(snapshot), RadFlowOf(snapshot), key)
    decreases |rs|
  {
    var keyOf, flowOf := RadKeyOf(snapshot), RadFlowOf(snapshot);
    if |rs| > 0 {
      RadiatorPhaseStep(nodes, snapshot, rs, series, time);
      var key := keyOf(rs[0]).value;
      var next := series[key := series[key] + [flowOf(rs[0]).power]];
      RadiatorPhaseSeries(Deposit(nodes, flowOf(rs[0]), Radiative), snapshot, rs[1..], next, time);
      SeriesStep(series, rs, keyOf, flowOf, RadiatorPhase(nodes, rs, series, time).value.2, next);
    }
  }

  /** The two link phases in closed form: they succeed exactly when every
      link can be evaluated under a registered key, and then leave the nodes
      settled at the start-of-tick temperatures. */
  lemma LinkPhasesClosedForm(m: Model, series: Series, time: real, cat: Catalogs)
    requires LinksIn(m)
    ensures LinkPhases(m, series, time, cat).Ok? <==> LinksReady(m, series, cat)
    ensures LinkPhases(m, series, time, cat).Ok? ==> LinkPhases(m, series, time, cat).value.nodes == Settled(m, cat)
  {
    LinkPhasesReady(m, series, time, cat);
    if LinkPhases(m, series, time, cat).Ok? {
      LinkPhasesSettled(m, series, time, cat);
    }
  }

  lemma LinkPhasesReady(m: Model, series: Series, time: real, cat: Catalogs)
    requires LinksIn(m)
    ensures LinkPhases(m, series, time, cat).Ok? <==> LinksReady(m, series, cat)
  {
    LinkPhasesUnfold(m, series, time, cat);
    var cp := ConductorPhase(m.nodes, m.conductors, series.con, cat);
    assert cp.Ok? <==> ConductorsKeyed(m.nodes, m.conductors, series.con, cat) by {
      ConductorPhaseReady(m.nodes, m.nodes, m.conductors, series.con, cat);
    }
    if cp.Ok? {
      var rp := RadiatorPhase(cp.value.0, m.radiators, series.rad, time);
      assert rp.Ok? <==> RadiatorsKeyed(m.nodes, m.radiators, series.rad) by {
        RadiatorPhaseReady(cp.value.0, m.nodes, m.radiators, series.rad, time);
      }
    }
  }

  lemma LinkPhasesSettled(m: Model, series: Series, time: real, cat: Catalogs)
    requires LinksIn(m) && LinkPhases(m, series, time, cat).Ok?
    ensures LinkPhases(m, series, time, cat).value.nodes == Settled(m, cat)
  {
    LinkPhasesUnfold(m, series, time, cat);
    var cp := ConductorPhase(m.nodes, m.conductors, series.con, cat);
    var settledC := Settle(m.nodes, m.conductors, ConFlowOf(m.nodes, cat), Conductive);
    assert cp.value.0 == settledC by {
      ConductorPhaseSettles(m.nodes, m.nodes, m.conductors, series.con, cat);
    }
    RadiatorPhaseSettles(settledC, m.nodes, m.radiators, series.rad, time);
  }

  /** The link phases are the conductor loop followed by the radiator loop. */
  lemma LinkPhasesUnfold(m: Model, series: Series, time: real, cat: Catalogs)
    requires LinksIn(m)
    ensures var cp := ConductorPhase(m.nodes, m.conductors, series.con, cat);
            LinkPhases(m, series, time, cat).Ok? <==>
              cp.Ok? && RadiatorPhase(cp.value.0, m.radiators, series.rad, time).Ok?
    ensures var cp := ConductorPhase(m.nodes, m.conductors, series.con, cat);
            LinkPhases(m, series, time, cat).Ok? ==>
              var rp := RadiatorPhase(cp.value.0, m.radiators, series.rad, time);
              LinkPhases(m, series, time, cat).value == Linked(rp.value.0, rp.value.1, cp.value.1, rp.value.2)
  {
  }

  /** After successful link phases, every link series has gained the powers,
      at the start-of-tick temperatures, of the links under its key, and
      every radiator has logged its power once. */
  lemma LinkPhasesSeries(m: Model, series: Series, time: real, cat: Catalogs)
    requires LinksIn(m) && LinkPhases(m, series, time, cat).Ok?
    ensures var l := LinkPhases(m, series, time, cat).value;
            (forall key :: key in series.con ==>
               l.con[key] == series.con[key] + PowersUnder(m.conductors, ConKeyOf(m.nodes, cat), ConFlowOf(m.nodes, cat), key)) &&
            (forall key :: key in series.rad ==>
               l.rad[key] == series.rad[key] + PowersUnder(m.radiators, RadKeyOf(m.nodes), RadFlowOf(m.nodes), key)) &&
            (forall k :: 0 <= k < |m.radiators| ==>
               l.radiators[k] ==
                 m.radiators[k].(powerLog := m.radiators[k].powerLog + [Entry(time, RadFlowOf(m.nodes)(m.radiators[k]).power)]))
  {
    var cp := ConductorPhase(m.nodes, m.conductors, series.con, cat).value;
    ConductorPhaseSeries(m.nodes, m.nodes, m.conductors, series.con, cat);
    RadiatorPhaseSeries(cp.0, m.nodes, m.radiators, series.rad, time);
    RadiatorPhaseLogs(cp.0, m.nodes, m.radiators, series.rad, time);
  }

  /** A tick is the link phases followed by the node loop on their result. */
  lemma TickUnfold(s: State, time: real, deltaTime: real, cat: Catalogs)
    requires LinksIn(s.model)
    ensures var lp := LinkPhases(s.model, s.series, time, cat);
            Tick(s, time, deltaTime, cat).Ok? <==>
              lp.Ok? && NodePhase(lp.value.nodes, s.series.temps, time, deltaTime, cat).Ok?
    ensures var lp := LinkPhases(s.model, s.series, time, cat);
            Tick(s, time, deltaTime, cat).Ok? ==>
              var t := Tick(s, time, deltaTime, cat).value;
              t.model.nodes == NodePhase(lp.value.nodes, s.series.temps, time, deltaTime, cat).value.0 &&
              t.model.radiators == lp.value.radiators && t.series.con == lp.value.con && t.series.rad == lp.value.rad
  {
  }

  /** A tick in closed form: it succeeds exactly when every link can be
      evaluated under a registered key and every node can step from its
      settled accumulators under a registered name, and then each node's new
      state is its own step from the settled accumulators. */
  lemma TickClosedForm(s: State, time: real, deltaTime: real, cat: Catalogs)
    requires LinksIn(s.model)
    ensures Tick(s, time, deltaTime, cat).Ok? <==>
              LinksReady(s.model, s.series, cat) &&
              forall i :: 0 <= i < |s.model.nodes| ==>
                Step(Settled(s.model, cat)[i], time, deltaTime, cat).Ok? && s.model.nodes[i].name in s.series.temps
    ensures Tick(s, time, deltaTime, cat).Ok? ==>
              |Tick(s, time, deltaTime, cat).value.model.nodes| == |s.model.nodes| &&
              forall i :: 0 <= i < |s.model.nodes| ==>
                Tick(s, time, deltaTime, cat).value.model.nodes[i] ==
                  Step(Settled(s.model, cat)[i], time, deltaTime, cat).value.node
  {
    TickSettles(s, time, deltaTime, cat);
    NodePhaseAgree(Settled(s.model, cat), s.model.nodes, s.series.temps, time, deltaTime, cat);
  }

  /** The node loop on a list whose names are those of `named`: it succeeds
      exactly when every node steps and carries a registered name. */
  lemma NodePhaseAgree(nodes: seq<Node>, named: seq<Node>, temps: map<string, seq<real>>, time: real,
                       deltaTime: real, cat: Catalogs)
    requires Agree(nodes, named)
    ensures NodePhase(nodes, temps, time, deltaTime, cat).Ok? <==>
              forall i :: 0 <= i < |named| ==> Step(nodes[i], time, deltaTime, cat).Ok? && named[i].name in temps
    ensures NodePhase(nodes, temps, time, deltaTime, cat).Ok? ==>
              |NodePhase(nodes, temps, time, deltaTime, cat).value.0| == |named| &&
              forall i :: 0 <= i < |named| ==>
                NodePhase(nodes, temps, time, deltaTime, cat).value.0[i] == Step(nodes[i], time, deltaTime, cat).value.node
  {
  }

  /** A tick is the node loop run on the settled node list. */
  lemma TickSettles(s: State, time: real, deltaTime: real, cat: Catalogs)
    requires LinksIn(s.model)
    ensures Tick(s, time, deltaTime, cat).Ok? <==>
              LinksReady(s.model, s.series, cat) && NodePhase(Settled(s.model, cat), s.series.temps, time, deltaTime, cat).Ok?
    ensures Tick(s, time, deltaTime, cat).Ok? ==>
              Tick(s, time, deltaTime, cat).value.model.nodes ==
                NodePhase(Settled(s.model, cat), s.series.temps, time, deltaTime, cat).value.0
  {
    var lp := LinkPhases(s.model, s.series, time, cat);
    assert lp.Ok? <==> LinksReady(s.model, s.series, cat) by {
      LinkPhasesReady(s.model, s.series, time, cat);
    }
    if lp.Ok? {
      assert lp.value.nodes == Settled(s.model, cat) by {
        LinkPhasesSettled(s.model, s.series, time, cat);
      }
    }
    TickUnfold(s, time, deltaTime, cat);
  }

  /** The order of the conductors and of the radiators does not change the
      outcome of a tick: reordering either list gives the same success or
      failure and the same nodes. */
  lemma TickOrderIndependent(s1: State, s2: State, time: real, deltaTime: real, cat: Catalogs)
    requires LinksIn(s1.model) && LinksIn(s2.model)
    requires s1.model.nodes == s2.model.nodes && s1.series == s2.series
    requires multiset(s1.model.conductors) == multiset(s2.model.conductors)
    requires multiset(s1.model.radiators) == multiset(s2.model.radiators)
    ensures Tick(s1, time, deltaTime, cat).Ok? <==> Tick(s2, time, deltaTime, cat).Ok?
    ensures Tick(s1, time, deltaTime, cat).Ok? ==>
              Tick(s1, time, deltaTime, cat).value.model.nodes == Tick(s2, time, deltaTime, cat).value.model.nodes
  {
    SettledPermutation(s1.model, s2.model, cat);
    LinksReadyPermutation(s1.model, s2.model, s1.series, cat);
    TickSettles(s1, time, deltaTime, cat);
    TickSettles(s2, time, deltaTime, cat);
  }

  /** Reordering the links does not change the settled node list. */
  lemma SettledPermutation(m1: Model, m2: Model, cat: Catalogs)
    requires m1.nodes == m2.nodes
    requires multiset(m1.conductors) == multiset(m2.conductors)
    requires multiset(m1.radiators) == multiset(m2.radiators)
    ensures Settled(m1, cat) == Settled(m2, cat)
  {
    var nodes := m1.nodes;
    SettlePermutation(nodes, m1.conductors, m2.conductors, ConFlowOf(nodes, cat), Conductive);
    var mid := Settle(nodes, m1.conductors, ConFlowOf(nodes, cat), Conductive);
    SettlePermutation(mid, m1.radiators, m2.radiators, RadFlowOf(nodes), Radiative);
  }

  /** Reordering the links does not change whether they are all ready. */
  lemma LinksReadyPermutation(m1: Model, m2: Model, series: Series, cat: Catalogs)
    requires m1.nodes == m2.nodes
    requires multiset(m1.conductors) == multiset(m2.conductors)
    requires multiset(m1.radiators) == multiset(m2.radiators)
    ensures LinksReady(m1, series, cat) <==> LinksReady(m2, series, cat)
  {
    forall c
      ensures c in m1.conductors <==> c in m2.conductors
    {
      assert c in m1.conductors <==> c in multiset(m1.conductors);
      assert c in m2.conductors <==> c in multiset(m2.conductors);
    }
    forall rad
      ensures rad in m1.radiators <==> rad in m2.radiators
    {
      assert rad in m1.radiators <==> rad in multiset(m1.radiators);
      assert rad in m2.radiators <==> rad in multiset(m2.radiators);
    }
  }

  /** With distinct link keys, a tick appends exactly one entry to each
      conductor series: the power of that conductor at the start-of-tick
      temperatures. */
  lemma TickLinkSeries(s: State, time: real, deltaTime: real, cat: Catalogs, k: nat)
    requires LinksIn(s.model) && Tick(s, time, deltaTime, cat).Ok?
    requires k < |s.model.conductors|
    requires forall j :: 0 <= j < |s.model.conductors| && j != k ==>
               ConKeyOf(s.model.nodes, cat)(s.model.conductors[j]) != ConKeyOf(s.model.nodes, cat)(s.model.conductors[k])
    ensures ConKeyOf(s.model.nodes, cat)(s.model.conductors[k]).Some?
    ensures var key := ConKeyOf(s.model.nodes, cat)(s.model.conductors[k]).value;
            key in s.series.con &&
            Tick(s, time, deltaTime, cat).value.series.con[key] ==
              s.series.con[key] + [ConFlowOf(s.model.nodes, cat)(s.model.conductors[k]).power]
  {
    TickUnfold(s, time, deltaTime, cat);
    LinkPhasesConductorEntry(s.model, s.series, time, cat, k);
  }

  lemma LinkPhasesConductorEntry(m: Model, series: Series, time: real, cat: Catalogs, k: nat)
    requires LinksIn(m) && LinkPhases(m, series, time, cat).Ok?
    requires k < |m.conductors|
    requires forall j :: 0 <= j < |m.conductors| && j != k ==>
               ConKeyOf(m.nodes, cat)(m.conductors[j]) != ConKeyOf(m.nodes, cat)(m.conductors[k])
    ensures ConKeyOf(m.nodes, cat)(m.conductors[k]).Some?
    ensures var key := ConKeyOf(m.nodes, cat)(m.conductors[k]).value;
            key in series.con &&
            LinkPhases(m, series, time, cat).value.con[key] ==
              series.con[key] + [ConFlowOf(m.nodes, cat)(m.conductors[k]).power]
  {
    var keyOf, flowOf := ConKeyOf(m.nodes, cat), ConFlowOf(m.nodes, cat);
    assert Keyed(keyOf(m.conductors[k]), series.con.Keys) by {
      LinkPhasesReady(m, series, time, cat);
      assert m.conductors[k] in m.conductors;
    }
    var key := keyOf(m.conductors[k]).value;
    assert PowersUnder(m.conductors, keyOf, flowOf, key) == [flowOf(m.conductors[k]).power] by {
      PowersUnderDistinct(m.conductors, keyOf, flowOf, k);
    }
    LinkPhasesSeries(m, series, time, cat);
  }

  /** Likewise for radiators: with distinct keys, a tick appends exactly one
      entry to each radiator series. */
  lemma TickRadiatorSeries(s: State, time: real, deltaTime: real, cat: Catalogs, k: nat)
    requires LinksIn(s.model) && Tick(s, time, deltaTime, cat).Ok?
    requires k < |s.model.radiators|
    requires forall j :: 0 <= j < |s.model.radiators| && j != k ==>
               RadKeyOf(s.model.nodes)(s.model.radiators[j]) != RadKeyOf(s.model.nodes)(s.model.radiators[k])
    ensures RadKeyOf(s.model.nodes)(s.model.radiators[k]).Some?
    ensures var key := RadKeyOf(s.model.nodes)(s.model.radiators[k]).value;
            key in s.series.rad &&
            Tick(s, time, deltaTime, cat).value.series.rad[key] ==
              s.series.rad[key] + [RadFlowOf(s.model.nodes)(s.model.radiators[k]).power]
  {
    TickUnfold(s, time, deltaTime, cat);
    LinkPhasesRadiatorEntry(s.model, s.series, time, cat, k);
  }

  lemma LinkPhasesRadiatorEntry(m: Model, series: Series, time: real, cat: Catalogs, k: nat)
    requires LinksIn(m) && LinkPhases(m, series, time, cat).Ok?
    requires k < |m.radiators|
    requires forall j :: 0 <= j < |m.radiators| && j != k ==>
               RadKeyOf(m.nodes)(m.radiators[j]) != RadKeyOf(m.nodes)(m.radiators[k])
    ensures RadKeyOf(m.nodes)(m.radiators[k]).Some?
    ensures var key := RadKeyOf(m.nodes)(m.radiators[k]).value;
            key in series.rad &&
            LinkPhases(m, series, time, cat).value.rad[key] ==
              series.rad[key] + [RadFlowOf(m.nodes)(m.radiators[k]).power]
  {
    var keyOf, flowOf := RadKeyOf(m.nodes), RadFlowOf(m.nodes);
    assert Keyed(keyOf(m.radiators[k]), series.rad.Keys) by {
      LinkPhasesReady(m, series, time, cat);
      assert m.radiators[k] in m.radiators;
    }
    var key := keyOf(m.radiators[k]).value;
    assert PowersUnder(m.radiators, keyOf, flowOf, key) == [flowOf(m.radiators[k]).power] by {
      PowersUnderDistinct(m.radiators, keyOf, flowOf, k);
    }
    LinkPhasesSeries(m, series, time, cat);
  }

  /** A tick logs on every radiator its power at the start-of-tick
      temperatures, stamped with the tick time. */
  lemma TickRadiatorLog(s: State, time: real, deltaTime: real, cat: Catalogs, k: nat)
    requires LinksIn(s.model) && Tick(s, time, deltaTime, cat).Ok?
    requires k < |s.model.radiators|
    ensures k < |Tick(s, time, deltaTime, cat).value.model.radiators|
    ensures Tick(s, time, deltaTime, cat).value.model.radiators[k] ==
              s.model.radiators[k].(powerLog := s.model.radiators[k].powerLog +
                                                [Entry(time, RadFlowOf(s.model.nodes)(s.model.radiators[k]).power)])
  {
    var m := s.model;
    var lp := LinkPhases(m, s.series, time, cat);
    assert lp.Ok? && Tick(s, time, deltaTime, cat).value.model.radiators == lp.value.radiators by {
      TickUnfold(s, time, deltaTime, cat);
    }
    LinkPhasesSeries(m, s.series, time, cat);
  }

  // ---------------------------------------------------------------- the run

  /** The least integer not below `x`. */
  function Ceil(x: real): (n: int)
    ensures n as real >= x && (n - 1) as real < x
  {
    -((-x).Floor)
  }

  lemma ScaleCompare(a: real, b: real, dt: real)
    requires dt > 0.0
    ensures a >= b ==> a * dt >= b * dt
    ensures a < b ==> a * dt < b * dt
  {
    if a >= b {
      assert a * dt - b * dt == (a - b) * dt;
    } else {
      assert b * dt - a * dt == (b - a) * dt;
    }
  }

  /** The number of ticks, `len(np.arange(0., run_time, delta_time))`: the
      least count of steps that reaches `run_time`. */
  function TickCount(runTime: real, deltaTime: real): (n: nat)
    requires deltaTime > 0.0
    ensures n as real * deltaTime >= runTime
    ensures n > 0 ==> (n - 1) as real * deltaTime < runTime
  {
    if runTime <= 0.0 then 0
    else
      var c := Ceil(runTime / deltaTime);
      CeilSteps(runTime, deltaTime, c);
      c
  }

  /** The least step count reaching `runTime` is positive, and one step fewer
      falls short of it. */
  lemma CeilSteps(runTime: real, deltaTime: real, c: int)
    requires deltaTime > 0.0 && runTime > 0.0
    requires c as real >= runTime / deltaTime && (c - 1) as real < runTime / deltaTime
    ensures c > 0 && c as real * deltaTime >= runTime && (c - 1) as real * deltaTime < runTime
  {
    var q := runTime / deltaTime;
    assert q * deltaTime == runTime;
    assert q > 0.0 by {
      ScaleCompare(q, 0.0, deltaTime);
    }
    assert c as real > 0.0;
    assert c as real * deltaTime >= runTime by {
      ScaleCompare(c as real, q, deltaTime);
    }
    assert (c - 1) as real * deltaTime < runTime by {
      ScaleCompare((c - 1) as real, q, deltaTime);
    }
  }

  /** The tick times, `np.arange(0., run_time, delta_time)`: `k * delta_time`
      for each tick `k`, all before `run_time`. */
  function Times(runTime: real, deltaTime: real): (r: seq<real>)
    requires deltaTime > 0.0
    ensures |r| == TickCount(runTime, deltaTime)
    ensures forall k :: 0 <= k < |r| ==> r[k] == k as real * deltaTime && r[k] < runTime
  {
    var n := TickCount(runTime, deltaTime);
    TicksBeforeEnd(runTime, deltaTime);
    seq(n, k requires 0 <= k < n => TickTime(k, deltaTime))
  }

  lemma TicksBeforeEnd(runTime: real, deltaTime: real)
    requires deltaTime > 0.0
    ensures forall k: nat :: k < TickCount(runTime, deltaTime) ==> TickTime(k, deltaTime) < runTime
  {
    var n := TickCount(runTime, deltaTime);
    forall k: nat | k < n
      ensures TickTime(k, deltaTime) < runTime
    {
      ScaleCompare(k as real, (n - 1) as real, deltaTime);
    }
  }

  function TickTime(k: nat, deltaTime: real): real {
    k as real * deltaTime
  }

  /** The tick loop of `run` over the given times. Once at least one tick has
      run, every accumulator is zero, which is where the next tick starts;
      each node name with its own series gains one temperature per tick, the
      last being the node's current temperature. */
  function RunTicks(s: State, times: seq<real>, deltaTime: real, cat: Catalogs): (r: Result<State>)
    requires LinksIn(s.model)
    ensures r.Ok? ==> LinksIn(r.value.model) && r.value.model.conductors == s.model.conductors
    ensures r.Ok? ==> |r.value.model.nodes| == |s.model.nodes| &&
                      forall i :: 0 <= i < |s.model.nodes| ==> r.value.model.nodes[i].name == s.model.nodes[i].name
    ensures r.Ok? ==> r.value.series.temps.Keys == s.series.temps.Keys &&
                      r.value.series.con.Keys == s.series.con.Keys &&
                      r.value.series.rad.Keys == s.series.rad.Keys
    ensures r.Ok? && |times| > 0 ==> AllReset(r.value.model.nodes)
    ensures r.Ok? && |times| == 0 ==> r.value == s
    decreases |times|
  {
    if |times| == 0 then Ok(s)
    else
      var next :- Tick(s, times[0], deltaTime, cat);
      RunTicks(next, times[1..], deltaTime, cat)
  }

  /** From `s` to `r`, every node's temperature series has grown by `n`
      entries, the last being the node's temperature in `r`. */
  predicate SeriesGrew(s: State, r: State, n: nat) {
    |r.model.nodes| == |s.model.nodes| &&
    forall i :: 0 <= i < |s.model.nodes| ==>
      var name := s.model.nodes[i].name;
      name in s.series.temps && name in r.series.temps &&
      |r.series.temps[name]| == |s.series.temps[name]| + n &&
      (n > 0 ==> r.series.temps[name][|s.series.temps[name]| + n - 1] == r.model.nodes[i].temperature)
  }

  /** With distinct node names, a tick grows every node's series by one. */
  lemma TickSeriesGrew(s: State, time: real, deltaTime: real, cat: Catalogs)
    requires LinksIn(s.model) && DistinctNames(s.model.nodes) && Tick(s, time, deltaTime, cat).Ok?
    ensures SeriesGrew(s, Tick(s, time, deltaTime, cat).value, 1)
  {
  }

  /** With distinct node names, every tick of a successful run appends one
      temperature to each node's series, the last being the node's current
      temperature. */
  lemma {:induction false} RunTicksSeries(s: State, times: seq<real>, deltaTime: real, cat: Catalogs)
    requires LinksIn(s.model) && DistinctNames(s.model.nodes)
    requires |times| > 0 && RunTicks(s, times, deltaTime, cat).Ok?
    ensures SeriesGrew(s, RunTicks(s, times, deltaTime, cat).value, |times|)
    decreases |times|
  {
    var r := RunTicks(s, times, deltaTime, cat).value;
    var next := FirstTick(s, times, deltaTime, cat);
    if |times| == 1 {
      assert r == next;
      assert SeriesGrew(s, r, 1);
    } else {
      var n := |times| - 1;
      assert |times[1..]| == n;
      assert SeriesGrew(next, r, n) by {
        RunTicksSeries(next, times[1..], deltaTime, cat);
      }
      SeriesGrewTrans(s, next, r, n);
      assert SeriesGrew(s, r, |times|);
    }
  }

  /** The state after the first tick of a successful run, from which the
      rest of the run goes on. */
  lemma FirstTick(s: State, times: seq<real>, deltaTime: real, cat: Catalogs) returns (next: State)
    requires LinksIn(s.model) && DistinctNames(s.model.nodes)
    requires |times| > 0 && RunTicks(s, times, deltaTime, cat).Ok?
    ensures LinksIn(next.model) && DistinctNames(next.model.nodes)
    ensures SeriesGrew(s, next, 1) && SameNodeNames(s.model.nodes, next.model.nodes)
    ensures RunTicks(next, times[1..], deltaTime, cat).Ok?
    ensures RunTicks(s, times, deltaTime, cat).value == RunTicks(next, times[1..], deltaTime, cat).value
    ensures |times| == 1 ==> RunTicks(s, times, deltaTime, cat).value == next
  {
    RunTicksUnfold(s, times, deltaTime, cat);
    next := Tick(s, times[0], deltaTime, cat).value;
    TickSeriesGrew(s, times[0], deltaTime, cat);
    DistinctNamesKept(s.model.nodes, next.model.nodes);
  }

  lemma RunTicksUnfold(s: State, times: seq<real>, deltaTime: real, cat: Catalogs)
    requires LinksIn(s.model) && |times| > 0 && RunTicks(s, times, deltaTime, cat).Ok?
    ensures Tick(s, times[0], deltaTime, cat).Ok?
    ensures LinksIn(Tick(s, times[0], deltaTime, cat).value.model)
    ensures RunTicks(s, times, deltaTime, cat) == RunTicks(Tick(s, times[0], deltaTime, cat).value, times[1..], deltaTime, cat)
  {
  }

  /** The two node lists have the same names, position by position. */
  predicate SameNodeNames(a: seq<Node>, b: seq<Node>) {
    |a| == |b| && forall i :: 0 <= i < |a| ==> b[i].name == a[i].name
  }

  lemma DistinctNamesKept(a: seq<Node>, b: seq<Node>)
    requires DistinctNames(a) && SameNodeNames(a, b)
    ensures DistinctNames(b)
  {
  }

  /** One more entry, then `n` more, is `n + 1` more. */
  lemma SeriesGrewTrans(s: State, next: State, r: State, n: nat)
    requires n > 0 && SeriesGrew(s, next, 1) && SeriesGrew(next, r, n)
    requires SameNodeNames(s.model.nodes, next.model.nodes)
    ensures SeriesGrew(s, r, n + 1)
  {
    forall i | 0 <= i < |s.model.nodes|
      ensures var name := s.model.nodes[i].name;
              name in s.series.temps && name in r.series.temps &&
              |r.series.temps[name]| == |s.series.temps[name]| + n + 1 &&
              r.series.temps[name][|s.series.temps[name]| + n] == r.model.nodes[i].temperature
    {
      var name := s.model.nodes[i].name;
      assert next.model.nodes[i].name == name;
    }
  }

  /** Every tick of a run that starts from reset accumulators starts from
      reset accumulators, and its link phases leave both accumulator totals
      at zero. */
  lemma RunTickBalances(s: State, times: seq<real>, deltaTime: real, cat: Catalogs, j: nat)
    requires LinksIn(s.model) && AllReset(s.model.nodes)
    requires j < |times| && RunTicks(s, times[..j], deltaTime, cat).Ok?
    ensures var sj := RunTicks(s, times[..j], deltaTime, cat).value;
            LinksIn(sj.model) && AllReset(sj.model.nodes) &&
            (LinkPhases(sj.model, sj.series, times[j], cat).Ok? ==>
               SumAcc(LinkPhases(sj.model, sj.series, times[j], cat).value.nodes, Conductive) == 0.0 &&
               SumAcc(LinkPhases(sj.model, sj.series, times[j], cat).value.nodes, Radiative) == 0.0)
  {
    var sj := RunTicks(s, times[..j], deltaTime, cat).value;
    if LinkPhases(sj.model, sj.series, times[j], cat).Ok? {
      LinkPhasesBalance(sj.model, sj.series, times[j], cat);
    }
  }

  /** `run(delta_time, run_time)` on a loaded model: the series start empty,
      one per node name and one per link key, and the loop runs once per
      tick time. With distinct node names, each temperature series ends with
      one entry per tick. */
  function Run(m: Model, runTime: real, deltaTime: real, cat: Catalogs): (r: Result<State>)
    requires deltaTime > 0.0 && LinksIn(m)
    ensures r.Ok? ==> |r.value.model.nodes| == |m.nodes|
    ensures r.Ok? && TickCount(runTime, deltaTime) > 0 ==> AllReset(r.value.model.nodes)
    ensures r.Ok? && DistinctNames(m.nodes) ==> forall i :: 0 <= i < |m.nodes| ==>
              m.nodes[i].name in r.value.series.temps &&
              |r.value.series.temps[m.nodes[i].name]| == TickCount(runTime, deltaTime) &&
              (TickCount(runTime, deltaTime) > 0 ==>
                 r.value.series.temps[m.nodes[i].name][TickCount(runTime, deltaTime) - 1] ==
                   r.value.model.nodes[i].temperature)
  {
    var s := State(m, InitialSeries(m));
    var times := Times(runTime, deltaTime);
    var r := RunTicks(s, times, deltaTime, cat);
    if r.Ok? && DistinctNames(m.nodes) && |times| > 0 then
      RunTicksSeries(s, times, deltaTime, cat);
      r
    else r
  }

  /** The run the source performs: one-second ticks for six hours, 21600 of
      them. */
  function RunDefault(m: Model, cat: Catalogs): (r: Result<State>)
    requires LinksIn(m)
    ensures r.Ok? && DistinctNames(m.nodes) ==> forall i :: 0 <= i < |m.nodes| ==>
              m.nodes[i].name in r.value.series.temps &&
              |r.value.series.temps[m.nodes[i].name]| == 21600
  {
    DefaultTickCount();
    Run(m, RunTime, DeltaTime, cat)
  }

  lemma DefaultTickCount()
    ensures TickCount(RunTime, DeltaTime) == 21600
  {
  }
}
