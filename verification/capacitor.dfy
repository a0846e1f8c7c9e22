/** Thermal nodes (`Capacitor`): a lumped mass with one temperature and two
    per-tick power accumulators, one for conduction and one for radiation.

    A `Cooler` is a node of the same shape whose cooling curve is keyed by the
    node's own name; its update lives in module `Cooler`, which reuses the
    explicit-Euler rule defined here.
 */
module Capacitor {
  import opened Outcomes
  import opened Tables

  /** A time-stamped value of a history series, such as `[time, temperature]`. */
  datatype Entry = Entry(time: real, value: real)

  /** Which class built the node: a plain capacitor, optionally carrying the
      name of a cooler curve, or a cooler. */
  datatype Kind = PlainKind(coolerName: Option<string>) | CoolerKind

  datatype Node = Node(
    name: string,
    material: string,
    mass: real,
    temperature: real,
    conPower: real,          // heat flow in by conduction during this tick (W)
    radPower: real,          // heat flow in by radiation during this tick (W)
    kind: Kind,
    connectors: seq<nat>,    // conductors attached, by position in the conductor list
    radiators: seq<nat>,     // radiators attached, by position in the radiator list
    // Neither `Capacitor` nor `Cooler` has this list: it holds the registration
    // that `HeatSource.link` expects of a node, used only by the corrected `Link`.
    heatSources: seq<string>,
    activeCon: bool,         // active_paths['con']
    activeRad: bool,         // active_paths['rad']
    activeCool: bool,        // active_paths['cool']
    tempLog: seq<Entry>,     // temp_v_time
    index: nat)

  /** `Capacitor(name, material, mass, temperature, color, cooler=...)`: both
      accumulators start at zero, and the node takes the current value of the
      class-wide index counter, which the result returns incremented. */
  function NewCapacitor(counter: nat, name: string, material: string, mass: real,
                        temperature: real, coolerName: Option<string>): (r: (Node, nat))
    ensures r.0.conPower == 0.0 && r.0.radPower == 0.0
    ensures r.0.index == counter && r.1 == counter + 1
    ensures r.0.name == name && r.0.material == material && r.0.mass == mass
    ensures r.0.temperature == temperature && r.0.kind == PlainKind(coolerName)
    ensures r.0.connectors == [] && r.0.radiators == [] && r.0.tempLog == []
    ensures !r.0.activeCon && !r.0.activeRad && !r.0.activeCool
  {
    (Node(name, material, mass, temperature, 0.0, 0.0, PlainKind(coolerName),
          [], [], [], false, false, false, [], counter),
     counter + 1)
  }

  /** The two kinds of link a node takes part in, and the accumulator each
      writes into: conduction (`con_power`) or radiation (`rad_power`). */
  datatype Channel = Conductive | Radiative

  /** `attach_connector`: records the conductor and marks the conductive
      path active; nothing else about the node changes. */
  function AttachConnector(node: Node, conductor: nat): (r: Node)
    ensures r.connectors == node.connectors + [conductor] && r.activeCon
    ensures r.(connectors := node.connectors, activeCon := node.activeCon) == node
  {
    node.(connectors := node.connectors + [conductor], activeCon := true)
  }

  /** `attach_radiator`: records the radiator and marks the radiative path
      active; nothing else about the node changes. */
  function AttachRadiator(node: Node, radiator: nat): (r: Node)
    ensures r.radiators == node.radiators + [radiator] && r.activeRad
    ensures r.(radiators := node.radiators, activeRad := node.activeRad) == node
  {
    node.(radiators := node.radiators + [radiator], activeRad := true)
  }

  /** The specific heat of the node's material at its current temperature. */
  function Capacity(node: Node, cat: Catalogs): Result<real> {
    Lookup(cat.capacity, node.material, node.temperature, cat.interp)
  }

  /** `Capacitor.get_new_temperature(element, heat)`: explicit Euler, with the
      specific heat taken at the pre-update temperature. The temperature rise
      times the heat capacity `mass * c` gives back the heat; a zero heat
      capacity has no real-valued result. */
  function GetNewTemperature(node: Node, heat: real, cat: Catalogs): (r: Result<real>)
    ensures r.Ok? <==> Capacity(node, cat).Ok? && node.mass * Capacity(node, cat).value != 0.0
    ensures Capacity(node, cat).Err? ==> r == Err(Capacity(node, cat).fault)
    ensures r.Ok? ==> (r.value - node.temperature) * (node.mass * Capacity(node, cat).value) == heat
    ensures r.Ok? && heat == 0.0 ==> r.value == node.temperature
    ensures r.Ok? && node.mass * Capacity(node, cat).value > 0.0 ==>
              (r.value > node.temperature <==> heat > 0.0)
  {
    var c :- Capacity(node, cat);
    if node.mass * c == 0.0 then Err(DivisionByZero)
    else Ok(node.temperature + heat / (node.mass * c))
  }

  /** A node after its update, with the net power it absorbed during the tick. */
  datatype Updated = Updated(node: Node, totalPower: real)

  /** The Euler step keeps energy: the temperature change times the heat
      capacity `mass * c`, with `c` the specific heat, is the net power times
      the step length. */
  predicate EnergyBalanced(before: Node, u: Updated, c: real, deltaTime: real) {
    (u.node.temperature - before.temperature) * (before.mass * c) == u.totalPower * deltaTime
  }

  /** The update shared by capacitors and coolers once the cooling power is
      known: log the old temperature, take the net power
      `con_power + rad_power - cool_power` over `deltaTime`, move the
      temperature by explicit Euler, and reset both accumulators. */
  function Advance(node: Node, time: real, deltaTime: real, cool: real, cat: Catalogs): (r: Result<Updated>)
    ensures r.Ok? <==> Capacity(node, cat).Ok? && node.mass * Capacity(node, cat).value != 0.0
    ensures r.Ok? ==> r.value.totalPower == node.conPower + node.radPower - cool
    ensures r.Ok? ==> r.value.node.tempLog == node.tempLog + [Entry(time, node.temperature)]
    ensures r.Ok? ==> r.value.node.conPower == 0.0 && r.value.node.radPower == 0.0
    ensures r.Ok? ==> EnergyBalanced(node, r.value, Capacity(node, cat).value, deltaTime)
    ensures r.Ok? && r.value.totalPower == 0.0 ==> r.value.node.temperature == node.temperature
    ensures r.Ok? ==> r.value.node.(temperature := node.temperature, conPower := node.conPower,
                                    radPower := node.radPower, tempLog := node.tempLog) == node
  {
    var logged := node.(tempLog := node.tempLog + [Entry(time, node.temperature)]);
    assert Capacity(logged, cat) == Capacity(node, cat);
    var total := node.conPower + node.radPower - cool;
    var t :- GetNewTemperature(logged, total * deltaTime, cat);
    Ok(Updated(logged.(temperature := t, conPower := 0.0, radPower := 0.0), total))
  }

  /** The cooling power a capacitor subtracts: none without a cooler curve,
      otherwise the curve looked up at the current temperature. A cooler has
      no `cooler_name` attribute. */
  function CoolingPower(node: Node, cat: Catalogs): (r: Result<real>)
    ensures node.kind == PlainKind(None) ==> r == Ok(0.0)
    ensures node.kind.PlainKind? && node.kind.coolerName.Some? ==>
              r == Lookup(cat.cooling, node.kind.coolerName.value, node.temperature, cat.interp)
    ensures node.kind.CoolerKind? ==> r == Err(AttributeMissing("cooler_name"))
  {
    match node.kind
    case PlainKind(None) => Ok(0.0)
    case PlainKind(Some(curve)) => Lookup(cat.cooling, curve, node.temperature, cat.interp)
    case CoolerKind => Err(AttributeMissing("cooler_name"))
  }

  /** `Capacitor.find_new_temperature(time, delta_time)`: the net power is the
      two accumulators minus the cooling power (zero without a cooler curve),
      the temperature moves by explicit Euler with the heat capacity at the
      old temperature, the old temperature is logged, both accumulators are
      reset, and the net power is returned. A cooler curve marks the cooling
      path active. */
  function FindNewTemperature(node: Node, time: real, deltaTime: real, cat: Catalogs): (r: Result<Updated>)
    ensures r.Ok? <==> CoolingPower(node, cat).Ok? && Capacity(node, cat).Ok? &&
                       node.mass * Capacity(node, cat).value != 0.0
    ensures r.Ok? ==> r.value.totalPower == node.conPower + node.radPower - CoolingPower(node, cat).value
    ensures r.Ok? && node.kind == PlainKind(None) ==> r.value.totalPower == node.conPower + node.radPower
    ensures r.Ok? ==> r.value.node.tempLog == node.tempLog + [Entry(time, node.temperature)]
    ensures r.Ok? ==> r.value.node.conPower == 0.0 && r.value.node.radPower == 0.0
    ensures r.Ok? ==> EnergyBalanced(node, r.value, Capacity(node, cat).value, deltaTime)
    ensures r.Ok? && r.value.totalPower == 0.0 ==> r.value.node.temperature == node.temperature
    ensures r.Ok? ==> r.value.node.activeCool == (node.activeCool || node.kind.coolerName.Some?)
    ensures r.Ok? ==> r.value.node.(temperature := node.temperature, conPower := node.conPower,
                                    radPower := node.radPower, tempLog := node.tempLog,
                                    activeCool := node.activeCool) == node
  {
    var cool :- CoolingPower(node, cat);
    var u :- Advance(node, time, deltaTime, cool, cat);
    if node.kind.coolerName.Some? then Ok(u.(node := u.node.(activeCool := true))) else Ok(u)
  }

  /** The links of one channel recorded on a node. */
  function Links(node: Node, ch: Channel): seq<nat> {
    match ch
    case Conductive => node.connectors
    case Radiative => node.radiators
  }

  /** The `active_paths` flag of one channel. */
  function Active(node: Node, ch: Channel): bool {
    match ch
    case Conductive => node.activeCon
    case Radiative => node.activeRad
  }

  /** `attach_connector` or `attach_radiator`, by channel. */
  function Attach(node: Node, ch: Channel, link: nat): (r: Node)
    ensures Links(r, ch) == Links(node, ch) + [link] && Active(r, ch)
    ensures r.(connectors := node.connectors, radiators := node.radiators,
               activeCon := node.activeCon, activeRad := node.activeRad) == node
    ensures Links(r, Other(ch)) == Links(node, Other(ch)) && Active(r, Other(ch)) == Active(node, Other(ch))
  {
    match ch
    case Conductive => AttachConnector(node, link)
    case Radiative => AttachRadiator(node, link)
  }

  function Other(ch: Channel): Channel {
    match ch
    case Conductive => Radiative
    case Radiative => Conductive
  }

  /** The position of the first node called `name` at or after `from`. */
  function FirstNamedFrom(nodes: seq<Node>, name: string, from: nat): (r: Option<nat>)
    requires from <= |nodes|
    ensures r.Some? ==> from <= r.value < |nodes| && nodes[r.value].name == name
    ensures r.Some? ==> forall j :: from <= j < r.value ==> nodes[j].name != name
    ensures r.None? ==> forall j :: from <= j < |nodes| ==> nodes[j].name != name
    decreases |nodes| - from
  {
    if from == |nodes| then None
    else if nodes[from].name == name then Some(from)
    else FirstNamedFrom(nodes, name, from + 1)
  }

  /** The inner loop of `create_links`: the first node whose name matches,
      if any (the loop breaks at the first match). */
  function FirstNamed(nodes: seq<Node>, name: string): (r: Option<nat>)
    ensures r.Some? ==> r.value < |nodes| && nodes[r.value].name == name
    ensures r.Some? ==> forall j :: 0 <= j < r.value ==> nodes[j].name != name
    ensures r.None? ==> forall j :: 0 <= j < |nodes| ==> nodes[j].name != name
  {
    FirstNamedFrom(nodes, name, 0)
  }

  /** The nodes a link attaches to, by position: for each of its node names in
      order, the first node of that name; a name that matches no node is
      skipped. */
  function Resolve(names: seq<string>, nodes: seq<Node>): (r: seq<nat>)
    ensures |r| <= |names|
    ensures forall k :: 0 <= k < |r| ==> r[k] < |nodes|
    decreases |names|
  {
    if |names| == 0 then []
    else
      match FirstNamed(nodes, names[0])
      case Some(j) => [j] + Resolve(names[1..], nodes)
      case None => Resolve(names[1..], nodes)
  }

  /** A single name resolves to its first match, or to nothing. */
  lemma ResolveOne(name: string, nodes: seq<Node>)
    ensures FirstNamed(nodes, name).Some? ==> Resolve([name], nodes) == [FirstNamed(nodes, name).value]
    ensures FirstNamed(nodes, name).None? ==> Resolve([name], nodes) == []
  {
  }

  /** Resolution works name by name: resolving two lists one after the other
      gives the resolution of the whole list. With `ResolveOne` this fixes
      the result for any mix of matched and unmatched names. */
  lemma {:induction false} ResolveAppend(n1: seq<string>, n2: seq<string>, nodes: seq<Node>)
    ensures Resolve(n1 + n2, nodes) == Resolve(n1, nodes) + Resolve(n2, nodes)
    decreases |n1|
  {
    if |n1| > 0 {
      assert (n1 + n2)[0] == n1[0];
      assert (n1 + n2)[1..] == n1[1..] + n2;
      ResolveAppend(n1[1..], n2, nodes);
    } else {
      assert n1 + n2 == n2;
    }
  }

  /** A link whose names only partly match keeps the matched ones, in name
      order: of `x, a, y` with only `a` present, one end remains, too few
      for a link to be evaluated. */
  lemma ResolvePartlyMatched(x: string, a: string, y: string, nodes: seq<Node>)
    requires FirstNamed(nodes, x).None? && FirstNamed(nodes, a).Some? && FirstNamed(nodes, y).None?
    ensures Resolve([x, a, y], nodes) == [FirstNamed(nodes, a).value]
    ensures |Resolve([x, a, y], nodes)| < 2
  {
    ResolveAppend([x], [a, y], nodes);
    ResolveAppend([a], [y], nodes);
    ResolveOne(x, nodes);
    ResolveOne(a, nodes);
    ResolveOne(y, nodes);
    assert [x] + [a, y] == [x, a, y];
    assert [a] + [y] == [a, y];
  }

  /** When every name matches a node, resolution keeps one node per name, in
      order, each the first node carrying that name. */
  lemma {:induction false} ResolveAllMatched(names: seq<string>, nodes: seq<Node>)
    requires forall m :: 0 <= m < |names| ==> FirstNamed(nodes, names[m]).Some?
    ensures |Resolve(names, nodes)| == |names|
    ensures forall k :: 0 <= k < |names| ==>
              Resolve(names, nodes)[k] == FirstNamed(nodes, names[k]).value &&
              nodes[Resolve(names, nodes)[k]].name == names[k]
    decreases |names|
  {
    if |names| > 0 {
      assert forall m :: 1 <= m < |names| ==> names[m] == names[1..][m - 1];
      ResolveAllMatched(names[1..], nodes);
    }
  }

  /** When no name matches, the link attaches to nothing. */
  lemma {:induction false} ResolveNoneMatched(names: seq<string>, nodes: seq<Node>)
    requires forall m :: 0 <= m < |names| ==> FirstNamed(nodes, names[m]).None?
    ensures Resolve(names, nodes) == []
    decreases |names|
  {
    if |names| > 0 {
      assert forall m :: 1 <= m < |names| ==> names[m] == names[1..][m - 1];
      ResolveNoneMatched(names[1..], nodes);
    }
  }

  /** A node after `k` attachments of `link` on channel `ch`. */
  function Attached(node: Node, ch: Channel, link: nat, k: nat): (r: Node)
    ensures Links(r, ch) == Links(node, ch) + seq(k, _ => link)
    ensures Active(r, ch) == (Active(node, ch) || k > 0)
    ensures Links(r, Other(ch)) == Links(node, Other(ch)) && Active(r, Other(ch)) == Active(node, Other(ch))
    ensures r.(connectors := node.connectors, radiators := node.radiators,
               activeCon := node.activeCon, activeRad := node.activeRad) == node
  {
    match ch
    case Conductive =>
      node.(connectors := node.connectors + seq(k, _ => link), activeCon := node.activeCon || k > 0)
    case Radiative =>
      node.(radiators := node.radiators + seq(k, _ => link), activeRad := node.activeRad || k > 0)
  }

  lemma AttachedStep(node: Node, ch: Channel, link: nat, k: nat)
    ensures Attached(Attach(node, ch, link), ch, link, k) == Attached(node, ch, link, k + 1)
  {
    assert [link] + seq(k, _ => link) == seq(k + 1, _ => link);
  }

  /** `attach_connector` or `attach_radiator` once on every node in
      `targets`, in order: each node ends up attached as many times as it
      occurs there, and nothing else changes. */
  function AttachAll(nodes: seq<Node>, targets: seq<nat>, ch: Channel, link: nat): (r: seq<Node>)
    requires forall k :: 0 <= k < |targets| ==> targets[k] < |nodes|
    ensures |r| == |nodes|
    ensures forall i :: 0 <= i < |nodes| ==> r[i] == Attached(nodes[i], ch, link, multiset(targets)[i])
    decreases |targets|
  {
    if |targets| == 0 then
      AttachAllNone(nodes, ch, link);
      nodes
    else
      var t := targets[0];
      var next := nodes[t := Attach(nodes[t], ch, link)];
      var r := AttachAll(next, targets[1..], ch, link);
      AttachAllStep(nodes, targets, ch, link, r);
      r
  }

  lemma AttachAllNone(nodes: seq<Node>, ch: Channel, link: nat)
    ensures forall i :: 0 <= i < |nodes| ==> Attached(nodes[i], ch, link, 0) == nodes[i]
  {
    forall i | 0 <= i < |nodes|
      ensures Attached(nodes[i], ch, link, 0) == nodes[i]
    {
      assert seq(0, _ => link) == [];
    }
  }

  lemma AttachAllStep(nodes: seq<Node>, targets: seq<nat>, ch: Channel, link: nat, r: seq<Node>)
    requires |targets| > 0 && forall k :: 0 <= k < |targets| ==> targets[k] < |nodes|
    requires |r| == |nodes|
    requires forall i :: 0 <= i < |nodes| ==>
               r[i] == Attached(nodes[targets[0] := Attach(nodes[targets[0]], ch, link)][i], ch, link,
                                multiset(targets[1..])[i])
    ensures forall i :: 0 <= i < |nodes| ==> r[i] == Attached(nodes[i], ch, link, multiset(targets)[i])
  {
    var t := targets[0];
    assert targets == [t] + targets[1..];
    assert multiset(targets) == multiset{t} + multiset(targets[1..]);
    var next := nodes[t := Attach(nodes[t], ch, link)];
    forall i | 0 <= i < |nodes|
      ensures r[i] == Attached(nodes[i], ch, link, multiset(targets)[i])
    {
      var k := multiset(targets[1..])[i];
      if i == t {
        assert multiset(targets)[i] == k + 1;
        AttachedStep(nodes[t], ch, link, k);
      } else {
        assert multiset(targets)[i] == k && next[i] == nodes[i];
      }
    }
  }
}
