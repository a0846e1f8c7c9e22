/** Heat sources (`HeatSource`): a constant or sinusoidally modulated power
    with its own clock. */
module HeatSource {
  import opened Outcomes
  import opened Capacitor

  /** The value of math.pi. */
  const Pi: real := 3.141592653589793

  /** The `sinvar` option: peak-to-trough power and period (s). */
  datatype Modulation = Modulation(amplitude: real, period: real)

  datatype HeatSource = HeatSource(
    name: string,
    power: real,
    element: Option<nat>,       // the node it heats, by position in the node list
    time: real,                 // the source's own clock (s)
    sinvar: Option<Modulation>)

  /** `HeatSource(name, power, sinvar=...)`: the clock starts at zero and no
      node is linked. */
  function NewHeatSource(name: string, power: real, sinvar: Option<Modulation>): (r: HeatSource)
    ensures r.name == name && r.power == power && r.sinvar == sinvar
    ensures r.time == 0.0 && r.element.None?
  {
    HeatSource(name, power, None, 0.0, sinvar)
  }

  /** The source after a call of `get_power`, with the power it returned. */
  datatype Powered = Powered(source: HeatSource, power: real)

  /** `get_power(delta_time)`: the clock first advances by `delta_time`; an
      unmodulated source returns its constant power, a modulated one returns
      `0.5 * a * (sin(2 pi t / period) + 1)` at the advanced time `t`. A zero
      period raises ZeroDivisionError (the source object has then already
      advanced its clock; the error result does not carry it). `sin` is
      math.sin, left uninterpreted. */
  function GetPower(hs: HeatSource, deltaTime: real, sin: real -> real): (r: Result<Powered>)
    ensures r.Ok? <==> hs.sinvar.None? || hs.sinvar.value.period != 0.0
    ensures r.Err? ==> r == Err(DivisionByZero)
    ensures r.Ok? ==> r.value.source == hs.(time := hs.time + deltaTime)
    ensures hs.sinvar.None? ==> r.Ok? && r.value.power == hs.power
    ensures r.Ok? && hs.sinvar.Some? ==>
              r.value.power == 0.5 * hs.sinvar.value.amplitude *
                               (sin(2.0 * Pi * (hs.time + deltaTime) / hs.sinvar.value.period) + 1.0)
  {
    var advanced := hs.(time := hs.time + deltaTime);
    match hs.sinvar
    case None => Ok(Powered(advanced, hs.power))
    case Some(Modulation(amplitude, period)) =>
      if period == 0.0 then Err(DivisionByZero)
      else
        var phase := 2.0 * Pi * advanced.time / period;
        Ok(Powered(advanced, 0.5 * amplitude * (sin(phase) + 1.0)))
  }

  /** Two successive calls advance the clock by the sum of their steps, and
      an unmodulated source returns the same power whatever its clock. */
  lemma GetPowerTwice(hs: HeatSource, dt1: real, dt2: real, sin: real -> real)
    requires GetPower(hs, dt1, sin).Ok?
    ensures GetPower(GetPower(hs, dt1, sin).value.source, dt2, sin).Ok?
    ensures GetPower(GetPower(hs, dt1, sin).value.source, dt2, sin).value.source.time == hs.time + dt1 + dt2
    ensures hs.sinvar.None? ==>
              GetPower(GetPower(hs, dt1, sin).value.source, dt2, sin).value.power == GetPower(hs, dt1, sin).value.power
  {
    var first := GetPower(hs, dt1, sin).value.source;
    assert first.sinvar == hs.sinvar;
  }

  /** A modulated source with a non-negative amplitude delivers between zero
      and its amplitude, for any sine bounded by one in magnitude. */
  lemma {:induction false} ModulatedPowerBounds(hs: HeatSource, deltaTime: real, sin: real -> real)
    requires hs.sinvar.Some? && hs.sinvar.value.amplitude >= 0.0 && hs.sinvar.value.period != 0.0
    requires forall x :: -1.0 <= sin(x) <= 1.0
    ensures GetPower(hs, deltaTime, sin).Ok?
    ensures 0.0 <= GetPower(hs, deltaTime, sin).value.power <= hs.sinvar.value.amplitude
  {
    var a := hs.sinvar.value.amplitude;
    var s := sin(2.0 * Pi * (hs.time + deltaTime) / hs.sinvar.value.period);
    assert 0.0 <= s + 1.0 <= 2.0;
    assert 0.0 <= a * (s + 1.0) <= a * 2.0 by {
      UnitScale(a, s + 1.0);
    }
    assert GetPower(hs, deltaTime, sin).value.power == 0.5 * (a * (s + 1.0));
  }

  lemma UnitScale(a: real, u: real)
    requires a >= 0.0 && 0.0 <= u <= 2.0
    ensures 0.0 <= a * u <= a * 2.0
  {
    assert a * 2.0 - a * u == a * (2.0 - u);
  }

  /** `link(element)` as written: it first calls `element.attach_heat_source`,
      a method that neither `Capacitor` nor `Cooler` defines, so every call
      raises AttributeError before the source records its node. */
  function LinkAsWritten(hs: HeatSource, nodes: seq<Node>, target: nat): (r: Result<(HeatSource, seq<Node>)>)
    ensures r == Err(AttributeMissing("attach_heat_source"))
  {
    Err(AttributeMissing("attach_heat_source"))
  }

  /** Whatever the source and node, the as-written `link` leaves the source
      unlinked: no call ever produces a source with an element. */
  lemma LinkAsWrittenNeverLinks(hs: HeatSource, nodes: seq<Node>, target: nat)
    ensures forall linked :: LinkAsWritten(hs, nodes, target) != Ok(linked)
  {
  }

  /** The registration `link` evidently expects of a node: the source's name
      joins the node's heat sources and nothing else about the node changes. */
  function AttachHeatSource(node: Node, source: string): (r: Node)
    ensures r.heatSources == node.heatSources + [source]
    ensures r.(heatSources := node.heatSources) == node
  {
    node.(heatSources := node.heatSources + [source])
  }

  /** `link(element)` as intended: the node at `target` registers the source
      once, the source records the node, and every other node and every other
      field of the source are unchanged. A target outside the node list is an
      IndexError. */
  function Link(hs: HeatSource, nodes: seq<Node>, target: nat): (r: Result<(HeatSource, seq<Node>)>)
    ensures r.Ok? <==> target < |nodes|
    ensures r.Err? ==> r == Err(IndexOutOfRange)
    ensures r.Ok? ==> r.value.0 == hs.(element := Some(target))
    ensures r.Ok? ==> |r.value.1| == |nodes|
    ensures r.Ok? ==> r.value.1[target].heatSources == nodes[target].heatSources + [hs.name]
    ensures r.Ok? ==> r.value.1[target].(heatSources := nodes[target].heatSources) == nodes[target]
    ensures r.Ok? ==> forall i :: 0 <= i < |nodes| && i != target ==> r.value.1[i] == nodes[i]
  {
    if target >= |nodes| then Err(IndexOutOfRange)
    else Ok((hs.(element := Some(target)), nodes[target := AttachHeatSource(nodes[target], hs.name)]))
  }

  /** The intended `link` does what the written one never does: the source
      ends up linked to the node, and the node counts it among its sources. */
  lemma LinkRegisters(hs: HeatSource, nodes: seq<Node>, target: nat)
    requires target < |nodes|
    ensures LinkAsWritten(hs, nodes, target).Err?
    ensures Link(hs, nodes, target).Ok?
    ensures Link(hs, nodes, target).value.0.element == Some(target)
    ensures hs.name in Link(hs, nodes, target).value.1[target].heatSources
  {
    var r := Link(hs, nodes, target).value.1[target].heatSources;
    assert r[|r| - 1] == hs.name;
  }
}
