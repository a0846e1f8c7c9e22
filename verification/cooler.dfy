/** Coolers (`Cooler`): nodes that always extract heat along the cooler power
    curve that carries the node's own name. */
module Cooler {
  import opened Outcomes
  import opened Tables
  import opened Capacitor

  /** `Cooler((name, material, mass, temperature, color))`: mass and
      temperature as given, both accumulators zero, and an index drawn from
      the counter shared with capacitors. */
  function NewCooler(counter: nat, name: string, material: string, mass: real,
                     temperature: real): (r: (Node, nat))
    ensures r.0.conPower == 0.0 && r.0.radPower == 0.0
    ensures r.0.index == counter && r.1 == counter + 1
    ensures r.0.name == name && r.0.material == material && r.0.mass == mass
    ensures r.0.temperature == temperature && r.0.kind == CoolerKind
    ensures r.0.connectors == [] && r.0.radiators == [] && r.0.tempLog == []
    ensures !r.0.activeCon && !r.0.activeRad && !r.0.activeCool
  {
    (Node(name, material, mass, temperature, 0.0, 0.0, CoolerKind,
          [], [], [], false, false, false, [], counter),
     counter + 1)
  }

  /** The power extracted by the cooler at its current temperature. */
  function CoolerPower(node: Node, cat: Catalogs): Result<real> {
    Lookup(cat.cooling, node.name, node.temperature, cat.interp)
  }

  /** `Cooler.find_new_temperature(time, delta_time)`: the cooling power is
      always subtracted, looked up at the old temperature in the curve named
      after the node; the update is the capacitor's explicit-Euler rule, the
      old temperature is logged, the accumulators are reset, and the net
      power is returned. */
  function FindNewTemperature(node: Node, time: real, deltaTime: real, cat: Catalogs): (r: Result<Updated>)
    ensures r.Ok? <==> CoolerPower(node, cat).Ok? && Capacity(node, cat).Ok? &&
                       node.mass * Capacity(node, cat).value != 0.0
    ensures CoolerPower(node, cat).Err? ==> r == Err(KeyMissing(if Find(cat.cooling, TempKey).None? then TempKey else node.name))
    ensures r.Ok? ==> r.value.totalPower == node.conPower + node.radPower - CoolerPower(node, cat).value
    ensures r.Ok? ==> r.value.node.tempLog == node.tempLog + [Entry(time, node.temperature)]
    ensures r.Ok? ==> r.value.node.conPower == 0.0 && r.value.node.radPower == 0.0
    ensures r.Ok? ==> EnergyBalanced(node, r.value, Capacity(node, cat).value, deltaTime)
    ensures r.Ok? && r.value.totalPower == 0.0 ==> r.value.node.temperature == node.temperature
    ensures r.Ok? ==> r.value.node.(temperature := node.temperature, conPower := node.conPower,
                                    radPower := node.radPower, tempLog := node.tempLog) == node
  {
    var cool :- CoolerPower(node, cat);
    Advance(node, time, deltaTime, cool, cat)
  }
}
