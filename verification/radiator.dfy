/** Radiative links (`Radiator`): Stefan-Boltzmann exchange between the
    surfaces of two nodes. */
module Radiator {
  import opened Outcomes
  import opened Capacitor
  import opened Accumulation

  datatype Radiator = Radiator(
    name: string,
    emissivity: real,
    area: real,               // coupling area (m^2)
    capNames: seq<string>,    // the node names the link joins, in order
    fromToName: string,       // '<first name>-><second name>', the key of its power series
    ends: seq<nat>,           // the resolved nodes, by position in the node list
    powerLog: seq<Entry>,     // power_v_time
    index: nat)

  /** The Stefan-Boltzmann constant, 5.6703744E-8 W m^-2 K^-4. */
  const Sigma: real := 0.000000056703744

  /** `Radiator(name, emissivity, area, cap_names, color)`: stores the
      coupling and the series key built from the first two node names, with
      no node resolved and an empty power log. Fewer than two names raise
      IndexError. */
  function NewRadiator(counter: nat, name: string, emissivity: real, area: real,
                       capNames: seq<string>): (r: Result<(Radiator, nat)>)
    ensures r.Ok? <==> |capNames| >= 2
    ensures r.Err? ==> r == Err(IndexOutOfRange)
    ensures r.Ok? ==> r.value.0.fromToName == FromTo(capNames[0], capNames[1])
    ensures r.Ok? ==> r.value.0.name == name && r.value.0.emissivity == emissivity &&
                      r.value.0.area == area && r.value.0.capNames == capNames
    ensures r.Ok? ==> r.value.0.ends == [] && r.value.0.powerLog == []
    ensures r.Ok? ==> r.value.0.index == counter && r.value.1 == counter + 1
  {
    if |capNames| < 2 then Err(IndexOutOfRange)
    else Ok((Radiator(name, emissivity, area, capNames, FromTo(capNames[0], capNames[1]), [], [], counter),
             counter + 1))
  }

  /** `Radiator.create_links(all_capacitors)`: each node name, in order,
      resolves to the first node of that name, which the radiator records and
      which records the radiator (as link number `id`). */
  function CreateLinks(rad: Radiator, nodes: seq<Node>, id: nat): (r: (Radiator, seq<Node>))
    ensures r.0 == rad.(ends := rad.ends + Resolve(rad.capNames, nodes))
    ensures |r.1| == |nodes|
    ensures forall i :: 0 <= i < |nodes| ==>
              r.1[i] == Attached(nodes[i], Radiative, id, multiset(Resolve(rad.capNames, nodes))[i])
  {
    var targets := Resolve(rad.capNames, nodes);
    (rad.(ends := rad.ends + targets), AttachAll(nodes, targets, Radiative, id))
  }

  function Fourth(t: real): real {
    t * t * t * t
  }

  /** `emissivity * area * sigma * (Ta^4 - Tb^4)`. */
  function RadiativePower(emissivity: real, area: real, ta: real, tb: real): real {
    emissivity * area * Sigma * (Fourth(ta) - Fourth(tb))
  }

  lemma SquareMonotone(a: real, b: real)
    requires 0.0 <= b < a
    ensures b * b < a * a
  {
    assert a * a - b * b == (a - b) * (a + b);
    PositiveProduct(a - b, a + b);
  }

  lemma PositiveProduct(x: real, y: real)
    requires x > 0.0 && y > 0.0
    ensures x * y > 0.0
  {
  }

  lemma FourthMonotone(a: real, b: real)
    requires 0.0 <= b < a
    ensures Fourth(b) < Fourth(a)
  {
    SquareMonotone(a, b);
    SquareMonotone(a * a, b * b);
    assert Fourth(a) == (a * a) * (a * a);
    assert Fourth(b) == (b * b) * (b * b);
  }

  /** With positive emissivity and area and non-negative temperatures, heat
      leaves the first node exactly when it is the hotter one, and equal
      temperatures exchange nothing. */
  lemma RadiativePowerSign(emissivity: real, area: real, ta: real, tb: real)
    requires emissivity > 0.0 && area > 0.0 && ta >= 0.0 && tb >= 0.0
    ensures RadiativePower(emissivity, area, ta, tb) > 0.0 <==> ta > tb
    ensures RadiativePower(emissivity, area, ta, tb) == 0.0 <==> ta == tb
    ensures RadiativePower(emissivity, area, ta, tb) < 0.0 <==> ta < tb
  {
    var k := emissivity * area * Sigma;
    assert k > 0.0 by {
      assert emissivity * area > 0.0;
    }
    if ta > tb {
      FourthMonotone(ta, tb);
      assert k * (Fourth(ta) - Fourth(tb)) > 0.0;
    } else if ta < tb {
      FourthMonotone(tb, ta);
      assert k * (Fourth(ta) - Fourth(tb)) < 0.0;
    }
  }

  /** The radiative flow from the radiator's first node to its second. Fewer
      than two resolved nodes raise IndexError. */
  function RadiatorFlow(rad: Radiator, nodes: seq<Node>): (r: Result<Flow>)
    requires EndsIn(rad.ends, |nodes|)
    ensures r.Ok? <==> |rad.ends| >= 2
    ensures r.Err? ==> r == Err(IndexOutOfRange)
    ensures r.Ok? ==> r.value.source == rad.ends[0] && r.value.sink == rad.ends[1] && FlowIn(r.value, |nodes|)
    ensures r.Ok? ==> r.value.power == RadiativePower(rad.emissivity, rad.area,
                                                      nodes[rad.ends[0]].temperature,
                                                      nodes[rad.ends[1]].temperature)
  {
    if |rad.ends| < 2 then Err(IndexOutOfRange)
    else
      var (a, b) := (rad.ends[0], rad.ends[1]);
      Ok(Flow(a, b, RadiativePower(rad.emissivity, rad.area, nodes[a].temperature, nodes[b].temperature)))
  }

  /** The outcome of one radiator evaluation, with the radiator whose power
      log has grown. */
  datatype RadTransferred = RadTransferred(radiator: Radiator, transfer: Transferred)

  /** `Radiator.transfer_heat(time)`: the flow is subtracted from the first
      node's radiation accumulator and added to the second's, so their sum
      over all nodes is unchanged; temperatures and conduction accumulators
      are untouched; and `[time, power]` is appended to the radiator's log. */
  function TransferHeat(rad: Radiator, nodes: seq<Node>, time: real): (r: Result<RadTransferred>)
    requires EndsIn(rad.ends, |nodes|)
    ensures r.Ok? <==> RadiatorFlow(rad, nodes).Ok?
    ensures r.Ok? ==> r.value.transfer.power == RadiatorFlow(rad, nodes).value.power
    ensures r.Ok? ==> r.value.transfer.a == rad.ends[0] && r.value.transfer.b == rad.ends[1]
    ensures r.Ok? ==> r.value.radiator == rad.(powerLog := rad.powerLog + [Entry(time, r.value.transfer.power)])
    ensures r.Ok? ==> Moved(nodes, r.value.transfer.nodes, Flow(rad.ends[0], rad.ends[1], r.value.transfer.power), Radiative)
    ensures r.Ok? && rad.ends[0] != rad.ends[1] ==>
              r.value.transfer.nodes[rad.ends[0]].radPower == nodes[rad.ends[0]].radPower - r.value.transfer.power &&
              r.value.transfer.nodes[rad.ends[1]].radPower == nodes[rad.ends[1]].radPower + r.value.transfer.power
  {
    var f :- RadiatorFlow(rad, nodes);
    Ok(RadTransferred(rad.(powerLog := rad.powerLog + [Entry(time, f.power)]), Transfer(nodes, f, Radiative)))
  }
}
