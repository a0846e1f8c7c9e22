/** Conductive links (`Conductor`) and the integral-conductivity transform.

    Conduction through a bar whose conductivity k depends on temperature
    carries `(A/L) * (K(Ta) - K(Tb))`, where K is the integral of k from 0.
    The simulator therefore replaces every conductivity column by its
    cumulative trapezoid integral once, at load time, and each tick does one
    table lookup per end of the link.
 */
module Conductor {
  import opened Outcomes
  import opened Tables
  import opened Capacitor
  import opened Accumulation

  datatype Conductor = Conductor(
    name: string,
    material: string,
    xsareaLength: real,      // cross-section area over length (m)
    capNames: seq<string>,   // the node names the link joins, in order
    fromToName: string,      // '<first name>-><second name>', the key of its power series
    ends: seq<nat>,          // the resolved nodes, by position in the node list
    index: nat)

  /** `Conductor(name, material, length, xsarea, cap_names)`: stores the
      geometric factor `xsarea / length` and the series key built from the
      first two node names, with no node resolved yet. A zero length raises
      ZeroDivisionError before the names are read; fewer than two names raise
      IndexError. */
  function NewConductor(counter: nat, name: string, material: string, length: real,
                        xsarea: real, capNames: seq<string>): (r: Result<(Conductor, nat)>)
    ensures length == 0.0 ==> r == Err(DivisionByZero)
    ensures length != 0.0 && |capNames| < 2 ==> r == Err(IndexOutOfRange)
    ensures r.Ok? <==> length != 0.0 && |capNames| >= 2
    ensures r.Ok? ==> r.value.0.xsareaLength * length == xsarea
    ensures r.Ok? ==> r.value.0.fromToName == FromTo(capNames[0], capNames[1])
    ensures r.Ok? ==> r.value.0.name == name && r.value.0.material == material &&
                      r.value.0.capNames == capNames && r.value.0.ends == []
    ensures r.Ok? ==> r.value.0.index == counter && r.value.1 == counter + 1
  {
    if length == 0.0 then Err(DivisionByZero)
    else if |capNames| < 2 then Err(IndexOutOfRange)
    else Ok((Conductor(name, material, xsarea / length, capNames, FromTo(capNames[0], capNames[1]), [], counter),
             counter + 1))
  }

  /** `Conductor.create_links(all_capacitors)`: each node name, in order,
      resolves to the first node of that name, which the conductor records
      and which records the conductor (as link number `id`). Attaching never
      changes a name, so resolving all names against the node list as given
      is the same as the source's interleaving. */
  function CreateLinks(c: Conductor, nodes: seq<Node>, id: nat): (r: (Conductor, seq<Node>))
    ensures r.0 == c.(ends := c.ends + Resolve(c.capNames, nodes))
    ensures |r.1| == |nodes|
    ensures forall i :: 0 <= i < |nodes| ==>
              r.1[i] == Attached(nodes[i], Conductive, id, multiset(Resolve(c.capNames, nodes))[i])
  {
    var targets := Resolve(c.capNames, nodes);
    (c.(ends := c.ends + targets), AttachAll(nodes, targets, Conductive, id))
  }

  /** The area under the straight line from sample `(t0, k0)` to `(t1, k1)`. */
  function Trapezoid(t0: real, t1: real, k0: real, k1: real): real {
    0.5 * (t1 - t0) * (k0 + k1)
  }

  lemma TrapezoidNonNegative(t0: real, t1: real, k0: real, k1: real)
    requires t0 <= t1 && k0 >= 0.0 && k1 >= 0.0
    ensures Trapezoid(t0, t1, k0, k1) >= 0.0
  {
    NonNegativeProduct(t1 - t0, k0 + k1);
  }

  lemma NonNegativeProduct(x: real, y: real)
    requires x >= 0.0 && y >= 0.0
    ensures x * y >= 0.0
  {
  }

  /** The cumulative trapezoid integral of `ks` over the temperature axis,
      measured from an assumed sample (T = 0, k = 0): entry `i` adds the
      trapezoid between samples `i - 1` and `i` to entry `i - 1`. */
  function TrapezoidPrefix(temps: seq<real>, ks: seq<real>): (r: seq<real>)
    requires |ks| <= |temps|
    ensures |r| == |ks|
    decreases |ks|
  {
    if |ks| == 0 then []
    else
      var i := |ks| - 1;
      var p := TrapezoidPrefix(temps, ks[..i]);
      if i == 0 then [Trapezoid(0.0, temps[0], 0.0, ks[0])]
      else p + [p[i - 1] + Trapezoid(temps[i - 1], temps[i], ks[i - 1], ks[i])]
  }

  /** The integral starts with the trapezoid from the origin to the first
      sample, and each later entry adds the trapezoid from the previous
      sample to the entry before it. */
  lemma {:induction false} TrapezoidPrefixRecurrence(temps: seq<real>, ks: seq<real>)
    requires |ks| <= |temps|
    ensures |ks| > 0 ==> TrapezoidPrefix(temps, ks)[0] == Trapezoid(0.0, temps[0], 0.0, ks[0])
    ensures forall i :: 0 < i < |ks| ==>
              TrapezoidPrefix(temps, ks)[i] ==
                TrapezoidPrefix(temps, ks)[i - 1] + Trapezoid(temps[i - 1], temps[i], ks[i - 1], ks[i])
    decreases |ks|
  {
    if |ks| > 1 {
      var n := |ks| - 1;
      var p := TrapezoidPrefix(temps, ks[..n]);
      TrapezoidPrefixRecurrence(temps, ks[..n]);
      assert TrapezoidPrefix(temps, ks) == p + [p[n - 1] + Trapezoid(temps[n - 1], temps[n], ks[n - 1], ks[n])];
      assert forall i :: 0 <= i < n ==> ks[..n][i] == ks[i];
    }
  }

  /** Over a non-negative, non-decreasing temperature axis a non-negative
      conductivity integrates to a non-negative, non-decreasing column. */
  lemma TrapezoidPrefixMonotone(temps: seq<real>, ks: seq<real>)
    requires |ks| <= |temps|
    requires |ks| > 0 ==> temps[0] >= 0.0
    requires forall i :: 0 < i < |ks| ==> temps[i - 1] <= temps[i]
    requires forall i :: 0 <= i < |ks| ==> ks[i] >= 0.0
    ensures forall i :: 0 <= i < |ks| ==> TrapezoidPrefix(temps, ks)[i] >= 0.0
    ensures forall i, j :: 0 <= i <= j < |ks| ==> TrapezoidPrefix(temps, ks)[i] <= TrapezoidPrefix(temps, ks)[j]
  {
    var r := TrapezoidPrefix(temps, ks);
    TrapezoidPrefixRecurrence(temps, ks);
    forall i | 0 < i < |ks|
      ensures r[i - 1] <= r[i]
    {
      TrapezoidNonNegative(temps[i - 1], temps[i], ks[i - 1], ks[i]);
    }
    if |ks| > 0 {
      TrapezoidNonNegative(0.0, temps[0], 0.0, ks[0]);
    }
    ChainMonotone(r);
  }

  /** Steps that never go down add up to a non-decreasing sequence. */
  lemma {:induction false} ChainMonotone(r: seq<real>)
    requires forall i :: 0 < i < |r| ==> r[i - 1] <= r[i]
    requires |r| > 0 ==> r[0] >= 0.0
    ensures forall i :: 0 <= i < |r| ==> r[i] >= 0.0
    ensures forall i, j :: 0 <= i <= j < |r| ==> r[i] <= r[j]
    decreases |r|
  {
    if |r| > 1 {
      var n := |r|;
      var p := r[..n - 1];
      ChainMonotone(p);
      assert forall i :: 0 <= i < |p| ==> p[i] == r[i];
      forall i, j | 0 <= i <= j < n
        ensures r[i] <= r[j]
      {
        if j == n - 1 && i < j {
          assert p[i] <= p[n - 2];
        }
      }
    }
  }

  /** `Conductor.convert_to_integrals(data)`: every column after the first is
      replaced by its cumulative trapezoid integral along `Temp`; the first
      column is left as it is. A missing `Temp` raises KeyError and a column
      longer than the axis raises IndexError. */
  function ConvertToIntegrals(table: Table<real>): (r: Result<Table<real>>)
    ensures Find(table, TempKey).None? ==> r == Err(KeyMissing(TempKey))
    ensures r.Err? && Find(table, TempKey).Some? ==> r == Err(IndexOutOfRange)
    ensures r.Ok? <==> Find(table, TempKey).Some? &&
                       forall j :: 1 <= j < |table| ==> |table[j].cells| <= |Find(table, TempKey).value|
    ensures r.Ok? ==> |r.value| == |table| && r.value[0] == table[0]
    ensures r.Ok? ==> forall j :: 1 <= j < |table| ==>
              r.value[j].key == table[j].key &&
              r.value[j].cells == TrapezoidPrefix(Find(table, TempKey).value, table[j].cells)
    ensures r.Ok? && DistinctKeys(table) ==> DistinctKeys(r.value)
  {
    match Find(table, TempKey)
    case None => Err(KeyMissing(TempKey))
    case Some(temps) =>
      if exists j :: 1 <= j < |table| && |table[j].cells| > |temps| then Err(IndexOutOfRange)
      else
        var r := IntegrateAll(temps, table);
        KeysKept(table, r);
        Ok(r)
  }

  /** Every column after the first replaced by its integral along `temps`. */
  function IntegrateAll(temps: seq<real>, table: Table<real>): (r: Table<real>)
    requires |table| > 0 && forall j :: 1 <= j < |table| ==> |table[j].cells| <= |temps|
    ensures |r| == |table| && r[0] == table[0]
    ensures forall j :: 1 <= j < |table| ==> r[j] == Integrated(temps, table[j])
  {
    var rest := seq(|table| - 1, j requires 0 <= j < |table| - 1 => Integrated(temps, table[j + 1]));
    var r := [table[0]] + rest;
    assert forall j :: 1 <= j < |table| ==> r[j] == rest[j - 1];
    r
  }

  /** One conductivity column replaced by its integral along `temps`. */
  function Integrated(temps: seq<real>, col: Column<real>): (r: Column<real>)
    requires |col.cells| <= |temps|
    ensures r.key == col.key && r.cells == TrapezoidPrefix(temps, col.cells)
  {
    Column(col.key, TrapezoidPrefix(temps, col.cells))
  }

  /** The heat flow along the conductor from its first node to its second:
      `xsarea_length * (K(Ta) - K(Tb))`, both integrals looked up in the
      integral table. Fewer than two resolved nodes raise IndexError. */
  function ConductorFlow(c: Conductor, nodes: seq<Node>, cat: Catalogs): (r: Result<Flow>)
    requires EndsIn(c.ends, |nodes|)
    ensures r.Ok? <==> |c.ends| >= 2 && Find(cat.conductivityIntegrals, TempKey).Some? &&
                       Find(cat.conductivityIntegrals, c.material).Some?
    ensures |c.ends| < 2 ==> r == Err(IndexOutOfRange)
    ensures |c.ends| >= 2 && r.Err? ==>
              r == Err(KeyMissing(if Find(cat.conductivityIntegrals, TempKey).None? then TempKey else c.material))
    ensures r.Ok? ==> r.value.source == c.ends[0] && r.value.sink == c.ends[1] && FlowIn(r.value, |nodes|)
    ensures r.Ok? ==>
              (r.value.power == c.xsareaLength *
                 (Lookup(cat.conductivityIntegrals, c.material, nodes[c.ends[0]].temperature, cat.interp).value -
                  Lookup(cat.conductivityIntegrals, c.material, nodes[c.ends[1]].temperature, cat.interp).value))
  {
    if |c.ends| < 2 then Err(IndexOutOfRange)
    else
      var (a, b) := (c.ends[0], c.ends[1]);
      var temps :- Find(cat.conductivityIntegrals, TempKey).ToResult(KeyMissing(TempKey));
      var kints :- Find(cat.conductivityIntegrals, c.material).ToResult(KeyMissing(c.material));
      // np.interp([ta, tb], temps, kints) looks both ends up at once
      var kta := cat.interp(nodes[a].temperature, temps, kints);
      var ktb := cat.interp(nodes[b].temperature, temps, kints);
      Ok(Flow(a, b, c.xsareaLength * (kta - ktb)))
  }

  /** Reversing the two ends of a conductor reverses its flow: the direction
      of a link only decides the sign used for reporting. */
  lemma ConductorFlowAntisymmetric(c: Conductor, nodes: seq<Node>, cat: Catalogs)
    requires EndsIn(c.ends, |nodes|) && |c.ends| >= 2
    ensures var rev := c.(ends := [c.ends[1], c.ends[0]] + c.ends[2..]);
            ConductorFlow(c, nodes, cat).Ok? ==>
              ConductorFlow(rev, nodes, cat).Ok? &&
              ConductorFlow(rev, nodes, cat).value.power == -ConductorFlow(c, nodes, cat).value.power
  {
  }

  /** Equal temperatures at both ends carry no heat. */
  lemma ConductorFlowEqualTemperatures(c: Conductor, nodes: seq<Node>, cat: Catalogs)
    requires EndsIn(c.ends, |nodes|) && |c.ends| >= 2
    requires nodes[c.ends[0]].temperature == nodes[c.ends[1]].temperature
    ensures ConductorFlow(c, nodes, cat).Ok? ==> ConductorFlow(c, nodes, cat).value.power == 0.0
  {
  }

  /** `Conductor.transfer_heat(time)`: the flow is subtracted from the first
      node's conduction accumulator and added to the second's. The sum of the
      conduction accumulators over all nodes is unchanged, and temperatures
      and radiation accumulators are untouched. (Unlike a radiator, a
      conductor does not log its power.) */
  function TransferHeat(c: Conductor, nodes: seq<Node>, cat: Catalogs): (r: Result<Transferred>)
    requires EndsIn(c.ends, |nodes|)
    ensures r.Ok? <==> ConductorFlow(c, nodes, cat).Ok?
    ensures r.Ok? ==> r.value.power == ConductorFlow(c, nodes, cat).value.power
    ensures r.Ok? ==> r.value.a == c.ends[0] && r.value.b == c.ends[1]
    ensures r.Ok? ==> Moved(nodes, r.value.nodes, Flow(c.ends[0], c.ends[1], r.value.power), Conductive)
    ensures r.Ok? && c.ends[0] != c.ends[1] ==>
              r.value.nodes[c.ends[0]].conPower == nodes[c.ends[0]].conPower - r.value.power &&
              r.value.nodes[c.ends[1]].conPower == nodes[c.ends[1]].conPower + r.value.power
  {
    var f :- ConductorFlow(c, nodes, cat);
    Ok(Transfer(nodes, f, Conductive))
  }
}
