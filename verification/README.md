# Lumped-node thermal simulator: a verified model of the simulation engine

The simulator represents a cryogenic instrument as a network of thermal
nodes: capacitors, each a lumped mass at one temperature, some of them coolers. The nodes are joined by
conductive links (conductors) and radiative links (radiators). Material
properties come from tables indexed by temperature:
- heat capacity;
- conductivity, which is turned into its temperature integral once;
- cooler power curves.
Missing samples in those tables are filled by an edge-held linear
interpolation. A run advances time in fixed ticks. In each tick:
1. every conductor moves heat between the conduction accumulators of its two
   nodes;
2. every radiator does the same for the radiation accumulators and logs its
   power;
3. every node takes one explicit-Euler step from its own state and resets
   both accumulators.
The per-tick temperature and link-power series are recorded under node names
and link keys (`a->b`).

This project models that engine over Dafny `real` (unbounded, exact). It is
pure and functional: nodes and links are immutable datatypes, links refer to
nodes by position in the node list, and every Python exception becomes an
explicit `Err(fault)`.

Modules, one per source file or concept:
- `Outcomes`: `Option`, `Result`, `Fault`.
- `Tables`: property tables as ordered columns, first-match lookup.
- `Filer`: the missing-sample fill.
- `Capacitor`: nodes, linking, the Euler update.
- `Cooler`
- `Accumulation`: deposits of link flows into accumulators and their closed form.
- `Conductor`: the integral transform, the conductive flow.
- `Radiator`
- `HeatSource`
- `Thermal`: loading and the tick loop.

Table lookup (`np.interp`) and `math.sin` are opaque functions passed in as
parameters. Only the bound `-1 <= sin <= 1` is ever assumed, and only in the
lemma that needs it.

The main results:
- **Fill.** The three-pass `replace_nans` computes an independent
  closed-form fill. That fill:
  - interpolates between the nearest known samples;
  - interpolates from the origin `(0, 0)` before the first known sample;
  - holds the last known value flat after it;
  - gives zeros for a column with no known sample;
  - is idempotent.
- **Integrals.** The integral transform follows the trapezoid recurrence. It
  is non-negative and non-decreasing for a non-negative, non-decreasing axis
  and non-negative conductivities.
- **One link.** Every link evaluation conserves the accumulator total. The
  radiative power has the sign of `Ta - Tb`. Conductive flow is antisymmetric
  in the order of the two nodes.
- **Closed form of the link phases.** The two link phases of a tick succeed
  exactly when every link has a registered key. The node list they then
  leave is a closed form that depends only on the multiset of links. So
  whether a tick succeeds, and the nodes it leaves, do not depend on the
  order of conductors and radiators. The link series and the radiator list
  do keep the loop order: two links under one key append their powers in
  that order.
- **Balance.** Starting from reset accumulators, both accumulator totals are
  zero after the link phases.
- **Series.** With distinct keys, each tick appends exactly one entry per link
  and per node. After `n` ticks every node's temperature series holds `n`
  entries, the last being the node's current temperature.

In these points the code does something a reader might not expect; the model follows the code:
- `Conductor.transfer_heat` does not log its power (only radiators do).
- `run` never calls a heat source.
- An unmatched node name in `create_links` is skipped silently rather than
  rejected at load time. The link then fails with IndexError on its first
  evaluation if fewer than two nodes matched.
- A node logs `[time, temperature]` with the temperature from before its
  update, and it keeps no power history: that append is commented out.
- No check rejects a non-positive mass or duplicate node names. Duplicate
  names are handled by the model, and the per-node series lemmas take
  distinct names as a hypothesis.

## Model

| member | source | states |
|---|---|---|
| Tables.Find | source/capacitor.py:46-47 | a dict lookup finds a column exactly when some column has the key, and returns that column's cells |
| Tables.FindDistinct | source/filer.py:35 | on a table whose keys are distinct, as a dict's are, the lookup of a column's key returns that column's cells |
| Tables.Store | source/filer.py:35 | `data[token] = col_vals` keeps the keys distinct; afterwards the key gives the new cells and every other key what it gave before; an existing key keeps its place and a new key goes last |
| Tables.BuildTable | source/filer.py:30-36 | the dict built from the header tokens has distinct keys, holds exactly the header keys, and a repeated key gives the cells of its last occurrence |
| Tables.BuildTableRepeatedKey | source/filer.py:30-35 | headers `Temp, Cu, Cu` give a two-column dict whose `Cu` is the second `Cu` column, at the first one's place |
| Tables.Lookup | source/capacitor.py:75-77 | `np.interp(x, table['Temp'], table[key])`: KeyError on `Temp` first, then on the key; otherwise the interpolation of the two columns |
| Filer.Line | source/filer.py:71-73 | the line passes through its lower end, has slope 0 when both ends share a temperature, and passes through its upper end otherwise |
| Filer.LineBetween | source/filer.py:72-73 | between its two ends the interpolated value lies between the two end values |
| Filer.LastKnown | source/filer.py:57-63 | the index the forward scan holds: the nearest known sample at or before `i`, with every sample after it missing; none when all are missing |
| Filer.NextKnown | source/filer.py:65-68 | the index the backward scan holds: the nearest known sample at or after `i`, with every sample before it missing |
| Filer.ReplaceNans | source/filer.py:49-76 | the three-pass algorithm equals the closed-form fill; same length as the temperature axis; known values copied unchanged; a value column shorter than the axis is an IndexError |
| Filer.ForwardPass | source/filer.py:56-63 | for every index, the nearest known sample at or before it (the origin before the first), and the last known sample overall |
| Filer.BackwardPass | source/filer.py:64-68 | seeded with the last known sample, for every index the nearest known sample at or after it, else that seed |
| Filer.FinalPass | source/filer.py:69-75 | known samples copied, missing ones interpolated between the two recorded ends: the closed-form fill |
| Filer.FillBetween | source/filer.py:56-73 | a missing value between two known samples lies on the line through exactly those two samples |
| Filer.FillBetweenBounded | source/filer.py:71-73 | on a strictly increasing axis such a value lies between the two neighbouring known values |
| Filer.FillLeading | source/filer.py:56-73 | missing values before the first known sample lie on the line from the origin (0, 0) to that sample |
| Filer.FillTrailing | source/filer.py:64-73 | missing values after the last known sample equal the last known value |
| Filer.FillAllMissing | source/filer.py:56-73 | a column with no known sample fills with zeros |
| Filer.FillIdempotent | source/filer.py:69-75 | the filled column has no missing entry, so filling it again changes nothing |
| Filer.FillExample | source/filer.py:49-76 | samples None, None, 5, None, 9 at 0, 10, 20, 30, 40 K fill to 0, 2.5, 5, 7, 9 |
| Filer.FillTable | source/filer.py:41-45 | every column, `Temp` included, is filled along the `Temp` axis; a missing `Temp` column is a KeyError and a missing temperature is refused; a dict stays a dict |
| Filer.FillColumns | source/filer.py:42-45 | column by column, keys and order kept, so distinct keys stay distinct; succeeds exactly when no column is shorter than the axis |
| Conductor.NewConductor | source/conductor.py:12-27 | `xsarea_length * length == xsarea`, the key is `cap_names[0]->cap_names[1]`, the index comes from the counter, which then grows by one; a zero length or fewer than two names fail |
| Conductor.CreateLinks | source/conductor.py:36-43 | the conductor records the first-matching nodes in name order, and each node records the conductor once per occurrence |
| Conductor.TrapezoidPrefixRecurrence | source/conductor.py:54-61 | the first integral is the trapezoid from the origin (0, 0) to the first sample; each later one adds the trapezoid from the previous sample |
| Conductor.TrapezoidPrefixMonotone | source/conductor.py:56-61 | for a non-negative, non-decreasing axis and non-negative conductivities the integral column is non-negative and non-decreasing |
| Conductor.ConvertToIntegrals | source/conductor.py:45-63 | the first column is kept, every later column is replaced by its integral under the same key, same count and order, so distinct keys stay distinct; KeyError without `Temp`, IndexError for a column longer than the axis |
| Conductor.ConductorFlow | source/conductor.py:65-72 | power `xsarea_length * (K(ta) - K(tb))` from the first node to the second, both integrals looked up in the material's column; IndexError for fewer than two nodes, KeyError for a missing column |
| Conductor.ConductorFlowAntisymmetric | source/conductor.py:71-72 | swapping the two nodes negates the power |
| Conductor.ConductorFlowEqualTemperatures | source/conductor.py:71-72 | equal temperatures carry no heat |
| Conductor.TransferHeat | source/conductor.py:65-75 | every node's conduction accumulator moves by what the flow from A to B contributes to it: A's drops by the power, B's rises by it, every other node is unchanged, and a link whose two ends are one node changes nothing; the total is unchanged; no other field changes |
| Radiator.NewRadiator | source/radiator.py:12-23 | the key is `cap_names[0]->cap_names[1]`, the power log is empty, the index comes from the counter; fewer than two names fail |
| Radiator.CreateLinks | source/radiator.py:29-36 | the radiator records the first-matching nodes in name order, and each node records the radiator once per occurrence |
| Radiator.RadiativePowerSign | source/radiator.py:63-64 | with positive emissivity and area and non-negative temperatures the power is positive, zero or negative exactly as `ta` is above, equal to or below `tb` |
| Radiator.RadiatorFlow | source/radiator.py:60-64 | power `emissivity * area * sigma * (ta^4 - tb^4)` with sigma 5.6703744E-8, from the first node to the second; IndexError for fewer than two nodes |
| Radiator.TransferHeat | source/radiator.py:57-68 | every node's radiation accumulator moves by what the flow from A to B contributes to it: A's drops by the power, B's rises by it, every other node is unchanged, and a link whose two ends are one node changes nothing; the total is unchanged; no other field changes; exactly one `[time, power]` entry is logged |
| Capacitor.NewCapacitor | source/capacitor.py:15-32 | both accumulators zero, no links, empty log, index from the counter, which grows by one |
| Capacitor.AttachConnector | source/capacitor.py:61-64 | the conductor is appended and the `con` path is set; nothing else changes |
| Capacitor.AttachRadiator | source/capacitor.py:66-69 | the radiator is appended and the `rad` path is set; nothing else changes |
| Capacitor.Attach | source/capacitor.py:61-69 | attaching on one channel appends to that channel and leaves the other channel's links and flag alone |
| Capacitor.Attached | source/capacitor.py:61-69 | `k` attachments append `k` copies of the link and set the flag when `k > 0` |
| Capacitor.AttachAll | source/conductor.py:37-42 | attaching along a list of targets leaves each node attached as often as it occurs in the list |
| Capacitor.FirstNamed | source/conductor.py:38-42 | the inner loop's `break`: the first node with the name, every earlier node having another name; none when no node matches |
| Capacitor.Resolve | source/conductor.py:37-42 | at most one node per name, every one a node of the list |
| Capacitor.ResolveOne | source/conductor.py:37-42 | a single name resolves to its first matching node, or to nothing when no node has that name |
| Capacitor.ResolveAppend | source/conductor.py:37-42 | resolution goes name by name: resolving a concatenation of name lists concatenates their resolutions, so matched names keep their order and unmatched ones drop out |
| Capacitor.ResolvePartlyMatched | source/conductor.py:37-42 | of the names `x, a, y` with only `a` present, only `a`'s first match remains, leaving fewer than the two ends a link needs |
| Capacitor.ResolveAllMatched | source/conductor.py:37-42 | when every name matches, one node per name in name order, each the first match |
| Capacitor.ResolveNoneMatched | source/conductor.py:37-42 | unmatched names are skipped silently: no match, no link |
| Capacitor.GetNewTemperature | source/capacitor.py:71-79 | `(T' - T) * mass * c(T) == heat`, with `c` at the old temperature; zero heat keeps the temperature; with positive heat capacity the temperature rises exactly when heat is positive |
| Capacitor.Advance | source/capacitor.py:42-55 | logs `[time, old T]`, takes the Euler step with `con + rad - cool`, resets both accumulators and changes nothing else |
| Capacitor.CoolingPower | source/capacitor.py:43-49 | zero without a cooler curve; otherwise the curve looked up at the old temperature |
| Capacitor.FindNewTemperature | source/capacitor.py:38-55 | net power `con + rad - cool` returned; `[time, old T]` logged; Euler step; both accumulators reset; `cool` path set when a cooler curve is present |
| Cooler.NewCooler | source/cooler.py:14-34 | mass and temperature as given, accumulators zero, index from the counter shared with capacitors |
| Cooler.FindNewTemperature | source/cooler.py:40-53 | cooling always subtracted, looked up in the curve named after the node at the old temperature; same Euler step, log and reset as a capacitor |
| HeatSource.NewHeatSource | source/heat_source.py:10-16 | the clock starts at zero and no node is linked |
| HeatSource.GetPower | source/heat_source.py:18-26 | the clock advances by `delta_time` first; constant power without modulation, else `0.5 * a * (sin(2 pi t / period) + 1)` at the advanced time; a zero period fails |
| HeatSource.GetPowerTwice | source/heat_source.py:18-22 | two calls advance the clock by the sum of the steps; an unmodulated source returns the same power both times |
| HeatSource.ModulatedPowerBounds | source/heat_source.py:23-26 | for `a >= 0` and any sine bounded by one the modulated power lies in `[0, a]` |
| HeatSource.LinkAsWritten | source/heat_source.py:28-31 | `link` as written always fails with AttributeError on `attach_heat_source` |
| HeatSource.LinkAsWrittenNeverLinks | source/heat_source.py:28-31 | no call of the as-written `link` ever produces a linked source |
| HeatSource.AttachHeatSource | source/heat_source.py:29 | the source joins the node's heat sources once and nothing else about the node changes |
| HeatSource.Link | source/heat_source.py:28-31 | the intended `link`: the target registers the source once, the source records the target, every other node is unchanged |
| HeatSource.LinkRegisters | source/heat_source.py:28-31 | where the written `link` fails, the intended one links the source and the node lists it |
| Accumulation.Deposit | source/conductor.py:73-74 | subtract from the first node, then add to the second: each accumulator moves by its node's contribution |
| Accumulation.DepositConserves | source/radiator.py:65-66 | a deposit leaves the accumulator total over all nodes unchanged |
| Accumulation.DepositFrames | source/conductor.py:73-74 | a deposit changes no node other than its two ends, and one whose two ends are the same node (subtract, then add back) changes nothing |
| Accumulation.Transfer | source/conductor.py:73-74 | one link's transfer: every accumulator moves by its node's contribution, nodes other than the two ends stay as they were, a link from a node to itself changes nothing, the total is kept, and the two ends move by minus and plus the power |
| Accumulation.SettleStep | source/thermal.py:101-108 | depositing the first link and settling the rest is settling all of them |
| Accumulation.SumContribPermutation | source/thermal.py:101-108 | the sum of contributions does not depend on the order of the links |
| Accumulation.SettlePermutation | source/thermal.py:101-108 | the settled node list does not depend on the order of the links |
| Thermal.BuildNodes | source/capacitor.py:30-31 | nodes built in order draw consecutive indices from the shared counter, so indices are distinct and increasing; all accumulators start at zero |
| Thermal.ResolveSameNames | source/conductor.py:37-42 | name resolution reads only node names |
| Thermal.LinkConductors | source/thermal.py:60-64 | one conductor per input conductor, and the node list keeps its length |
| Thermal.LinkConductorsEnds | source/thermal.py:60-64 | every conductor resolves its names as against the node list as given, and the conductors keep their order |
| Thermal.LinkConductorsPhysics | source/thermal.py:60-64 | linking changes no node's name, temperature, accumulators or log |
| Thermal.LinkRadiators | source/thermal.py:66-70 | one radiator per input radiator, and the node list keeps its length |
| Thermal.LinkRadiatorsEnds | source/thermal.py:66-70 | every radiator resolves its names as against the node list as given, in order |
| Thermal.LinkRadiatorsPhysics | source/thermal.py:66-70 | linking changes no node's name, temperature, accumulators or log |
| Thermal.LoadModel | source/thermal.py:52-70 | nodes kept in declaration order with unchanged physics; every conductor and then every radiator linked once against that list, each list in order; every resolved end is a node; every node has recorded, in order, each conductor and each radiator once per end that resolved to it, and its `con`/`rad` flag is set exactly when it recorded one |
| Thermal.Recorded | source/conductor.py:37-42 | the link numbers a node records over a whole loop of `create_links`: link `id + k` exactly as often as that link's resolved ends name the node, no other number, in ascending order |
| Thermal.LinkConductorsRecords | source/thermal.py:60-64 | after the conductor loop each node has appended exactly its recorded conductors to its conductor list, set `con` exactly when there is one, and left its radiator list and `rad` alone |
| Thermal.LinkRadiatorsRecords | source/thermal.py:66-70 | after the radiator loop each node has appended exactly its recorded radiators to its radiator list, set `rad` exactly when there is one, and left its conductor list and `con` alone |
| Thermal.InitialSeries | source/thermal.py:91-97 | one empty series per node name and per link key, and no other key |
| Thermal.LoadedConductorKey | source/conductor.py:17 | once both names resolve, the key built at lookup time `cap_a.name->cap_b.name` is the conductor's `from_to_name` |
| Thermal.LoadedRadiatorKey | source/radiator.py:17 | likewise for a radiator |
| Thermal.LoadedKeysRegistered | source/thermal.py:94-107 | in a freshly loaded model whose links name nodes, every key looked up during a tick was registered before the loop |
| Thermal.ConductorPhase | source/thermal.py:101-104 | the conductor loop keeps the conduction total, changes nothing but conduction accumulators, and keeps the series keys |
| Thermal.RadiatorPhase | source/thermal.py:105-108 | the radiator loop keeps the radiation total, changes nothing but radiation accumulators, keeps every radiator's nodes and the series keys |
| Thermal.Step | source/thermal.py:109-110 | the class-dispatched `find_new_temperature`: old temperature logged, Euler step with net power `con + rad - cool`, accumulators reset, name kept |
| Thermal.NodePhase | source/thermal.py:109-111 | the node loop succeeds exactly when every node steps and has a registered name; each node becomes its own step; series keys kept |
| Thermal.NodePhaseSeries | source/thermal.py:109-111 | each name's series gains the new temperatures of the nodes of that name, in order |
| Thermal.LinkPhases | source/thermal.py:101-108 | names and temperatures untouched by the link phases; both accumulator totals conserved; series keys kept |
| Thermal.LinkPhasesBalance | source/thermal.py:101-108 | from reset accumulators, both totals over all nodes are zero after the link phases |
| Thermal.ConductorPhaseStep | source/thermal.py:101-104 | one conductor at the start-of-tick temperatures: its flow is deposited and its power appended, or the loop fails when its key is unknown |
| Thermal.ConductorPhaseReady | source/thermal.py:101-104 | the conductor loop succeeds exactly when every conductor has a known, registered key |
| Thermal.ConductorPhaseSettles | source/thermal.py:101-104 | a successful conductor loop equals the closed form of all its deposits at the start-of-tick temperatures |
| Thermal.ConductorPhaseSeries | source/thermal.py:101-104 | each key's series gains, in order, the powers of the conductors under that key |
| Thermal.RadiatorPhaseStep | source/thermal.py:105-108 | one radiator: its flow is deposited, its power appended and logged, or the loop fails when its key is unknown |
| Thermal.RadiatorPhaseReady | source/thermal.py:105-108 | the radiator loop succeeds exactly when every radiator has a known, registered key |
| Thermal.RadiatorPhaseSettles | source/thermal.py:105-108 | a successful radiator loop equals the closed form of all its deposits |
| Thermal.RadiatorPhaseLogs | source/radiator.py:67 | every radiator logs `[time, power]` once, with its power at the start-of-tick temperatures |
| Thermal.RadiatorPhaseSeries | source/thermal.py:105-108 | each key's series gains, in order, the powers of the radiators under that key |
| Thermal.LinkPhasesClosedForm | source/thermal.py:101-108 | the link phases succeed exactly when all links are ready, and then leave the closed-form settled nodes |
| Thermal.LinkPhasesReady | source/thermal.py:101-108 | the link phases succeed exactly when every link has a known, registered key |
| Thermal.LinkPhasesSettled | source/thermal.py:101-108 | successful link phases leave the settled node list |
| Thermal.LinkPhasesSeries | source/thermal.py:101-108 | the link series gain the powers under their keys, and each radiator logs its power once |
| Thermal.LinkPhasesConductorEntry | source/thermal.py:101-104 | with distinct keys each conductor series gains exactly one entry, its conductor's power |
| Thermal.LinkPhasesRadiatorEntry | source/thermal.py:105-108 | with distinct keys each radiator series gains exactly one entry, its radiator's power |
| Thermal.Tick | source/thermal.py:100-111 | a tick keeps names and keys, leaves every accumulator reset, and with distinct names appends each node's new temperature to its series |
| Thermal.TickClosedForm | source/thermal.py:100-111 | a tick succeeds exactly when every link is ready and every settled node steps under a registered name; each node becomes its own step from the settled accumulators |
| Thermal.NodePhaseAgree | source/thermal.py:109-111 | the node loop reads only each node's own state |
| Thermal.TickSettles | source/thermal.py:100-111 | a tick is the node loop run on the settled node list |
| Thermal.TickOrderIndependent | source/thermal.py:101-111 | reordering the conductors or the radiators changes neither the success of a tick nor the resulting nodes |
| Thermal.SettledPermutation | source/thermal.py:101-108 | the settled node list depends only on the multisets of links |
| Thermal.LinksReadyPermutation | source/thermal.py:101-108 | whether all links are ready depends only on the multisets of links |
| Thermal.TickLinkSeries | source/thermal.py:101-104 | with distinct keys a tick appends exactly one entry to each conductor series |
| Thermal.TickRadiatorSeries | source/thermal.py:105-108 | with distinct keys a tick appends exactly one entry to each radiator series |
| Thermal.TickRadiatorLog | source/radiator.py:67 | a tick logs on every radiator its power at the start-of-tick temperatures, stamped with the tick time |
| Thermal.TickCount | source/thermal.py:99 | the least step count reaching `run_time`: `n * dt >= run_time` and `(n - 1) * dt < run_time` |
| Thermal.Times | source/thermal.py:99 | `arange(0, run_time, dt)`: tick `k` at `k * dt`, all before `run_time`, `TickCount` of them |
| Thermal.RunTicks | source/thermal.py:100-111 | the loop keeps names, links and series keys; after at least one tick every accumulator is zero; no ticks change nothing |
| Thermal.TickSeriesGrew | source/thermal.py:110-111 | with distinct names a tick grows each node's series by one, ending with its new temperature |
| Thermal.RunTicksSeries | source/thermal.py:100-111 | with distinct names `n` ticks grow each node's series by `n`, ending with its current temperature |
| Thermal.RunTickBalances | source/thermal.py:100-108 | every tick of a run from reset accumulators starts reset, and its link phases leave both totals at zero |
| Thermal.Run | source/thermal.py:81-111 | series start empty; one tick per tick time; with distinct names each node's series has one entry per tick, the last being its final temperature |
| Thermal.RunDefault | source/thermal.py:82-100 | one-second ticks for six hours: 21600 entries per node series |
| Thermal.DefaultTickCount | source/thermal.py:82-99 | `len(arange(0, 6*3600, 1))` is 21600 |

## Left out

- Plotting (source/plot.py, `plot_model`, `plot_profiles`, every `plot_data`), the CSV reading and tokenising of `Filer.load_data`, and every `txt_to_csv`: these are display and file I/O.
- IEEE floating point: values are exact reals, so rounding, NaN propagation, overflow and the accuracy or stability of the Euler step are not modelled.
- The internals of `np.interp` and `math.sin`: they are opaque function parameters. The clamping of `np.interp` at the ends of a table is therefore not stated.
- The lazily loaded class-level tables: they are the explicit `Catalogs` parameter.
- The hard-coded MARVEL node and link lists (source/thermal.py:19-45): the model takes any node and link lists.
- Display-only attributes (`color`, `position`, `new_temperature`), the unused `power_v_time` of nodes, and the unused `heat_flow_matrix`.
- `Radiator.convert_to_integrals`: it duplicates the conductor version line for line and is never called.
- Links refer to nodes by position, where the source holds object references. A node's link lists record link numbers, not link objects. The node's `heatSources` list exists in neither `Capacitor` nor `Cooler`: it holds the registration that `HeatSource.link` expects, and only the corrected `HeatSource.Link` uses it.
- Tables are column lists, and the model's table functions accept any column list. `Tables.Find` returns the first column with a key, and the fill and integral transforms process every column. This matches the dict only when keys are distinct. Every table built by `Tables.BuildTable` has distinct keys, and the transforms keep them distinct.
- Heat sources in the tick loop: `run` never calls `get_power`, and no node class defines `attach_heat_source`, so the model does not wire them in.
- HeatSource.GetPower: on a zero period the error result does not carry the source's clock, which the source has already advanced before it raises.
- Capacitor.FindNewTemperature, Cooler.FindNewTemperature, Thermal.ConductorPhase and Thermal.RadiatorPhase: an error result carries none of the state the source changed before raising. That state is the `[time, T]` log entry (source/capacitor.py:42, source/cooler.py:44) written before a failed lookup, and the deposits (source/conductor.py:73-74) and radiator log entries (source/radiator.py:67) made before a series KeyError (source/thermal.py:104, 108). Nothing catches these exceptions, so the lost state is never observed.
- Capacitor.GetNewTemperature: a zero `mass * c` is reported as DivisionByZero, where numpy would produce an infinity or NaN and carry on.
- Filer.FillTable: a missing cell in the `Temp` column is refused. The source fills that column along itself and carries NaN into every interpolation that uses it.
- Conductor.TransferHeat: the unused `time` argument is dropped.
- Conductor.ConductorFlow: the lookup `np.interp([ta, tb], ...)` is two calls of the opaque lookup, one per temperature.
- Thermal.Tick: the lemmas about a node's own series assume distinct node names. With duplicate names, a name's series gains every matching node's temperature in node order, as `Thermal.NodePhaseSeries` states.

## Findings

| source | as written | input that shows it | evidently intended | confidence | as-written member | corrected member |
|---|---|---|---|---|---|---|
| source/heat_source.py:28-31 | `link(element)` first calls `element.attach_heat_source(self)`, a method neither `Capacitor` nor `Cooler` defines, so it raises AttributeError before `self.element` is set | any heat source `hs` and any capacitor `cap`: `hs.link(cap)` | the node records the source once and the source records the node | high; not executed | HeatSource.LinkAsWritten | HeatSource.Link |
