/**
  The agent table of `Simulation.cpp`, its four-state life cycle, and the
  per-state actions of one simulation step, including `spawn_agent`.

  The table is a structure of arrays indexed by agent id; the C++ vectors
  `states`, `positions`, `last_positions`, `movements` and `masses` become
  sequences of equal length (the capacity), and `last_agent_index` bounds the
  ids the per-step loops visit. Masses and coordinates are reals.
 */
module Agents {
  import opened Vec2f

  /** The life states of an agent slot; `Dead` marks a free slot. */
  datatype State = Incubating | Hunting | Splitting | Dead

  /**
    The engine's constants: the map half-size and the mass thresholds and
    costs of the state machine. Their values are not part of this model.
   */
  datatype Config = Config(
    mapSize: real,
    huntingMass: real,
    incubatingMass: real,
    splittingMass: real,
    moveMassCost: real,
    incubateMassReward: real)

  /** A usable configuration: the map has positive extent. */
  predicate ValidConfig(cfg: Config) {
    cfg.mapSize > 0.0
  }

  /**
    The heading a hunter takes, given its own position and its target's. The
    C++ code takes its own position minus the target's, which points away from
    the target, and normalises it; that floating-point step is left to this
    parameter.
   */
  type Steering = (Vec2, Vec2) -> Vec2

  /** The structure-of-arrays agent table. */
  datatype Table = Table(
    states: seq<State>,
    positions: seq<Vec2>,
    lastPositions: seq<Vec2>,
    movements: seq<Vec2>,
    masses: seq<real>,
    lastAgentIndex: nat)

  /** All arrays have the table's capacity, and the visited range fits in it. */
  predicate WellFormed(t: Table) {
    && |t.positions| == |t.states|
    && |t.lastPositions| == |t.states|
    && |t.movements| == |t.states|
    && |t.masses| == |t.states|
    && t.lastAgentIndex <= |t.states|
  }

  /** Two tables of equal shape agree on every field of slot `j`. */
  predicate SlotUnchanged(t: Table, r: Table, j: nat)
    requires WellFormed(t) && WellFormed(r) && |r.states| == |t.states| && j < |t.states|
  {
    && r.states[j] == t.states[j]
    && r.positions[j] == t.positions[j]
    && r.lastPositions[j] == t.lastPositions[j]
    && r.movements[j] == t.movements[j]
    && r.masses[j] == t.masses[j]
  }

  /** Same capacity and same visited range. */
  predicate SameShape(t: Table, r: Table) {
    |r.states| == |t.states| && r.lastAgentIndex == t.lastAgentIndex
  }

  /** No live slot of `t` is free in `r`. */
  predicate LiveStaysLive(t: Table, r: Table)
    requires |r.states| == |t.states|
  {
    forall j :: 0 <= j < |t.states| && t.states[j] != Dead ==> r.states[j] != Dead
  }

  // ---------------------------------------------------------------------------
  // State machine
  // ---------------------------------------------------------------------------

  /** The transition `update_states` applies to one slot before its action. */
  function NextState(cfg: Config, s: State, mass: real): (r: State)
    ensures s == Incubating ==>
      && (r == Hunting <==> mass >= cfg.huntingMass)
      && (r == Incubating <==> mass < cfg.huntingMass)
    ensures s == Hunting ==>
      && (r == Incubating <==> mass <= cfg.incubatingMass)
      && (r == Splitting <==> cfg.incubatingMass < mass && cfg.splittingMass <= mass)
      && (r == Hunting <==> cfg.incubatingMass < mass < cfg.splittingMass)
    ensures s == Splitting ==>
      && (r == Hunting <==> mass >= cfg.huntingMass)
      && (r == Incubating <==> mass < cfg.huntingMass)
    ensures r == Dead <==> s == Dead
  {
    match s
    case Incubating => if mass >= cfg.huntingMass then Hunting else Incubating
    case Hunting =>
      if mass <= cfg.incubatingMass then Incubating
      else if mass >= cfg.splittingMass then Splitting
      else Hunting
    case Splitting => if mass >= cfg.huntingMass then Hunting else Incubating
    case Dead => Dead
  }

  /** Splitting lasts one step: a slot never leaves `NextState` in `Splitting` unless it came from `Hunting`. */
  lemma SplittingOnlyFromHunting(cfg: Config, s: State, mass: real)
    requires NextState(cfg, s, mass) == Splitting
    ensures s == Hunting
    ensures mass >= cfg.splittingMass
  {
  }

  // ---------------------------------------------------------------------------
  // Actions
  // ---------------------------------------------------------------------------

  /** `simulate_incubating`: stand still and gain `incubateMassReward`. */
  function SimulateIncubating(cfg: Config, t: Table, i: nat): (r: Table)
    requires WellFormed(t) && i < |t.states|
    ensures WellFormed(r) && SameShape(t, r)
    ensures r.movements[i] == Zero
    ensures r.masses[i] == t.masses[i] + cfg.incubateMassReward
    ensures r.states == t.states && r.positions == t.positions && r.lastPositions == t.lastPositions
    ensures forall j :: 0 <= j < |t.states| && j != i ==> SlotUnchanged(t, r, j)
  {
    t.(movements := t.movements[i := Zero],
       masses := t.masses[i := t.masses[i] + cfg.incubateMassReward])
  }

  /**
    The target search of `simulate_hunting`, as written: the best distance
    starts at 0 and a neighbour replaces the current best only when its
    squared distance is strictly smaller.
   */
  function NearestAsWritten(nearby: seq<nat>, self: nat, positions: seq<Vec2>,
                            best: nat, bestDistance: real): (r: nat)
    requires self < |positions|
    requires forall k :: 0 <= k < |nearby| ==> nearby[k] < |positions|
    ensures r == best || (r in nearby && r != self)
    decreases |nearby|
  {
    if |nearby| == 0 then best
    else
      var a := nearby[0];
      if a == self then NearestAsWritten(nearby[1..], self, positions, best, bestDistance)
      else
        var d := SquaredLength(Sub(positions[self], positions[a]));
        if d < bestDistance then NearestAsWritten(nearby[1..], self, positions, a, d)
        else NearestAsWritten(nearby[1..], self, positions, best, bestDistance)
  }

  /**
    No squared distance is below a non-positive best, so the search returns
    its starting candidate; started from agent 0 with distance 0 it always
    picks agent 0, whatever the neighbours are.
   */
  lemma {:induction false} NearestAsWrittenKeepsStart(nearby: seq<nat>, self: nat, positions: seq<Vec2>,
                                                     best: nat, bestDistance: real)
    requires self < |positions|
    requires forall k :: 0 <= k < |nearby| ==> nearby[k] < |positions|
    requires bestDistance <= 0.0
    ensures NearestAsWritten(nearby, self, positions, best, bestDistance) == best
    decreases |nearby|
  {
    if |nearby| > 0 {
      NearestAsWrittenKeepsStart(nearby[1..], self, positions, best, bestDistance);
    }
  }

  /**
    `simulate_hunting`, mass part: take the heading derived from the chosen
    target, which is always agent 0 (see `NearestAsWrittenKeepsStart`), and
    pay `moveMassCost` whether or not any neighbour exists.
   */
  function SimulateHunting(cfg: Config, t: Table, steer: Steering, i: nat): (r: Table)
    requires WellFormed(t) && i < |t.states|
    ensures WellFormed(r) && SameShape(t, r)
    ensures r.movements[i] == steer(t.positions[i], t.positions[0])
    ensures r.masses[i] == t.masses[i] - cfg.moveMassCost
    ensures r.states == t.states && r.positions == t.positions && r.lastPositions == t.lastPositions
    ensures forall j :: 0 <= j < |t.states| && j != i ==> SlotUnchanged(t, r, j)
  {
    t.(movements := t.movements[i := steer(t.positions[i], t.positions[0])],
       masses := t.masses[i := t.masses[i] - cfg.moveMassCost])
  }

  // ---------------------------------------------------------------------------
  // spawn_agent
  // ---------------------------------------------------------------------------

  /** The first `Dead` slot at or after `from`, or `|states|` when there is none. */
  function FirstDead(states: seq<State>, from: nat): (k: nat)
    requires from <= |states|
    ensures from <= k <= |states|
    ensures k < |states| ==> states[k] == Dead
    ensures forall j :: from <= j < k ==> states[j] != Dead
    decreases |states| - from
  {
    if from == |states| then from
    else if states[from] == Dead then from
    else FirstDead(states, from + 1)
  }

  /** Replacing one live state by another live state leaves the first `Dead` slot where it was. */
  lemma {:induction false} FirstDeadLiveUpdate(states: seq<State>, from: nat, i: nat, s: State)
    requires from <= |states| && i < |states|
    requires states[i] != Dead && s != Dead
    ensures FirstDead(states[i := s], from) == FirstDead(states, from)
    decreases |states| - from
  {
    if from < |states| && states[from] != Dead {
      FirstDeadLiveUpdate(states, from + 1, i, s);
    }
  }

  /** The outcome of `spawn_agent`: the updated table and the claimed id, or -1. */
  datatype Spawned = Spawned(table: Table, id: int)

  /**
    `spawn_agent`: scan the whole capacity in ascending order and claim the
    first `Dead` slot, setting its state, position and mass. Movement, last
    position and `lastAgentIndex` are left as they were. With no `Dead` slot
    the table is unchanged and the result is -1.
   */
  function SpawnAgent(t: Table, p: Vec2, mass: real, s: State): (r: Spawned)
    requires WellFormed(t)
    ensures WellFormed(r.table) && SameShape(t, r.table)
    ensures r.id == -1 <==> forall j :: 0 <= j < |t.states| ==> t.states[j] != Dead
    ensures r.id == -1 ==> r.table == t
    ensures r.id != -1 ==>
      && 0 <= r.id < |t.states|
      && t.states[r.id] == Dead
      && (forall j :: 0 <= j < r.id ==> t.states[j] != Dead)
      && r.table.states[r.id] == s
      && r.table.positions[r.id] == p
      && r.table.masses[r.id] == mass
      && r.table.movements == t.movements
      && r.table.lastPositions == t.lastPositions
      && (forall j :: 0 <= j < |t.states| && j != r.id ==> SlotUnchanged(t, r.table, j))
  {
    var k := FirstDead(t.states, 0);
    if k == |t.states| then Spawned(t, -1)
    else
      Spawned(t.(states := t.states[k := s],
                 positions := t.positions[k := p],
                 masses := t.masses[k := mass]), k)
  }

  /** The offset between a splitting parent and its clone's spawn point, split evenly. */
  const SplitOffset: Vec2 := Vec2(1.0, 1.0)

  /**
    `simulate_splitting`: ask for a `Splitting` clone at `position + (1,1)`
    carrying half the mass, then move the parent by `(-1,-1)` and halve its
    mass, whether or not the spawn found a free slot.
   */
  function SimulateSplitting(t: Table, i: nat): (r: Table)
    requires WellFormed(t) && i < |t.states| && t.states[i] != Dead
    ensures WellFormed(r) && SameShape(t, r)
    ensures r.masses[i] == t.masses[i] / 2.0
    ensures r.positions[i] == Sub(t.positions[i], SplitOffset)
    ensures r.states[i] == t.states[i]
    ensures r.movements == t.movements && r.lastPositions == t.lastPositions
    ensures LiveStaysLive(t, r)
    ensures
      var k := FirstDead(t.states, 0);
      && (k == |t.states| ==>
            && r.states == t.states
            && (forall j :: 0 <= j < |t.states| && j != i ==> SlotUnchanged(t, r, j)))
      && (k < |t.states| ==>
            && k != i
            && r.states[k] == Splitting
            && r.positions[k] == Add(t.positions[i], SplitOffset)
            && r.masses[k] + r.masses[i] == t.masses[i]
            && (forall j :: 0 <= j < |t.states| && j != i && j != k ==> SlotUnchanged(t, r, j)))
  {
    var half := t.masses[i] / 2.0;
    var spawned := SpawnAgent(t, Add(t.positions[i], SplitOffset), half, Splitting).table;
    spawned.(positions := spawned.positions[i := Sub(spawned.positions[i], SplitOffset)],
             masses := spawned.masses[i := half])
  }
}
