/**
  The simulation engine of `Simulation.cpp`: construction of the agent table
  and spatial index, and the phases of one `step`.

  Every `parallel for` of the C++ code is read as the sequential loop that
  visits ids 0, 1, 2, ... in ascending order; the per-step loops become
  recursion over that range.
 */
module Engine {
  import opened Vec2f
  import opened Agents
  import SI = SpatialIndex

  /** The engine: its agent table and its spatial index. */
  datatype Simulation = Simulation(agents: Table, index: SI.Index)

  /** The grid of a simulation covers the configured map. */
  predicate Consistent(cfg: Config, s: Simulation) {
    && ValidConfig(cfg)
    && WellFormed(s.agents)
    && SI.Valid(s.index)
    && s.index.mapSize == cfg.mapSize
  }

  /** The number of live (non-`Dead`) slots. */
  function LiveCount(states: seq<State>): nat
    decreases |states|
  {
    if |states| == 0 then 0
    else (if states[0] != Dead then 1 else 0) + LiveCount(states[1..])
  }

  /** When no live slot becomes free, the number of live slots does not drop. */
  lemma {:induction false} LiveCountMonotone(a: seq<State>, b: seq<State>)
    requires |a| == |b|
    requires forall j :: 0 <= j < |a| && a[j] != Dead ==> b[j] != Dead
    ensures LiveCount(a) <= LiveCount(b)
    decreases |a|
  {
    if |a| > 0 {
      LiveCountMonotone(a[1..], b[1..]);
    }
  }

  // ---------------------------------------------------------------------------
  // Construction
  // ---------------------------------------------------------------------------

  /** The movement every starting agent is given. */
  const StartMovement: Vec2 := Vec2(0.1, 0.1)

  /** Register ids `from ..` at their positions, in ascending order. */
  function SetEach(g: SI.Index, ps: seq<Vec2>, from: nat): (r: SI.Index)
    requires SI.Valid(g) && from <= |ps|
    requires forall k :: 0 <= k < |ps| ==> SI.InMap(g.mapSize, ps[k])
    ensures SI.Valid(r) && SI.SameShape(g, r)
    ensures SI.Total(r.chunks) == SI.Total(g.chunks) + (|ps| - from)
    decreases |ps| - from
  {
    if from == |ps| then g
    else
      var g' := SetOne(g, ps, from);
      SetEach(g', ps, from + 1)
  }

  /** One step of `SetEach`: register id `from` at its position, which is in the map. */
  function SetOne(g: SI.Index, ps: seq<Vec2>, from: nat): (r: SI.Index)
    requires SI.Valid(g) && from < |ps|
    requires forall k :: 0 <= k < |ps| ==> SI.InMap(g.mapSize, ps[k])
    ensures SI.Valid(r) && SI.SameShape(g, r)
    ensures SI.Total(r.chunks) == SI.Total(g.chunks) + 1
    ensures forall c :: 0 <= c < |g.chunks| ==>
      r.chunks[c] == if c == SI.ChunkIndex(g, ps[from]) then g.chunks[c] + [from] else g.chunks[c]
  {
    assert SI.InMap(g.mapSize, ps[from]);
    SI.InMapChunkIndexInRange(g, ps[from]);
    SI.Set(g, from, ps[from]).value
  }

  /** After `SetEach`, an id is in chunk `c` iff it was before or it is one of the registered ids whose position falls in `c`. */
  lemma {:induction false} SetEachMembership(g: SI.Index, ps: seq<Vec2>, from: nat, c: int, id: nat)
    requires SI.Valid(g) && from <= |ps|
    requires forall k :: 0 <= k < |ps| ==> SI.InMap(g.mapSize, ps[k])
    requires 0 <= c < |g.chunks|
    ensures id in SetEach(g, ps, from).chunks[c] <==>
      id in g.chunks[c] || (from <= id < |ps| && SI.ChunkIndex(g, ps[id]) == c)
    decreases |ps| - from
  {
    if from < |ps| {
      var g' := SetOne(g, ps, from);
      SetOneMembership(g, ps, from, c, id);
      SetEachMembership(g', ps, from + 1, c, id);
      assert SetEach(g, ps, from) == SetEach(g', ps, from + 1);
    }
  }

  /** One registration adds id `from` to the chunk of its position and nothing else; the chunk of every position stays where it was. */
  lemma SetOneMembership(g: SI.Index, ps: seq<Vec2>, from: nat, c: int, id: nat)
    requires SI.Valid(g) && from < |ps|
    requires forall k :: 0 <= k < |ps| ==> SI.InMap(g.mapSize, ps[k])
    requires 0 <= c < |g.chunks|
    ensures SetOne(g, ps, from).mapSize == g.mapSize
    ensures id in SetOne(g, ps, from).chunks[c] <==>
      id in g.chunks[c] || (id == from && SI.ChunkIndex(g, ps[from]) == c)
    ensures id < |ps| ==> SI.ChunkIndex(SetOne(g, ps, from), ps[id]) == SI.ChunkIndex(g, ps[id])
  {
    var g' := SetOne(g, ps, from);
    assert g'.chunks[c] == if c == SI.ChunkIndex(g, ps[from]) then g.chunks[c] + [from] else g.chunks[c];
    if id < |ps| {
      SI.ChunkIndexSameShape(g, g', ps[id]);
    }
  }

  /**
    The table the constructor builds: slots below `|startPositions|` hold
    Incubating agents with the given positions and masses (the C++ code draws
    them at random); the remaining slots up to the capacity `maxAgents` are
    Dead, at the origin, with no mass and no movement.
   */
  function StartTable(maxAgents: nat, startPositions: seq<Vec2>, startMasses: seq<real>): (t: Table)
    requires |startPositions| == |startMasses| <= maxAgents
    ensures WellFormed(t)
    ensures |t.states| == maxAgents
    ensures t.lastAgentIndex == |startPositions|
    ensures forall k :: 0 <= k < |startPositions| ==>
      && t.states[k] == Incubating
      && t.positions[k] == startPositions[k]
      && t.lastPositions[k] == startPositions[k]
      && t.movements[k] == StartMovement
      && t.masses[k] == startMasses[k]
    ensures forall k :: |startPositions| <= k < maxAgents ==>
      && t.states[k] == Dead
      && t.positions[k] == Zero
      && t.lastPositions[k] == Zero
      && t.movements[k] == Zero
      && t.masses[k] == 0.0
    ensures LiveCount(t.states) == |startPositions|
  {
    var n := |startPositions|;
    var free := maxAgents - n;
    var positions := startPositions + seq(free, _ => Zero);
    LiveCountOfBlocks(n, free);
    Table(
      seq(n, _ => Incubating) + seq(free, _ => Dead),
      positions,
      positions,
      seq(n, _ => StartMovement) + seq(free, _ => Zero),
      startMasses + seq(free, _ => 0.0),
      n)
  }

  /**
    The constructor: the start table, and a fresh grid over the map in which
    every starting agent is registered, in id order, in the chunk of its
    position.
   */
  function Create(cfg: Config, maxAgents: nat, startPositions: seq<Vec2>, startMasses: seq<real>): (s: Simulation)
    requires ValidConfig(cfg)
    requires |startPositions| == |startMasses| <= maxAgents
    requires forall k :: 0 <= k < |startPositions| ==> SI.InMap(cfg.mapSize, startPositions[k])
    ensures Consistent(cfg, s)
    ensures |s.agents.states| == maxAgents && s.agents.lastAgentIndex == |startPositions|
    ensures LiveCount(s.agents.states) == |startPositions|
    ensures SI.Total(s.index.chunks) == |startPositions|
  {
    Simulation(StartTable(maxAgents, startPositions, startMasses), SetEach(SI.New(cfg.mapSize), startPositions, 0))
  }

  /** The constructed grid holds exactly the starting ids, each in the chunk of its start position. */
  lemma CreateRegistersStarts(cfg: Config, maxAgents: nat, startPositions: seq<Vec2>, startMasses: seq<real>,
                              c: int, id: nat)
    requires ValidConfig(cfg)
    requires |startPositions| == |startMasses| <= maxAgents
    requires forall k :: 0 <= k < |startPositions| ==> SI.InMap(cfg.mapSize, startPositions[k])
    requires 0 <= c < SI.ChunkCount
    ensures
      var s := Create(cfg, maxAgents, startPositions, startMasses);
      id in s.index.chunks[c] <==> id < |startPositions| && SI.ChunkIndex(s.index, startPositions[id]) == c
  {
    var g := SI.New(cfg.mapSize);
    var s := Create(cfg, maxAgents, startPositions, startMasses);
    SetEachMembership(g, startPositions, 0, c, id);
    assert id !in g.chunks[c];
    if id < |startPositions| {
      SI.ChunkIndexSameShape(g, s.index, startPositions[id]);
    }
  }

  /** A block of live slots followed by a block of free ones has as many live slots as the first block. */
  lemma {:induction false} LiveCountOfBlocks(n: nat, free: nat)
    ensures LiveCount(seq(n, _ => Incubating) + seq(free, _ => Dead)) == n
    decreases n + free
  {
    var s := seq(n, _ => Incubating) + seq(free, _ => Dead);
    if n > 0 {
      assert s[1..] == seq(n - 1, _ => Incubating) + seq(free, _ => Dead);
      LiveCountOfBlocks(n - 1, free);
    } else if free > 0 {
      assert s[1..] == seq(0, _ => Incubating) + seq(free - 1, _ => Dead);
      LiveCountOfBlocks(0, free - 1);
    }
  }

  // ---------------------------------------------------------------------------
  // update_states
  // ---------------------------------------------------------------------------

  /**
    Slot `j` of `r` is slot `j` of `t` after its `update_states` iteration:
    the position is recorded as the last position, the transition is taken,
    and the new state's action is applied. The hunting heading, which reads
    another slot, is stated where it is known.
   */
  predicate Acted(cfg: Config, t: Table, r: Table, j: nat)
    requires WellFormed(t) && WellFormed(r) && |r.states| == |t.states| && j < |t.states|
  {
    var next := NextState(cfg, t.states[j], t.masses[j]);
    && r.states[j] == next
    && r.lastPositions[j] == t.positions[j]
    && (next == Incubating ==>
          && r.movements[j] == Zero
          && r.masses[j] == t.masses[j] + cfg.incubateMassReward
          && r.positions[j] == t.positions[j])
    && (next == Hunting ==>
          && r.masses[j] == t.masses[j] - cfg.moveMassCost
          && r.positions[j] == t.positions[j])
    && (next == Splitting ==>
          && r.movements[j] == t.movements[j]
          && r.masses[j] == t.masses[j] / 2.0
          && r.positions[j] == Sub(t.positions[j], SplitOffset))
    && (next == Dead ==>
          && r.movements[j] == t.movements[j]
          && r.masses[j] == t.masses[j]
          && r.positions[j] == t.positions[j])
  }

  /**
    One iteration of `update_states`: remember the position, apply the
    transition, then the action of the new state.
   */
  function UpdateAgent(cfg: Config, t: Table, steer: Steering, i: nat): (r: Table)
    requires WellFormed(t) && i < |t.states|
    ensures WellFormed(r) && SameShape(t, r)
    ensures LiveStaysLive(t, r)
    ensures Acted(cfg, t, r, i)
    ensures NextState(cfg, t.states[i], t.masses[i]) == Hunting ==>
      r.movements[i] == steer(t.positions[i], t.positions[0])
    ensures forall j :: 0 <= j < |t.states| && j != i ==>
      r.movements[j] == t.movements[j] && r.lastPositions[j] == t.lastPositions[j]
    ensures forall j :: 0 <= j < |t.states| && j != i && t.states[j] != Dead ==> SlotUnchanged(t, r, j)
    ensures forall j :: 0 <= j < |t.states| && j != i && !SlotUnchanged(t, r, j) ==>
      && NextState(cfg, t.states[i], t.masses[i]) == Splitting
      && t.states[j] == Dead
      && r.states[j] == Splitting
      && r.positions[j] == Add(t.positions[i], SplitOffset)
      && r.masses[j] == t.masses[i] / 2.0
  {
    ApplyAction(cfg, Transitioned(cfg, t, i), steer, i)
  }

  /**
    A split in an `update_states` iteration creates its clone: when a slot
    was `Dead` before the iteration, the first such slot becomes a
    `Splitting` clone at the parent's position plus `(1, 1)` with half the
    parent's mass, and no slot other than parent and clone changes.
   */
  lemma UpdateAgentSplits(cfg: Config, t: Table, steer: Steering, i: nat)
    requires WellFormed(t) && i < |t.states|
    requires NextState(cfg, t.states[i], t.masses[i]) == Splitting
    ensures
      var r := UpdateAgent(cfg, t, steer, i);
      var k := FirstDead(t.states, 0);
      && (k < |t.states| ==>
            && k != i
            && r.states[k] == Splitting
            && r.positions[k] == Add(t.positions[i], SplitOffset)
            && r.masses[k] == t.masses[i] / 2.0
            && r.movements[k] == t.movements[k])
      && (forall j :: 0 <= j < |t.states| && j != i && j != k ==> SlotUnchanged(t, r, j))
  {
    assert UpdateAgent(cfg, t, steer, i) == ApplyAction(cfg, Transitioned(cfg, t, i), steer, i);
    TransitionedSplitClone(cfg, t, steer, i);
  }

  /** The first half of an `update_states` iteration: record the last position and take the transition. */
  function Transitioned(cfg: Config, t: Table, i: nat): (m: Table)
    requires WellFormed(t) && i < |t.states|
    ensures WellFormed(m) && SameShape(t, m)
    ensures m.states == t.states[i := NextState(cfg, t.states[i], t.masses[i])]
    ensures m.lastPositions == t.lastPositions[i := t.positions[i]]
    ensures m.positions == t.positions && m.movements == t.movements && m.masses == t.masses
  {
    t.(lastPositions := t.lastPositions[i := t.positions[i]],
       states := t.states[i := NextState(cfg, t.states[i], t.masses[i])])
  }

  /**
    A split in an `update_states` iteration claims the first slot that was
    `Dead` before the iteration, as its clone, and changes no other slot.
   */
  lemma TransitionedSplitClone(cfg: Config, t: Table, steer: Steering, i: nat)
    requires WellFormed(t) && i < |t.states|
    requires NextState(cfg, t.states[i], t.masses[i]) == Splitting
    ensures
      var r := ApplyAction(cfg, Transitioned(cfg, t, i), steer, i);
      var k := FirstDead(t.states, 0);
      && (k < |t.states| ==>
            && k != i
            && r.states[k] == Splitting
            && r.positions[k] == Add(t.positions[i], SplitOffset)
            && r.masses[k] == t.masses[i] / 2.0
            && r.movements[k] == t.movements[k])
      && (forall j :: 0 <= j < |t.states| && j != i && j != k ==> SlotUnchanged(t, r, j))
  {
    var m := Transitioned(cfg, t, i);
    SplittingOnlyFromHunting(cfg, t.states[i], t.masses[i]);
    FirstDeadLiveUpdate(t.states, 0, i, Splitting);
    assert FirstDead(m.states, 0) == FirstDead(t.states, 0);
  }

  /**
    The action switch of `update_states`: the action of the state slot `i`
    already holds, touching no other slot except the clone a split claims.
   */
  function ApplyAction(cfg: Config, m: Table, steer: Steering, i: nat): (r: Table)
    requires WellFormed(m) && i < |m.states|
    ensures WellFormed(r) && SameShape(m, r)
    ensures LiveStaysLive(m, r)
    ensures r.states[i] == m.states[i] && r.lastPositions == m.lastPositions
    ensures m.states[i] == Incubating ==>
      && r.movements[i] == Zero
      && r.masses[i] == m.masses[i] + cfg.incubateMassReward
      && r.positions[i] == m.positions[i]
    ensures m.states[i] == Hunting ==>
      && r.movements[i] == steer(m.positions[i], m.positions[0])
      && r.masses[i] == m.masses[i] - cfg.moveMassCost
      && r.positions[i] == m.positions[i]
    ensures m.states[i] == Splitting ==>
      && r.movements[i] == m.movements[i]
      && r.masses[i] == m.masses[i] / 2.0
      && r.positions[i] == Sub(m.positions[i], SplitOffset)
    ensures m.states[i] == Dead ==> r == m
    ensures m.states[i] == Splitting ==>
      var k := FirstDead(m.states, 0);
      && (k < |m.states| ==>
            && k != i
            && r.states[k] == Splitting
            && r.positions[k] == Add(m.positions[i], SplitOffset)
            && r.masses[k] == m.masses[i] / 2.0
            && r.movements[k] == m.movements[k])
      && (forall j :: 0 <= j < |m.states| && j != i && j != k ==> SlotUnchanged(m, r, j))
    ensures forall j :: 0 <= j < |m.states| && j != i ==> r.movements[j] == m.movements[j]
    ensures forall j :: 0 <= j < |m.states| && j != i && m.states[j] != Dead ==> SlotUnchanged(m, r, j)
    ensures forall j :: 0 <= j < |m.states| && j != i && !SlotUnchanged(m, r, j) ==>
      && m.states[i] == Splitting
      && m.states[j] == Dead
      && r.states[j] == Splitting
      && r.positions[j] == Add(m.positions[i], SplitOffset)
      && r.masses[j] == m.masses[i] / 2.0
  {
    match m.states[i]
    case Incubating => SimulateIncubating(cfg, m, i)
    case Hunting => SimulateHunting(cfg, m, steer, i)
    case Splitting => SimulateSplitting(m, i)
    case Dead => m
  }

  /**
    `update_states` from id `i` on: every live slot in `i .. lastAgentIndex`
    takes its transition and action, live slots already visited keep their
    result, slots at or beyond `lastAgentIndex` change only when a spawn
    claims a `Dead` one, and no live slot becomes `Dead`.
   */
  function UpdateStatesFrom(cfg: Config, t: Table, steer: Steering, i: nat): (r: Table)
    requires WellFormed(t) && i <= t.lastAgentIndex
    ensures WellFormed(r) && SameShape(t, r)
    ensures LiveStaysLive(t, r)
    ensures forall j :: i <= j < t.lastAgentIndex && t.states[j] != Dead ==> Acted(cfg, t, r, j)
    ensures forall j :: 0 <= j < i && t.states[j] != Dead ==> SlotUnchanged(t, r, j)
    ensures forall j :: 0 <= j < i ==> r.lastPositions[j] == t.lastPositions[j]
    ensures forall j :: t.lastAgentIndex <= j < |t.states| ==>
      r.movements[j] == t.movements[j] && r.lastPositions[j] == t.lastPositions[j]
    ensures forall j :: t.lastAgentIndex <= j < |t.states| && t.states[j] != Dead ==> SlotUnchanged(t, r, j)
    decreases t.lastAgentIndex - i
  {
    if i == t.lastAgentIndex then t
    else
      var t' := UpdateAgent(cfg, t, steer, i);
      var r := UpdateStatesFrom(cfg, t', steer, i + 1);
      ActedCarries(cfg, t, t', r, i);
      r
  }

  /**
    The step of `UpdateStatesFrom`'s induction: a live slot acted on now, or
    a live slot still waiting, ends in its acted state after the rest of the
    pass.
   */
  lemma ActedCarries(cfg: Config, t: Table, t': Table, r: Table, i: nat)
    requires WellFormed(t) && WellFormed(t') && WellFormed(r)
    requires |t'.states| == |t.states| && |r.states| == |t.states| && i < |t.states|
    requires Acted(cfg, t, t', i)
    requires t.states[i] != Dead ==> t'.states[i] != Dead && SlotUnchanged(t', r, i)
    requires forall j :: i < j < |t.states| && t.states[j] != Dead ==> SlotUnchanged(t, t', j)
    requires forall j :: i < j < t.lastAgentIndex && t'.states[j] != Dead ==> Acted(cfg, t', r, j)
    ensures t.states[i] != Dead ==> Acted(cfg, t, r, i)
    ensures forall j :: i < j < t.lastAgentIndex && t.states[j] != Dead ==> Acted(cfg, t, r, j)
  {
    forall j | i < j < t.lastAgentIndex && t.states[j] != Dead
      ensures Acted(cfg, t, r, j)
    {
      assert SlotUnchanged(t, t', j);
      assert Acted(cfg, t', r, j);
    }
  }

  /**
    `update_states`: one pass over ids `0 .. lastAgentIndex`, in which every
    live visited slot takes its transition and action.
   */
  function UpdateStates(cfg: Config, t: Table, steer: Steering): (r: Table)
    requires WellFormed(t)
    ensures WellFormed(r) && SameShape(t, r)
    ensures LiveStaysLive(t, r)
    ensures forall j :: 0 <= j < t.lastAgentIndex && t.states[j] != Dead ==> Acted(cfg, t, r, j)
    ensures LiveCount(t.states) <= LiveCount(r.states)
    ensures forall j :: t.lastAgentIndex <= j < |t.states| && t.states[j] != Dead ==> SlotUnchanged(t, r, j)
  {
    var r := UpdateStatesFrom(cfg, t, steer, 0);
    LiveCountMonotone(t.states, r.states);
    r
  }

  /**
    Slot `j` of `r` is a clone spawned by slot `p`, a Hunting agent in
    `i .. lastAgentIndex` of `t` whose transition is to split. The clone is
    live; unless the pass visits it after the spawn (`p < j < lastAgentIndex`),
    it still holds the spawn's values: Splitting, at `p`'s position plus
    `(1, 1)`, with half `p`'s mass and its own old movement.
   */
  predicate CloneOf(cfg: Config, t: Table, r: Table, i: nat, j: nat, p: nat)
    requires WellFormed(t) && WellFormed(r) && |r.states| == |t.states| && j < |t.states|
  {
    && i <= p < t.lastAgentIndex && p != j
    && t.states[p] == Hunting
    && NextState(cfg, t.states[p], t.masses[p]) == Splitting
    && r.states[j] != Dead
    && ((j < p || t.lastAgentIndex <= j) ==>
          && r.states[j] == Splitting
          && r.positions[j] == Add(t.positions[p], SplitOffset)
          && r.masses[j] == t.masses[p] / 2.0
          && r.movements[j] == t.movements[j])
  }

  /**
    What a pass from id `i` can do to a slot that is `Dead` in `t`: leave it
    Dead with its position, mass and movement, or hand it to a clone spawned
    by a splitting agent of the pass.
   */
  predicate DeadSlotFate(cfg: Config, t: Table, r: Table, i: nat, j: nat)
    requires WellFormed(t) && WellFormed(r) && |r.states| == |t.states| && j < |t.states|
  {
    || (&& r.states[j] == Dead
        && r.positions[j] == t.positions[j]
        && r.masses[j] == t.masses[j]
        && r.movements[j] == t.movements[j])
    || (exists p :: i <= p < t.lastAgentIndex && CloneOf(cfg, t, r, i, j, p))
  }

  /** A pass from id `i` leaves every initially `Dead` slot Dead and untouched, or makes it a clone of the pass. */
  lemma {:induction false} DeadSlotsFrom(cfg: Config, t: Table, steer: Steering, i: nat, j: nat)
    requires WellFormed(t) && i <= t.lastAgentIndex
    requires j < |t.states| && t.states[j] == Dead
    ensures DeadSlotFate(cfg, t, UpdateStatesFrom(cfg, t, steer, i), i, j)
    decreases t.lastAgentIndex - i, 1
  {
    if i < t.lastAgentIndex {
      DeadSlotStep(cfg, t, steer, i, j);
    } else {
      DeadSlotsDone(cfg, t, steer, i, j);
    }
  }

  /** The step of `DeadSlotsFrom`'s induction: iteration `i` either leaves the slot Dead for the rest of the pass or claims it. */
  lemma {:induction false} DeadSlotStep(cfg: Config, t: Table, steer: Steering, i: nat, j: nat)
    requires WellFormed(t) && i < t.lastAgentIndex && j < |t.states| && t.states[j] == Dead
    ensures DeadSlotFate(cfg, t, UpdateStatesFrom(cfg, t, steer, i), i, j)
    decreases t.lastAgentIndex - i, 0
  {
    var t' := UpdateAgent(cfg, t, steer, i);
    if t'.states[j] == Dead {
      DeadSlotsFrom(cfg, t', steer, i + 1, j);
    }
    DeadSlotCases(cfg, t, steer, i, j);
  }

  /** `DeadSlotStep` once the rest of the pass is known to give a still-Dead slot its fate. */
  lemma DeadSlotCases(cfg: Config, t: Table, steer: Steering, i: nat, j: nat)
    requires WellFormed(t) && i < t.lastAgentIndex && j < |t.states| && t.states[j] == Dead
    requires
      var t' := UpdateAgent(cfg, t, steer, i);
      t'.states[j] == Dead ==> DeadSlotFate(cfg, t', UpdateStatesFrom(cfg, t', steer, i + 1), i + 1, j)
    ensures DeadSlotFate(cfg, t, UpdateStatesFrom(cfg, t, steer, i), i, j)
  {
    if UpdateAgent(cfg, t, steer, i).states[j] == Dead {
      DeadSlotCarried(cfg, t, steer, i, j);
    } else {
      DeadSlotClaimed(cfg, t, steer, i, j);
    }
  }

  /** The base of `DeadSlotsFrom`'s induction: an empty pass leaves the slot as it is. */
  lemma DeadSlotsDone(cfg: Config, t: Table, steer: Steering, i: nat, j: nat)
    requires WellFormed(t) && i == t.lastAgentIndex && j < |t.states| && t.states[j] == Dead
    ensures DeadSlotFate(cfg, t, UpdateStatesFrom(cfg, t, steer, i), i, j)
  {
    assert UpdateStatesFrom(cfg, t, steer, i) == t;
  }

  /**
    A slot still `Dead` after iteration `i` has, after the rest of the pass,
    the fate it would have had from the start: iteration `i` touched neither
    it nor any later parent.
   */
  lemma DeadSlotCarried(cfg: Config, t: Table, steer: Steering, i: nat, j: nat)
    requires WellFormed(t) && i < t.lastAgentIndex && j < |t.states| && t.states[j] == Dead
    requires UpdateAgent(cfg, t, steer, i).states[j] == Dead
    requires
      var t' := UpdateAgent(cfg, t, steer, i);
      DeadSlotFate(cfg, t', UpdateStatesFrom(cfg, t', steer, i + 1), i + 1, j)
    ensures DeadSlotFate(cfg, t, UpdateStatesFrom(cfg, t, steer, i), i, j)
  {
    var t' := UpdateAgent(cfg, t, steer, i);
    var r := UpdateStatesFrom(cfg, t', steer, i + 1);
    assert UpdateStatesFrom(cfg, t, steer, i) == r;
    if j == i {
      assert Acted(cfg, t, t', i);
    } else {
      assert SlotUnchanged(t, t', j);
    }
    if !(r.states[j] == Dead && r.positions[j] == t'.positions[j]
         && r.masses[j] == t'.masses[j] && r.movements[j] == t'.movements[j]) {
      var p :| i + 1 <= p < t'.lastAgentIndex && CloneOf(cfg, t', r, i + 1, j, p);
      assert SlotUnchanged(t, t', p);
      assert i <= p < t.lastAgentIndex && CloneOf(cfg, t, r, i, j, p);
    }
  }

  /**
    A slot that iteration `i` takes from `Dead` is the clone of agent `i`,
    and stays a clone for the rest of the pass.
   */
  lemma DeadSlotClaimed(cfg: Config, t: Table, steer: Steering, i: nat, j: nat)
    requires WellFormed(t) && i < t.lastAgentIndex && j < |t.states| && t.states[j] == Dead
    requires UpdateAgent(cfg, t, steer, i).states[j] != Dead
    ensures DeadSlotFate(cfg, t, UpdateStatesFrom(cfg, t, steer, i), i, j)
  {
    var t' := UpdateAgent(cfg, t, steer, i);
    var r := UpdateStatesFrom(cfg, t', steer, i + 1);
    assert UpdateStatesFrom(cfg, t, steer, i) == r;
    assert j != i;
    assert !SlotUnchanged(t, t', j);
    SplittingOnlyFromHunting(cfg, t.states[i], t.masses[i]);
    if j < i + 1 || t.lastAgentIndex <= j {
      assert SlotUnchanged(t', r, j);
    }
    assert CloneOf(cfg, t, r, i, j, i);
  }

  /**
    After `update_states`, a slot that was `Dead` is either still Dead with
    its position, mass and movement, or a clone spawned by a splitting agent.
   */
  lemma UpdateStatesDeadSlots(cfg: Config, t: Table, steer: Steering, j: nat)
    requires WellFormed(t) && j < |t.states| && t.states[j] == Dead
    ensures DeadSlotFate(cfg, t, UpdateStates(cfg, t, steer), 0, j)
  {
    DeadSlotsFrom(cfg, t, steer, 0, j);
    assert UpdateStates(cfg, t, steer) == UpdateStatesFrom(cfg, t, steer, 0);
  }

  // ---------------------------------------------------------------------------
  // update_positions
  // ---------------------------------------------------------------------------

  /** One coordinate clamped into [-limit, limit], as the map-collision checks do. */
  function ClampAxis(limit: real, v: real): (r: real)
    requires limit >= 0.0
    ensures -limit <= r <= limit
    ensures -limit <= v <= limit ==> r == v
    ensures v < -limit ==> r == -limit
    ensures v > limit ==> r == limit
  {
    var low := if v < -limit then -limit else v;
    if low > limit then limit else low
  }

  /** A position moved by `movement * delta` and clamped into the map box. */
  function Integrate(cfg: Config, p: Vec2, movement: Vec2, delta: real): (r: Vec2)
    requires ValidConfig(cfg)
    ensures -cfg.mapSize <= r.x <= cfg.mapSize && -cfg.mapSize <= r.y <= cfg.mapSize
  {
    var moved := Add(p, Scale(movement, delta));
    Vec2(ClampAxis(cfg.mapSize, moved.x), ClampAxis(cfg.mapSize, moved.y))
  }

  /** The position part of `update_positions` from id `i` on. */
  function AdvanceFrom(cfg: Config, t: Table, delta: real, i: nat): (r: Table)
    requires ValidConfig(cfg) && WellFormed(t) && i <= t.lastAgentIndex
    ensures WellFormed(r) && SameShape(t, r)
    ensures r.states == t.states && r.lastPositions == t.lastPositions
    ensures r.movements == t.movements && r.masses == t.masses
    ensures forall j :: i <= j < t.lastAgentIndex ==>
      r.positions[j] == Integrate(cfg, t.positions[j], t.movements[j], delta)
    ensures forall j :: 0 <= j < |t.states| && !(i <= j < t.lastAgentIndex) ==> r.positions[j] == t.positions[j]
    decreases t.lastAgentIndex - i
  {
    if i == t.lastAgentIndex then t
    else
      var p := Integrate(cfg, t.positions[i], t.movements[i], delta);
      AdvanceFrom(cfg, t.(positions := t.positions[i := p]), delta, i + 1)
  }

  /**
    Tell the index that ids `from ..` moved from `olds[id]` to `news[id]`, in
    ascending order, stopping at the first `at()` failure.
   */
  function MoveEach(g: SI.Index, olds: seq<Vec2>, news: seq<Vec2>, from: nat): (r: SI.Result<SI.Index>)
    requires SI.Valid(g) && |olds| == |news| && from <= |olds|
    ensures r.Ok? ==> SI.Valid(r.value) && SI.SameShape(g, r.value)
    ensures r.Ok? ==> SI.Total(r.value.chunks) == SI.Total(g.chunks)
    ensures (forall j :: from <= j < |olds| ==> NearMap(g, olds[j]) && NearMap(g, news[j])) ==> r.Ok?
    decreases |olds| - from
  {
    if from == |olds| then SI.Ok(g)
    else
      NearMapReachable(g, olds[from]);
      NearMapReachable(g, news[from]);
      match SI.Moved(g, from, olds[from], news[from])
      case OutOfRange(c) => SI.OutOfRange(c)
      case Ok(g') => MoveEach(g', olds, news, from + 1)
  }

  /** A successful pass of `moved` calls for ids `from ..` leaves the per-chunk count of every other id unchanged. */
  lemma {:induction false} MoveEachKeepsOthers(g: SI.Index, olds: seq<Vec2>, news: seq<Vec2>, from: nat, x: nat, c: int)
    requires SI.Valid(g) && |olds| == |news| && from <= |olds|
    requires MoveEach(g, olds, news, from).Ok?
    requires !(from <= x < |olds|) && 0 <= c < |g.chunks|
    ensures multiset(MoveEach(g, olds, news, from).value.chunks[c])[x] == multiset(g.chunks[c])[x]
    decreases |olds| - from
  {
    if from < |olds| {
      var m := SI.Moved(g, from, olds[from], news[from]);
      assert m.Ok?;
      SI.MovedKeepsOthers(g, from, olds[from], news[from], x, c);
      MoveEachKeepsOthers(m.value, olds, news, from + 1, x, c);
    }
  }

  /**
    In a successful pass of `moved` calls, an id held once in the chunk of
    its old position, whose new position lies in another chunk, ends in the
    new position's chunk and no longer in the old one.
   */
  lemma {:induction false} MoveEachPlaces(g: SI.Index, olds: seq<Vec2>, news: seq<Vec2>, from: nat, j: nat)
    requires SI.Valid(g) && |olds| == |news| && from <= j < |olds|
    requires MoveEach(g, olds, news, from).Ok?
    requires SI.Reachable(g, olds[j]) && SI.ChunkIndex(g, olds[j]) != SI.ChunkIndex(g, news[j])
    requires multiset(g.chunks[SI.ChunkIndex(g, olds[j])])[j] == 1
    ensures SI.Reachable(g, news[j])
    ensures j in MoveEach(g, olds, news, from).value.chunks[SI.ChunkIndex(g, news[j])]
    ensures j !in MoveEach(g, olds, news, from).value.chunks[SI.ChunkIndex(g, olds[j])]
    decreases |olds| - from
  {
    if from == j {
      MoveEachPlacesFirst(g, olds, news, j);
    } else {
      var m := SI.Moved(g, from, olds[from], news[from]);
      assert m.Ok?;
      var g1 := m.value;
      assert MoveEach(g, olds, news, from) == MoveEach(g1, olds, news, from + 1);
      SI.ChunkIndexSameShape(g, g1, olds[j]);
      SI.ChunkIndexSameShape(g, g1, news[j]);
      SI.MovedKeepsOthers(g, from, olds[from], news[from], j, SI.ChunkIndex(g, olds[j]));
      MoveEachPlaces(g1, olds, news, from + 1, j);
    }
  }

  /** `MoveEachPlaces` for the id the pass moves first. */
  lemma MoveEachPlacesFirst(g: SI.Index, olds: seq<Vec2>, news: seq<Vec2>, j: nat)
    requires SI.Valid(g) && |olds| == |news| && j < |olds|
    requires MoveEach(g, olds, news, j).Ok?
    requires SI.Reachable(g, olds[j]) && SI.ChunkIndex(g, olds[j]) != SI.ChunkIndex(g, news[j])
    requires multiset(g.chunks[SI.ChunkIndex(g, olds[j])])[j] == 1
    ensures SI.Reachable(g, news[j])
    ensures j in MoveEach(g, olds, news, j).value.chunks[SI.ChunkIndex(g, news[j])]
    ensures j !in MoveEach(g, olds, news, j).value.chunks[SI.ChunkIndex(g, olds[j])]
  {
    var co, cn := SI.ChunkIndex(g, olds[j]), SI.ChunkIndex(g, news[j]);
    var m := SI.Moved(g, j, olds[j], news[j]);
    assert m.Ok?;
    var g1 := m.value;
    assert MoveEach(g, olds, news, j) == MoveEach(g1, olds, news, j + 1);
    SI.ChunkIndexSameShape(g, g1, olds[j]);
    SI.ChunkIndexSameShape(g, g1, news[j]);
    assert j in g.chunks[co] by {
      assert j in multiset(g.chunks[co]);
    }
    assert SI.Reachable(g, news[j]);
    SI.MovedThenCloseTo(g, j, olds[j], news[j]);
    assert j in g1.chunks[cn] && j !in g1.chunks[co];
    MoveEachKeepsOthers(g1, olds, news, j + 1, j, cn);
    MoveEachKeepsOthers(g1, olds, news, j + 1, j, co);
    assert j in multiset(g1.chunks[cn]);
    assert j !in multiset(g1.chunks[co]);
  }

  /** Less than one chunk beyond the left and bottom map edges, where `at()` cannot fail. */
  predicate NearMap(g: SI.Index, p: Vec2) {
    -g.mapSize - g.chunkSize < p.x && -g.mapSize - g.chunkSize < p.y
  }

  /** `at()` accepts the chunk of every position near the map. */
  lemma NearMapReachable(g: SI.Index, p: Vec2)
    requires SI.Valid(g)
    ensures NearMap(g, p) ==> SI.Reachable(g, p)
  {
    if NearMap(g, p) {
      SI.ChunkIndexInRange(g, p);
    }
  }

  /**
    `update_positions`: move and clamp every visited slot, and report each
    move to the index from the position held before this phase.
   */
  function UpdatePositions(cfg: Config, s: Simulation, delta: real): (r: SI.Result<Simulation>)
    requires Consistent(cfg, s)
    ensures r.Ok? ==> Consistent(cfg, r.value) && SameShape(s.agents, r.value.agents)
    ensures r.Ok? ==> SI.Total(r.value.index.chunks) == SI.Total(s.index.chunks)
    ensures r.Ok? ==>
      var t, t' := s.agents, r.value.agents;
      && t'.states == t.states && t'.masses == t.masses
      && t'.movements == t.movements && t'.lastPositions == t.lastPositions
      && (forall j :: 0 <= j < t.lastAgentIndex ==>
            t'.positions[j] == Integrate(cfg, t.positions[j], t.movements[j], delta))
      && (forall j :: t.lastAgentIndex <= j < |t.states| ==> t'.positions[j] == t.positions[j])
    ensures (forall j :: 0 <= j < s.agents.lastAgentIndex ==> NearMap(s.index, s.agents.positions[j])) ==> r.Ok?
  {
    var t := s.agents;
    var t' := AdvanceFrom(cfg, t, delta, 0);
    var last := t.lastAgentIndex;
    assert forall j :: 0 <= j < last ==> NearMap(s.index, t'.positions[j]) by {
      assert s.index.chunkSize > 0.0;
    }
    match MoveEach(s.index, t.positions[..last], t'.positions[..last], 0)
    case OutOfRange(c) => SI.OutOfRange(c)
    case Ok(g) => SI.Ok(Simulation(t', g))
  }

  /**
    `update_positions` re-files each visited agent: an id held once in the
    chunk of its position before the pass, whose clamped new position lies
    in another chunk, ends in the new chunk and leaves the old one.
   */
  lemma UpdatePositionsPlaces(cfg: Config, s: Simulation, delta: real, j: nat)
    requires Consistent(cfg, s) && UpdatePositions(cfg, s, delta).Ok?
    requires j < s.agents.lastAgentIndex
    requires
      var p := s.agents.positions[j];
      var q := Integrate(cfg, p, s.agents.movements[j], delta);
      && SI.Reachable(s.index, p) && SI.ChunkIndex(s.index, p) != SI.ChunkIndex(s.index, q)
      && multiset(s.index.chunks[SI.ChunkIndex(s.index, p)])[j] == 1
    ensures SI.Reachable(s.index, Integrate(cfg, s.agents.positions[j], s.agents.movements[j], delta))
    ensures
      var p := s.agents.positions[j];
      var q := Integrate(cfg, p, s.agents.movements[j], delta);
      var g := UpdatePositions(cfg, s, delta).value.index;
      j in g.chunks[SI.ChunkIndex(s.index, q)] && j !in g.chunks[SI.ChunkIndex(s.index, p)]
  {
    var t := s.agents;
    var last := t.lastAgentIndex;
    var t' := AdvanceFrom(cfg, t, delta, 0);
    assert UpdatePositions(cfg, s, delta).value.index == MoveEach(s.index, t.positions[..last], t'.positions[..last], 0).value;
    MoveEachPlaces(s.index, t.positions[..last], t'.positions[..last], 0, j);
  }

  /** `update_positions` leaves the per-chunk count of every id at or beyond `lastAgentIndex` unchanged. */
  lemma UpdatePositionsKeepsOthers(cfg: Config, s: Simulation, delta: real, x: nat, c: int)
    requires Consistent(cfg, s) && UpdatePositions(cfg, s, delta).Ok?
    requires s.agents.lastAgentIndex <= x && 0 <= c < SI.ChunkCount
    ensures multiset(UpdatePositions(cfg, s, delta).value.index.chunks[c])[x] == multiset(s.index.chunks[c])[x]
  {
    var t := s.agents;
    var last := t.lastAgentIndex;
    var t' := AdvanceFrom(cfg, t, delta, 0);
    assert UpdatePositions(cfg, s, delta).value.index == MoveEach(s.index, t.positions[..last], t'.positions[..last], 0).value;
    MoveEachKeepsOthers(s.index, t.positions[..last], t'.positions[..last], 0, x, c);
  }

  // ---------------------------------------------------------------------------
  // update_spatial_index and step
  // ---------------------------------------------------------------------------

  /**
    `update_spatial_index`: over the whole capacity, tell the index that each
    id moved from its last position to its current one.
   */
  function UpdateSpatialIndex(s: Simulation): (r: SI.Result<Simulation>)
    requires WellFormed(s.agents) && SI.Valid(s.index)
    ensures r.Ok? ==> r.value.agents == s.agents
    ensures r.Ok? ==> SI.Valid(r.value.index) && SI.SameShape(s.index, r.value.index)
    ensures r.Ok? ==> SI.Total(r.value.index.chunks) == SI.Total(s.index.chunks)
    ensures (forall j :: 0 <= j < |s.agents.states| ==>
               NearMap(s.index, s.agents.lastPositions[j]) && NearMap(s.index, s.agents.positions[j])) ==> r.Ok?
  {
    match MoveEach(s.index, s.agents.lastPositions, s.agents.positions, 0)
    case OutOfRange(c) => SI.OutOfRange(c)
    case Ok(g) => SI.Ok(Simulation(s.agents, g))
  }

  /**
    `update_spatial_index` re-files each slot from its last position to its
    current one: an id held once in its last position's chunk, whose current
    position lies in another chunk, ends in the current chunk and leaves the
    last one.
   */
  lemma UpdateSpatialIndexPlaces(s: Simulation, j: nat)
    requires WellFormed(s.agents) && SI.Valid(s.index) && UpdateSpatialIndex(s).Ok?
    requires j < |s.agents.states|
    requires
      var p, q := s.agents.lastPositions[j], s.agents.positions[j];
      && SI.Reachable(s.index, p) && SI.ChunkIndex(s.index, p) != SI.ChunkIndex(s.index, q)
      && multiset(s.index.chunks[SI.ChunkIndex(s.index, p)])[j] == 1
    ensures SI.Reachable(s.index, s.agents.positions[j])
    ensures
      var p, q := s.agents.lastPositions[j], s.agents.positions[j];
      var g := UpdateSpatialIndex(s).value.index;
      j in g.chunks[SI.ChunkIndex(s.index, q)] && j !in g.chunks[SI.ChunkIndex(s.index, p)]
  {
    MoveEachPlaces(s.index, s.agents.lastPositions, s.agents.positions, 0, j);
  }

  /**
    `step`: `respawn_agents` (empty), then `update_states`,
    `update_positions` and `update_spatial_index`. The step fails only when an
    `at()` inside the grid does.
   */
  function Step(cfg: Config, s: Simulation, steer: Steering, delta: real): (r: SI.Result<Simulation>)
    requires Consistent(cfg, s)
    ensures r.Ok? ==> Consistent(cfg, r.value) && SameShape(s.agents, r.value.agents)
    ensures r.Ok? ==> LiveStaysLive(s.agents, r.value.agents)
    ensures r.Ok? ==> LiveCount(s.agents.states) <= LiveCount(r.value.agents.states)
    ensures r.Ok? ==> SI.Total(r.value.index.chunks) == SI.Total(s.index.chunks)
  {
    var t := UpdateStates(cfg, s.agents, steer);
    match UpdatePositions(cfg, Simulation(t, s.index), delta)
    case OutOfRange(c) => SI.OutOfRange(c)
    case Ok(moved) => UpdateSpatialIndex(moved)
  }

  // ---------------------------------------------------------------------------
  // The step never leaves the grid
  // ---------------------------------------------------------------------------

  /** Both coordinates at least `b`. */
  predicate Above(p: Vec2, b: real) {
    p.x >= b && p.y >= b
  }

  /** Every current and last position has both coordinates at least `-half`. */
  predicate Floored(half: real, t: Table)
    requires WellFormed(t)
  {
    forall j :: 0 <= j < |t.states| ==> Above(t.positions[j], -half) && Above(t.lastPositions[j], -half)
  }

  /**
    The bound kept during an `update_states` pass that has reached id `i`:
    positions of slots not yet visited are at least `b`, all positions at
    least `b - 1`, and all last positions at least `b`.
   */
  predicate FloorFrom(t: Table, i: nat, b: real)
    requires WellFormed(t)
  {
    && (forall j :: i <= j < |t.states| ==> Above(t.positions[j], b))
    && (forall j :: 0 <= j < |t.states| ==> Above(t.positions[j], b - 1.0) && Above(t.lastPositions[j], b))
  }

  /**
    One agent update lowers only the acting slot, by at most the split
    offset; a clone lands above its parent.
   */
  lemma UpdateAgentFloor(cfg: Config, t: Table, steer: Steering, i: nat, b: real)
    requires WellFormed(t) && i < |t.states|
    requires FloorFrom(t, i, b)
    ensures FloorFrom(UpdateAgent(cfg, t, steer, i), i + 1, b)
  {
    var r := UpdateAgent(cfg, t, steer, i);
    forall j | 0 <= j < |t.states|
      ensures Above(r.positions[j], b - 1.0) && Above(r.lastPositions[j], b)
      ensures i + 1 <= j ==> Above(r.positions[j], b)
    {
      if j != i && !SlotUnchanged(t, r, j) {
        assert r.positions[j] == Add(t.positions[i], SplitOffset);
      }
    }
  }

  /**
    Over one `update_states` pass from a floored table, visited slots drop
    at most one unit below the floor and unvisited slots stay above it.
   */
  lemma UpdateStatesFloor(cfg: Config, t: Table, steer: Steering, b: real)
    requires WellFormed(t)
    requires FloorFrom(t, 0, b)
    ensures FloorFrom(UpdateStates(cfg, t, steer), t.lastAgentIndex, b)
  {
    var last := t.lastAgentIndex;
    var r := PassBefore(cfg, t, steer, last);
    PassBeforeFloor(cfg, t, steer, last, b);
    PassBeforeFinishes(cfg, t, steer, last);
    assert UpdateStatesFrom(cfg, r, steer, last) == r;
  }

  /**
    After `update_states`, `update_positions` succeeds when chunks are wider
    than the split offset, and clamps every visited slot back above the
    bottom-left edge.
   */
  lemma UpdatePositionsFloor(cfg: Config, s: Simulation, delta: real)
    requires Consistent(cfg, s) && s.index.chunkSize > 1.0
    requires FloorFrom(s.agents, s.agents.lastAgentIndex, -cfg.mapSize)
    ensures UpdatePositions(cfg, s, delta).Ok?
    ensures Floored(cfg.mapSize, UpdatePositions(cfg, s, delta).value.agents)
  {
    var t := s.agents;
    assert forall j :: 0 <= j < t.lastAgentIndex ==> NearMap(s.index, t.positions[j]) by {
      forall j | 0 <= j < t.lastAgentIndex
        ensures NearMap(s.index, t.positions[j])
      {
        assert Above(t.positions[j], -cfg.mapSize - 1.0);
      }
    }
    var u := UpdatePositions(cfg, s, delta).value.agents;
    forall j | 0 <= j < |u.states|
      ensures Above(u.positions[j], -cfg.mapSize) && Above(u.lastPositions[j], -cfg.mapSize)
    {
      if j < t.lastAgentIndex {
        assert u.positions[j] == Integrate(cfg, t.positions[j], t.movements[j], delta);
      }
    }
  }

  /** The constructed table lies inside the map, so it is floored at the map's edges. */
  lemma CreateFloored(cfg: Config, maxAgents: nat, startPositions: seq<Vec2>, startMasses: seq<real>)
    requires ValidConfig(cfg)
    requires |startPositions| == |startMasses| <= maxAgents
    requires forall k :: 0 <= k < |startPositions| ==> SI.InMap(cfg.mapSize, startPositions[k])
    ensures Floored(cfg.mapSize, Create(cfg, maxAgents, startPositions, startMasses).agents)
  {
    var t := Create(cfg, maxAgents, startPositions, startMasses).agents;
    forall j | 0 <= j < |t.states|
      ensures Above(t.positions[j], -cfg.mapSize) && Above(t.lastPositions[j], -cfg.mapSize)
    {
      if j < |startPositions| {
        assert SI.InMap(cfg.mapSize, startPositions[j]);
      } else {
        assert t.positions[j] == Zero && t.lastPositions[j] == Zero;
      }
    }
  }

  /**
    The `close_to` lookup a hunter makes at id `i` of an `update_states`
    pass succeeds whenever the pass keeps its floor at the map's edges, as
    `UpdateStatesFloor` shows it does from a floored table: the hunter's own
    position is not yet lowered.
   */
  lemma HuntingLookupSucceeds(g: SI.Index, t: Table, i: nat)
    requires SI.Valid(g) && WellFormed(t) && i < |t.states|
    requires FloorFrom(t, i, -g.mapSize)
    ensures SI.CloseTo(g, t.positions[i]).Ok?
  {
    assert Above(t.positions[i], -g.mapSize);
    NearMapReachable(g, t.positions[i]);
  }

  /** The table an `update_states` pass over `t` holds when it reaches id `k`. */
  function PassBefore(cfg: Config, t: Table, steer: Steering, k: nat): (r: Table)
    requires WellFormed(t) && k <= t.lastAgentIndex
    ensures WellFormed(r) && SameShape(t, r)
    decreases k
  {
    if k == 0 then t else UpdateAgent(cfg, PassBefore(cfg, t, steer, k - 1), steer, k - 1)
  }

  /** From the table it holds at id `k`, the pass finishes as it would have from the start. */
  lemma {:induction false} PassBeforeFinishes(cfg: Config, t: Table, steer: Steering, k: nat)
    requires WellFormed(t) && k <= t.lastAgentIndex
    ensures UpdateStatesFrom(cfg, PassBefore(cfg, t, steer, k), steer, k) == UpdateStates(cfg, t, steer)
    decreases k
  {
    if k > 0 {
      var i := k - 1;
      PassBeforeFinishes(cfg, t, steer, i);
      PassBeforeFinishesStep(cfg, t, steer, i);
      assert i + 1 == k;
    }
  }

  /** The step of `PassBeforeFinishes`'s induction: visiting id `i` is the first step of the pass from `i`. */
  lemma PassBeforeFinishesStep(cfg: Config, t: Table, steer: Steering, i: nat)
    requires WellFormed(t) && i < t.lastAgentIndex
    ensures UpdateStatesFrom(cfg, PassBefore(cfg, t, steer, i + 1), steer, i + 1)
         == UpdateStatesFrom(cfg, PassBefore(cfg, t, steer, i), steer, i)
  {
    var before := PassBefore(cfg, t, steer, i);
    var after := UpdateAgent(cfg, before, steer, i);
    assert PassBefore(cfg, t, steer, i + 1) == after;
    assert UpdateStatesFrom(cfg, before, steer, i) == UpdateStatesFrom(cfg, after, steer, i + 1);
  }

  /** Up to id `k`, a pass from a table floored at `b` keeps `FloorFrom` at `k`. */
  lemma {:induction false} PassBeforeFloor(cfg: Config, t: Table, steer: Steering, k: nat, b: real)
    requires WellFormed(t) && k <= t.lastAgentIndex
    requires FloorFrom(t, 0, b)
    ensures FloorFrom(PassBefore(cfg, t, steer, k), k, b)
    decreases k
  {
    if k > 0 {
      var i := k - 1;
      PassBeforeFloor(cfg, t, steer, i, b);
      PassBeforeFloorStep(cfg, t, steer, i, b);
      assert i + 1 == k;
    }
  }

  /** The step of `PassBeforeFloor`'s induction: visiting id `i` moves the floor on to `i + 1`. */
  lemma PassBeforeFloorStep(cfg: Config, t: Table, steer: Steering, i: nat, b: real)
    requires WellFormed(t) && i < t.lastAgentIndex
    requires FloorFrom(PassBefore(cfg, t, steer, i), i, b)
    ensures FloorFrom(PassBefore(cfg, t, steer, i + 1), i + 1, b)
  {
    var before := PassBefore(cfg, t, steer, i);
    assert PassBefore(cfg, t, steer, i + 1) == UpdateAgent(cfg, before, steer, i);
    UpdateAgentFloor(cfg, before, steer, i, b);
  }

  /**
    In a step from a floored table, every `close_to` lookup a hunter makes
    during `update_states` succeeds: the position it looks up, the one it
    holds when the pass reaches it, lies in a chunk `at()` accepts.
   */
  lemma PassLookupsSucceed(cfg: Config, s: Simulation, steer: Steering, k: nat)
    requires Consistent(cfg, s) && Floored(cfg.mapSize, s.agents)
    requires k < s.agents.lastAgentIndex
    ensures SI.CloseTo(s.index, PassBefore(cfg, s.agents, steer, k).positions[k]).Ok?
  {
    assert FloorFrom(s.agents, 0, -cfg.mapSize);
    PassBeforeFloor(cfg, s.agents, steer, k, -cfg.mapSize);
    HuntingLookupSucceeds(s.index, PassBefore(cfg, s.agents, steer, k), k);
  }

  /**
    On a map whose chunks are wider than the split offset, a step from a
    table whose positions lie no lower than the map's edges succeeds, and
    leaves every position again no lower than the edges.
   */
  lemma StepStaysOnGrid(cfg: Config, s: Simulation, steer: Steering, delta: real)
    requires Consistent(cfg, s) && s.index.chunkSize > 1.0
    requires Floored(cfg.mapSize, s.agents)
    ensures Step(cfg, s, steer, delta).Ok?
    ensures Floored(cfg.mapSize, Step(cfg, s, steer, delta).value.agents)
  {
    var t := UpdateStates(cfg, s.agents, steer);
    assert FloorFrom(s.agents, 0, -cfg.mapSize);
    UpdateStatesFloor(cfg, s.agents, steer, -cfg.mapSize);
    var before := Simulation(t, s.index);
    UpdatePositionsFloor(cfg, before, delta);
    var moved := UpdatePositions(cfg, before, delta).value;
    FlooredIndexUpdates(cfg, moved);
    assert Step(cfg, s, steer, delta) == UpdateSpatialIndex(moved);
  }

  /** From a floored table, `update_spatial_index` finds every chunk it touches. */
  lemma FlooredIndexUpdates(cfg: Config, s: Simulation)
    requires Consistent(cfg, s) && Floored(cfg.mapSize, s.agents)
    ensures UpdateSpatialIndex(s).Ok?
  {
    var u := s.agents;
    assert forall j :: 0 <= j < |u.states| ==>
      NearMap(s.index, u.lastPositions[j]) && NearMap(s.index, u.positions[j]) by {
      assert s.index.chunkSize > 0.0;
    }
  }
}
