/** The entities of the world as values: rocks, energy packets, geysers and
    cells of the two interpreter variants, with the constructors that derive
    a cell's fixed parameters from its genome. */
module Entities {
  import opened Basics
  import opened Genome

  /** The `name` tag every entity carries. */
  datatype Kind = RockKind | EnergyKind | GeyserKind | CellKind

  /** The state that differs between the two cell variants: the current one
      (al_cell.py) has a programmable internal counter; the older one
      (al_entities.py) breeds every `breedEach` ticks. */
  datatype Variant =
    | Current(internalCounter: int, internalCounterCriteria: int)
    | Legacy(breedEach: int, countToBreed: int)

  datatype CellState = CellState(
    color: seq<int>,
    genome: seq<int>,
    energy: int,
    orientation: int,
    genomeStart: int,
    ttl: int,
    maxEnergy: int,
    minEnergy: int,
    minEnergyDivision: int,
    breedCost: int,
    variant: Variant)

  datatype Body =
    | RockBody
    | EnergyBody(energy: int)
    | GeyserBody
    | CellBody(cell: CellState)

  /** Identity, position and the "logically dead" flag are common to every
      entity; the rest depends on its kind. */
  datatype Entity = Entity(id: int, coord: Coord, inactive: bool, body: Body) {
    function Name(): Kind {
      match body
      case RockBody => RockKind
      case EnergyBody(_) => EnergyKind
      case GeyserBody => GeyserKind
      case CellBody(_) => CellKind
    }
  }

  /** Base of the reproduction threshold (`min_energy_division`). */
  const DivisionBase: int := 500
  /** Base of the death floor (`min_energy`). */
  const MinEnergyBase: int := 10
  /** Breed cost of the older variant. */
  const LegacyBreedCost: int := 10
  /** Initial internal-counter criteria of the current variant. */
  const InitialCriteria: int := 100

  /** The parameters a cell derives from its genome once, at construction. */
  predicate DerivedFromGenome(c: CellState)
    requires |c.genome| == GenomeLength
  {
    && c.maxEnergy == c.genome[MaxEnergyGene] * 10
    && c.minEnergy == MinEnergyBase + c.genome[MinEnergyGene]
    && c.minEnergyDivision == DivisionBase + c.genome[DivisionGene]
    && c.breedCost == (if c.variant.Current? then c.minEnergyDivision / 3 else LegacyBreedCost)
  }

  /** The invariant every cell keeps for its whole life. */
  predicate WellFormed(c: CellState) {
    && ValidGenome(c.genome)
    && ValidColour(c.color)
    && IsOrientation(c.orientation)
    && IsAddr(c.genomeStart)
    && c.ttl >= 0
    && DerivedFromGenome(c)
    && match c.variant
       case Current(counter, criteria) => counter >= 0 && IsGene(criteria)
       case Legacy(each, count) => 10 <= each && 0 <= count < each
  }

  /** Everything about a cell that its decode loop cannot change. */
  predicate SameLife(a: CellState, b: CellState) {
    && a.color == b.color
    && a.genome == b.genome
    && a.ttl == b.ttl
    && a.maxEnergy == b.maxEnergy
    && a.minEnergy == b.minEnergy
    && a.minEnergyDivision == b.minEnergyDivision
    && a.breedCost == b.breedCost
    && a.variant.Current? == b.variant.Current?
    && (a.variant.Legacy? ==> a.variant == b.variant)
  }

  /** The energy an entity carries; rocks and geysers carry none here. */
  function EnergyOf(e: Entity): int {
    match e.body
    case EnergyBody(x) => x
    case CellBody(c) => c.energy
    case _ => 0
  }

  function NewRock(id: int, coord: Coord): (e: Entity)
    ensures e.Name() == RockKind && e.id == id && e.coord == coord && !e.inactive
  {
    Entity(id, coord, false, RockBody)
  }

  function NewEnergy(id: int, coord: Coord, energy: int): (e: Entity)
    ensures e.Name() == EnergyKind && EnergyOf(e) == energy
    ensures e.id == id && e.coord == coord && !e.inactive
  {
    Entity(id, coord, false, EnergyBody(energy))
  }

  /** Constructor of the current cell (al_cell.py): the energy defaults to
      `max_energy`, the start address to gene 101 (a start of 0 counts as
      absent, as the source's truthiness test does), the counter starts at
      0 with criteria 100. */
  function NewCell(color: seq<int>, genome: seq<int>, energy: Option<int>,
                   orientation: int, genomeStart: Option<int>): (c: CellState)
    requires ValidGenome(genome) && ValidColour(color) && IsOrientation(orientation)
    requires genomeStart.Some? ==> IsAddr(genomeStart.value)
    ensures WellFormed(c) && c.variant.Current?
    ensures c.genome == genome && c.color == color && c.orientation == orientation
    ensures c.ttl == genome[LifespanGene] * 10
    ensures c.energy == (if energy.Some? then energy.value else genome[MaxEnergyGene] * 10)
    ensures c.genomeStart == (if genomeStart.Some? && genomeStart.value != 0
                              then genomeStart.value else genome[StartGene])
    ensures c.variant == Current(0, InitialCriteria)
  {
    var maxEnergy := genome[MaxEnergyGene] * 10;
    var division := DivisionBase + genome[DivisionGene];
    CellState(
      color, genome,
      if energy.Some? then energy.value else maxEnergy,
      orientation,
      if genomeStart.Some? && genomeStart.value != 0 then genomeStart.value else genome[StartGene],
      genome[LifespanGene] * 10,
      maxEnergy,
      MinEnergyBase + genome[MinEnergyGene],
      division,
      division / 3,
      Current(0, InitialCriteria))
  }

  /** Constructor of the older cell (al_entities.py): the energy is clamped
      to `max_energy`, the breed interval is 10 + gene 108 + a draw `jitter`
      from [0, 10], the breed cost is 10. */
  function NewLegacyCell(color: seq<int>, genome: seq<int>, energy: int,
                         orientation: int, jitter: int): (c: CellState)
    requires ValidGenome(genome) && ValidColour(color) && IsOrientation(orientation)
    requires 0 <= jitter <= 10
    ensures WellFormed(c) && c.variant.Legacy?
    ensures c.genome == genome && c.color == color && c.orientation == orientation
    ensures c.energy <= c.maxEnergy
    ensures c.energy == if energy > c.maxEnergy then c.maxEnergy else energy
    ensures c.genomeStart == genome[StartGene] && c.ttl == genome[LifespanGene] * 10
    ensures c.variant == Legacy(10 + genome[BreedEachGene] + jitter, 0)
  {
    var maxEnergy := genome[MaxEnergyGene] * 10;
    CellState(
      color, genome,
      if energy > maxEnergy then maxEnergy else energy,
      orientation,
      genome[StartGene],
      genome[LifespanGene] * 10,
      maxEnergy,
      MinEnergyBase + genome[MinEnergyGene],
      DivisionBase + genome[DivisionGene],
      LegacyBreedCost,
      Legacy(10 + genome[BreedEachGene] + jitter, 0))
  }

  /** The energy a move (and, in the current variant, an eat) costs:
      one plus a hundredth of the energy, rounded down as Python's `//`
      rounds, that is towards minus infinity. */
  function MoveCost(e: int): (r: int)
    ensures 100 * (r - 1) <= e < 100 * r
    ensures e >= 0 ==> 1 <= r <= e + 1
  {
    1 + e / 100
  }

  /** The breed split: of the energy `e` left after the breed cost, the
      parent keeps `e * keep // 100`, the child receives the rest. */
  function SplitEnergy(e: int, keep: int): (r: (int, int))
    ensures r.0 + r.1 == e
    ensures r.0 == e * keep / 100
    ensures 0 <= e && 0 <= keep <= 100 ==> 0 <= r.0 <= e && 0 <= r.1 <= e
  {
    var parent := e * keep / 100;
    (parent, e - parent)
  }
}
