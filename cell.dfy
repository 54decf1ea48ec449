/** The cell of the current variant (al_cell.py): reproduction with an
    optional mutation, the opcodes that end a tick, and the tick itself. */
module CellVm {
  import opened Basics
  import opened Genome
  import opened Entities
  import opened Worlds
  import opened Interpreter
  import opened Actions

  /** The random draws of one reproduction attempt: the direction of the
      child, the mutation roll, the mutated position and its new gene, and
      the colour channel that drifts and by how much. */
  datatype BreedDraws = BreedDraws(
    direction: int, roll: int, geneIndex: int, geneValue: int, channel: int, shift: int)

  /** The ranges the source draws from. */
  predicate DrawsOk(d: BreedDraws) {
    && IsOrientation(d.direction)
    && 1 <= d.roll <= 100
    && 0 <= d.geneIndex < GenomeLength
    && IsGene(d.geneValue)
    && 0 <= d.channel <= 2
    && -40 <= d.shift <= 40
  }

  /** The roll decides a mutation when it does not exceed gene 107. */
  predicate Mutates(c: CellState, d: BreedDraws)
    requires |c.genome| == GenomeLength
  {
    d.roll <= c.genome[MutationGene]
  }

  /** The child of a successful reproduction: the mutant genome and drifted
      colour if the roll says so, otherwise the parent's; the part of the
      budget the parent does not keep; facing the direction it was placed
      in. */
  function Offspring(c: CellState, d: BreedDraws): (k: CellState)
    requires WellFormed(c) && c.variant.Current? && DrawsOk(d)
    ensures WellFormed(k) && k.variant == Current(0, InitialCriteria)
    ensures k.orientation == d.direction && k.genomeStart == k.genome[StartGene]
    ensures k.energy == SplitEnergy(Budget(c), c.genome[KeepPercentGene]).1
    ensures !Mutates(c, d) ==> k.genome == c.genome && k.color == c.color
    ensures Mutates(c, d) ==> k.genome == MakeMutant(c.genome, d.geneIndex, d.geneValue)
    ensures forall j :: 0 <= j < 3 && j != d.channel ==> k.color[j] == c.color[j]
    ensures -40 <= k.color[d.channel] - c.color[d.channel] <= 40
  {
    var mutant := Mutates(c, d);
    var genome := if mutant then MakeMutant(c.genome, d.geneIndex, d.geneValue) else c.genome;
    var color := if mutant then DriftColour(c.color, d.channel, d.shift) else c.color;
    NewCell(color, genome, Some(SplitEnergy(Budget(c), c.genome[KeepPercentGene]).1),
            d.direction, None)
  }

  /** Reproduction conserves energy: parent and child share exactly what is
      left after the breed cost, and when the parent could afford to breed
      both shares are non-negative. */
  lemma BreedConservesEnergy(c: CellState, d: BreedDraws)
    requires WellFormed(c) && c.variant.Current? && c.ttl >= 1 && DrawsOk(d)
    ensures Parent(c).energy + Offspring(c, d).energy == c.energy - c.breedCost
    ensures c.energy >= c.minEnergyDivision ==>
              0 <= Parent(c).energy <= Budget(c) && 0 <= Offspring(c, d).energy <= Budget(c)
  {
  }

  /** A child is always kin of its parent in the sense of opcode 8. */
  lemma OffspringIsKin(c: CellState, d: BreedDraws)
    requires WellFormed(c) && c.variant.Current? && DrawsOk(d)
    ensures Kin(c.genome, Offspring(c, d).genome)
  {
    if Mutates(c, d) {
      MutantIsKin(c.genome, d.geneIndex, d.geneValue);
    } else {
      MismatchesCountsDiffs(c.genome, c.genome, |c.genome|);
      assert DiffSet(c.genome, c.genome, |c.genome|) == {};
    }
  }

  /** The world after cell `id` reproduced with the draws `d`: the child
      stands on the drawn tile under the next identifier, at the end of the
      order, and the parent keeps its share, one tick older. */
  ghost predicate BredWorld(ents: map<int, Entity>, collide: map<Coord, int>, order: seq<int>,
                            next: int, ents': map<int, Entity>, collide': map<Coord, int>,
                            order': seq<int>, next': int, id: int, d: BreedDraws)
    requires id in ents && ents[id].body.CellBody? && WellFormed(ents[id].body.cell)
    requires ents[id].body.cell.variant.Current? && ents[id].body.cell.ttl >= 1 && DrawsOk(d)
  {
    var e := ents[id];
    var child := Entity(next, Neighbour(e.coord, d.direction), false,
                        CellBody(Offspring(e.body.cell, d)));
    && next' == next + 1
    && ents' == ents[child.id := child][id := e.(body := CellBody(Parent(e.body.cell)))]
    && collide' == collide[child.coord := child.id]
    && order' == order + [child.id]
  }

  /** `breed`: give up when the energy is below the division threshold or
      the drawn tile is occupied; otherwise pay the breed cost, split the
      rest, register the child on that tile and age the parent by a tick. */
  method Breed(w: World, id: int, d: BreedDraws) returns (bred: bool)
    requires w.Valid() && id in w.entities && !w.entities[id].inactive
    requires w.entities[id].body.CellBody? && w.entities[id].body.cell.variant.Current?
    requires w.entities[id].body.cell.ttl >= 1 && DrawsOk(d)
    modifies w`entities, w`collide, w`order, w`nextEntityId
    ensures w.Valid()
    ensures var e := old(w.entities[id]);
            bred <==> e.body.cell.energy >= e.body.cell.minEnergyDivision
                      && Neighbour(e.coord, d.direction) !in old(w.collide)
    ensures !bred ==>
              && w.entities == old(w.entities) && w.collide == old(w.collide)
              && w.order == old(w.order) && w.nextEntityId == old(w.nextEntityId)
    ensures bred ==>
              BredWorld(old(w.entities), old(w.collide), old(w.order), old(w.nextEntityId),
                        w.entities, w.collide, w.order, w.nextEntityId, id, d)
  {
    var e := w.entities[id];
    var c := e.body.cell;
    if c.energy < c.minEnergyDivision {
      return false;
    }
    var target := Neighbour(e.coord, d.direction);
    if w.WhoIsThere(target).Some? {
      return false;
    }
    var childId := w.GetId();
    w.AddEntity(Entity(childId, target, false, CellBody(Offspring(c, d))));
    w.SetBody(id, CellBody(Parent(c)));
    return true;
  }

  /** The world after cell `id`, decoded as `c`, ate: the occupant ahead,
      if it is of the wanted kind and the cell is below `max_energy`, is
      removed and its energy added; then MoveCost on the new energy and a
      tick of lifetime are paid. */
  ghost predicate Ate(ents: map<int, Entity>, collide: map<Coord, int>, removals: seq<int>,
                      ents': map<int, Entity>, collide': map<Coord, int>, removals': seq<int>,
                      id: int, c: CellState, kind: Kind)
  {
    && id in ents && IsOrientation(c.orientation)
    && var e := ents[id];
       var ahead := Lookup(ents, collide, Neighbour(e.coord, c.orientation));
       var ate := c.energy < c.maxEnergy && ahead.Some? && ahead.value.Name() == kind;
       var gained := if ate then EnergyOf(ahead.value) else 0;
       var fed := CellBody(c.(energy := c.energy + gained - MoveCost(c.energy + gained),
                              ttl := c.ttl - 1));
       && (ate ==>
             && ahead.value.id != id
             && ents' == ents[ahead.value.id := ahead.value.(inactive := true)][id := e.(body := fed)]
             && collide' == collide - {ahead.value.coord}
             && removals' == removals + [ahead.value.id])
       && (!ate ==>
             && ents' == ents[id := e.(body := fed)]
             && collide' == collide && removals' == removals)
  }

  /** Opcodes "eat energy" and "eat cell": only below `max_energy`, take the
      occupant ahead if it is of the wanted kind, adding its energy without
      a cap and removing it; then pay MoveCost on the new energy and a tick
      of lifetime (al_cell.py:65-67, 260-278). */
  method Eat(w: World, id: int, c: CellState, kind: Kind)
    requires w.Valid() && id in w.entities && !w.entities[id].inactive
    requires WellFormed(c) && c.ttl >= 1
    modifies w`entities, w`collide, w`removals
    ensures w.Valid()
    ensures Ate(old(w.entities), old(w.collide), old(w.removals),
                w.entities, w.collide, w.removals, id, c, kind)
    ensures WrittenBack(old(w.entities), w.entities, id, c)
  {
    var e := w.entities[id];
    var energy := c.energy;
    if energy < c.maxEnergy {
      var ahead := w.WhoIsThere(Neighbour(e.coord, c.orientation));
      if ahead.Some? && ahead.value.Name() == kind {
        Exclusive(w.entities, w.collide, id, ahead.value.id);
        energy := energy + EnergyOf(ahead.value);
        w.RemoveEntity(ahead.value.id);
      }
    }
    w.SetBody(id, CellBody(c.(energy := energy - MoveCost(energy), ttl := c.ttl - 1)));
  }

  /** The registry after cell `id`, decoded as `c`, photosynthesised: it
      gained the sun level if the sun is on and it is below `max_energy`,
      and lost a tick of lifetime. */
  ghost predicate Photosynthesised(ents: map<int, Entity>, ents': map<int, Entity>, sun: bool,
                                   sunLevel: int, id: int, c: CellState)
  {
    && id in ents
    && var gain := if sun && c.energy < c.maxEnergy then sunLevel else 0;
       ents' == ents[id := ents[id].(body := CellBody(c.(energy := c.energy + gain, ttl := c.ttl - 1)))]
  }

  /** Opcode "photosynthesis": with the sun on and below `max_energy`, gain
      the sun level, without a cap; a tick of lifetime either way
      (al_cell.py:280-285). */
  method Photosynthesis(w: World, id: int, c: CellState)
    requires w.Valid() && id in w.entities && !w.entities[id].inactive
    requires WellFormed(c) && c.ttl >= 1
    modifies w`entities
    ensures w.Valid()
    ensures Photosynthesised(old(w.entities), w.entities, w.sun, w.sunLevel, id, c)
    ensures WrittenBack(old(w.entities), w.entities, id, c)
  {
    var energy := c.energy;
    if w.sun && energy < c.maxEnergy {
      energy := energy + w.sunLevel;
    }
    w.SetBody(id, CellBody(c.(energy := energy, ttl := c.ttl - 1)));
  }

  /** The world after cell `id` performed the outcome `r` of its decode
      loop, one case per way the loop can end. */
  ghost predicate Performed(ents: map<int, Entity>, collide: map<Coord, int>, removals: seq<int>,
                            ents': map<int, Entity>, collide': map<Coord, int>, removals': seq<int>,
                            sun: bool, sunLevel: int, id: int, r: Outcome)
  {
    match r
    case Exhausted(c) => Skipped(ents, ents', id, c) && collide' == collide && removals' == removals
    case Halted(op, c, _) =>
      match op
      case MoveOp => Moved(ents, collide, ents', collide', id, c) && removals' == removals
      case EatEnergyOp => Ate(ents, collide, removals, ents', collide', removals', id, c, EnergyKind)
      case EatCellOp => Ate(ents, collide, removals, ents', collide', removals', id, c, CellKind)
      case PhotosynthesisOp =>
        Photosynthesised(ents, ents', sun, sunLevel, id, c) && collide' == collide && removals' == removals
      case SkipOp => Skipped(ents, ents', id, c) && collide' == collide && removals' == removals
  }

  /** Whatever the outcome, the cell is written back as decoded, one tick
      older, with at most its energy changed, and no identifier comes or
      goes. */
  lemma PerformedWritesBack(ents: map<int, Entity>, collide: map<Coord, int>, removals: seq<int>,
                            ents': map<int, Entity>, collide': map<Coord, int>, removals': seq<int>,
                            sun: bool, sunLevel: int, id: int, r: Outcome)
    requires id in ents && !ents[id].inactive && forall k :: k in ents ==> ents[k].id == k
    requires Performed(ents, collide, removals, ents', collide', removals', sun, sunLevel, id, r)
    ensures WrittenBack(ents, ents', id, r.cell)
  {
    match r
    case Exhausted(c) =>
    case Halted(op, c, _) =>
      match op
      case EatEnergyOp => AteKeepsKeys(ents, collide, removals, ents', collide', removals', id, c, EnergyKind);
      case EatCellOp => AteKeepsKeys(ents, collide, removals, ents', collide', removals', id, c, CellKind);
      case MoveOp =>
      case PhotosynthesisOp =>
      case SkipOp =>
  }

  /** The entity eaten is one already registered under its own identifier. */
  lemma AteKeepsKeys(ents: map<int, Entity>, collide: map<Coord, int>, removals: seq<int>,
                     ents': map<int, Entity>, collide': map<Coord, int>, removals': seq<int>,
                     id: int, c: CellState, kind: Kind)
    requires forall k :: k in ents ==> ents[k].id == k
    requires Ate(ents, collide, removals, ents', collide', removals', id, c, kind)
    ensures ents'.Keys == ents.Keys
  {
    var ahead := Neighbour(ents[id].coord, c.orientation);
    if Lookup(ents, collide, ahead).Some? {
      assert ents[collide[ahead]].id == collide[ahead];
    }
  }

  /** Perform what the decode loop ended with; a loop that ran out of passes
      skips the move. Whatever happens, the cell is written back as decoded,
      with one tick of lifetime less and its energy as the opcode left it. */
  method Perform(w: World, id: int, r: Outcome)
    requires w.Valid() && id in w.entities && !w.entities[id].inactive
    requires w.entities[id].body.CellBody? && WellFormed(r.cell) && r.cell.ttl >= 1
    modifies w`entities, w`collide, w`removals
    ensures w.Valid()
    ensures Performed(old(w.entities), old(w.collide), old(w.removals),
                      w.entities, w.collide, w.removals, w.sun, w.sunLevel, id, r)
    ensures WrittenBack(old(w.entities), w.entities, id, r.cell)
  {
    match r
    case Exhausted(c) => Skip(w, id, c);
    case Halted(op, c, _) =>
      match op
      case MoveOp => Move(w, id, c);
      case EatEnergyOp => Eat(w, id, c, EnergyKind);
      case EatCellOp => Eat(w, id, c, CellKind);
      case PhotosynthesisOp => Photosynthesis(w, id, c);
      case SkipOp => Skip(w, id, c);
  }

  /** The death test of the current variant. */
  predicate Dies(c: CellState) {
    c.energy <= c.minEnergy || c.ttl == 0 || c.energy > c.maxEnergy
  }

  /** The counter step at the start of a tick: it grows only while below its
      criteria. */
  function CountUp(c: CellState): (c': CellState)
    requires WellFormed(c) && c.variant.Current?
    ensures WellFormed(c') && c'.variant.Current?
    ensures c'.(variant := c.variant) == c
    ensures c'.variant.internalCounterCriteria == c.variant.internalCounterCriteria
    ensures c.variant.internalCounter < c.variant.internalCounterCriteria ==>
              c'.variant.internalCounter == c.variant.internalCounter + 1
    ensures c.variant.internalCounter >= c.variant.internalCounterCriteria ==> c' == c
    ensures c'.variant.internalCounter <= c.variant.internalCounterCriteria
            || c'.variant.internalCounter == c.variant.internalCounter
  {
    if c.variant.internalCounter < c.variant.internalCounterCriteria
    then c.(variant := c.variant.(internalCounter := c.variant.internalCounter + 1))
    else c
  }

  /** The world after the live part of a tick of cell `id`: it bred if it
      could afford to and the drawn tile was free; otherwise nothing was
      registered and it performed what its decode loop, run on the world
      as it was, ended with. */
  ghost predicate Lived(ents: map<int, Entity>, collide: map<Coord, int>, order: seq<int>,
                        removals: seq<int>, next: int, ents': map<int, Entity>,
                        collide': map<Coord, int>, order': seq<int>, removals': seq<int>,
                        next': int, sun: bool, sunLevel: int, id: int, d: BreedDraws)
    requires id in ents && ents[id].body.CellBody? && WellFormed(ents[id].body.cell)
    requires ents[id].body.cell.variant.Current? && ents[id].body.cell.ttl >= 1 && DrawsOk(d)
  {
    var e := ents[id];
    var c := e.body.cell;
    if c.energy >= c.minEnergyDivision && Neighbour(e.coord, d.direction) !in collide then
      BredWorld(ents, collide, order, next, ents', collide', order', next', id, d)
      && removals' == removals
    else
      && next' == next && order' == order
      && Performed(ents, collide, removals, ents', collide', removals', sun, sunLevel, id,
                   Run(ents, collide, e.coord, c, c.genomeStart, LoopBound(c), 0))
  }

  /** Whichever way the live part of a tick goes, the cell stays, one tick
      older, with its genome and colour, and its counter either kept or
      reset by opcode 3; no identifier goes. */
  lemma LivedKeepsCell(ents: map<int, Entity>, collide: map<Coord, int>, order: seq<int>,
                       removals: seq<int>, next: int, ents': map<int, Entity>,
                       collide': map<Coord, int>, order': seq<int>, removals': seq<int>,
                       next': int, sun: bool, sunLevel: int, id: int, d: BreedDraws)
    requires id in ents && !ents[id].inactive && forall k :: k in ents ==> ents[k].id == k
    requires ents[id].body.CellBody? && WellFormed(ents[id].body.cell)
    requires ents[id].body.cell.variant.Current? && ents[id].body.cell.ttl >= 1 && DrawsOk(d)
    requires Lived(ents, collide, order, removals, next, ents', collide', order', removals', next',
                   sun, sunLevel, id, d)
    ensures ents.Keys <= ents'.Keys
    ensures var c0 := ents[id].body.cell;
            && id in ents' && !ents'[id].inactive && ents'[id].body.CellBody?
            && var c1 := ents'[id].body.cell;
               && c1.ttl == c0.ttl - 1 && c1.genome == c0.genome && c1.color == c0.color
               && c1.variant.Current?
               && c1.variant.internalCounter in {c0.variant.internalCounter, 0}
  {
    var e := ents[id];
    var c := e.body.cell;
    if !(c.energy >= c.minEnergyDivision && Neighbour(e.coord, d.direction) !in collide) {
      var r := Run(ents, collide, e.coord, c, c.genomeStart, LoopBound(c), 0);
      RunKeepsCell(ents, collide, e.coord, c, c.genomeStart, LoopBound(c), 0);
      PerformedWritesBack(ents, collide, removals, ents', collide', removals', sun, sunLevel, id, r);
    }
  }

  /** The world after a tick of cell `id`: nothing for an inactive cell;
      death, leaving a packet when there is energy, when the death test
      holds; otherwise the cell is counted, its counter steps and the live
      part of the tick follows. */
  ghost predicate Ticked(ents: map<int, Entity>, collide: map<Coord, int>, order: seq<int>,
                         removals: seq<int>, next: int, lifeCells: int, ents': map<int, Entity>,
                         collide': map<Coord, int>, order': seq<int>, removals': seq<int>,
                         next': int, lifeCells': int, sun: bool, sunLevel: int, id: int,
                         d: BreedDraws)
    requires id in ents && ents[id].body.CellBody? && WellFormed(ents[id].body.cell)
    requires ents[id].body.cell.variant.Current? && DrawsOk(d)
  {
    var e := ents[id];
    var c0 := e.body.cell;
    if e.inactive then
      && ents' == ents && collide' == collide && order' == order && removals' == removals
      && next' == next && lifeCells' == lifeCells
    else if Dies(c0) then
      Died(ents, collide, order, removals, next, ents', collide', order', removals', next',
           id, c0.energy > 0)
      && lifeCells' == lifeCells
    else
      && lifeCells' == lifeCells + 1
      && Lived(ents[id := e.(body := CellBody(CountUp(c0)))], collide, order, removals, next,
               ents', collide', order', removals', next', sun, sunLevel, id, d)
  }

  /** `__call__` of the current variant: nothing for an inactive cell; death
      when the energy leaves (min_energy, max_energy] or the lifetime is
      over; otherwise count the cell, step the counter, try to breed, and
      if that fails decode and perform. The energy hook called before the
      death test is not part of this model. */
  method Tick(w: World, id: int, d: BreedDraws)
    requires w.Valid() && id in w.entities
    requires w.entities[id].body.CellBody? && w.entities[id].body.cell.variant.Current?
    requires DrawsOk(d)
    modifies w`entities, w`collide, w`order, w`removals, w`nextEntityId, w`totalLifeCells
    ensures w.Valid()
    ensures Ticked(old(w.entities), old(w.collide), old(w.order), old(w.removals),
                   old(w.nextEntityId), old(w.totalLifeCells), w.entities, w.collide, w.order,
                   w.removals, w.nextEntityId, w.totalLifeCells, w.sun, w.sunLevel, id, d)
    ensures old(w.entities).Keys <= w.entities.Keys
    ensures old(w.nextEntityId) <= w.nextEntityId <= old(w.nextEntityId) + 1
    ensures old(w.entities[id]).inactive ==>
              && w.entities == old(w.entities) && w.collide == old(w.collide)
              && w.removals == old(w.removals) && w.nextEntityId == old(w.nextEntityId)
              && w.totalLifeCells == old(w.totalLifeCells)
    ensures var e := old(w.entities[id]);
            !e.inactive && Dies(e.body.cell) ==>
              && w.entities[id].inactive && w.totalLifeCells == old(w.totalLifeCells)
              && (old(w.nextEntityId) in w.entities <==> e.body.cell.energy > 0)
              && (e.body.cell.energy > 0 ==>
                    w.entities[old(w.nextEntityId)]
                    == NewEnergy(old(w.nextEntityId), e.coord, e.body.cell.energy))
    ensures var e := old(w.entities[id]);
            var c0 := e.body.cell;
            !e.inactive && !Dies(c0) ==>
              && w.totalLifeCells == old(w.totalLifeCells) + 1
              && !w.entities[id].inactive && w.entities[id].body.CellBody?
              && var c1 := w.entities[id].body.cell;
                 && c1.ttl == c0.ttl - 1 && c1.genome == c0.genome && c1.color == c0.color
                 && c1.variant.Current?
                 && c1.variant.internalCounter in {CountUp(c0).variant.internalCounter, 0}
  {
    var e := w.entities[id];
    if e.inactive {
      return;
    }
    var c := e.body.cell;
    if Dies(c) {
      Die(w, id, c.energy > 0);
      return;
    }
    w.totalLifeCells := w.totalLifeCells + 1;
    w.SetBody(id, CellBody(CountUp(c)));
    Live(w, id, d);
  }

  /** The rest of a live tick, once the counter has stepped: try to breed,
      and if that fails decode and perform. Either way the cell stays, one
      tick older, with its genome and colour; the decode loop can only
      reset the counter. */
  method Live(w: World, id: int, d: BreedDraws)
    requires w.Valid() && id in w.entities && !w.entities[id].inactive
    requires w.entities[id].body.CellBody? && w.entities[id].body.cell.variant.Current?
    requires w.entities[id].body.cell.ttl >= 1 && DrawsOk(d)
    modifies w`entities, w`collide, w`order, w`removals, w`nextEntityId
    ensures w.Valid()
    ensures Lived(old(w.entities), old(w.collide), old(w.order), old(w.removals),
                  old(w.nextEntityId), w.entities, w.collide, w.order, w.removals,
                  w.nextEntityId, w.sun, w.sunLevel, id, d)
    ensures old(w.entities).Keys <= w.entities.Keys
    ensures old(w.nextEntityId) <= w.nextEntityId <= old(w.nextEntityId) + 1
    ensures var c0 := old(w.entities[id]).body.cell;
            && id in w.entities && !w.entities[id].inactive && w.entities[id].body.CellBody?
            && var c1 := w.entities[id].body.cell;
               && c1.ttl == c0.ttl - 1 && c1.genome == c0.genome && c1.color == c0.color
               && c1.variant.Current?
               && c1.variant.internalCounter in {c0.variant.internalCounter, 0}
  {
    var e := w.entities[id];
    var c := e.body.cell;
    var bred := Breed(w, id, d);
    if bred {
      return;
    }
    var r := Decode(w.entities, w.collide, e.coord, c);
    RunKeepsCell(w.entities, w.collide, e.coord, c, c.genomeStart, LoopBound(c), 0);
    Perform(w, id, r);
  }
}
