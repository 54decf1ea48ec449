/** The older cell (the `Cell` class of al_entities.py): it breeds every
    `breed_each` ticks, a mutant child gets a fresh random colour, eating and
    photosynthesis cap the energy at `max_energy`, and its decode loop runs
    at most 100 passes. */
module LegacyCell {
  import opened Basics
  import opened Genome
  import opened Entities
  import opened Worlds
  import opened Interpreter
  import opened Actions

  /** The random draws of one reproduction attempt: the direction, the
      mutation roll, the mutated position and its new gene, the three colour
      channels of a mutant and the child's breed-interval jitter. */
  datatype LegacyDraws = LegacyDraws(
    direction: int, roll: int, geneIndex: int, geneValue: int,
    red: int, green: int, blue: int, jitter: int)

  predicate ChannelDraw(v: int) { 80 <= v <= 255 }

  /** The ranges the source draws from. */
  predicate DrawsOk(d: LegacyDraws) {
    && IsOrientation(d.direction)
    && 0 <= d.roll <= 100
    && 0 <= d.geneIndex < GenomeLength
    && IsGene(d.geneValue)
    && ChannelDraw(d.red) && ChannelDraw(d.green) && ChannelDraw(d.blue)
    && 0 <= d.jitter <= 10
  }

  predicate Mutates(c: CellState, d: LegacyDraws)
    requires |c.genome| == GenomeLength
  {
    d.roll <= c.genome[MutationGene]
  }

  /** The child: a mutant genome with a freshly drawn colour if the roll
      says so, otherwise the parent's genome and colour; it receives the
      part of the budget the parent does not keep, capped by its own
      `max_energy`. */
  function Offspring(c: CellState, d: LegacyDraws): (k: CellState)
    requires WellFormed(c) && c.variant.Legacy? && DrawsOk(d)
    ensures WellFormed(k) && k.variant.Legacy? && k.orientation == d.direction
    ensures k.variant == Legacy(10 + k.genome[BreedEachGene] + d.jitter, 0)
    ensures !Mutates(c, d) ==> k.genome == c.genome && k.color == c.color
    ensures Mutates(c, d) ==>
              k.genome == MakeMutant(c.genome, d.geneIndex, d.geneValue) &&
              k.color == [d.red, d.green, d.blue]
    ensures var share := SplitEnergy(Budget(c), c.genome[KeepPercentGene]).1;
            k.energy == if share > k.maxEnergy then k.maxEnergy else share
  {
    var mutant := Mutates(c, d);
    var genome := if mutant then MakeMutant(c.genome, d.geneIndex, d.geneValue) else c.genome;
    var color := if mutant then [d.red, d.green, d.blue] else c.color;
    NewLegacyCell(color, genome, SplitEnergy(Budget(c), c.genome[KeepPercentGene]).1,
                  d.direction, d.jitter)
  }

  /** Reproduction of the older cell spends exactly the breed cost of 10
      when the child's share fits under its own cap; otherwise the cap
      destroys the excess (a mutation of gene 103 can lower that cap). */
  lemma BreedEnergy(c: CellState, d: LegacyDraws)
    requires WellFormed(c) && c.variant.Legacy? && c.ttl >= 1 && DrawsOk(d)
    ensures Parent(c).energy + Offspring(c, d).energy <= c.energy - LegacyBreedCost
    ensures SplitEnergy(Budget(c), c.genome[KeepPercentGene]).1 <= Offspring(c, d).maxEnergy
            ==> Parent(c).energy + Offspring(c, d).energy == c.energy - LegacyBreedCost
    ensures !Mutates(c, d) && c.energy <= c.maxEnergy && c.energy >= c.minEnergyDivision
            ==> Parent(c).energy + Offspring(c, d).energy == c.energy - LegacyBreedCost
  {
  }

  /** The world after cell `id` reproduced with the draws `d`: the child
      stands on the drawn tile under the next identifier, at the end of the
      order, and the parent keeps its share, one tick older. */
  ghost predicate BredWorld(ents: map<int, Entity>, collide: map<Coord, int>, order: seq<int>,
                            next: int, ents': map<int, Entity>, collide': map<Coord, int>,
                            order': seq<int>, next': int, id: int, d: LegacyDraws)
    requires id in ents && ents[id].body.CellBody? && WellFormed(ents[id].body.cell)
    requires ents[id].body.cell.variant.Legacy? && ents[id].body.cell.ttl >= 1 && DrawsOk(d)
  {
    var e := ents[id];
    var child := Entity(next, Neighbour(e.coord, d.direction), false,
                        CellBody(Offspring(e.body.cell, d)));
    && next' == next + 1
    && ents' == ents[child.id := child][id := e.(body := CellBody(Parent(e.body.cell)))]
    && collide' == collide[child.coord := child.id]
    && order' == order + [child.id]
  }

  /** `breed` of the older variant; as in the current one, it fails when
      the energy is below the division threshold or the drawn tile is
      occupied (al_entities.py:292-349). */
  method Breed(w: World, id: int, d: LegacyDraws) returns (bred: bool)
    requires w.Valid() && id in w.entities && !w.entities[id].inactive
    requires w.entities[id].body.CellBody? && w.entities[id].body.cell.variant.Legacy?
    requires w.entities[id].body.cell.ttl >= 1 && DrawsOk(d)
    modifies w`entities, w`collide, w`order, w`nextEntityId
    ensures w.Valid()
    ensures var e := old(w.entities[id]);
            bred <==> e.body.cell.energy >= e.body.cell.minEnergyDivision
                      && Neighbour(e.coord, d.direction) !in old(w.collide)
    ensures !bred ==>
              && w.entities == old(w.entities) && w.collide == old(w.collide)
              && w.order == old(w.order) && w.nextEntityId == old(w.nextEntityId)
    ensures bred ==>
              BredWorld(old(w.entities), old(w.collide), old(w.order), old(w.nextEntityId),
                        w.entities, w.collide, w.order, w.nextEntityId, id, d)
  {
    var e := w.entities[id];
    var c := e.body.cell;
    if c.energy < c.minEnergyDivision {
      return false;
    }
    var target := Neighbour(e.coord, d.direction);
    if w.WhoIsThere(target).Some? {
      return false;
    }
    var childId := w.GetId();
    w.AddEntity(Entity(childId, target, false, CellBody(Offspring(c, d))));
    w.SetBody(id, CellBody(Parent(c)));
    return true;
  }

  /** The cap at `max_energy`. */
  function Capped(c: CellState, energy: int): (r: int)
    ensures r <= c.maxEnergy && (r == energy || r == c.maxEnergy)
    ensures energy <= c.maxEnergy ==> r == energy
  {
    if energy > c.maxEnergy then c.maxEnergy else energy
  }

  /** The world after cell `id`, decoded as `c`, ate: the occupant ahead,
      if it is of the wanted kind, is removed and its energy added up to the
      cap; a tick of lifetime is paid. */
  ghost predicate Ate(ents: map<int, Entity>, collide: map<Coord, int>, removals: seq<int>,
                      ents': map<int, Entity>, collide': map<Coord, int>, removals': seq<int>,
                      id: int, c: CellState, kind: Kind)
  {
    && id in ents && IsOrientation(c.orientation)
    && var e := ents[id];
       var ahead := Lookup(ents, collide, Neighbour(e.coord, c.orientation));
       var ate := ahead.Some? && ahead.value.Name() == kind;
       var fed := CellBody(c.(energy := if ate then Capped(c, c.energy + EnergyOf(ahead.value))
                                        else c.energy,
                              ttl := c.ttl - 1));
       && (ate ==>
             && ahead.value.id != id
             && ents' == ents[ahead.value.id := ahead.value.(inactive := true)][id := e.(body := fed)]
             && collide' == collide - {ahead.value.coord}
             && removals' == removals + [ahead.value.id])
       && (!ate ==>
             && ents' == ents[id := e.(body := fed)]
             && collide' == collide && removals' == removals)
  }

  /** The entity eaten is one already registered under its own identifier. */
  lemma AteKeepsKeys(ents: map<int, Entity>, collide: map<Coord, int>, removals: seq<int>,
                     ents': map<int, Entity>, collide': map<Coord, int>, removals': seq<int>,
                     id: int, c: CellState, kind: Kind)
    requires forall k :: k in ents ==> ents[k].id == k
    requires Ate(ents, collide, removals, ents', collide', removals', id, c, kind)
    ensures ents'.Keys == ents.Keys
  {
    var ahead := Neighbour(ents[id].coord, c.orientation);
    if Lookup(ents, collide, ahead).Some? {
      assert ents[collide[ahead]].id == collide[ahead];
    }
  }

  /** Opcodes "eat energy" and "eat cell" of the older variant: take the
      occupant ahead if it is of the wanted kind, adding its energy up to
      the cap and removing it; no energy cost; a tick of lifetime
      (al_entities.py:134-138, 369-383). */
  method Eat(w: World, id: int, c: CellState, kind: Kind)
    requires w.Valid() && id in w.entities && !w.entities[id].inactive
    requires WellFormed(c) && c.ttl >= 1
    modifies w`entities, w`collide, w`removals
    ensures w.Valid()
    ensures Ate(old(w.entities), old(w.collide), old(w.removals),
                w.entities, w.collide, w.removals, id, c, kind)
    ensures WrittenBack(old(w.entities), w.entities, id, c)
  {
    var e := w.entities[id];
    var energy := c.energy;
    var ahead := w.WhoIsThere(Neighbour(e.coord, c.orientation));
    if ahead.Some? && ahead.value.Name() == kind {
      Exclusive(w.entities, w.collide, id, ahead.value.id);
      energy := Capped(c, energy + EnergyOf(ahead.value));
      w.RemoveEntity(ahead.value.id);
    }
    w.SetBody(id, CellBody(c.(energy := energy, ttl := c.ttl - 1)));
  }

  /** The registry after cell `id`, decoded as `c`, photosynthesised: with
      the sun on it gained the sun level up to the cap, and it lost a tick
      of lifetime. */
  ghost predicate Photosynthesised(ents: map<int, Entity>, ents': map<int, Entity>, sun: bool,
                                   sunLevel: int, id: int, c: CellState)
  {
    && id in ents
    && var energy := if sun then Capped(c, c.energy + sunLevel) else c.energy;
       ents' == ents[id := ents[id].(body := CellBody(c.(energy := energy, ttl := c.ttl - 1)))]
  }

  /** Opcode "photosynthesis" of the older variant: with the sun on, gain
      the sun level up to the cap; a tick of lifetime either way
      (al_entities.py:351-358). */
  method Photosynthesis(w: World, id: int, c: CellState)
    requires w.Valid() && id in w.entities && !w.entities[id].inactive
    requires WellFormed(c) && c.ttl >= 1
    modifies w`entities
    ensures w.Valid()
    ensures Photosynthesised(old(w.entities), w.entities, w.sun, w.sunLevel, id, c)
    ensures WrittenBack(old(w.entities), w.entities, id, c)
  {
    var energy := c.energy;
    if w.sun {
      energy := Capped(c, energy + w.sunLevel);
    }
    w.SetBody(id, CellBody(c.(energy := energy, ttl := c.ttl - 1)));
  }

  /** The world after cell `id` performed the outcome `r` of its decode
      loop, one case per way the loop can end. */
  ghost predicate Performed(ents: map<int, Entity>, collide: map<Coord, int>, removals: seq<int>,
                            ents': map<int, Entity>, collide': map<Coord, int>, removals': seq<int>,
                            sun: bool, sunLevel: int, id: int, r: Outcome)
  {
    match r
    case Exhausted(c) => Skipped(ents, ents', id, c) && collide' == collide && removals' == removals
    case Halted(op, c, _) =>
      match op
      case MoveOp => Moved(ents, collide, ents', collide', id, c) && removals' == removals
      case EatEnergyOp => Ate(ents, collide, removals, ents', collide', removals', id, c, EnergyKind)
      case EatCellOp => Ate(ents, collide, removals, ents', collide', removals', id, c, CellKind)
      case PhotosynthesisOp =>
        Photosynthesised(ents, ents', sun, sunLevel, id, c) && collide' == collide && removals' == removals
      case SkipOp => Skipped(ents, ents', id, c) && collide' == collide && removals' == removals
  }

  /** Whatever the outcome, the cell is written back as decoded, one tick
      older, with at most its energy changed, no identifier comes or goes,
      and an energy under the cap stays under it. */
  lemma PerformedWritesBack(ents: map<int, Entity>, collide: map<Coord, int>, removals: seq<int>,
                            ents': map<int, Entity>, collide': map<Coord, int>, removals': seq<int>,
                            sun: bool, sunLevel: int, id: int, r: Outcome)
    requires id in ents && !ents[id].inactive && forall k :: k in ents ==> ents[k].id == k
    requires WellFormed(r.cell)
    requires Performed(ents, collide, removals, ents', collide', removals', sun, sunLevel, id, r)
    ensures WrittenBack(ents, ents', id, r.cell)
    ensures r.cell.energy <= r.cell.maxEnergy ==> ents'[id].body.cell.energy <= r.cell.maxEnergy
  {
    match r
    case Exhausted(c) =>
    case Halted(op, c, _) =>
      match op
      case EatEnergyOp => AteKeepsKeys(ents, collide, removals, ents', collide', removals', id, c, EnergyKind);
      case EatCellOp => AteKeepsKeys(ents, collide, removals, ents', collide', removals', id, c, CellKind);
      case MoveOp =>
      case PhotosynthesisOp =>
      case SkipOp =>
  }

  /** Perform what the decode loop ended with; opcode 3 and a loop that ran
      out of passes skip the move. The cell is written back as decoded, one
      tick older, and its energy never rises above the cap unless it was
      already above it. */
  method Perform(w: World, id: int, r: Outcome)
    requires w.Valid() && id in w.entities && !w.entities[id].inactive
    requires w.entities[id].body.CellBody? && WellFormed(r.cell) && r.cell.ttl >= 1
    modifies w`entities, w`collide, w`removals
    ensures w.Valid()
    ensures Performed(old(w.entities), old(w.collide), old(w.removals),
                      w.entities, w.collide, w.removals, w.sun, w.sunLevel, id, r)
    ensures WrittenBack(old(w.entities), w.entities, id, r.cell)
    ensures r.cell.energy <= r.cell.maxEnergy ==>
              w.entities[id].body.cell.energy <= r.cell.maxEnergy
  {
    match r
    case Exhausted(c) => Skip(w, id, c);
    case Halted(op, c, _) =>
      match op
      case MoveOp => Move(w, id, c);
      case EatEnergyOp => Eat(w, id, c, EnergyKind);
      case EatCellOp => Eat(w, id, c, CellKind);
      case PhotosynthesisOp => Photosynthesis(w, id, c);
      case SkipOp => Skip(w, id, c);
  }

  /** The death test of the older variant: no upper bound. */
  predicate Dies(c: CellState) {
    c.energy <= c.minEnergy || c.ttl == 0
  }

  /** The breed counter at the start of a tick: one more, back to 0 when it
      reaches `breed_each`, that is, a count modulo the interval. */
  function CountToBreed(c: CellState): (c': CellState)
    requires WellFormed(c) && c.variant.Legacy?
    ensures WellFormed(c') && c'.variant.Legacy?
    ensures c'.variant.breedEach == c.variant.breedEach
    ensures c'.variant.countToBreed == (c.variant.countToBreed + 1) % c.variant.breedEach
    ensures c'.(variant := c.variant) == c
  {
    var n := c.variant.countToBreed + 1;
    c.(variant := c.variant.(countToBreed := if n == c.variant.breedEach then 0 else n))
  }

  /** A reproduction attempt happens exactly on the ticks where the counter
      wraps to 0. */
  predicate BreedTick(c: CellState)
    requires WellFormed(c) && c.variant.Legacy?
  {
    c.variant.countToBreed + 1 == c.variant.breedEach
  }

  /** The world after the live part of a tick of cell `id`: on a breed
      tick it bred if it could afford to and the drawn tile was free;
      otherwise nothing was registered and it performed what its decode
      loop, run on the world as it was, ended with. */
  ghost predicate Lived(ents: map<int, Entity>, collide: map<Coord, int>, order: seq<int>,
                        removals: seq<int>, next: int, ents': map<int, Entity>,
                        collide': map<Coord, int>, order': seq<int>, removals': seq<int>,
                        next': int, sun: bool, sunLevel: int, id: int, d: LegacyDraws,
                        breedTick: bool)
    requires id in ents && ents[id].body.CellBody? && WellFormed(ents[id].body.cell)
    requires ents[id].body.cell.variant.Legacy? && ents[id].body.cell.ttl >= 1 && DrawsOk(d)
  {
    var e := ents[id];
    var c := e.body.cell;
    if breedTick && c.energy >= c.minEnergyDivision && Neighbour(e.coord, d.direction) !in collide then
      BredWorld(ents, collide, order, next, ents', collide', order', next', id, d)
      && removals' == removals
    else
      && next' == next && order' == order
      && Performed(ents, collide, removals, ents', collide', removals', sun, sunLevel, id,
                   Run(ents, collide, e.coord, c, c.genomeStart, LoopBound(c), 0))
  }

  /** Whichever way the live part of a tick goes, the cell stays, one tick
      older, with its genome, colour and counter; its energy stays under the
      cap if it was; and only a breed tick registers anything. */
  lemma LivedKeepsCell(ents: map<int, Entity>, collide: map<Coord, int>, order: seq<int>,
                       removals: seq<int>, next: int, ents': map<int, Entity>,
                       collide': map<Coord, int>, order': seq<int>, removals': seq<int>,
                       next': int, sun: bool, sunLevel: int, id: int, d: LegacyDraws,
                       breedTick: bool)
    requires id in ents && !ents[id].inactive && forall k :: k in ents ==> ents[k].id == k
    requires ents[id].body.CellBody? && WellFormed(ents[id].body.cell)
    requires ents[id].body.cell.variant.Legacy? && ents[id].body.cell.ttl >= 1 && DrawsOk(d)
    requires Lived(ents, collide, order, removals, next, ents', collide', order', removals', next',
                   sun, sunLevel, id, d, breedTick)
    ensures ents.Keys <= ents'.Keys
    ensures next' != next ==> breedTick
    ensures var c0 := ents[id].body.cell;
            && id in ents' && !ents'[id].inactive && ents'[id].body.CellBody?
            && var c1 := ents'[id].body.cell;
               && c1.ttl == c0.ttl - 1 && c1.genome == c0.genome && c1.color == c0.color
               && c1.variant == c0.variant
               && (c0.energy <= c0.maxEnergy ==> c1.energy <= c1.maxEnergy)
  {
    var e := ents[id];
    var c := e.body.cell;
    if !(breedTick && c.energy >= c.minEnergyDivision && Neighbour(e.coord, d.direction) !in collide) {
      var r := Run(ents, collide, e.coord, c, c.genomeStart, LoopBound(c), 0);
      RunKeepsCell(ents, collide, e.coord, c, c.genomeStart, LoopBound(c), 0);
      PerformedWritesBack(ents, collide, removals, ents', collide', removals', sun, sunLevel, id, r);
    }
  }

  /** The world after a tick of cell `id`: nothing for an inactive cell;
      death, leaving a packet when the energy is not 0, when the death test
      holds; otherwise the cell is counted, its breed counter steps and the
      live part of the tick follows, a breed tick when the counter wraps. */
  ghost predicate Ticked(ents: map<int, Entity>, collide: map<Coord, int>, order: seq<int>,
                         removals: seq<int>, next: int, lifeCells: int, ents': map<int, Entity>,
                         collide': map<Coord, int>, order': seq<int>, removals': seq<int>,
                         next': int, lifeCells': int, sun: bool, sunLevel: int, id: int,
                         d: LegacyDraws)
    requires id in ents && ents[id].body.CellBody? && WellFormed(ents[id].body.cell)
    requires ents[id].body.cell.variant.Legacy? && DrawsOk(d)
  {
    var e := ents[id];
    var c0 := e.body.cell;
    if e.inactive then
      && ents' == ents && collide' == collide && order' == order && removals' == removals
      && next' == next && lifeCells' == lifeCells
    else if Dies(c0) then
      Died(ents, collide, order, removals, next, ents', collide', order', removals', next',
           id, c0.energy != 0)
      && lifeCells' == lifeCells
    else
      && lifeCells' == lifeCells + 1
      && Lived(ents[id := e.(body := CellBody(CountToBreed(c0)))], collide, order, removals, next,
               ents', collide', order', removals', next', sun, sunLevel, id, d, BreedTick(c0))
  }

  /** `__call__` of the older variant (al_entities.py:385-419). */
  method Tick(w: World, id: int, d: LegacyDraws)
    requires w.Valid() && id in w.entities
    requires w.entities[id].body.CellBody? && w.entities[id].body.cell.variant.Legacy?
    requires DrawsOk(d)
    modifies w`entities, w`collide, w`order, w`removals, w`nextEntityId, w`totalLifeCells
    ensures w.Valid()
    ensures Ticked(old(w.entities), old(w.collide), old(w.order), old(w.removals),
                   old(w.nextEntityId), old(w.totalLifeCells), w.entities, w.collide, w.order,
                   w.removals, w.nextEntityId, w.totalLifeCells, w.sun, w.sunLevel, id, d)
    ensures old(w.entities).Keys <= w.entities.Keys
    ensures old(w.nextEntityId) <= w.nextEntityId <= old(w.nextEntityId) + 1
    ensures old(w.entities[id]).inactive ==>
              && w.entities == old(w.entities) && w.collide == old(w.collide)
              && w.removals == old(w.removals) && w.nextEntityId == old(w.nextEntityId)
              && w.totalLifeCells == old(w.totalLifeCells)
    ensures var e := old(w.entities[id]);
            !e.inactive && Dies(e.body.cell) ==>
              && w.entities[id].inactive && w.totalLifeCells == old(w.totalLifeCells)
              && (old(w.nextEntityId) in w.entities <==> e.body.cell.energy != 0)
              && (e.body.cell.energy != 0 ==>
                    w.entities[old(w.nextEntityId)]
                    == NewEnergy(old(w.nextEntityId), e.coord, e.body.cell.energy))
    ensures var e := old(w.entities[id]);
            var c0 := e.body.cell;
            !e.inactive && !Dies(c0) ==>
              && w.totalLifeCells == old(w.totalLifeCells) + 1
              && (w.nextEntityId != old(w.nextEntityId) ==> BreedTick(c0))
              && !w.entities[id].inactive && w.entities[id].body.CellBody?
              && var c1 := w.entities[id].body.cell;
                 && c1.ttl == c0.ttl - 1 && c1.genome == c0.genome && c1.color == c0.color
                 && c1.variant == CountToBreed(c0).variant
                 && (c0.energy <= c0.maxEnergy ==> c1.energy <= c1.maxEnergy)
  {
    var e := w.entities[id];
    if e.inactive {
      return;
    }
    var c := e.body.cell;
    if Dies(c) {
      Die(w, id, c.energy != 0);
      return;
    }
    w.totalLifeCells := w.totalLifeCells + 1;
    w.SetBody(id, CellBody(CountToBreed(c)));
    Live(w, id, d, BreedTick(c));
  }

  /** The rest of a live tick, once the counter has stepped: on a breed
      tick try to breed, and if that did not happen decode and perform.
      The cell stays, one tick older, with its genome, colour and counter;
      its energy stays under the cap if it was. */
  method Live(w: World, id: int, d: LegacyDraws, breedTick: bool)
    requires w.Valid() && id in w.entities && !w.entities[id].inactive
    requires w.entities[id].body.CellBody? && w.entities[id].body.cell.variant.Legacy?
    requires w.entities[id].body.cell.ttl >= 1 && DrawsOk(d)
    modifies w`entities, w`collide, w`order, w`removals, w`nextEntityId
    ensures w.Valid()
    ensures Lived(old(w.entities), old(w.collide), old(w.order), old(w.removals),
                  old(w.nextEntityId), w.entities, w.collide, w.order, w.removals,
                  w.nextEntityId, w.sun, w.sunLevel, id, d, breedTick)
    ensures old(w.entities).Keys <= w.entities.Keys
    ensures old(w.nextEntityId) <= w.nextEntityId <= old(w.nextEntityId) + 1
    ensures w.nextEntityId != old(w.nextEntityId) ==> breedTick
    ensures var c0 := old(w.entities[id]).body.cell;
            && id in w.entities && !w.entities[id].inactive && w.entities[id].body.CellBody?
            && var c1 := w.entities[id].body.cell;
               && c1.ttl == c0.ttl - 1 && c1.genome == c0.genome && c1.color == c0.color
               && c1.variant == c0.variant
               && (c0.energy <= c0.maxEnergy ==> c1.energy <= c1.maxEnergy)
  {
    var e := w.entities[id];
    var c := e.body.cell;
    if breedTick {
      var bred := Breed(w, id, d);
      if bred {
        return;
      }
    }
    var r := Decode(w.entities, w.collide, e.coord, c);
    RunKeepsCell(w.entities, w.collide, e.coord, c, c.genomeStart, LoopBound(c), 0);
    Perform(w, id, r);
  }
}
