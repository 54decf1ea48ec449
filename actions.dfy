/** The world updates both cell variants share: death, which may leave the
    cell's energy behind as a packet, the move opcode and the skipped move.
    Each writes the decoded cell back to the registry with its lifetime
    shortened by one tick. */
module Actions {
  import opened Basics
  import opened Genome
  import opened Entities
  import opened Worlds

  /** The energy left for parent and child once the breed cost is paid. */
  function Budget(c: CellState): int {
    c.energy - c.breedCost
  }

  /** The parent after a successful reproduction: it keeps its share of the
      budget and one tick of lifetime less. */
  function Parent(c: CellState): (p: CellState)
    requires WellFormed(c) && c.ttl >= 1
    ensures WellFormed(p) && p.ttl == c.ttl - 1
    ensures p.energy == SplitEnergy(Budget(c), c.genome[KeepPercentGene]).0
    ensures p.(energy := c.energy, ttl := c.ttl) == c
  {
    c.(energy := SplitEnergy(Budget(c), c.genome[KeepPercentGene]).0, ttl := c.ttl - 1)
  }

  /** What every action that ends a tick leaves behind: the same
      identifiers are registered, and the acting cell is still an active
      cell holding the decoded state `c`, one tick older, with at most its
      energy changed by the action. */
  predicate WrittenBack(before: map<int, Entity>, after: map<int, Entity>, id: int, c: CellState) {
    && after.Keys == before.Keys
    && id in after && !after[id].inactive && after[id].body.CellBody?
    && after[id].body.cell.(energy := c.energy) == c.(ttl := c.ttl - 1)
  }

  /** The world after cell `id` died: it is marked inactive and queued for
      removal, its tile is vacated and, if `leavePacket`, taken by a fresh
      energy packet holding the cell's energy under the next identifier. */
  ghost predicate Died(ents: map<int, Entity>, collide: map<Coord, int>, order: seq<int>,
                       removals: seq<int>, next: int, ents': map<int, Entity>,
                       collide': map<Coord, int>, order': seq<int>, removals': seq<int>,
                       next': int, id: int, leavePacket: bool)
  {
    && id in ents
    && var e := ents[id];
       && removals' == removals + [id]
       && (!leavePacket ==>
             && ents' == ents[id := e.(inactive := true)]
             && collide' == collide - {e.coord}
             && order' == order && next' == next)
       && (leavePacket ==>
             var packet := NewEnergy(next, e.coord, EnergyOf(e));
             && ents' == ents[id := e.(inactive := true)][packet.id := packet]
             && collide' == collide[packet.coord := packet.id]
             && order' == order + [packet.id] && next' == next + 1)
  }

  /** Remove the cell and, if `leavePacket`, put an energy packet carrying
      its energy on the tile it vacated (al_cell.py:311-323,
      al_entities.py:390-396). */
  method Die(w: World, id: int, leavePacket: bool)
    requires w.Valid() && id in w.entities && !w.entities[id].inactive
    modifies w`entities, w`collide, w`order, w`removals, w`nextEntityId
    ensures w.Valid()
    ensures Died(old(w.entities), old(w.collide), old(w.order), old(w.removals), old(w.nextEntityId),
                 w.entities, w.collide, w.order, w.removals, w.nextEntityId, id, leavePacket)
  {
    var e := w.entities[id];
    w.RemoveEntity(id);
    if leavePacket {
      LeavePacket(w, e.coord, EnergyOf(e));
      VacateThenPlace(old(w.collide), e.coord, old(w.nextEntityId));
    }
  }

  /** Register a fresh energy packet on the free tile `coord`. */
  method LeavePacket(w: World, coord: Coord, energy: int)
    requires w.Valid() && coord !in w.collide
    modifies w`entities, w`collide, w`order, w`nextEntityId
    ensures w.Valid()
    ensures w.nextEntityId == old(w.nextEntityId) + 1
    ensures w.entities == old(w.entities)[old(w.nextEntityId) := NewEnergy(old(w.nextEntityId), coord, energy)]
    ensures w.collide == old(w.collide)[coord := old(w.nextEntityId)]
    ensures w.order == old(w.order) + [old(w.nextEntityId)]
    ensures w.removals == old(w.removals)
  {
    var pid := w.GetId();
    w.AddEntity(NewEnergy(pid, coord, energy));
  }

  /** Vacating a tile and then placing an entity on it is placing it there. */
  lemma VacateThenPlace(m: map<Coord, int>, k: Coord, v: int)
    ensures (m - {k})[k := v] == m[k := v]
  {
  }

  /** The world after cell `id`, decoded as `c`, took a move: it stands on
      the tile ahead if that was free, otherwise where it stood, and has
      paid MoveCost and a tick of lifetime. */
  ghost predicate Moved(ents: map<int, Entity>, collide: map<Coord, int>, ents': map<int, Entity>,
                        collide': map<Coord, int>, id: int, c: CellState)
  {
    && id in ents && IsOrientation(c.orientation)
    && var coord := ents[id].coord;
       var ahead := Neighbour(coord, c.orientation);
       var free := ahead !in collide;
       && ents' == ents[id := Entity(id, if free then ahead else coord, false,
                            CellBody(c.(energy := c.energy - MoveCost(c.energy), ttl := c.ttl - 1)))]
       && collide' == if free then (collide - {coord})[ahead := id] else collide
  }

  /** Opcode "move": step onto the tile ahead if it is empty, otherwise stay;
      either way pay MoveCost and one tick of lifetime (al_cell.py:185-192,
      al_entities.py:128-131, 229-249). `c` is the cell as the decode loop
      left it. */
  method Move(w: World, id: int, c: CellState)
    requires w.Valid() && id in w.entities && !w.entities[id].inactive
    requires WellFormed(c) && c.ttl >= 1
    modifies w`entities, w`collide
    ensures w.Valid()
    ensures Moved(old(w.entities), old(w.collide), w.entities, w.collide, id, c)
    ensures WrittenBack(old(w.entities), w.entities, id, c)
  {
    var ahead := Neighbour(w.entities[id].coord, c.orientation);
    if w.WhoIsThere(ahead).None? {
      w.MoveTo(id, ahead);
    }
    w.SetBody(id, CellBody(c.(energy := c.energy - MoveCost(c.energy), ttl := c.ttl - 1)));
  }

  /** The registry after cell `id`, decoded as `c`, skipped its move: only
      the lifetime shrank. */
  ghost predicate Skipped(ents: map<int, Entity>, ents': map<int, Entity>, id: int, c: CellState) {
    id in ents && ents' == ents[id := ents[id].(body := CellBody(c.(ttl := c.ttl - 1)))]
  }

  /** `skip_move`, also the end of a decode loop that ran out of passes:
      only the lifetime shrinks (al_cell.py:176-178, al_entities.py:263-266). */
  method Skip(w: World, id: int, c: CellState)
    requires w.Valid() && id in w.entities && !w.entities[id].inactive
    requires WellFormed(c) && c.ttl >= 1
    modifies w`entities
    ensures w.Valid()
    ensures Skipped(old(w.entities), w.entities, id, c)
    ensures WrittenBack(old(w.entities), w.entities, id, c)
  {
    w.SetBody(id, CellBody(c.(ttl := c.ttl - 1)));
  }
}
