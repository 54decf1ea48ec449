/** The genome interpreter of both cell variants: what a cell sees ahead of
    it, the opcode tables, and the decode loop that runs opcodes until one
    of them ends the tick. The opcodes that let the loop go on only read the
    world, so decoding is a computation over the registry and the spatial
    index; the opcode that ends the tick is then performed on the world by
    the variant's tick. */
module Interpreter {
  import opened Basics
  import opened Genome
  import opened Entities
  import opened Worlds

  /** What `check_move` returns: the occupant of the tile ahead (its name
      is the kind of that entity) and the tile itself. */
  datatype Sight = Sight(target: Option<Entity>, coord: Coord)

  /** Look at the tile in front of a cell standing on `coord` and facing
      `orientation`. */
  function CheckMove(ents: map<int, Entity>, collide: map<Coord, int>, coord: Coord,
                     orientation: int): (s: Sight)
    requires IsOrientation(orientation)
    ensures s.coord == Neighbour(coord, orientation)
    ensures s.target.Some? ==> s.coord in collide && collide[s.coord] in ents && s.target.value == ents[collide[s.coord]]
    ensures IndexOk(ents, collide) ==> (s.target.None? <==> s.coord !in collide)
    ensures IndexOk(ents, collide) && s.target.Some? ==>
              s.target.value.coord == s.coord && !s.target.value.inactive
  {
    var ahead := Neighbour(coord, orientation);
    Sight(Lookup(ents, collide, ahead), ahead)
  }

  /** The name `check_move` reports: none for an empty tile. */
  function NameAhead(s: Sight): Option<Kind> {
    if s.target.Some? then Some(s.target.value.Name()) else None
  }

  /** The opcodes that end a tick. */
  datatype Op = MoveOp | EatEnergyOp | EatCellOp | PhotosynthesisOp | SkipOp

  /** One pass of the decode loop: either the opcode ended the tick, or the
      loop goes on with the updated cell at the next address (the address
      after the loop's own advance). */
  datatype Step = Continue(cell: CellState, addr: int) | Halt(op: Op, cell: CellState)

  /** The result of the decode loop: the opcode that ended the tick after
      `steps` passes, or the loop bound was reached. */
  datatype Outcome = Halted(op: Op, cell: CellState, steps: nat) | Exhausted(cell: CellState)

  /** What the interpreter needs of a cell: a genome of genes and a
      direction to look in. */
  predicate Decodable(c: CellState) {
    ValidGenome(c.genome) && IsOrientation(c.orientation)
  }

  /** A pass of the loop that goes on never changes what the cell carries
      for life, keeps it well formed and the pointer on the tape. */
  predicate Proceeds(c: CellState, s: Step) {
    s.Continue? ==>
      && IsAddr(s.addr) && Decodable(s.cell) && SameLife(c, s.cell)
      && (WellFormed(c) ==> WellFormed(s.cell))
  }

  /** Advance, then jump through the gene there if `cond` holds. */
  function Branch(g: seq<int>, addr: int, cond: bool): (r: int)
    requires ValidGenome(g) && IsAddr(addr)
    ensures IsAddr(r)
    ensures !cond ==> r == NextGenAddr(addr)
    ensures cond ==> NextGenAddr(r) == g[NextGenAddr(addr)]
  {
    var a := NextGenAddr(addr);
    if cond then GoToGenomeAddr(g, a) else a
  }

  /** One opcode of the current variant (al_cell.py), executed at `addr`.
      Opcodes 0, 9, 10 and 11 end the tick; 1 and 2 turn the cell; 3 and
      13 read the next gene as the new start address or counter criteria;
      4 to 8 test the tile ahead and jump through the next gene; 12 jumps
      once the counter has reached its criteria and resets it; 14 always
      jumps; every other gene is skipped. */
  function ExecCurrent(ents: map<int, Entity>, collide: map<Coord, int>, coord: Coord,
                       c: CellState, addr: int): (s: Step)
    requires Decodable(c) && c.variant.Current? && IsAddr(addr)
    ensures Proceeds(c, s)
    ensures s.Halt? <==> c.genome[addr] in {0, 9, 10, 11}
    ensures s.Halt? ==> s.cell == c && s.op != SkipOp
    ensures s.Continue? ==> c.energy - 1 <= s.cell.energy <= c.energy && s.cell.variant.Current?
    ensures s.Continue? && c.genome[addr] != 3 ==> s.cell.genomeStart == c.genomeStart
    ensures s.Continue? ==>
              || s.cell.variant.internalCounter == c.variant.internalCounter
              || (c.genome[addr] == 12 && s.cell.variant.internalCounter == 0)
    ensures c.genome[addr] == 12 && c.variant.internalCounter >= c.variant.internalCounterCriteria
            ==> s.cell.variant.internalCounter == 0
  {
    var g := c.genome;
    var gene := g[addr];
    if gene == 0 then Halt(MoveOp, c)
    else if gene == 9 then Halt(EatEnergyOp, c)
    else if gene == 10 then Halt(EatCellOp, c)
    else if gene == 11 then Halt(PhotosynthesisOp, c)
    else if gene == 1 then
      Continue(c.(orientation := Clockwise(c.orientation), energy := c.energy - 1), NextGenAddr(addr))
    else if gene == 2 then
      Continue(c.(orientation := Cclockwise(c.orientation), energy := c.energy - 1), NextGenAddr(addr))
    else if gene == 3 then
      var a := NextGenAddr(addr);
      Continue(c.(genomeStart := g[a]), NextGenAddr(a))
    else if 4 <= gene <= 7 then
      var name := NameAhead(CheckMove(ents, collide, coord, c.orientation));
      var jump :=
        if gene == 4 then name.Some? && name.value !in {EnergyKind, CellKind}
        else if gene == 5 then name == Some(EnergyKind)
        else if gene == 6 then name == Some(CellKind)
        else name.None?;
      Continue(c.(energy := c.energy - 1), NextGenAddr(Branch(g, addr, jump)))
    else if gene == 8 then
      var sight := CheckMove(ents, collide, coord, c.orientation);
      if sight.target.Some? && sight.target.value.body.CellBody?
         && Kin(g, sight.target.value.body.cell.genome)
      then Continue(c.(energy := c.energy - 1), NextGenAddr(Branch(g, addr, true)))
      else Continue(c, NextGenAddr(NextGenAddr(addr)))
    else if gene == 12 then
      if c.variant.internalCounter >= c.variant.internalCounterCriteria then
        Continue(c.(variant := c.variant.(internalCounter := 0)), NextGenAddr(Branch(g, addr, true)))
      else Continue(c, NextGenAddr(addr))
    else if gene == 13 then
      var a := NextGenAddr(addr);
      Continue(c.(variant := c.variant.(internalCounterCriteria := g[a])), NextGenAddr(a))
    else if gene == 14 then
      Continue(c, NextGenAddr(Branch(g, addr, true)))
    else Continue(c, NextGenAddr(addr))
  }

  /** One opcode of the older variant (al_entities.py). Opcodes 0, 3, 8, 10
      and 11 end the tick; 1 and 2 turn the cell at no cost; 4 reads the
      next gene as the new start address; 5, 6 and 9 test the tile ahead
      for a rock, an energy packet or a cell and jump through the next gene;
      every other gene, 7 included, is skipped. No opcode that lets the loop
      go on costs energy. */
  function ExecLegacy(ents: map<int, Entity>, collide: map<Coord, int>, coord: Coord,
                      c: CellState, addr: int): (s: Step)
    requires Decodable(c) && c.variant.Legacy? && IsAddr(addr)
    ensures Proceeds(c, s)
    ensures s.Halt? <==> c.genome[addr] in {0, 3, 8, 10, 11}
    ensures s.Halt? ==> s.cell == c
    ensures s.Continue? ==> s.cell.energy == c.energy && s.cell.variant == c.variant
    ensures s.Continue? && c.genome[addr] != 4 ==> s.cell.genomeStart == c.genomeStart
  {
    var g := c.genome;
    var gene := g[addr];
    if gene == 0 then Halt(MoveOp, c)
    else if gene == 3 then Halt(SkipOp, c)
    else if gene == 8 then Halt(PhotosynthesisOp, c)
    else if gene == 10 then Halt(EatEnergyOp, c)
    else if gene == 11 then Halt(EatCellOp, c)
    else if gene == 1 then Continue(c.(orientation := Clockwise(c.orientation)), NextGenAddr(addr))
    else if gene == 2 then Continue(c.(orientation := Cclockwise(c.orientation)), NextGenAddr(addr))
    else if gene == 4 then
      var a := NextGenAddr(addr);
      Continue(c.(genomeStart := g[a]), NextGenAddr(a))
    else if gene in {5, 6, 9} then
      var name := NameAhead(CheckMove(ents, collide, coord, c.orientation));
      var want := if gene == 5 then RockKind else if gene == 6 then EnergyKind else CellKind;
      Continue(c, NextGenAddr(Branch(g, addr, name == Some(want))))
    else Continue(c, NextGenAddr(addr))
  }

  /** One opcode of whichever variant the cell is. */
  function Exec(ents: map<int, Entity>, collide: map<Coord, int>, coord: Coord,
                c: CellState, addr: int): (s: Step)
    requires Decodable(c) && IsAddr(addr)
    ensures Proceeds(c, s)
    ensures s.Halt? ==> s.cell == c
    ensures s.Continue? ==> c.energy - 1 <= s.cell.energy <= c.energy
    ensures s.Continue? && c.variant.Current? ==>
              s.cell.variant.internalCounter in {c.variant.internalCounter, 0}
  {
    match c.variant
    case Current(_, _) => ExecCurrent(ents, collide, coord, c, addr)
    case Legacy(_, _) => ExecLegacy(ents, collide, coord, c, addr)
  }

  /** The bound of the decode loop: 102 passes in the current variant, 100
      in the older one. */
  function LoopBound(c: CellState): nat {
    if c.variant.Current? then 102 else 100
  }

  /** The decode loop as a recursive definition: at most `fuel` more
      passes starting at `addr`, after `done` passes already made. */
  function Run(ents: map<int, Entity>, collide: map<Coord, int>, coord: Coord,
               c: CellState, addr: int, fuel: nat, done: nat): (r: Outcome)
    requires Decodable(c) && IsAddr(addr)
    ensures r.Halted? ==> done < r.steps <= done + fuel
    decreases fuel
  {
    if fuel == 0 then Exhausted(c)
    else
      match Exec(ents, collide, coord, c, addr)
      case Halt(op, c') => Halted(op, c', done + 1)
      case Continue(c', a') => Run(ents, collide, coord, c', a', fuel - 1, done + 1)
  }

  /** What the decode loop leaves of a cell: it stays well formed and keeps
      everything it carries for life (its lifetime included, so a tick
      shortens the lifetime only through the opcode that ends it); it loses
      at most one unit of energy per pass, none in the older variant; the
      counter either stays or is reset; and the current variant never ends
      a tick with a skipped move. */
  lemma {:induction false} RunKeepsCell(ents: map<int, Entity>, collide: map<Coord, int>,
                                        coord: Coord, c: CellState, addr: int, fuel: nat, done: nat)
    requires WellFormed(c) && IsAddr(addr)
    ensures var r := Run(ents, collide, coord, c, addr, fuel, done);
            && WellFormed(r.cell) && SameLife(c, r.cell)
            && c.energy - fuel <= r.cell.energy <= c.energy
            && (c.variant.Legacy? ==> r.cell.energy == c.energy && r.cell.variant == c.variant)
            && (c.variant.Current? ==> r.cell.variant.internalCounter in {c.variant.internalCounter, 0})
            && (c.variant.Current? && r.Halted? ==> r.op != SkipOp)
    decreases fuel
  {
    if fuel > 0 {
      match Exec(ents, collide, coord, c, addr)
      case Halt(_, _) =>
      case Continue(c', a') =>
        RunKeepsCell(ents, collide, coord, c', a', fuel - 1, done + 1);
    }
  }

  /** The loop of `__call__`: start at the cell's start address and run
      opcodes, at most LoopBound times, until one ends the tick. */
  method Decode(ents: map<int, Entity>, collide: map<Coord, int>, coord: Coord, c: CellState)
    returns (r: Outcome)
    requires Decodable(c) && IsAddr(c.genomeStart)
    ensures r == Run(ents, collide, coord, c, c.genomeStart, LoopBound(c), 0)
  {
    var bound := LoopBound(c);
    var cell, addr := c, c.genomeStart;
    var i := 0;
    while i < bound
      invariant 0 <= i <= bound
      invariant Decodable(cell) && IsAddr(addr)
      invariant Run(ents, collide, coord, c, c.genomeStart, bound, 0)
                == Run(ents, collide, coord, cell, addr, bound - i, i)
    {
      var s := Exec(ents, collide, coord, cell, addr);
      if s.Halt? {
        return Halted(s.op, s.cell, i + 1);
      }
      cell, addr := s.cell, s.addr;
      i := i + 1;
    }
    return Exhausted(cell);
  }

  /** A decode that ends within `m` passes ends the same way under any
      bound of at least `m`: the loop bound only matters to a genome that
      does not reach a tick-ending opcode. */
  lemma {:induction false} RunBoundIrrelevant(ents: map<int, Entity>, collide: map<Coord, int>,
                                              coord: Coord, c: CellState, addr: int,
                                              n: nat, m: nat, done: nat)
    requires Decodable(c) && IsAddr(addr)
    requires Run(ents, collide, coord, c, addr, n, done).Halted?
    requires Run(ents, collide, coord, c, addr, n, done).steps <= done + m
    ensures Run(ents, collide, coord, c, addr, m, done) == Run(ents, collide, coord, c, addr, n, done)
    decreases n
  {
    match Exec(ents, collide, coord, c, addr)
    case Halt(_, _) =>
    case Continue(c', a') =>
      RunBoundIrrelevant(ents, collide, coord, c', a', n - 1, m - 1, done + 1);
  }

  /** A decode that runs out of passes under bound `n` also runs out under
      every smaller bound: no opcode in those passes ended the tick. */
  lemma {:induction false} RunExhaustedPrefix(ents: map<int, Entity>, collide: map<Coord, int>,
                                              coord: Coord, c: CellState, addr: int,
                                              n: nat, m: nat, done: nat)
    requires Decodable(c) && IsAddr(addr)
    requires m <= n && Run(ents, collide, coord, c, addr, n, done).Exhausted?
    ensures Run(ents, collide, coord, c, addr, m, done).Exhausted?
    decreases m
  {
    if m > 0 {
      match Exec(ents, collide, coord, c, addr)
      case Halt(_, _) =>
      case Continue(c', a') =>
        RunExhaustedPrefix(ents, collide, coord, c', a', n - 1, m - 1, done + 1);
    }
  }
}
