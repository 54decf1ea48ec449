# Artificial-life simulator: a Dafny model of the simulation step

The simulator runs a grid world of rocks, energy packets and cells. Every
cell carries a genome of 109 small integers. Positions 0..100 are an
instruction tape that a small interpreter runs once per tick. Positions
101..108 are fixed parameters: start address, lifespan, energy bounds,
share kept on division, division threshold, mutation rate, breed interval.

This project models:

- the world's registry of entities, its spatial index (tile to
  identifier), the list of deferred removals and the identifier counter;
- the interpreter of the current cell (`al_cell.py`) and of the older one
  (the `Cell` class of `al_entities.py`), opcode by opcode;
- reproduction with mutation, death, eating, photosynthesis and moving;
- the decay of energy packets;
- one running step of the main loop: rain, a sweep over a snapshot of the
  identifiers, then the purge of the deferred removals;
- the record shape that saving a world produces.

The world is a class (`Worlds.World`) whose methods update its maps and
lists in place, with `Valid()` as the invariant they keep:

- every entity is filed under its own identifier, below the counter;
- a tile is mapped exactly when a live entity stands on it, and to that
  entity;
- the deferred removals are exactly the inactive entities, each listed
  once;
- every cell is well formed (genes in range, parameters derived from the
  genome, lifetime not negative).

Entities are values in the registry. An in-place attribute update of the
source is a method that rewrites the entity's entry (`SetBody`, `MoveTo`).

The decode loop reads the world but never changes it: the opcodes that let
the loop go on only turn, test the tile ahead, jump or rewrite the cell's
own registers. So `Interpreter.Decode` is a loop with no `modifies`, proved
equal to a recursive definition `Interpreter.Run`. The opcode that ends the
tick is then performed on the world by the variant's `Perform`.

Each world update is stated through a predicate over the state before and
after it, with the old state passed in explicitly. For example,
`Actions.Moved`, `CellVm.Ate` and `CellVm.Performed` describe a move, an
eat and a performed outcome. `CellVm.Lived` and `CellVm.Ticked` combine
them into a whole tick: either a reproduction, or the outcome of
`Interpreter.Run` on the world as the tick found it. `Scheduler.Act`
forwards the tick of each kind of entity by the same predicates.

Random draws are parameters with the source's ranges:

- the direction of a child, the mutation roll, the mutated position and
  its new gene, the colour drift or the fresh colour, the older variant's
  breed-interval jitter (`CellVm.BreedDraws`, `LegacyCell.LegacyDraws`);
- the tile a rain drop falls on.

Integers are unbounded, as in Python. Every division in the core has a
positive divisor (`energy // 100`, `energy * keep // 100`,
`min_energy_division // 3`); for those, Dafny's `/` rounds down exactly as
Python's `//` does, negative energies included.

Three behaviours of the code that the model keeps as written:

- **Rain comes first.** `loop` makes it rain *before* the sweep
  (al_world.py:391-395), so the drop can act in the same step.
  `Scheduler.Step` does the same.
- **The switches start off.** The constructor sets sun, entropy, geysers
  and rain on and then toggles each once (al_world.py:42-45, 82-85), so a
  new world starts with all four off. `Worlds.World.constructor` says so.
- **`check_move` and `directions` come from `al_entities.py`.** The current
  cell calls them but does not define them; they are taken from the older
  `Cell` class (al_entities.py:85-94, 202-210).

## Model

| member | source | states |
|---|---|---|
| Basics.Neighbour | al_entities.py:202-205 | the tile ahead is a different tile, one unit away in each axis |
| Basics.NeighboursDistinct | al_entities.py:85-94 | the eight directions give eight different neighbours |
| Basics.Clockwise | al_entities.py:251-255 | a turn keeps the orientation in [0,7] and is +1 modulo 8 |
| Basics.Cclockwise | al_entities.py:257-261 | a turn back keeps the orientation in [0,7] and is -1 modulo 8 |
| Basics.RotationsInverse | al_entities.py:251-261 | the two turns undo each other on every orientation |
| Basics.ClampChannel | al_cell.py:146-149 | the drifted channel lands in [0,255], unchanged when already inside, 255 above, 0 below |
| Genome.NextGenAddr | al_cell.py:114-117 | the pointer stays on the tape and advances modulo 101; 100 goes to 0 |
| Genome.GoToGenomeAddr | al_cell.py:180-183 | for a gene in [0,100] the pointer stays on the tape and the loop's next advance lands on that gene; gene 0 gives 100 |
| Genome.MismatchesCountsDiffs | al_cell.py:251-256 | the running difference count is the number of differing positions |
| Genome.MismatchesMonotone | al_cell.py:251-256 | counting further never finds fewer differences, so giving up at three is sound |
| Genome.IsRelative | al_cell.py:251-256 | the early-exit loop answers true iff the genomes differ in at most two positions over the shorter length |
| Genome.MakeMutant | al_cell.py:119-124 | a copy of the same length with the drawn gene at the drawn position and every other position equal to the parent's |
| Genome.MutantDiffersAtMostOnce | al_cell.py:119-124 | the mutant differs from the parent in at most one position |
| Genome.MutantIsKin | al_cell.py:119-124 | a mutant is always kin of its parent in the sense of opcode 8 |
| Genome.DriftColour | al_cell.py:140-151 | only the drawn channel changes, by at most 40, and it stays in [0,255] |
| Entities.NewRock | al_entities.py:44-51 | a live rock on the given tile under the given identifier |
| Entities.NewEnergy | al_entities.py:53-62 | a live packet carrying exactly the given energy on the given tile |
| Entities.NewCell | al_cell.py:21-63 | the derived parameters (lifetime, energy bounds, division threshold, breed cost one third of it); energy defaults to the maximum; a missing or zero start address falls back to gene 101; the counter starts at 0 with criteria 100 |
| Entities.NewLegacyCell | al_entities.py:96-126 | the derived parameters, breed cost 10, breed interval 10 + gene 108 + jitter, energy clamped to the maximum, start address gene 101 |
| Entities.MoveCost | al_entities.py:128-131 | the cost is one plus the energy divided by 100 rounded down, and is between 1 and energy + 1 for a non-negative energy |
| Entities.SplitEnergy | al_cell.py:156-159 | the parent's share is `E*keep//100`, the two shares add up to E, and both are in [0,E] when E and keep are in range |
| Worlds.Lookup | al_world.py:122-127 | nothing exactly when the tile is unmapped; otherwise the registered entity under the mapped identifier, which stands on that tile and is live |
| Worlds.Record | al_world.py:353-372 | no record for a rock; name and tile always; energy exactly for packets and cells; colour, orientation, start and genome only for cells |
| Worlds.RecordRestoresCell | al_world.py:363-371 | the record of a cell with a non-zero start address rebuilds the same cell with the cell constructor, up to lifetime and counter |
| Worlds.RecordLosesStartZero | al_cell.py:39 | a saved start address of 0 does not come back through the constructor when gene 101 is not 0 |
| Worlds.MarkedAll | al_world.py:189-197 | after the removal sweep over a set of kinds: same identifiers, exactly those kinds newly inactive, the others untouched, none of those kinds left on a tile |
| Worlds.AllButRocksMarked | al_world.py:194-197 | the same for every kind except rocks: only rocks stay active and on their tiles |
| Worlds.PurgeKeepsIndex | al_world.py:403-406 | purging the deferred removals leaves a consistent registry and index with no inactive entity left |
| Worlds.Purge | al_world.py:403-406 | the loop drops exactly the listed identifiers from the registry and keeps the order increasing and in step with it |
| Worlds.Exclusive | al_world.py:106-120 | two different live entities never share a tile |
| Worlds.World.constructor | al_world.py:35-85 | an empty, consistent world of the given size and sun level, with all four switches off |
| Worlds.World.GetId | al_world.py:101-104 | returns the counter and increments it; the identifier is above every registered one |
| Worlds.World.AddEntity | al_world.py:106-112 | files the entity under its identifier, maps its tile to it and appends it to the order, keeping the world consistent |
| Worlds.World.RemoveEntity | al_world.py:114-120 | flags the entity inactive, keeps it registered, appends it to the deferred removals and unmaps its tile |
| Worlds.World.WhoIsThere | al_world.py:122-127 | nothing iff the tile is unmapped, otherwise the live registered entity under the mapped identifier |
| Worlds.World.MoveTo | al_entities.py:24-32 | unmaps the old tile, maps the new tile to the entity and moves it; nothing else changes |
| Worlds.World.Rainy | al_world.py:169-175 | on an empty drawn tile, registers a fresh packet of the given energy there; on an occupied one, changes nothing |
| Worlds.World.RemoveKinds | al_world.py:189-197 | marks removed every entity of the listed kinds, in registry order, as repeated `remove_entity` calls would |
| Worlds.World.RmGeysers | al_world.py:189-192 | exactly the geysers become inactive; every other entity is untouched |
| Worlds.World.RmAll | al_world.py:194-197 | every entity except the rocks becomes inactive; rocks stay unchanged and are all that is left on the tiles |
| Worlds.World.Reconcile | al_world.py:403-406 | the registry loses exactly the deferred removals, the list is cleared, the index is unchanged and no inactive entity remains |
| Worlds.World.SaveWorld | al_world.py:341-372 | the switches, the counter, and one record per registered entity that is not a rock |
| Interpreter.CheckMove | al_entities.py:202-210 | looks at the tile ahead, and reports nothing iff that tile is unmapped, otherwise its live occupant |
| Interpreter.Branch | al_cell.py:213-243 | advances the pointer, then jumps through the gene there when the test holds; the pointer stays on the tape |
| Interpreter.ExecCurrent | al_cell.py:185-302 | opcodes 0, 9, 10, 11 end the tick and no other gene does; a pass that goes on keeps the pointer on the tape, the cell well formed and its life parameters, costs at most one energy, changes the start only for 3 and the counter only by opcode 12's reset |
| Interpreter.ExecLegacy | al_entities.py:229-383 | opcodes 0, 3, 8, 10, 11 end the tick and no other gene does; a pass that goes on costs no energy, keeps the breed counter and changes the start only for opcode 4 |
| Interpreter.Exec | al_cell.py:336-338 | dispatches on the variant; a pass that goes on keeps the cell's life parameters and costs at most one energy |
| Interpreter.Run | al_cell.py:333-341 | the decode loop as a recursive definition; a halting run halts within the given number of passes |
| Interpreter.RunKeepsCell | al_cell.py:333-341 | decoding keeps the cell well formed with its genome, colour and lifetime, loses at most one energy per pass (none in the older variant), and at most resets the counter; the current variant never ends with a skip |
| Interpreter.Decode | al_cell.py:333-341 | the bounded loop (102 passes, 100 in the older variant) computes exactly the recursive definition |
| Interpreter.RunBoundIrrelevant | al_cell.py:335-340 | a decode that halts within m passes halts the same way under any larger bound: the pass limit of the loop (102, or 100 in the older variant) matters only to a genome that never reaches an opcode ending the tick |
| Interpreter.RunExhaustedPrefix | al_cell.py:335-341 | a decode that runs out under a bound also runs out under every smaller bound: the closing `skip_move` is reached only when no pass before the limit ended the tick |
| Actions.Parent | al_cell.py:156-173 | the parent after breeding keeps its share of the budget and one tick less, and nothing else changes |
| Actions.Die | al_cell.py:311-323 | the cell is marked inactive, queued for removal and unmapped; when asked, a packet with exactly its energy is registered on the vacated tile under the next identifier and appended to the order; nothing else changes |
| Actions.LeavePacket | al_cell.py:316-322 | a fresh packet is registered on the free tile under the next identifier and appended to the order |
| Actions.Move | al_cell.py:185-192 | steps onto the tile ahead exactly when it is free (the index follows), otherwise stays; pays one plus a hundredth of the energy and one tick of lifetime |
| Actions.Skip | al_cell.py:176-178 | only the lifetime shrinks, by one tick |
| CellVm.Offspring | al_cell.py:138-169 | the child is well formed, gets the rest of the budget, faces the drawn direction, starts at gene 101; unmutated it carries the parent's genome and colour, mutated at most one gene and one channel change |
| CellVm.BreedConservesEnergy | al_cell.py:156-159 | parent and child together hold exactly the energy minus the breed cost, and each share is in range |
| CellVm.OffspringIsKin | al_cell.py:138-139 | a child is always kin of its parent |
| CellVm.Breed | al_cell.py:126-174 | fails, changing nothing, iff the energy is below the threshold or the drawn tile is occupied; otherwise registers the child there under the next identifier, at the end of the order, and writes the parent back |
| CellVm.Eat | al_cell.py:260-278 | below the maximum, eats the live occupant ahead if it has the wanted kind, gaining its energy without a cap and removing it; then pays the move cost and one tick |
| CellVm.Photosynthesis | al_cell.py:280-285 | with the sun on and below the maximum gains the sun level, without a cap; one tick either way |
| CellVm.Perform | al_cell.py:335-341 | the exact world update for each way the loop can end: a run-out pass limit skips (only the lifetime shrinks, index and removals untouched), and opcodes 0, 9, 10 and 11 move, eat a packet, eat a cell and photosynthesise as those methods do; the cell is written back as decoded |
| CellVm.CountUp | al_cell.py:327-328 | the counter grows by one only while below its criteria |
| CellVm.Tick | al_cell.py:304-341 | nothing for an inactive cell; Die's exact update, with a packet iff energy > 0, when the death test holds; otherwise the cell is counted, its counter steps, and the rest is Live's update on the world with the stepped cell; the cell stays one tick older with its genome and colour |
| CellVm.Live | al_cell.py:330-341 | with enough energy and the drawn tile free, exactly Breed's update; otherwise no identifier is created and the world is updated as Perform does for the outcome of Run on the world as it was, from the start address with the pass limit; the cell stays one tick older with its genome and colour |
| CellVm.PerformedWritesBack | al_cell.py:335-341 | after any performed outcome the same identifiers are registered and the cell is live, holding the decoded state one tick older with at most its energy changed |
| CellVm.LivedKeepsCell | al_cell.py:330-341 | whichever way the live part of a tick goes, the cell stays, one tick older, with its genome and colour, and its counter kept or reset; no identifier disappears |
| LegacyCell.Offspring | al_entities.py:316-344 | unmutated the child carries the parent's genome and colour, mutated the mutant genome and the drawn colour; its share is capped by its own maximum |
| LegacyCell.BreedEnergy | al_entities.py:327-331 | parent and child hold at most the energy minus 10, exactly that when the child's share fits under its cap |
| LegacyCell.Breed | al_entities.py:292-349 | fails, changing nothing, iff the energy is below the threshold or the tile is occupied; otherwise registers the child under the next identifier, at the end of the order, and writes the parent back |
| LegacyCell.Capped | al_entities.py:136-137 | the energy never exceeds the maximum and is unchanged when within it |
| LegacyCell.Eat | al_entities.py:369-383 | eats the live occupant ahead if it has the wanted kind, gaining its energy up to the cap and removing it; one tick; no energy cost |
| LegacyCell.Photosynthesis | al_entities.py:351-358 | with the sun on gains the sun level up to the cap; one tick either way |
| LegacyCell.Perform | al_entities.py:407-419 | the exact world update for each way the loop can end: a run-out pass limit or opcode 3 skips, and opcodes 0, 10, 11 and 8 move, eat a packet, eat a cell and photosynthesise as those methods do, with the capped energy; the cell is written back as decoded and its energy stays under the cap if it was |
| LegacyCell.CountToBreed | al_entities.py:400-402 | the breed counter counts modulo the breed interval |
| LegacyCell.Tick | al_entities.py:385-419 | nothing for an inactive cell; Die's exact update, with a packet iff energy != 0, when the death test holds; otherwise the cell is counted, its counter steps modulo the interval, and the rest is Live's update with a breed tick exactly when the counter wraps |
| LegacyCell.Live | al_entities.py:401-419 | on a breed tick with enough energy and the drawn tile free, exactly Breed's update; otherwise no identifier is created and the world is updated as Perform does for the outcome of Run on the world as it was; the cell stays one tick older and under the cap if it was |
| LegacyCell.PerformedWritesBack | al_entities.py:407-419 | after any performed outcome the same identifiers are registered, the cell is live holding the decoded state one tick older, and an energy under the cap stays under it |
| LegacyCell.LivedKeepsCell | al_entities.py:401-419 | whichever way the live part of a tick goes, the cell stays one tick older with its genome, colour and counter, under the cap if it was, and only a breed tick registers anything |
| Passive.EnergyTick | al_entities.py:67-78 | the exact update: nothing when inactive; counted otherwise; with entropy off unchanged; with entropy on one unit less, removed (flagged, queued, unmapped) exactly when it reaches 0 |
| Scheduler.Act | al_world.py:394-395 | one entity acts by its kind, keeping the world consistent: a rock or geyser changes nothing, a packet takes EnergyTick's update, a cell the tick of its variant (the update Tick states); an inactive one changes nothing |
| Scheduler.Sweep | al_world.py:393-395 | every snapshotted entity acts in turn; the world stays consistent and gains at most one identifier per entity |
| Scheduler.Step | al_world.py:390-406 | the snapshot holds every identifier registered before the sweep and none created during it; after the step the removals are purged, no inactive entity is left and the tallies are reset |

## Left out

- Drawing: `draw_pixel` is a no-op here, and the window setup and display colours of rocks and packets are left out.
- The info bar, the button handlers' UI side (`start_pause`, `step_forward`, the `*_toggle` labels) and `info_bar.py`. The four switches are plain fields.
- Mouse handling and entity inspection in `loop`, and `print_info` with its genome statistics: output only.
- File and JSON I/O: `save_sample`, `load_sample`, `file_list`, `file_up`, `file_down`, `load_world` and the file writing of `save_world`. Only the record shape is modelled.
- `fill_the_world`: it passes a start address that the older `Cell` constructor it imports does not take. The round trip from a record through the current cell's constructor is stated by `Worlds.RecordRestoresCell` and `Worlds.RecordLosesStartZero` instead.
- `add_geysers`, `add_life` and main.py: seeding with random geysers, cells and rocks.
- The `Geyser` entity: it is imported but not defined in the files modelled, so a geyser only occupies a tile and its tick does nothing.
- `dump_energy`, called at the start of the current cell's tick: not defined in the files modelled, so it is left out and invents nothing.
- The `random` module: every draw is a parameter constrained to the range the source draws from.
- CellVm.Tick: does not model the `dump_energy` hook, because its body is not part of the files modelled.
- Worlds.World.RemoveEntity: requires the entity to be live. The source pops its tile from the index without a default, which fails for an entity already removed. When the vacated tile has since been taken, for example by the packet a dying cell leaves, the source's `pop` would silently unmap the new occupant instead; under this precondition that case does not arise.
- Worlds.World.RmGeysers: requires every geyser to be live. Otherwise the source's `remove_entity` would fail, as above; the buttons run between steps, after the purge.
- Worlds.World.RmAll: requires every non-rock entity to be live, for the same reason.
- CellVm.Breed: requires a lifetime of at least one tick, which the death test that runs before it guarantees.
- LegacyCell.Breed: requires a lifetime of at least one tick, for the same reason.
- Worlds.Lookup: also checks that the mapped identifier is registered. Under `Valid()` that always holds, so `Worlds.World.WhoIsThere` agrees with the source.
- LegacyCell.BreedEnergy: states that parent and child together hold E - 10 only when the child's share fits under its own maximum. The older constructor clamps the child's energy, so a mutation of gene 103 can destroy part of the share.
- Scheduler.Sweep: states that the world stays consistent and how many identifiers can appear, not the combined effect of every entity's tick.
- Scheduler.Step: states the snapshot, the purge and the reset of the tallies, not the combined effect of the sweep.
