/** One step of the simulation loop while it runs: rain, a sweep over the
    identifiers registered before the sweep, each entity acting in turn,
    then the reset of the tallies and the purge of the deferred removals. */
module Scheduler {
  import opened Entities
  import opened Worlds
  import opened Passive
  import CellVm
  import LegacyCell

  /** Let one entity act, by what it is: rocks (and geysers, whose action is
      not part of this model) change nothing, a packet decays, a cell takes
      the tick of its variant. */
  method Act(w: World, id: int, cur: CellVm.BreedDraws, leg: LegacyCell.LegacyDraws)
    requires w.Valid() && id in w.entities
    requires CellVm.DrawsOk(cur) && LegacyCell.DrawsOk(leg)
    modifies w`entities, w`collide, w`order, w`removals, w`nextEntityId
    modifies w`totalLifeCells, w`totalNolifeObjects
    ensures w.Valid()
    ensures old(w.entities).Keys <= w.entities.Keys
    ensures old(w.nextEntityId) <= w.nextEntityId <= old(w.nextEntityId) + 1
    ensures old(w.entities[id]).inactive ==>
              w.entities == old(w.entities) && w.collide == old(w.collide) &&
              w.removals == old(w.removals) && w.nextEntityId == old(w.nextEntityId)
    ensures old(w.entities[id]).body.RockBody? || old(w.entities[id]).body.GeyserBody? ==>
              && w.entities == old(w.entities) && w.collide == old(w.collide)
              && w.order == old(w.order) && w.removals == old(w.removals)
              && w.nextEntityId == old(w.nextEntityId)
              && w.totalLifeCells == old(w.totalLifeCells)
              && w.totalNolifeObjects == old(w.totalNolifeObjects)
    ensures old(w.entities[id]).body.EnergyBody? ==>
              && Decayed(old(w.entities), old(w.collide), old(w.removals), old(w.totalNolifeObjects),
                         w.entities, w.collide, w.removals, w.totalNolifeObjects, w.entropy, id)
              && w.order == old(w.order) && w.nextEntityId == old(w.nextEntityId)
              && w.totalLifeCells == old(w.totalLifeCells)
    ensures old(w.entities[id]).body.CellBody? && old(w.entities[id]).body.cell.variant.Current? ==>
              && CellVm.Ticked(old(w.entities), old(w.collide), old(w.order), old(w.removals),
                               old(w.nextEntityId), old(w.totalLifeCells), w.entities, w.collide,
                               w.order, w.removals, w.nextEntityId, w.totalLifeCells, w.sun,
                               w.sunLevel, id, cur)
              && w.totalNolifeObjects == old(w.totalNolifeObjects)
    ensures old(w.entities[id]).body.CellBody? && old(w.entities[id]).body.cell.variant.Legacy? ==>
              && LegacyCell.Ticked(old(w.entities), old(w.collide), old(w.order), old(w.removals),
                                   old(w.nextEntityId), old(w.totalLifeCells), w.entities, w.collide,
                                   w.order, w.removals, w.nextEntityId, w.totalLifeCells, w.sun,
                                   w.sunLevel, id, leg)
              && w.totalNolifeObjects == old(w.totalNolifeObjects)
  {
    var e := w.entities[id];
    match e.body
    case RockBody =>
    case GeyserBody =>
    case EnergyBody(_) => EnergyTick(w, id);
    case CellBody(c) =>
      if c.variant.Current? {
        CellVm.Tick(w, id, cur);
      } else {
        LegacyCell.Tick(w, id, leg);
      }
  }

  /** The sweep over a snapshot of the identifiers: an entity registered
      during the sweep is not in the snapshot and does not act; one removed
      during the sweep is still registered, inactive, and does nothing. */
  method Sweep(w: World, keys: seq<int>, cur: int -> CellVm.BreedDraws,
               leg: int -> LegacyCell.LegacyDraws)
    requires w.Valid()
    requires forall j :: 0 <= j < |keys| ==> keys[j] in w.entities
    requires forall id :: CellVm.DrawsOk(cur(id)) && LegacyCell.DrawsOk(leg(id))
    modifies w`entities, w`collide, w`order, w`removals, w`nextEntityId
    modifies w`totalLifeCells, w`totalNolifeObjects
    ensures w.Valid()
    ensures old(w.entities).Keys <= w.entities.Keys
    ensures old(w.nextEntityId) <= w.nextEntityId <= old(w.nextEntityId) + |keys|
  {
    var i := 0;
    while i < |keys|
      invariant 0 <= i <= |keys|
      invariant w.Valid()
      invariant old(w.entities).Keys <= w.entities.Keys
      invariant old(w.nextEntityId) <= w.nextEntityId <= old(w.nextEntityId) + i
    {
      Act(w, keys[i], cur(keys[i]), leg(keys[i]));
      i := i + 1;
    }
  }

  /** A running step of `loop`: rain on the drawn tile `rainAt` if rain is
      on, sweep the identifiers registered at that point, reset the
      tallies, and purge the entities removed during the sweep. */
  method Step(w: World, rainAt: (int, int), cur: int -> CellVm.BreedDraws,
              leg: int -> LegacyCell.LegacyDraws) returns (snapshot: seq<int>)
    requires w.Valid()
    requires w.rain ==> 0 <= rainAt.0 <= w.maxCoord.0 && 0 <= rainAt.1 <= w.maxCoord.1
    requires forall id :: CellVm.DrawsOk(cur(id)) && LegacyCell.DrawsOk(leg(id))
    modifies w`entities, w`collide, w`order, w`removals, w`nextEntityId
    modifies w`totalLifeCells, w`totalNolifeObjects
    ensures w.Valid()
    ensures w.removals == [] && forall id :: id in w.entities ==> !w.entities[id].inactive
    ensures w.totalLifeCells == 0 && w.totalNolifeObjects == 0
    ensures forall id :: id in old(w.entities) ==> id in snapshot
    ensures forall id :: id in snapshot ==> id < old(w.nextEntityId) + (if old(w.rain) then 1 else 0)
    ensures old(w.nextEntityId) <= w.nextEntityId
  {
    if w.rain {
      w.Rainy(rainAt.0, rainAt.1, RainDrop);
    }
    snapshot := w.order;
    Sweep(w, snapshot, cur, leg);
    w.totalLifeCells := 0;
    w.totalNolifeObjects := 0;
    w.Reconcile();
  }
}
