/** The tick of an energy packet (`Energy.__call__`): it counts as a
    lifeless object and, with entropy on, decays by one unit per tick until
    it is removed at exactly 0. */
module Passive {
  import opened Basics
  import opened Entities
  import opened Worlds

  /** The world after a tick of packet `id`: nothing for an inactive one;
      otherwise it is counted as a lifeless object and, with entropy on,
      loses a unit, being removed when exactly 0 is left. */
  ghost predicate Decayed(ents: map<int, Entity>, collide: map<Coord, int>, removals: seq<int>,
                          nolife: int, ents': map<int, Entity>, collide': map<Coord, int>,
                          removals': seq<int>, nolife': int, entropy: bool, id: int)
  {
    && id in ents
    && var e := ents[id];
       var left := EnergyOf(e) - 1;
       if e.inactive || !entropy then
         && ents' == ents && collide' == collide && removals' == removals
         && nolife' == nolife + (if e.inactive then 0 else 1)
       else
         && nolife' == nolife + 1
         && ents' == ents[id := e.(inactive := left == 0, body := EnergyBody(left))]
         && (left == 0 ==> collide' == collide - {e.coord} && removals' == removals + [id])
         && (left != 0 ==> collide' == collide && removals' == removals)
  }

  method EnergyTick(w: World, id: int)
    requires w.Valid() && id in w.entities && w.entities[id].body.EnergyBody?
    modifies w`entities, w`collide, w`removals, w`totalNolifeObjects
    ensures w.Valid()
    ensures Decayed(old(w.entities), old(w.collide), old(w.removals), old(w.totalNolifeObjects),
                    w.entities, w.collide, w.removals, w.totalNolifeObjects, w.entropy, id)
  {
    var e := w.entities[id];
    if e.inactive {
      return;
    }
    w.totalNolifeObjects := w.totalNolifeObjects + 1;
    if !w.entropy {
      return;
    }
    var left := e.body.energy - 1;
    w.SetBody(id, EnergyBody(left));
    if left == 0 {
      w.RemoveEntity(id);
    }
  }
}
