/** The world: the entity registry (entities by identifier, in insertion
    order), the spatial index (tile -> identifier), the list of deferred
    removals and the identifier counter, with the operations that keep them
    consistent. */
module Worlds {
  import opened Basics
  import opened Genome
  import opened Entities

  /** Energy carried by a rain drop. */
  const RainDrop: int := 10000

  predicate Increasing(s: seq<int>) {
    forall i, j :: 0 <= i < j < |s| ==> s[i] < s[j]
  }

  /** Registry: every entity is filed under its own identifier, identifiers
      are below the counter, and `order` lists the identifiers once each, in
      increasing order (the order in which the dictionary holds them). */
  ghost predicate RegistryOk(ents: map<int, Entity>, order: seq<int>, next: int) {
    && 0 <= next
    && (forall id :: id in ents ==> ents[id].id == id && 0 <= id < next)
    && Increasing(order)
    && (forall i :: 0 <= i < |order| ==> order[i] in ents)
    && (forall id :: id in ents ==> id in order)
  }

  /** Spatial index: a tile is mapped exactly when a live entity stands on
      it, and then to that entity. */
  ghost predicate IndexOk(ents: map<int, Entity>, collide: map<Coord, int>) {
    && (forall c :: c in collide ==>
          collide[c] in ents && ents[collide[c]].coord == c && !ents[collide[c]].inactive)
    && (forall id :: id in ents && !ents[id].inactive ==>
          ents[id].coord in collide && collide[ents[id].coord] == id)
  }

  /** Deferred removals: the inactive entities, each listed once. */
  ghost predicate RemovalsOk(ents: map<int, Entity>, removals: seq<int>) {
    && (forall i, j :: 0 <= i < j < |removals| ==> removals[i] != removals[j])
    && (forall i :: 0 <= i < |removals| ==> removals[i] in ents && ents[removals[i]].inactive)
    && (forall id :: id in ents && ents[id].inactive ==> id in removals)
  }

  ghost predicate CellsOk(ents: map<int, Entity>) {
    forall id :: id in ents && ents[id].body.CellBody? ==> WellFormed(ents[id].body.cell)
  }

  /** The entities of the listed kinds among `ids`, in the order of `ids`. */
  function Select(ids: seq<int>, ents: map<int, Entity>, kinds: set<Kind>): (r: seq<int>)
    ensures forall x :: x in r <==> x in ids && x in ents && ents[x].Name() in kinds
  {
    if ids == [] then []
    else
      var rest := Select(ids[1..], ents, kinds);
      if ids[0] in ents && ents[ids[0]].Name() in kinds then [ids[0]] + rest else rest
  }

  /** `s` without the element `x`. */
  function Without(s: seq<int>, x: int): (r: seq<int>)
    ensures forall y :: y in r <==> y in s && y != x
    ensures Increasing(s) ==> Increasing(r)
  {
    if s == [] then []
    else if s[0] == x then Without(s[1..], x)
    else
      var rest := Without(s[1..], x);
      assert Increasing(s) ==> forall k :: 0 <= k < |rest| ==> s[0] < rest[k] by {
        if Increasing(s) {
          forall k | 0 <= k < |rest| ensures s[0] < rest[k] {
            assert rest[k] in s[1..];
          }
        }
      }
      [s[0]] + rest
  }

  /** The occupant of `coord` according to the spatial index: nothing when
      the tile is unmapped, otherwise the registered entity under the mapped
      identifier (under IndexOk that identifier is always registered). */
  function Lookup(ents: map<int, Entity>, collide: map<Coord, int>, coord: Coord): (r: Option<Entity>)
    ensures r.Some? ==> coord in collide && collide[coord] in ents && r.value == ents[collide[coord]]
    ensures IndexOk(ents, collide) ==> (r.None? <==> coord !in collide)
    ensures IndexOk(ents, collide) && r.Some? ==> r.value.coord == coord && !r.value.inactive
  {
    if coord in collide && collide[coord] in ents then Some(ents[collide[coord]]) else None
  }

  /** What `save_world` writes for a cell besides its name, tile and energy. */
  datatype CellRecord = CellRecord(color: seq<int>, orientation: int, start: int, genome: seq<int>)

  datatype EntityRecord = EntityRecord(
    name: Kind, coord: Coord, energy: Option<int>, cell: Option<CellRecord>)

  datatype SavedWorld = SavedWorld(
    sun: bool, sunLevel: int, entropy: bool, geyser: bool, rain: bool, id: int,
    records: map<int, EntityRecord>)

  /** The record `save_world` builds for one entity: none for a rock; name
      and tile always; energy for energy packets and cells; colour,
      orientation, start address and genome for cells only. */
  function Record(e: Entity): (r: Option<EntityRecord>)
    ensures r.None? <==> e.Name() == RockKind
    ensures r.Some? ==> r.value.name == e.Name() && r.value.coord == e.coord
    ensures r.Some? ==> (r.value.energy.Some? <==> e.Name() in {EnergyKind, CellKind})
    ensures r.Some? && r.value.energy.Some? ==> r.value.energy.value == EnergyOf(e)
    ensures r.Some? ==> (r.value.cell.Some? <==> e.Name() == CellKind)
    ensures r.Some? && r.value.cell.Some? ==>
              var c := e.body.cell;
              r.value.cell.value == CellRecord(c.color, c.orientation, c.genomeStart, c.genome)
  {
    match e.body
    case RockBody => None
    case GeyserBody => Some(EntityRecord(GeyserKind, e.coord, None, None))
    case EnergyBody(x) => Some(EntityRecord(EnergyKind, e.coord, Some(x), None))
    case CellBody(c) =>
      Some(EntityRecord(CellKind, e.coord, Some(c.energy),
                        Some(CellRecord(c.color, c.orientation, c.genomeStart, c.genome))))
  }

  /** The record of a current-variant cell carries enough to rebuild it
      with the cell constructor: colour, genome, energy, orientation and
      start address come back; the lifetime and the counter restart. */
  lemma RecordRestoresCell(e: Entity)
    requires e.body.CellBody? && WellFormed(e.body.cell) && e.body.cell.variant.Current?
    requires e.body.cell.genomeStart != 0
    ensures var r := Record(e).value;
            var k := r.cell.value;
            var c := NewCell(k.color, k.genome, r.energy, k.orientation, Some(k.start));
            c.(ttl := e.body.cell.ttl, variant := e.body.cell.variant) == e.body.cell
  {
  }

  /** A saved start address of 0 does not come back: the constructor's
      truthiness test reads it as absent and falls back to gene 101. */
  lemma RecordLosesStartZero(e: Entity)
    requires e.body.CellBody? && WellFormed(e.body.cell)
    requires e.body.cell.genomeStart == 0 && e.body.cell.genome[StartGene] != 0
    ensures var r := Record(e).value;
            var k := r.cell.value;
            NewCell(k.color, k.genome, r.energy, k.orientation, Some(k.start)).genomeStart
              != e.body.cell.genomeStart
  {
  }

  /** The registry after marking removed the entities of the listed kinds
      among `done`. */
  function Mark(ents: map<int, Entity>, kinds: set<Kind>, done: set<int>): (r: map<int, Entity>)
    ensures r.Keys == ents.Keys
    ensures forall id :: id in r ==>
              r[id] == if ents[id].Name() in kinds && id in done
                       then ents[id].(inactive := true) else ents[id]
  {
    map id | id in ents :: if ents[id].Name() in kinds && id in done
                           then ents[id].(inactive := true) else ents[id]
  }

  /** The spatial index after vacating the tiles of those entities. */
  function Vacate(collide: map<Coord, int>, ents: map<int, Entity>, kinds: set<Kind>,
                  done: set<int>): (r: map<Coord, int>)
    ensures forall c :: c in r <==>
              c in collide && !(collide[c] in done && collide[c] in ents && ents[collide[c]].Name() in kinds)
    ensures forall c :: c in r ==> r[c] == collide[c]
  {
    map c | c in collide && !(collide[c] in done && collide[c] in ents && ents[collide[c]].Name() in kinds)
      :: collide[c]
  }

  /** One step of RemoveKinds: marking one more live entity of a listed kind
      is one `remove_entity`; an entity of another kind changes nothing. */
  lemma MarkStep(ents: map<int, Entity>, collide: map<Coord, int>, kinds: set<Kind>,
                 done: set<int>, id: int)
    requires IndexOk(ents, collide) && id in ents && id !in done
    requires ents[id].Name() in kinds ==> !ents[id].inactive
    ensures ents[id].Name() in kinds ==>
              && Mark(ents, kinds, done + {id}) == Mark(ents, kinds, done)[id := ents[id].(inactive := true)]
              && Vacate(collide, ents, kinds, done + {id}) == Vacate(collide, ents, kinds, done) - {ents[id].coord}
    ensures ents[id].Name() !in kinds ==>
              && Mark(ents, kinds, done + {id}) == Mark(ents, kinds, done)
              && Vacate(collide, ents, kinds, done + {id}) == Vacate(collide, ents, kinds, done)
  {
    if ents[id].Name() in kinds {
      var v1, v0 := Vacate(collide, ents, kinds, done + {id}), Vacate(collide, ents, kinds, done);
      forall c ensures c in v1 <==> c in v0 - {ents[id].coord} {
        if c in collide && collide[c] == id {
          assert c == ents[id].coord;
        }
      }
      assert v1 == v0 - {ents[id].coord};
    }
  }

  /** After marking every entity of the listed kinds: the same identifiers
      are registered, exactly the listed kinds (and the entities inactive
      already) are inactive, the others are untouched, and only entities of
      other kinds keep a tile. */
  lemma MarkedAll(ents: map<int, Entity>, collide: map<Coord, int>, kinds: set<Kind>,
                  ents': map<int, Entity>, collide': map<Coord, int>)
    requires IndexOk(ents, collide)
    requires ents' == Mark(ents, kinds, ents.Keys)
    requires collide' == Vacate(collide, ents, kinds, ents.Keys)
    ensures ents'.Keys == ents.Keys
    ensures forall id :: id in ents' ==>
              ents'[id].inactive == (ents[id].inactive || ents[id].Name() in kinds)
    ensures forall id :: id in ents' && ents[id].Name() !in kinds ==> ents'[id] == ents[id]
    ensures forall c :: c in collide' ==> collide'[c] in ents' && ents'[collide'[c]].Name() !in kinds
  {
    forall c | c in collide' ensures collide'[c] in ents' && ents'[collide'[c]].Name() !in kinds {
      assert c in collide && collide'[c] == collide[c];
    }
  }

  lemma OnlyRocksLeft(k: Kind)
    ensures k !in {EnergyKind, GeyserKind, CellKind} <==> k == RockKind
  {
  }

  /** MarkedAll for the kinds `rm_all` removes: everything except the rocks. */
  lemma AllButRocksMarked(ents: map<int, Entity>, collide: map<Coord, int>,
                          ents': map<int, Entity>, collide': map<Coord, int>)
    requires IndexOk(ents, collide)
    requires ents' == Mark(ents, {EnergyKind, GeyserKind, CellKind}, ents.Keys)
    requires collide' == Vacate(collide, ents, {EnergyKind, GeyserKind, CellKind}, ents.Keys)
    ensures ents'.Keys == ents.Keys
    ensures forall id :: id in ents' ==>
              ents'[id].inactive == (ents[id].inactive || ents[id].Name() != RockKind)
    ensures forall id :: id in ents' && ents[id].Name() == RockKind ==> ents'[id] == ents[id]
    ensures forall c :: c in collide' ==> ents'[collide'[c]].Name() == RockKind
  {
    MarkedAll(ents, collide, {EnergyKind, GeyserKind, CellKind}, ents', collide');
    forall id | id in ents' ensures ents'[id].inactive == (ents[id].inactive || ents[id].Name() != RockKind) {
      OnlyRocksLeft(ents[id].Name());
    }
    forall c | c in collide' ensures ents'[collide'[c]].Name() == RockKind {
      OnlyRocksLeft(ents'[collide'[c]].Name());
    }
  }

  lemma VisitedAll(ents: map<int, Entity>, order: seq<int>, next: int, done: set<int>)
    requires RegistryOk(ents, order, next)
    requires forall j :: 0 <= j < |order| ==> order[j] in done
    requires done <= ents.Keys
    ensures done == ents.Keys
  {
    forall k | k in ents ensures k in done {
      var j :| 0 <= j < |order| && order[j] == k;
    }
  }

  lemma OrderCoversKeys(ents: map<int, Entity>, order: seq<int>, next: int)
    requires RegistryOk(ents, order, next)
    ensures (set k | k in order) == ents.Keys
  {
    forall k ensures k in (set k | k in order) <==> k in ents {
    }
  }

  /** Purging the deferred removals leaves a consistent world: the
      registry without them, listed by the purged order, still indexes
      every live entity, and no inactive entity is left behind. */
  lemma PurgeKeepsIndex(ents: map<int, Entity>, collide: map<Coord, int>, removals: seq<int>,
                        order: seq<int>, order': seq<int>, next: int, gone: set<int>)
    requires RegistryOk(ents, order, next) && IndexOk(ents, collide)
    requires RemovalsOk(ents, removals) && CellsOk(ents)
    requires gone == set k | k in removals
    requires Increasing(order') && forall y :: y in order' <==> y in ents - gone
    ensures RegistryOk(ents - gone, order', next) && IndexOk(ents - gone, collide)
    ensures RemovalsOk(ents - gone, []) && CellsOk(ents - gone)
    ensures forall id :: id in ents - gone ==> !(ents - gone)[id].inactive
  {
  }

  /** The loop of `reconcile`: drop every listed identifier from the
      registry and from the order, keeping the order increasing. */
  method Purge(ents: map<int, Entity>, order: seq<int>, removals: seq<int>)
    returns (ents': map<int, Entity>, order': seq<int>)
    requires Increasing(order) && forall y :: y in order <==> y in ents
    ensures ents' == ents - (set k | k in removals)
    ensures Increasing(order') && forall y :: y in order' <==> y in ents'
  {
    ghost var gone: set<int> := {};
    ents', order' := ents, order;
    var i := 0;
    while i < |removals|
      invariant 0 <= i <= |removals|
      invariant gone == set k | k in removals[..i]
      invariant ents' == ents - gone
      invariant Increasing(order') && forall y :: y in order' <==> y in ents'
    {
      var r := removals[i];
      assert removals[..i + 1] == removals[..i] + [r];
      ents' := ents' - {r};
      order' := Without(order', r);
      gone := gone + {r};
      i := i + 1;
    }
    assert removals[..i] == removals;
  }

  /** The state of RemoveKinds after visiting `order[..i]`: the entities of
      the listed kinds among the visited ones (`done`) are marked and their
      tiles vacated, and their identifiers appended to the removals. */
  ghost predicate SweepOk(ents: map<int, Entity>, collide: map<Coord, int>, removals: seq<int>,
                          order: seq<int>, next: int, i: int, kinds: set<Kind>,
                          ents0: map<int, Entity>, collide0: map<Coord, int>,
                          removals0: seq<int>, done: set<int>)
  {
    && 0 <= i <= |order|
    && IndexOk(ents0, collide0)
    && RegistryOk(ents0, order, next)
    && (forall id :: id in ents0 && ents0[id].Name() in kinds ==> !ents0[id].inactive)
    && ents == Mark(ents0, kinds, done)
    && collide == Vacate(collide0, ents0, kinds, done)
    && removals == removals0 + Select(order[..i], ents0, kinds)
    && (forall j :: i <= j < |order| ==> order[j] !in done)
    && (forall j :: 0 <= j < i ==> order[j] in done)
    && done <= ents0.Keys
  }

  /** Visiting one more entity keeps SweepOk, whether or not it is removed. */
  lemma SweepStep(ents: map<int, Entity>, collide: map<Coord, int>, removals: seq<int>,
                  ents': map<int, Entity>, collide': map<Coord, int>, removals': seq<int>,
                  order: seq<int>, next: int, i: int, kinds: set<Kind>,
                  ents0: map<int, Entity>, collide0: map<Coord, int>,
                  removals0: seq<int>, done: set<int>)
    requires i < |order|
    requires SweepOk(ents, collide, removals, order, next, i, kinds, ents0, collide0, removals0, done)
    requires ents[order[i]].Name() in kinds ==>
               && ents' == ents[order[i] := ents[order[i]].(inactive := true)]
               && collide' == collide - {ents[order[i]].coord}
               && removals' == removals + [order[i]]
    requires ents[order[i]].Name() !in kinds ==>
               ents' == ents && collide' == collide && removals' == removals
    ensures SweepOk(ents', collide', removals', order, next, i + 1, kinds,
                    ents0, collide0, removals0, done + {order[i]})
  {
    var id := order[i];
    var done' := done + {id};
    assert id in ents0 && id !in done;
    MarkStep(ents0, collide0, kinds, done, id);
    assert ents' == Mark(ents0, kinds, done');
    assert collide' == Vacate(collide0, ents0, kinds, done');
    RemovalsSnoc(order, i, ents0, kinds, removals0, removals, removals');
    DoneSnoc(order, i, done);
  }

  lemma RemovalsSnoc(order: seq<int>, i: int, ents0: map<int, Entity>, kinds: set<Kind>,
                     removals0: seq<int>, removals: seq<int>, removals': seq<int>)
    requires 0 <= i < |order| && order[i] in ents0
    requires removals == removals0 + Select(order[..i], ents0, kinds)
    requires removals' == removals + (if ents0[order[i]].Name() in kinds then [order[i]] else [])
    ensures removals' == removals0 + Select(order[..i + 1], ents0, kinds)
  {
    SelectSnoc(order[..i], order[i], ents0, kinds);
    assert order[..i + 1] == order[..i] + [order[i]];
  }

  lemma DoneSnoc(order: seq<int>, i: int, done: set<int>)
    requires 0 <= i < |order| && Increasing(order)
    requires forall j :: i <= j < |order| ==> order[j] !in done
    requires forall j :: 0 <= j < i ==> order[j] in done
    ensures forall j :: i + 1 <= j < |order| ==> order[j] !in done + {order[i]}
    ensures forall j :: 0 <= j < i + 1 ==> order[j] in done + {order[i]}
  {
    forall j | i + 1 <= j < |order| ensures order[j] != order[i] {
      assert order[i] < order[j];
    }
  }

  class World {
    /** The registry: `entities` by identifier, `order` its keys in order. */
    var entities: map<int, Entity>
    var order: seq<int>
    /** The spatial index. */
    var collide: map<Coord, int>
    /** Identifiers marked removed during the current sweep. */
    var removals: seq<int>
    var nextEntityId: int
    /** The largest tile coordinates (size - 1 in each dimension). */
    var maxCoord: Coord
    var sunLevel: int
    var sun: bool
    var entropy: bool
    var geyser: bool
    var rain: bool
    /** Per-step tallies shown on the info bar. */
    var totalLifeCells: int
    var totalNolifeObjects: int

    ghost predicate Valid()
      reads this
    {
      && RegistryOk(entities, order, nextEntityId)
      && IndexOk(entities, collide)
      && RemovalsOk(entities, removals)
      && CellsOk(entities)
    }

    /** An empty world of the given size. The four switches are set and then
        toggled once each, so the world starts with sun, entropy, geysers
        and rain all off. */
    constructor (size: (int, int), sunLevel: int)
      ensures Valid()
      ensures entities == map[] && collide == map[] && removals == [] && nextEntityId == 0
      ensures maxCoord == (size.0 - 1, size.1 - 1) && this.sunLevel == sunLevel
      ensures !sun && !entropy && !geyser && !rain
    {
      entities := map[];
      order := [];
      collide := map[];
      removals := [];
      nextEntityId := 0;
      maxCoord := (size.0 - 1, size.1 - 1);
      this.sunLevel := sunLevel;
      sun, entropy, geyser, rain := false, false, false, false;
      totalLifeCells, totalNolifeObjects := 0, 0;
    }

    /** Hand out the next identifier; identifiers are never reused. */
    method GetId() returns (id: int)
      requires Valid()
      modifies this`nextEntityId
      ensures id == old(nextEntityId) && nextEntityId == id + 1
      ensures Valid()
      ensures id !in entities && forall k :: k in entities ==> k < id
    {
      id := nextEntityId;
      nextEntityId := nextEntityId + 1;
    }

    /** Register a new entity and put it on its tile. Callers allocate the
        identifier just before and check that the tile is free. */
    method AddEntity(e: Entity)
      requires Valid()
      requires 0 <= e.id < nextEntityId && forall k :: k in entities ==> k < e.id
      requires e.coord !in collide && !e.inactive
      requires e.body.CellBody? ==> WellFormed(e.body.cell)
      modifies this`entities, this`collide, this`order
      ensures entities == old(entities)[e.id := e]
      ensures collide == old(collide)[e.coord := e.id]
      ensures order == old(order) + [e.id]
      ensures Valid()
    {
      entities := entities[e.id := e];
      order := order + [e.id];
      collide := collide[e.coord := e.id];
    }

    /** Mark an entity removed: flag it inactive, vacate its tile at once,
        and defer its deletion from the registry to the end of the sweep. */
    method RemoveEntity(id: int)
      requires Valid() && id in entities && !entities[id].inactive
      modifies this`entities, this`collide, this`removals
      ensures entities == old(entities)[id := old(entities[id]).(inactive := true)]
      ensures removals == old(removals) + [id]
      ensures collide == old(collide) - {old(entities[id]).coord}
      ensures Valid()
    {
      var coord := entities[id].coord;
      entities := entities[id := entities[id].(inactive := true)];
      removals := removals + [id];
      collide := collide - {coord};
    }

    /** The registered entity standing on `coord`, if any. */
    function WhoIsThere(coord: Coord): (r: Option<Entity>)
      reads this
      requires Valid()
      ensures r.None? <==> coord !in collide
      ensures r.Some? ==> r.value.coord == coord && !r.value.inactive
      ensures r.Some? ==> r.value.id == collide[coord] && r.value.id in entities
                          && entities[r.value.id] == r.value
    {
      Lookup(entities, collide, coord)
    }

    /** `Entity.move_to`: vacate the old tile, map the new tile to the
        entity and update its coordinate; no other mapping changes. */
    method MoveTo(id: int, newCoord: Coord)
      requires Valid() && id in entities && !entities[id].inactive
      requires newCoord !in collide
      modifies this`entities, this`collide
      ensures entities == old(entities)[id := old(entities[id]).(coord := newCoord)]
      ensures collide == (old(collide) - {old(entities[id]).coord})[newCoord := id]
      ensures Valid()
    {
      var coord := entities[id].coord;
      entities := entities[id := entities[id].(coord := newCoord)];
      collide := (collide - {coord})[newCoord := id];
    }

    /** Write back the kind-specific state of an entity (the attributes an
        entity updates on itself). */
    method SetBody(id: int, body: Body)
      requires Valid() && id in entities
      requires body.CellBody? ==> WellFormed(body.cell)
      modifies this`entities
      ensures entities == old(entities)[id := old(entities[id]).(body := body)]
      ensures Valid()
    {
      entities := entities[id := entities[id].(body := body)];
    }

    /** Rain: drop an energy packet on the drawn tile (x, y) if it is empty;
        an occupant is left untouched. */
    method Rainy(x: int, y: int, drop: int)
      requires Valid()
      requires 0 <= x <= maxCoord.0 && 0 <= y <= maxCoord.1
      modifies this`entities, this`collide, this`order, this`nextEntityId
      ensures Valid()
      ensures (x, y) in old(collide) ==>
                entities == old(entities) && collide == old(collide) &&
                order == old(order) && nextEntityId == old(nextEntityId)
      ensures (x, y) !in old(collide) ==>
                && nextEntityId == old(nextEntityId) + 1
                && entities == old(entities)[old(nextEntityId) := NewEnergy(old(nextEntityId), (x, y), drop)]
                && collide == old(collide)[(x, y) := old(nextEntityId)]
    {
      if WhoIsThere((x, y)).None? {
        var id := GetId();
        AddEntity(NewEnergy(id, (x, y), drop));
      }
    }

    /** Mark removed every entity whose kind is listed, visiting them in
        registry order. Every such entity must still be live. */
    method RemoveKinds(kinds: set<Kind>)
      requires Valid()
      requires forall id :: id in entities && entities[id].Name() in kinds ==> !entities[id].inactive
      modifies this`entities, this`collide, this`removals
      ensures Valid()
      ensures entities == Mark(old(entities), kinds, old(entities).Keys)
      ensures collide == Vacate(old(collide), old(entities), kinds, old(entities).Keys)
      ensures removals == old(removals) + Select(order, old(entities), kinds)
    {
      ghost var ents0, collide0, removals0 := entities, collide, removals;
      ghost var done: set<int> := {};
      var i := 0;
      while i < |order|
        invariant 0 <= i <= |order|
        invariant Sweeping(i, kinds, ents0, collide0, removals0, done)
      {
        done := RemoveIfKind(i, kinds, ents0, collide0, removals0, done);
        i := i + 1;
      }
      assert order[..i] == order;
      VisitedAll(ents0, order, nextEntityId, done);
    }

    /** The loop invariant of RemoveKinds after visiting `order[..i]`. */
    ghost predicate Sweeping(i: int, kinds: set<Kind>, ents0: map<int, Entity>,
                             collide0: map<Coord, int>, removals0: seq<int>, done: set<int>)
      reads this
    {
      && Valid()
      && SweepOk(entities, collide, removals, order, nextEntityId, i, kinds, ents0, collide0, removals0, done)
    }

    /** One visit of RemoveKinds: remove `order[i]` if its kind is listed. */
    method RemoveIfKind(i: int, kinds: set<Kind>, ghost ents0: map<int, Entity>,
                        ghost collide0: map<Coord, int>, ghost removals0: seq<int>,
                        ghost done: set<int>) returns (ghost done': set<int>)
      requires i < |order| && Sweeping(i, kinds, ents0, collide0, removals0, done)
      modifies this`entities, this`collide, this`removals
      ensures done' == done + {order[i]}
      ensures Sweeping(i + 1, kinds, ents0, collide0, removals0, done')
    {
      var id := order[i];
      ghost var e, c, r := entities, collide, removals;
      if entities[id].Name() in kinds {
        RemoveEntity(id);
      }
      SweepStep(e, c, r, entities, collide, removals, order, nextEntityId, i, kinds,
                ents0, collide0, removals0, done);
      done' := done + {id};
    }

    /** `rm_geysers`: remove the geysers only. */
    method RmGeysers()
      requires Valid()
      requires forall id :: id in entities && entities[id].Name() == GeyserKind ==> !entities[id].inactive
      modifies this`entities, this`collide, this`removals
      ensures Valid()
      ensures entities.Keys == old(entities).Keys
      ensures forall id :: id in entities ==>
                entities[id].inactive == (old(entities[id]).inactive || old(entities[id]).Name() == GeyserKind)
      ensures forall id :: id in entities && old(entities[id]).Name() != GeyserKind ==>
                entities[id] == old(entities[id])
    {
      ghost var ents0, collide0 := entities, collide;
      RemoveKinds({GeyserKind});
      MarkedAll(ents0, collide0, {GeyserKind}, entities, collide);
    }

    /** `rm_all`: remove everything except the rocks, which stay where they
        are and stay registered. */
    method RmAll()
      requires Valid()
      requires forall id :: id in entities && entities[id].Name() != RockKind ==> !entities[id].inactive
      modifies this`entities, this`collide, this`removals
      ensures Valid()
      ensures entities.Keys == old(entities).Keys
      ensures forall id :: id in entities ==>
                entities[id].inactive == (old(entities[id]).inactive || old(entities[id]).Name() != RockKind)
      ensures forall id :: id in entities && old(entities[id]).Name() == RockKind ==>
                entities[id] == old(entities[id])
      ensures forall c :: c in collide ==> entities[collide[c]].Name() == RockKind
    {
      ghost var ents0, collide0 := entities, collide;
      RemoveKinds({EnergyKind, GeyserKind, CellKind});
      AllButRocksMarked(ents0, collide0, entities, collide);
    }

    /** Purge every deferred removal from the registry and clear the list. */
    method Reconcile()
      requires Valid()
      modifies this`entities, this`order, this`removals
      ensures Valid()
      ensures removals == []
      ensures entities == old(entities) - (set k | k in old(removals))
      ensures forall id :: id in entities ==> !entities[id].inactive
      ensures collide == old(collide)
    {
      ghost var ents0, order0 := entities, order;
      ghost var gone := set k | k in removals;
      entities, order := Purge(entities, order, removals);
      PurgeKeepsIndex(ents0, collide, removals, order0, order, nextEntityId, gone);
      removals := [];
    }

    /** The record shape of `save_world` (the file writing is not modelled):
        the switches, the counter, and one record per entity that is not a
        rock. */
    method SaveWorld() returns (s: SavedWorld)
      requires Valid()
      ensures s.sun == sun && s.sunLevel == sunLevel && s.entropy == entropy
      ensures s.geyser == geyser && s.rain == rain && s.id == nextEntityId
      ensures s.records == map id | id in entities && entities[id].Name() != RockKind
                                  :: Record(entities[id]).value
    {
      var records: map<int, EntityRecord> := map[];
      var i := 0;
      while i < |order|
        invariant 0 <= i <= |order|
        invariant forall id :: id in records <==>
                    id in order[..i] && id in entities && entities[id].Name() != RockKind
        invariant forall id :: id in records ==> Record(entities[id]).Some? && records[id] == Record(entities[id]).value
      {
        var e := entities[order[i]];
        assert order[..i + 1] == order[..i] + [order[i]];
        var r := Record(e);
        if r.Some? {
          records := records[order[i] := r.value];
        }
        i := i + 1;
      }
      assert order[..i] == order;
      OrderCoversKeys(entities, order, nextEntityId);
      ghost var want := map id | id in entities && entities[id].Name() != RockKind
                                :: Record(entities[id]).value;
      forall id ensures id in records <==> id in want {
        if id in entities { assert id in (set k | k in order); }
      }
      assert forall id :: id in records ==> records[id] == want[id];
      assert records == want;
      s := SavedWorld(sun, sunLevel, entropy, geyser, rain, nextEntityId, records);
    }
  }

  lemma {:induction false} SelectSnoc(ids: seq<int>, x: int, ents: map<int, Entity>, kinds: set<Kind>)
    ensures Select(ids + [x], ents, kinds)
            == Select(ids, ents, kinds) + (if x in ents && ents[x].Name() in kinds then [x] else [])
    decreases |ids|
  {
    if ids == [] {
      assert ids + [x] == [x];
    } else {
      var tail := ids[1..];
      assert (ids + [x])[0] == ids[0];
      assert (ids + [x])[1..] == tail + [x];
      SelectSnoc(tail, x, ents, kinds);
    }
  }

  /** Occupancy exclusivity: two different live entities never share a tile. */
  lemma Exclusive(ents: map<int, Entity>, collide: map<Coord, int>, a: int, b: int)
    requires IndexOk(ents, collide)
    requires a in ents && b in ents && a != b && !ents[a].inactive && !ents[b].inactive
    ensures ents[a].coord != ents[b].coord
  {
    assert collide[ents[a].coord] == a;
  }
}
