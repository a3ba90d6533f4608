/**
 The three scenarios of test/fulfillment_test.go, replayed on the engine with
 explicit instants. Each ends with the same storage lookups as the test.
 */
module Scenarios {
  import opened Config
  import opened Wrappers
  import opened StorageUnits
  import opened StorageGroups
  import opened FulfilmentSpec
  import opened Fulfilment

  /** One second in nanoseconds. */
  const Second := 1_000_000_000

  /** The system of the two discard tests: no cooler, no heater, one shelf of two slots. */
  method SingleShelfSystem() returns (fs: FulfillmentSystem)
    ensures fresh(fs) && fresh(fs.CoolerGroup) && fresh(fs.CoolerGroup.Repr()) && fresh(fs.HeaterGroup) && fresh(fs.HeaterGroup.Repr())
    ensures fresh(fs.ShelfGroup) && fresh(fs.ShelfGroup.Repr())
    ensures fs.Valid() && fs.View() == State([], [], [Unit(2, map[])], [])
  {
    fs := new FulfillmentSystem(FulfillmentConfig(0, 0, 0, 0, 1, 2));
  }

  /** The system of the reallocation test: one cooler and one heater of two slots, one shelf of four. */
  method OneOfEachSystem() returns (fs: FulfillmentSystem)
    ensures fresh(fs) && fresh(fs.CoolerGroup) && fresh(fs.CoolerGroup.Repr()) && fresh(fs.HeaterGroup) && fresh(fs.HeaterGroup.Repr())
    ensures fresh(fs.ShelfGroup) && fresh(fs.ShelfGroup.Repr())
    ensures fs.Valid() && fs.View() == State([Unit(2, map[])], [Unit(2, map[])], [Unit(4, map[])], [])
  {
    fs := new FulfillmentSystem(FulfillmentConfig(1, 2, 1, 2, 1, 4));
  }

  /** Is `id` stored in the first storage of group `g`? */
  method InFirstStorage(g: StorageGroup, id: string) returns (has: bool)
    requires g.Valid() && |g.Units| > 0
    ensures has <==> id in g.Units[0].orders
  {
    var r := g.Storages[0].GetOrder(id);
    has := r.Some?;
  }

  /** Are the orders `a`, `b` and `c` on the single shelf of `fs`? */
  method OnSingleShelf(fs: FulfillmentSystem, a: string, b: string, c: string) returns (hasA: bool, hasB: bool, hasC: bool)
    requires fs.Valid() && |fs.View().shelf| == 1
    ensures hasA <==> a in fs.View().shelf[0].orders
    ensures hasB <==> b in fs.View().shelf[0].orders
    ensures hasC <==> c in fs.View().shelf[0].orders
  {
    hasA := InFirstStorage(fs.ShelfGroup, a);
    hasB := InFirstStorage(fs.ShelfGroup, b);
    hasC := InFirstStorage(fs.ShelfGroup, c);
  }

  /** With a single ideal storage that has room, a hot or cold order is added to it. */
  lemma PlacedInSingleIdeal(st: State, st': State, o: Order, now: int, placed: bool, st1: State, st2: State)
    requires o.temperature != Room
    requires |Group(st, o.temperature)| == 1 && !Full(Group(st, o.temperature)[0])
    requires Placed(st, st', o, now, placed, st1, st2)
    ensures placed
    ensures Group(st', o.temperature) ==
      [Group(st, o.temperature)[0].(orders := Group(st, o.temperature)[0].orders[o.id := StoredOrder(o, now)])]
    ensures st'.shelf == st.shelf
    ensures o.temperature == Hot ==> st'.cooler == st.cooler
    ensures o.temperature == Cold ==> st'.heater == st.heater
  {
  }

  /**
   With a single shelf that has room, an order that does not go to its ideal
   group is added to that shelf and nothing else changes but the log.
   */
  lemma PlacedOnSingleShelf(st: State, st': State, o: Order, now: int, placed: bool, st1: State, st2: State)
    requires o.temperature == Room || GroupFull(Group(st, o.temperature))
    requires |st.shelf| == 1 && !Full(st.shelf[0])
    requires Placed(st, st', o, now, placed, st1, st2)
    ensures placed
    ensures st'.shelf == [st.shelf[0].(orders := st.shelf[0].orders[o.id := StoredOrder(o, now)])]
    ensures st'.cooler == st.cooler && st'.heater == st.heater
  {
  }

  /** Of two stored orders, the least fresh is the one with strictly less remaining freshness. */
  lemma LeastOfTwo(u: Unit, a: StoredOrder, b: StoredOrder, c: StoredOrder, now: int)
    requires a.order.id != b.order.id && u.orders == map[a.order.id := a, b.order.id := b]
    requires RemainingFreshness(a, now) < RemainingFreshness(b, now)
    requires IsLeastFresh([u], c, now)
    ensures c == a
  {
    var i :| 0 <= i < 1 && c.order.id in [u][i].orders && [u][i].orders[c.order.id] == c;
    assert a.order.id in [u][0].orders;
    assert RemainingFreshness(c, now) <= RemainingFreshness(a, now);
    assert c.order.id == a.order.id;
  }

  /**
   A single shelf of two slots holds `a` and `b`, and `a` is the less fresh
   at `now`; when no order of `a`'s temperature can leave for its ideal
   group, a discard removes `a` and keeps `b`.
   */
  lemma DiscardsLeastFresh(st: State, st': State, cand: Option<StoredOrder>, moved: bool, id: string, k: int, mid: State, now: int,
                           a: StoredOrder, b: StoredOrder)
    requires a.order.id != b.order.id
    requires st.shelf == [Unit(2, map[a.order.id := a, b.order.id := b])]
    requires RemainingFreshness(a, now) < RemainingFreshness(b, now)
    requires a.order.temperature == Room || GroupFull(Group(st, a.order.temperature))
    requires Discarded(st, st', cand, moved, id, k, mid, now)
    ensures |st'.shelf| == 1 && st'.shelf[0].capacity == 2 && st'.shelf[0].orders.Keys == {b.order.id}
  {
    assert a.order.id in st.shelf[0].orders;
    LeastOfTwo(st.shelf[0], a, b, cand.value, now);
    if a.order.temperature != Room {
      FullIdealTriesInVain(st, mid, a.order.temperature, moved, id, k, now);
    }
    DiscardedFromTwo(st.shelf, mid, st', a, b, now);
  }

  /** Removing `a` from a re-stamped single shelf of two slots holding `a` and `b` leaves `b`. */
  lemma DiscardedFromTwo(us: seq<Unit>, mid: State, st': State, a: StoredOrder, b: StoredOrder, now: int)
    requires a.order.id != b.order.id && us == [Unit(2, map[a.order.id := a, b.order.id := b])]
    requires ShelfRewritten(us, mid.shelf, now)
    requires GroupRemove(mid.shelf, a.order.id).0.Some?
    requires st' == Logged(mid.(shelf := GroupRemove(mid.shelf, a.order.id).1), a.order.id, Discard, now)
    ensures |st'.shelf| == 1 && st'.shelf[0].capacity == 2 && st'.shelf[0].orders.Keys == {b.order.id}
  {
    assert us[0].orders.Keys == {a.order.id, b.order.id};
    assert mid.shelf[0].orders.Keys == {a.order.id, b.order.id};
  }

  /** Adding to a single shelf of two slots holding one order. */
  lemma AddedToHalfFullShelf(st: State, st': State, o: Order, now: int, b: string)
    requires |st.shelf| == 1 && st.shelf[0].capacity == 2 && st.shelf[0].orders.Keys == {b}
    requires st' == Logged(st.(shelf := GroupAdd(st.shelf, StoredOrder(o, now)).1), o.id, Place, now)
    ensures |st'.shelf| == 1 && st'.shelf[0].orders.Keys == {b, o.id}
  {
    assert |st.shelf[0].orders| == 1 by {
      assert st.shelf[0].orders.Keys == {b};
    }
  }

  /** PlaceOrder of an order that goes to the only shelf, which has room. */
  method PlaceOnSingleShelf(fs: FulfillmentSystem, o: Order, now: int)
    requires fs.Valid() && |fs.View().shelf| == 1 && !Full(fs.View().shelf[0])
    requires o.temperature == Room || GroupFull(Group(fs.View(), o.temperature))
    modifies fs, fs.CoolerGroup, fs.CoolerGroup.Repr(), fs.HeaterGroup, fs.HeaterGroup.Repr(), fs.ShelfGroup, fs.ShelfGroup.Repr()
    ensures fs.Valid()
    ensures fs.View().shelf == [old(fs.View()).shelf[0].(orders := old(fs.View()).shelf[0].orders[o.id := StoredOrder(o, now)])]
    ensures fs.View().cooler == old(fs.View()).cooler && fs.View().heater == old(fs.View()).heater
  {
    ghost var s := fs.View();
    var placed;
    ghost var st1, st2;
    placed, st1, st2 := fs.PlaceOrder(o, now);
    PlacedOnSingleShelf(s, fs.View(), o, now, placed, st1, st2);
  }

  /**
   PlaceOrder of a room order when the only shelf, of two slots, holds `a`
   and `b`, `a` is the less fresh, and no order of `a`'s temperature can
   move: `a` is discarded and the new order takes its slot.
   */
  method PlaceByDiscarding(fs: FulfillmentSystem, o: Order, now: int, a: StoredOrder, b: StoredOrder)
    requires fs.Valid() && o.temperature == Room && a.order.id != b.order.id
    requires fs.View().shelf == [Unit(2, map[a.order.id := a, b.order.id := b])]
    requires RemainingFreshness(a, now) < RemainingFreshness(b, now)
    requires a.order.temperature == Room || GroupFull(Group(fs.View(), a.order.temperature))
    modifies fs, fs.CoolerGroup, fs.CoolerGroup.Repr(), fs.HeaterGroup, fs.HeaterGroup.Repr(), fs.ShelfGroup, fs.ShelfGroup.Repr()
    ensures fs.Valid()
    ensures |fs.View().shelf| == 1 && fs.View().shelf[0].orders.Keys == {b.order.id, o.id}
  {
    ghost var s := fs.View();
    assert a.order.id in s.shelf[0].orders;
    var placed;
    ghost var st1, st2;
    placed, st1, st2 := fs.PlaceOrder(o, now);
    var cand, moved, id, k, mid := PlacedByDiscard(s, fs.View(), o, now, placed, st1, st2);
    DiscardsLeastFresh(st1, st2, cand, moved, id, k, mid, now, a, b);
    AddedToHalfFullShelf(st2, fs.View(), o, now, b.order.id);
  }

  /**
   A hot or cold order arrives when its ideal group is full and the only
   shelf, of two slots, holds a room order `r` and an order `h` just placed
   at full freshness, `r` being the less fresh. The failed attempt to make
   room re-stamps `h` to what it already is, so `r` is discarded, `h` stays
   and the new order takes the freed slot.
   */
  lemma PlacedBesideStaleRoomOrder(st: State, st': State, o: Order, now: int, placed: bool, st1: State, st2: State,
                                   r: StoredOrder, h: StoredOrder)
    requires o.temperature != Room && GroupFull(Group(st, o.temperature))
    requires r.order.id != h.order.id && r.order.temperature == Room
    requires h.placedAt == now && h.order.freshness == h.order.initialFreshness
    requires st.shelf == [Unit(2, map[r.order.id := r, h.order.id := h])]
    requires RemainingFreshness(r, now) < RemainingFreshness(h, now)
    requires Placed(st, st', o, now, placed, st1, st2)
    ensures placed
    ensures |st'.shelf| == 1 && st'.shelf[0].orders.Keys == {h.order.id, o.id}
  {
    StaleAndFreshOnShelf(st.shelf, r, h, o.temperature, now);
    var cand, moved, id, k, mid := PlacedDiscardsLeastFresh(st, st', o, now, placed, st1, st2);
    assert st1 == st;
    DiscardsLeastFresh(st1, st2, cand, moved, id, k, mid, now, r, h);
    AddedToHalfFullShelf(st2, st', o, now, h.order.id);
  }

  /** The shelf of PlacedBesideStaleRoomOrder is full and well formed, and a re-stamp leaves it as it is. */
  lemma StaleAndFreshOnShelf(us: seq<Unit>, r: StoredOrder, h: StoredOrder, t: Temperature, now: int)
    requires r.order.id != h.order.id && r.order.temperature == Room
    requires h.placedAt == now && h.order.freshness == h.order.initialFreshness
    requires us == [Unit(2, map[r.order.id := r, h.order.id := h])]
    ensures AllWellFormed(us) && Unique(us) && GroupFull(us)
    ensures RestampShelf(us, t, now) == us
  {
    assert |us[0].orders| == 2;
    var rs := RestampShelf(us, t, now);
    assert rs[0].orders == us[0].orders;
  }

  /** PlaceOrder in the situation of PlacedBesideStaleRoomOrder. */
  method PlaceBesideStaleRoomOrder(fs: FulfillmentSystem, o: Order, now: int, r: StoredOrder, h: StoredOrder)
    requires fs.Valid() && o.temperature != Room && GroupFull(Group(fs.View(), o.temperature))
    requires r.order.id != h.order.id && r.order.temperature == Room
    requires h.placedAt == now && h.order.freshness == h.order.initialFreshness
    requires fs.View().shelf == [Unit(2, map[r.order.id := r, h.order.id := h])]
    requires RemainingFreshness(r, now) < RemainingFreshness(h, now)
    modifies fs, fs.CoolerGroup, fs.CoolerGroup.Repr(), fs.HeaterGroup, fs.HeaterGroup.Repr(), fs.ShelfGroup, fs.ShelfGroup.Repr()
    ensures fs.Valid()
    ensures |fs.View().shelf| == 1 && fs.View().shelf[0].orders.Keys == {h.order.id, o.id}
  {
    ghost var s := fs.View();
    var placed;
    ghost var st1, st2;
    placed, st1, st2 := fs.PlaceOrder(o, now);
    PlacedBesideStaleRoomOrder(s, fs.View(), o, now, placed, st1, st2, r, h);
  }

  /** PlaceOrder of a hot or cold order whose single ideal storage has room. */
  method PlaceInSingleIdeal(fs: FulfillmentSystem, o: Order, now: int)
    requires fs.Valid() && o.temperature != Room
    requires |Group(fs.View(), o.temperature)| == 1 && !Full(Group(fs.View(), o.temperature)[0])
    modifies fs, fs.CoolerGroup, fs.CoolerGroup.Repr(), fs.HeaterGroup, fs.HeaterGroup.Repr(), fs.ShelfGroup, fs.ShelfGroup.Repr()
    ensures fs.Valid()
    ensures Group(fs.View(), o.temperature) ==
      [Group(old(fs.View()), o.temperature)[0].(orders := Group(old(fs.View()), o.temperature)[0].orders[o.id := StoredOrder(o, now)])]
    ensures fs.View().shelf == old(fs.View()).shelf
    ensures o.temperature == Hot ==> fs.View().cooler == old(fs.View()).cooler
    ensures o.temperature == Cold ==> fs.View().heater == old(fs.View()).heater
  {
    ghost var s := fs.View();
    var placed;
    ghost var st1, st2;
    placed, st1, st2 := fs.PlaceOrder(o, now);
    PlacedInSingleIdeal(s, fs.View(), o, now, placed, st1, st2);
  }

  /**
   With a single ideal storage for hot (cold) orders, picking up an id held
   there (and, for a cold order, in no heater) removes it from that storage.
   */
  lemma PickedFromSingleIdeal(st: State, id: string, t: Temperature, now: int)
    requires t != Room && |Group(st, t)| == 1 && id in Group(st, t)[0].orders
    requires t == Cold ==> !Holds(st.heater, id)
    ensures Group(FulfilmentSpec.Pickup(st, id, now).1, t) == [Group(st, t)[0].(orders := Group(st, t)[0].orders - {id})]
    ensures FulfilmentSpec.Pickup(st, id, now).1.shelf == st.shelf
    ensures t == Hot ==> FulfilmentSpec.Pickup(st, id, now).1.cooler == st.cooler
    ensures t == Cold ==> FulfilmentSpec.Pickup(st, id, now).1.heater == st.heater
  {
    assert Holds(Group(st, t), id);
  }

  /** PickupOrder of an id held in the single ideal storage of temperature `t`. */
  method PickupFromSingleIdeal(fs: FulfillmentSystem, id: string, t: Temperature, now: int)
    requires fs.Valid() && t != Room && |Group(fs.View(), t)| == 1 && id in Group(fs.View(), t)[0].orders
    requires t == Cold ==> !Holds(fs.View().heater, id)
    modifies fs, fs.CoolerGroup, fs.CoolerGroup.Repr(), fs.HeaterGroup, fs.HeaterGroup.Repr(), fs.ShelfGroup, fs.ShelfGroup.Repr()
    ensures fs.Valid()
    ensures Group(fs.View(), t) == [Group(old(fs.View()), t)[0].(orders := Group(old(fs.View()), t)[0].orders - {id})]
    ensures fs.View().shelf == old(fs.View()).shelf
    ensures t == Hot ==> fs.View().cooler == old(fs.View()).cooler
    ensures t == Cold ==> fs.View().heater == old(fs.View()).heater
  {
    ghost var s := fs.View();
    var found := fs.PickupOrder(id, now);
    PickedFromSingleIdeal(s, id, t, now);
  }

  /**
   Two room orders fill a single shelf of two slots; placing a third one
   discards the least fresh, the first one placed.
   */
  method DiscardAllRoomTemperature(t1: int, t2: int, t3: int) returns (has1: bool, has2: bool, has3: bool)
    requires t1 <= t2 <= t3
    ensures !has1 && has2 && has3
  {
    var fs := SingleShelfSystem();
    var o1, o2, o3 := Order("1", "", Room, 5 * Second, 0), Order("2", "", Room, 10 * Second, 0), Order("3", "", Room, 15 * Second, 0);
    PlaceOnSingleShelf(fs, o1, t1);
    PlaceOnSingleShelf(fs, o2, t2);
    PlaceByDiscarding(fs, o3, t3, StoredOrder(o1, t1), StoredOrder(o2, t2));
    has1, has2, has3 := OnSingleShelf(fs, "1", "2", "3");
  }

  /**
   A room order and a hot order fill a single shelf of two slots (there are
   no heaters); the hot order, placed less than a second after the room one,
   is the least fresh when a third order arrives and is discarded.
   */
  method DiscardHybrid(t1: int, t2: int, t3: int) returns (has1: bool, has2: bool, has3: bool)
    requires t2 - t1 < Second
    ensures has1 && !has2 && has3
  {
    var fs := SingleShelfSystem();
    var o1, o2, o3 := Order("1", "", Room, 5 * Second, 0), Order("2", "", Hot, 8 * Second, 0), Order("3", "", Room, 15 * Second, 0);
    PlaceOnSingleShelf(fs, o1, t1);
    PlaceOnSingleShelf(fs, o2, t2);
    assert map["1" := StoredOrder(o1, t1), "2" := StoredOrder(o2, t2)] == map["2" := StoredOrder(o2, t2), "1" := StoredOrder(o1, t1)];
    PlaceByDiscarding(fs, o3, t3, StoredOrder(o2, t2), StoredOrder(o1, t1));
    has1, has2, has3 := OnSingleShelf(fs, "1", "2", "3");
  }

  /**
   The placing half of the reallocation test: two hot and two cold orders on
   a fresh system with one heater and one cooler of two slots each.
   */
  method PlaceTwoHotTwoCold(t: int) returns (fs: FulfillmentSystem)
    ensures fresh(fs) && fresh(fs.CoolerGroup) && fresh(fs.CoolerGroup.Repr()) && fresh(fs.HeaterGroup) && fresh(fs.HeaterGroup.Repr())
    ensures fresh(fs.ShelfGroup) && fresh(fs.ShelfGroup.Repr())
    ensures fs.Valid()
    ensures |fs.View().heater| == 1 && fs.View().heater[0].orders.Keys == {"1", "3"}
    ensures |fs.View().cooler| == 1 && fs.View().cooler[0].orders.Keys == {"2", "4"}
    ensures fs.View().shelf == [Unit(4, map[])]
  {
    fs := OneOfEachSystem();
    PlaceHotAndCold(fs, Order("1", "", Hot, 5 * Second, 0), Order("2", "", Cold, 10 * Second, 0), t);
    PlaceHotAndCold(fs, Order("3", "", Hot, 15 * Second, 0), Order("4", "", Cold, 20 * Second, 0), t);
  }

  /** A hot and then a cold order, each into its single ideal storage, which has room. */
  method PlaceHotAndCold(fs: FulfillmentSystem, h: Order, c: Order, t: int)
    requires fs.Valid() && h.temperature == Hot && c.temperature == Cold
    requires |fs.View().heater| == 1 && !Full(fs.View().heater[0])
    requires |fs.View().cooler| == 1 && !Full(fs.View().cooler[0])
    modifies fs, fs.CoolerGroup, fs.CoolerGroup.Repr(), fs.HeaterGroup, fs.HeaterGroup.Repr(), fs.ShelfGroup, fs.ShelfGroup.Repr()
    ensures fs.Valid()
    ensures fs.View().heater == [old(fs.View()).heater[0].(orders := old(fs.View()).heater[0].orders[h.id := StoredOrder(h, t)])]
    ensures fs.View().cooler == [old(fs.View()).cooler[0].(orders := old(fs.View()).cooler[0].orders[c.id := StoredOrder(c, t)])]
    ensures fs.View().shelf == old(fs.View()).shelf
  {
    PlaceInSingleIdeal(fs, h, t);
    PlaceInSingleIdeal(fs, c, t);
  }

  /** The pickups of the reallocation test: the first hot and the first cold order. */
  method PickupFirstHotAndCold(fs: FulfillmentSystem, t: int)
    requires fs.Valid()
    requires |fs.View().heater| == 1 && fs.View().heater[0].orders.Keys == {"1", "3"}
    requires |fs.View().cooler| == 1 && fs.View().cooler[0].orders.Keys == {"2", "4"}
    modifies fs, fs.CoolerGroup, fs.CoolerGroup.Repr(), fs.HeaterGroup, fs.HeaterGroup.Repr(), fs.ShelfGroup, fs.ShelfGroup.Repr()
    ensures fs.Valid()
    ensures |fs.View().heater| == 1 && fs.View().heater[0].orders.Keys == {"3"}
    ensures |fs.View().cooler| == 1 && fs.View().cooler[0].orders.Keys == {"4"}
    ensures fs.View().shelf == old(fs.View()).shelf
  {
    assert "2" !in fs.View().heater[0].orders.Keys;
    PickupHotAndCold(fs, "1", "2", t);
  }

  /** Pick up a hot order held in the single heater, then a cold order held in the single cooler. */
  method PickupHotAndCold(fs: FulfillmentSystem, h: string, c: string, t: int)
    requires fs.Valid() && |fs.View().heater| == 1 && |fs.View().cooler| == 1
    requires h in fs.View().heater[0].orders && c in fs.View().cooler[0].orders && c !in fs.View().heater[0].orders
    modifies fs, fs.CoolerGroup, fs.CoolerGroup.Repr(), fs.HeaterGroup, fs.HeaterGroup.Repr(), fs.ShelfGroup, fs.ShelfGroup.Repr()
    ensures fs.Valid()
    ensures fs.View().heater == [old(fs.View()).heater[0].(orders := old(fs.View()).heater[0].orders - {h})]
    ensures fs.View().cooler == [old(fs.View()).cooler[0].(orders := old(fs.View()).cooler[0].orders - {c})]
    ensures fs.View().shelf == old(fs.View()).shelf
  {
    PickupFromSingleIdeal(fs, h, Hot, t);
    assert !Holds(fs.View().heater, c);
    PickupFromSingleIdeal(fs, c, Cold, t);
  }

  /**
   Two hot and two cold orders fill one heater and one cooler of two slots
   each; after the first hot and the first cold order are picked up, the
   second ones are still in their ideal storages and nothing is on the shelf.
   */
  method PickupAfterIdealPlacement(t: int) returns (has3: bool, has4: bool, has1: bool)
    ensures has3 && has4 && !has1
  {
    var fs := PlaceTwoHotTwoCold(t);
    PickupFirstHotAndCold(fs, t);
    has3 := InFirstStorage(fs.HeaterGroup, "3");
    has4 := InFirstStorage(fs.CoolerGroup, "4");
    has1 := InFirstStorage(fs.ShelfGroup, "1");
  }
  /** A listing of a unit holding one order is that order alone. */
  lemma ListsSingle(l: seq<StoredOrder>, x: StoredOrder)
    requires Lists(l, map[x.order.id := x])
    ensures l == [x]
  {
    assert |map[x.order.id := x]| == 1;
    assert l[0].order.id in map[x.order.id := x];
  }

  /** The shelves and heater of TickMovesFirstUnit after `a` has moved. */
  function AfterFirstMove(st: State, a: StoredOrder, b: StoredOrder, now: int): State {
    Logged(st.(shelf := [Unit(1, map[]), Unit(1, map[b.order.id := b])],
               heater := [Unit(1, map[a.order.id := Rebased(a, now)])]),
           a.order.id, ActionKind.Move, now)
  }

  /** The first step of the tick in TickMovesFirstUnit moves `a` out of unit 0. */
  lemma FirstUnitMoves(st: State, a: StoredOrder, b: StoredOrder, now: int)
    requires a.order.temperature == Hot && !Expired(a, now)
    requires st.shelf == [Unit(1, map[a.order.id := a]), Unit(1, map[b.order.id := b])]
    requires st.heater == [Unit(1, map[])]
    ensures TickStep(st, a, now) == (true, AfterFirstMove(st, a, b, now))
  {
    assert !GroupFull(Group(st, Hot)) by {
      assert !Full(st.heater[0]);
    }
    assert FirstNotFull(st.heater) == 0 by {
      assert !Full(st.heater[0]);
    }
    assert st.shelf[0].orders - {a.order.id} == map[];
    var m := MoveState(st, 0, a.order.id, Hot, now);
    assert m.0;
    assert m.1 == AfterFirstMove(st, a, b, now).(actions := st.actions);
  }

  /** Once the heater is full, the second step of the tick does nothing. */
  lemma SecondStepIdle(st: State, a: StoredOrder, b: StoredOrder, now: int)
    requires b.order.temperature == Hot
    ensures TickStep(AfterFirstMove(st, a, b, now), b, now).1 == AfterFirstMove(st, a, b, now)
  {
    var s1 := AfterFirstMove(st, a, b, now);
    assert Full(s1.heater[0]);
  }

  /**
   Two one-slot shelf units hold unexpired hot orders `a` and `b`, and the
   heater has one free slot: a tick moves `a`, the order of the first unit,
   logs that one move, and leaves `b` on the shelf.
   */
  lemma TickMovesFirstUnit(st: State, st': State, trace: seq<State>, moves: seq<(Temperature, string, int)>, now: int,
                           a: StoredOrder, b: StoredOrder)
    requires a.order.id != b.order.id && a.order.temperature == Hot && b.order.temperature == Hot
    requires !Expired(a, now)
    requires st.shelf == [Unit(1, map[a.order.id := a]), Unit(1, map[b.order.id := b])]
    requires st.heater == [Unit(1, map[])]
    requires Reallocated(st, st', trace, moves, now)
    ensures st'.heater == [Unit(1, map[a.order.id := Rebased(a, now)])]
    ensures st'.shelf == [Unit(1, map[]), Unit(1, map[b.order.id := b])]
    ensures st'.actions == st.actions + [Action(Micro(now), a.order.id, ActionKind.Move)]
  {
    assert GroupFull(st.shelf) by {
      assert Full(st.shelf[0]) && Full(st.shelf[1]);
    }
    var parts :| UnitListings(st.shelf, parts) && TickListed(st, Flatten(parts), now) == st';
    TwoSingleListings(st.shelf, parts, a, b);
    TickOverBoth(st, a, b, now);
  }

  /** Listing two units of one order each, in unit order, gives those two orders. */
  lemma TwoSingleListings(us: seq<Unit>, parts: seq<seq<StoredOrder>>, a: StoredOrder, b: StoredOrder)
    requires us == [Unit(1, map[a.order.id := a]), Unit(1, map[b.order.id := b])]
    requires UnitListings(us, parts)
    ensures Flatten(parts) == [a, b]
  {
    ListsSingle(parts[0], a);
    ListsSingle(parts[1], b);
    assert parts[..1] == [[a]];
    assert Flatten(parts[..1]) == [a];
  }

  /** The tick over the listing `[a, b]` in the situation of TickMovesFirstUnit. */
  lemma TickOverBoth(st: State, a: StoredOrder, b: StoredOrder, now: int)
    requires a.order.temperature == Hot && b.order.temperature == Hot && !Expired(a, now)
    requires st.shelf == [Unit(1, map[a.order.id := a]), Unit(1, map[b.order.id := b])]
    requires st.heater == [Unit(1, map[])]
    ensures TickListed(st, [a, b], now) == AfterFirstMove(st, a, b, now)
  {
    FirstUnitMoves(st, a, b, now);
    SecondStepIdle(st, a, b, now);
    var s1 := AfterFirstMove(st, a, b, now);
    assert [a, b][1..] == [b] && [b][1..] == [];
    assert TickListed(st, [a, b], now) == TickListed(s1, [b], now);
    assert TickListed(s1, [b], now) == TickListed(s1, [], now);
  }
}
