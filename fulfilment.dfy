/**
 The fulfilment engine (logic/fulfilment.go): three storage groups (coolers,
 heaters, shelves) and an action log, updated in place. Each operation takes
 the current instant `now` (nanoseconds) as a parameter and is proved against
 the value-level specification in FulfilmentSpec.
 */
module Fulfilment {
  import opened Config
  import opened Wrappers
  import opened StorageUnits
  import opened StorageGroups
  import opened FulfilmentSpec

  /** The decimal digits of `n`, most significant first. */
  function DecimalString(n: nat): string {
    if n < 10 then [(48 + n) as char] else DecimalString(n / 10) + [(48 + n % 10) as char]
  }

  /** The value of `n` empty units of capacity `cap` (none when `n` is not positive). */
  function EmptyUnits(n: int, cap: int): seq<Unit> {
    if n <= 0 then [] else seq(n, _ => Unit(cap, map[]))
  }

  /** A group of `n` fresh empty storages named `prefix` followed by 1, 2, ..., n. */
  method NewGroup(prefix: string, n: int, cap: int) returns (g: StorageGroup)
    ensures fresh(g) && fresh(g.Repr()) && g.Valid()
    ensures g.Units == EmptyUnits(n, cap)
    ensures forall i :: 0 <= i < |g.Storages| ==> g.Storages[i].Name == prefix + DecimalString(i + 1)
  {
    var storages: seq<Storage> := [];
    var i := 1;
    while i <= n
      invariant 1 <= i <= if n >= 1 then n + 1 else 1
      invariant |storages| == i - 1
      invariant forall s :: s in storages ==> fresh(s)
      invariant forall p, q :: 0 <= p < q < |storages| ==> storages[p] != storages[q]
      invariant forall p :: 0 <= p < |storages| ==>
        storages[p].Valid() && storages[p].View() == Unit(cap, map[]) && storages[p].Name == prefix + DecimalString(p + 1)
    {
      var s := new Storage(prefix + DecimalString(i), cap);
      storages := storages + [s];
      i := i + 1;
    }
    assert |storages| == if n <= 0 then 0 else n;
    g := new StorageGroup(storages);
    assert forall p :: 0 <= p < |g.Units| ==> g.Units[p] == Unit(cap, map[]);
  }

  class FulfillmentSystem {
    const CoolerGroup: StorageGroup
    const HeaterGroup: StorageGroup
    const ShelfGroup: StorageGroup
    var Actions: seq<Action>

    /** Three distinct groups over disjoint storages, each valid. */
    ghost predicate Valid()
      reads CoolerGroup, CoolerGroup.Repr(), HeaterGroup, HeaterGroup.Repr(), ShelfGroup, ShelfGroup.Repr()
    {
      && CoolerGroup != HeaterGroup && CoolerGroup != ShelfGroup && HeaterGroup != ShelfGroup
      && CoolerGroup.Repr() !! HeaterGroup.Repr()
      && CoolerGroup.Repr() !! ShelfGroup.Repr()
      && HeaterGroup.Repr() !! ShelfGroup.Repr()
      && CoolerGroup.Valid() && HeaterGroup.Valid() && ShelfGroup.Valid()
    }

    /** The abstract state of the engine. */
    ghost function View(): State
      reads this, CoolerGroup, HeaterGroup, ShelfGroup
    {
      State(CoolerGroup.Units, HeaterGroup.Units, ShelfGroup.Units, Actions)
    }

    /** The group keeping orders of temperature `t`; the shelves for room temperature. */
    function GroupOf(t: Temperature): StorageGroup {
      match t
      case Hot => HeaterGroup
      case Cold => CoolerGroup
      case Room => ShelfGroup
    }

    /** NewFulfillmentSystem: empty groups shaped by the configuration and an empty log. */
    constructor (cfg: FulfillmentConfig)
      ensures Valid()
      ensures fresh(CoolerGroup) && fresh(CoolerGroup.Repr()) && fresh(HeaterGroup) && fresh(HeaterGroup.Repr())
      ensures fresh(ShelfGroup) && fresh(ShelfGroup.Repr())
      ensures View() == State(EmptyUnits(cfg.numCoolers, cfg.coolerCap), EmptyUnits(cfg.numHeaters, cfg.heaterCap),
                              EmptyUnits(cfg.numShelves, cfg.shelfCap), [])
      ensures forall i :: 0 <= i < |CoolerGroup.Storages| ==> CoolerGroup.Storages[i].Name == "Cooler-" + DecimalString(i + 1)
      ensures forall i :: 0 <= i < |HeaterGroup.Storages| ==> HeaterGroup.Storages[i].Name == "Heater-" + DecimalString(i + 1)
      ensures forall i :: 0 <= i < |ShelfGroup.Storages| ==> ShelfGroup.Storages[i].Name == "Shelf-" + DecimalString(i + 1)
    {
      var coolers := NewGroup("Cooler-", cfg.numCoolers, cfg.coolerCap);
      var heaters := NewGroup("Heater-", cfg.numHeaters, cfg.heaterCap);
      var shelves := NewGroup("Shelf-", cfg.numShelves, cfg.shelfCap);
      CoolerGroup, HeaterGroup, ShelfGroup := coolers, heaters, shelves;
      Actions := [];
    }

    /** logAction: append one action stamped with `now` in microseconds. */
    method LogAction(orderId: string, kind: ActionKind, now: int)
      requires Valid()
      modifies this
      ensures Valid()
      ensures View() == Logged(old(View()), orderId, kind, now)
    {
      Actions := Actions + [Action(now / 1000, orderId, kind)];
    }

    /** The Add of the group of temperature `t` (first fit). */
    method AddTo(t: Temperature, so: StoredOrder) returns (ok: bool)
      requires Valid()
      modifies GroupOf(t), GroupOf(t).Repr()
      ensures Valid()
      ensures ok == GroupAdd(Group(old(View()), t), so).0
      ensures View() == WithGroup(old(View()), t, GroupAdd(Group(old(View()), t), so).1)
    {
      ok := GroupOf(t).Add(so);
    }

    /** The Remove of the group of temperature `t` (first unit holding the id). */
    method RemoveFrom(t: Temperature, orderId: string) returns (r: Option<StoredOrder>)
      requires Valid()
      modifies GroupOf(t), GroupOf(t).Repr()
      ensures Valid()
      ensures r == GroupRemove(Group(old(View()), t), orderId).0
      ensures View() == WithGroup(old(View()), t, GroupRemove(Group(old(View()), t), orderId).1)
    {
      r := GroupOf(t).Remove(orderId);
    }

    /** Overwrite the entry under `so`'s id in storage `i` of the group of temperature `t`. */
    method ReplaceAt(t: Temperature, i: int, so: StoredOrder)
      requires Valid() && 0 <= i < |GroupOf(t).Storages| && so.order.id in Group(View(), t)[i].orders
      modifies GroupOf(t), GroupOf(t).Storages[i]
      ensures Valid()
      ensures View() == StoredAt(old(View()), t, i, so)
    {
      GroupOf(t).ReplaceInUnit(i, so);
    }

    /** Delete the id from storage `i` of the group of temperature `t`. */
    method RemoveAt(t: Temperature, i: int, orderId: string)
      requires Valid() && 0 <= i < |GroupOf(t).Storages|
      modifies GroupOf(t), GroupOf(t).Storages[i]
      ensures Valid()
      ensures View() == DeletedAt(old(View()), t, i, orderId)
    {
      var r := GroupOf(t).RemoveFromUnit(i, orderId);
    }

    /** Store `so` in storage `i` of the group of temperature `t`, which has room. */
    method AddAt(t: Temperature, i: int, so: StoredOrder)
      requires Valid() && 0 <= i < |GroupOf(t).Storages| && !Full(Group(View(), t)[i])
      modifies GroupOf(t), GroupOf(t).Storages[i]
      ensures Valid()
      ensures View() == StoredAt(old(View()), t, i, so)
    {
      var ok := GroupOf(t).AddToUnit(i, so);
    }

    /**
     atomicMoveOrder from shelf storage `k` into the ideal group of
     temperature `to`: exactly the effect MoveState describes, including the
     re-stamp of the source entry when no destination storage has room.
     */
    method AtomicMoveOrder(orderId: string, k: int, to: Temperature, now: int)
      returns (moved: bool)
      requires Valid() && 0 <= k < |ShelfGroup.Storages|
      requires to != Room
      modifies ShelfGroup, ShelfGroup.Repr(), GroupOf(to), GroupOf(to).Repr()
      ensures Valid()
      ensures (moved, View()) == MoveState(old(View()), k, orderId, to, now)
    {
      ghost var s0 := View();
      var ok, so := RestampOnShelf(k, orderId, now);
      if !ok {
        MoveStateNoop(s0, k, orderId, to, now);
        return false;
      }
      ShelfGroup.ValidUnits();
      moved := MoveIntoGroup(k, orderId, to, so);
      if moved {
        MoveStateAt(s0, k, orderId, to, now, FirstNotFull(Group(s0, to)));
      } else {
        MoveStateFull(s0, k, orderId, to, now);
      }
    }

    /**
     The first half of atomicMoveOrder: look `orderId` up in shelf storage
     `k`; an absent or expired order stops the move, any other is re-stamped
     in place (its placement instant and its remaining freshness).
     */
    method RestampOnShelf(k: int, orderId: string, now: int) returns (ok: bool, so: StoredOrder)
      requires Valid() && 0 <= k < |ShelfGroup.Storages|
      modifies ShelfGroup, ShelfGroup.Storages[k]
      ensures Valid()
      ensures ok <==> orderId in old(View()).shelf[k].orders && !Expired(old(View()).shelf[k].orders[orderId], now)
      ensures ok ==> so == Rebased(old(View()).shelf[k].orders[orderId], now) && View() == RestampAt(old(View()), k, orderId, now)
      ensures !ok ==> View() == old(View())
    {
      ghost var s0 := View();
      var found := ShelfGroup.Storages[k].GetOrder(orderId);
      if found.None? {
        return false, StoredOrder(Order(orderId, "", Room, 0, 0), now);
      }
      so := found.value;
      if so.order.temperature != Room {
        var t := now - so.placedAt;
        var newRemaining := so.order.initialFreshness - 2 * t;
        if newRemaining <= 0 {
          return false, so;
        }
        so := StoredOrder(so.order.(freshness := newRemaining), now);
        ReplaceAt(Room, k, so);
      } else {
        RestampRoomNoop(s0, k, orderId, now);
      }
      ok := true;
      assert so == Rebased(s0.shelf[k].orders[orderId], now);
    }

    /**
     The destination loop of atomicMoveOrder: find the first storage of the
     ideal group of `to` with room, delete `orderId` from shelf storage `k`
     and store `so` there; when every storage is full, change nothing.
     */
    method MoveIntoGroup(k: int, orderId: string, to: Temperature, so: StoredOrder) returns (moved: bool)
      requires Valid() && 0 <= k < |ShelfGroup.Storages| && to != Room
      modifies ShelfGroup, ShelfGroup.Storages[k], GroupOf(to), GroupOf(to).Repr()
      ensures Valid()
      ensures moved == !GroupFull(Group(old(View()), to))
      ensures moved ==> View() == StoredAt(DeletedAt(old(View()), Room, k, orderId), to, FirstNotFull(Group(old(View()), to)), so)
      ensures !moved ==> View() == old(View())
    {
      ghost var s := View();
      var i := GroupOf(to).FirstWithRoom();
      if i == |GroupOf(to).Storages| {
        return false;
      }
      RemoveAt(Room, k, orderId);
      ghost var s1 := View();
      assert Group(s1, to) == Group(s, to);
      AddAt(to, i, so);
      assert View() == StoredAt(s1, to, i, so);
      return true;
    }

    /**
     The inner loop of tryMoveFromShelfGroup and of the reallocation tick:
     try to move `orderId` out of each shelf storage in turn, and log the
     first success as a move.
     */
    method MoveFromShelves(orderId: string, to: Temperature, now: int)
      returns (moved: bool, ghost k: int)
      requires Valid() && to != Room
      modifies this, ShelfGroup, ShelfGroup.Repr(), GroupOf(to), GroupOf(to).Repr()
      ensures Valid()
      ensures moved ==> MovedBy(old(View()), View(), to, orderId, k, now)
      ensures !moved ==> RewrittenOnly(old(View()), View(), now)
      ensures !moved && !GroupFull(Group(old(View()), to)) ==>
        View() == old(View()) && ExpiredEverywhere(old(View()).shelf, orderId, now)
      ensures (moved, View()) == ShelvesFrom(old(View()), orderId, to, now, 0)
    {
      ghost var s0 := View();
      var q := 0;
      while q < |ShelfGroup.Storages|
        invariant 0 <= q <= |ShelfGroup.Storages| == |View().shelf|
        invariant Valid() && ShelvesProgress(s0, View(), orderId, to, now, q)
      {
        ghost var s := View();
        moved := AtomicMoveOrder(orderId, q, to, now);
        if moved {
          LogAction(orderId, ActionKind.Move, now);
          k := q;
          return;
        }
        ShelvesProgressStep(s0, s, orderId, to, now, q);
        q := q + 1;
      }
      moved, k := false, 0;
    }

    /**
     tryMoveFromShelfGroup: for each order listed from the shelves with
     temperature `temp`, try to move its id out of the shelves into the ideal
     group of `temp`, stopping at the first success.
     */
    method TryMoveFromShelfGroup(temp: Temperature, now: int) returns (moved: bool, ghost id: string, ghost k: int)
      requires Valid()
      modifies this, CoolerGroup, CoolerGroup.Repr(), HeaterGroup, HeaterGroup.Repr(), ShelfGroup, ShelfGroup.Repr()
      ensures Valid()
      ensures TriedMove(old(View()), View(), temp, moved, id, k, now)
    {
      id, k := "", 0;
      if temp == Room {
        moved := false;
        return;
      }
      ghost var s0 := View();
      ShelfGroup.ValidUnits();
      var orders, parts := ShelfGroup.ListOrders();
      moved, id, k := TryListedOrders(orders, temp, now);
      TriedByListing(s0, View(), temp, moved, id, k, now, orders, parts);
    }

    /**
     The loop of tryMoveFromShelfGroup over a listing `orders` of the
     shelves: exactly the effect TryListed describes.
     */
    method TryListedOrders(orders: seq<StoredOrder>, temp: Temperature, now: int)
      returns (moved: bool, ghost id: string, ghost k: int)
      requires Valid() && temp != Room
      requires forall x :: x in orders ==> IsEntry(View().shelf, x)
      modifies this, ShelfGroup, ShelfGroup.Repr(), GroupOf(temp), GroupOf(temp).Repr()
      ensures Valid()
      ensures (moved, View()) == TryListed(old(View()), orders, temp, now)
      ensures moved ==> HasEntry(old(View()).shelf, id, temp) && MovedBy(old(View()), View(), temp, id, k, now)
      ensures !moved ==> RewrittenOnly(old(View()), View(), now)
      ensures !moved && !GroupFull(Group(old(View()), temp)) ==>
        View() == old(View()) && TriedUpTo(old(View()).shelf, orders, |orders|, temp, now)
    {
      id, k := "", 0;
      ghost var s0 := View();
      TryProgressStart(s0, orders, temp, now);
      var i := 0;
      while i < |orders|
        invariant 0 <= i <= |orders|
        invariant Valid() && TryProgress(s0, View(), orders, i, temp, now)
      {
        var so := orders[i];
        ghost var s := View();
        if so.order.temperature == temp {
          moved, k := MoveFromShelves(so.order.id, temp, now);
          if moved {
            id := so.order.id;
            TryProgressMoved(s0, s, View(), orders, i, temp, k, now);
            return;
          }
        }
        TryProgressStep(s0, s, View(), orders, i, temp, now);
        i := i + 1;
      }
      TryProgressDone(s0, View(), orders, temp, now);
      moved := false;
    }

    /**
     discardOrderFromShelfGroup: take a least fresh shelf order; unless some
     shelf order of its temperature can be moved instead, remove its id from
     the shelves and log a discard.
     */
    method DiscardOrderFromShelfGroup(now: int)
      returns (ghost cand: Option<StoredOrder>, ghost moved: bool, ghost id: string, ghost k: int, ghost mid: State)
      requires Valid()
      modifies this, CoolerGroup, CoolerGroup.Repr(), HeaterGroup, HeaterGroup.Repr(), ShelfGroup, ShelfGroup.Repr()
      ensures Valid()
      ensures Discarded(old(View()), View(), cand, moved, id, k, mid, now)
    {
      ghost var s0 := View();
      moved, id, k, mid := false, "", 0, s0;
      var candidate := ShelfGroup.GetLeastFreshOrder(now);
      cand := candidate;
      if candidate.None? {
        return;
      }
      var m;
      m, id, k := TryMoveFromShelfGroup(candidate.value.order.temperature, now);
      moved, mid := m, View();
      if m {
        return;
      }
      RewrittenKeeps(s0.shelf, mid.shelf, now);
      assert Holds(s0.shelf, candidate.value.order.id);
      DiscardFromShelves(candidate.value.order.id, now);
    }

    /** The discard itself: remove `orderId` from the shelves and log it. */
    method DiscardFromShelves(orderId: string, now: int)
      requires Valid() && Holds(View().shelf, orderId)
      modifies this, ShelfGroup, ShelfGroup.Repr()
      ensures Valid()
      ensures GroupRemove(old(View()).shelf, orderId).0.Some?
      ensures View() == Logged(old(View()).(shelf := GroupRemove(old(View()).shelf, orderId).1), orderId, Discard, now)
    {
      var r := RemoveFrom(Room, orderId);
      if r.Some? {
        LogAction(orderId, Discard, now);
      }
    }

    /**
     PlaceOrder: store a new order, stamped with `now`, as Placed describes:
     ideal group first for hot and cold orders, then the shelves, then the
     shelves after making way by a move or a discard.
     */
    method PlaceOrder(o: Order, now: int) returns (placed: bool, ghost st1: State, ghost st2: State)
      requires Valid()
      modifies this, CoolerGroup, CoolerGroup.Repr(), HeaterGroup, HeaterGroup.Repr(), ShelfGroup, ShelfGroup.Repr()
      ensures Valid()
      ensures Placed(old(View()), View(), o, now, placed, st1, st2)
    {
      if o.temperature == Hot || o.temperature == Cold {
        placed, st1, st2 := PlaceHotOrCold(o, now);
      } else {
        placed, st1, st2 := PlaceRoom(o, now);
      }
    }

    /** PlaceOrder for a hot or a cold order: ideal group, shelves, then discard. */
    method PlaceHotOrCold(o: Order, now: int) returns (placed: bool, ghost st1: State, ghost st2: State)
      requires Valid() && o.temperature != Room
      modifies this, CoolerGroup, CoolerGroup.Repr(), HeaterGroup, HeaterGroup.Repr(), ShelfGroup, ShelfGroup.Repr()
      ensures Valid()
      ensures Placed(old(View()), View(), o, now, placed, st1, st2)
    {
      ghost var s0 := View();
      st1, st2 := s0, s0;
      var so := StoredOrder(o, now);
      var ok := AddTo(o.temperature, so);
      if ok {
        LogAction(o.id, Place, now);
        PlacedInIdeal(s0, View(), o, now, st1, st2);
        return true, st1, st2;
      }
      assert GroupFull(Group(s0, o.temperature)) && View() == s0 by {
        assert WithGroup(s0, o.temperature, Group(s0, o.temperature)) == s0;
      }
      placed, st1, st2 := PlaceBesideFullIdeal(o, now);
    }

    /**
     PlaceOrder for a hot or a cold order whose ideal group is full: the
     shelves, then a move out of the shelves (which cannot succeed), then a
     discard.
     */
    method PlaceBesideFullIdeal(o: Order, now: int) returns (placed: bool, ghost st1: State, ghost st2: State)
      requires Valid() && o.temperature != Room && GroupFull(Group(View(), o.temperature))
      modifies this, CoolerGroup, CoolerGroup.Repr(), HeaterGroup, HeaterGroup.Repr(), ShelfGroup, ShelfGroup.Repr()
      ensures Valid()
      ensures Placed(old(View()), View(), o, now, placed, st1, st2)
    {
      ghost var s0 := View();
      st1, st2 := s0, s0;
      var ok := AddTo(Room, StoredOrder(o, now));
      if ok {
        LogAction(o.id, Place, now);
        PlacedOnShelf(s0, View(), o, now, st1, st2);
        return true, st1, st2;
      }
      placed, st1, st2 := PlaceBesideFullShelves(o, now);
    }

    /** The rest of PlaceBesideFullIdeal once the shelves have turned the order away. */
    method PlaceBesideFullShelves(o: Order, now: int) returns (placed: bool, ghost st1: State, ghost st2: State)
      requires Valid() && o.temperature != Room && GroupFull(Group(View(), o.temperature))
      requires GroupAdd(View().shelf, StoredOrder(o, now)).0 == false
      modifies this, CoolerGroup, CoolerGroup.Repr(), HeaterGroup, HeaterGroup.Repr(), ShelfGroup, ShelfGroup.Repr()
      ensures Valid()
      ensures Placed(old(View()), View(), o, now, placed, st1, st2)
    {
      ghost var s0 := View();
      var full := ShelfGroup.IsFull();
      if full {
        TryMoveBesideFullIdeal(o.temperature, now);
      }
      st1 := View();
      ShelfGroup.ValidUnits();
      placed, st2 := PlaceAfterDiscard(o, now, s0);
    }

    /**
     The move out of the shelves that PlaceOrder tries for an order whose
     ideal group is full: it cannot succeed, and leaves the re-stamps that
     TriedMove describes.
     */
    method TryMoveBesideFullIdeal(t: Temperature, now: int)
      requires Valid() && t != Room && GroupFull(Group(View(), t))
      modifies this, CoolerGroup, CoolerGroup.Repr(), HeaterGroup, HeaterGroup.Repr(), ShelfGroup, ShelfGroup.Repr()
      ensures Valid()
      ensures TriedMove(old(View()), View(), t, false, "", 0, now)
    {
      ghost var s0 := View();
      var tried;
      ghost var id, k;
      tried, id, k := TryMoveFromShelfGroup(t, now);
      FullIdealTriesInVain(s0, View(), t, tried, id, k, now);
    }

    /** PlaceOrder for a room-temperature order: shelves, then discard. */
    method PlaceRoom(o: Order, now: int) returns (placed: bool, ghost st1: State, ghost st2: State)
      requires Valid() && o.temperature == Room
      modifies this, CoolerGroup, CoolerGroup.Repr(), HeaterGroup, HeaterGroup.Repr(), ShelfGroup, ShelfGroup.Repr()
      ensures Valid()
      ensures Placed(old(View()), View(), o, now, placed, st1, st2)
    {
      ghost var s0 := View();
      st1, st2 := s0, s0;
      var ok := AddTo(Room, StoredOrder(o, now));
      if ok {
        LogAction(o.id, Place, now);
        PlacedOnShelf(s0, View(), o, now, st1, st2);
        return true, st1, st2;
      }
      ShelfGroup.ValidUnits();
      placed, st2 := PlaceAfterDiscard(o, now, s0);
    }

    /**
     The common tail of PlaceOrder once the shelves are full: discard from
     the shelves, then try the shelves once more. `s0` is the state at the
     start of PlaceOrder, before any re-stamp.
     */
    method PlaceAfterDiscard(o: Order, now: int, ghost s0: State) returns (placed: bool, ghost st2: State)
      requires Valid() && AllWellFormed(s0.shelf)
      requires o.temperature == Room || GroupFull(Group(s0, o.temperature))
      requires GroupFull(s0.shelf)
      requires (o.temperature == Room ==> View() == s0) && RewrittenOnly(s0, View(), now)
      requires o.temperature != Room ==> TriedMove(s0, View(), o.temperature, false, "", 0, now)
      modifies this, CoolerGroup, CoolerGroup.Repr(), HeaterGroup, HeaterGroup.Repr(), ShelfGroup, ShelfGroup.Repr()
      ensures Valid()
      ensures Placed(s0, View(), o, now, placed, old(View()), st2)
    {
      ghost var st1 := View();
      ghost var cand: Option<StoredOrder>, moved: bool, id: string, k: int, mid: State := None, false, "", 0, st1;
      var full := ShelfGroup.IsFull();
      if full {
        cand, moved, id, k, mid := DiscardOrderFromShelfGroup(now);
      }
      st2 := View();
      placed := ShelveAndLog(o, now);
      PlacedAfterDiscard(s0, View(), o, now, placed, st1, st2, cand, moved, id, k, mid);
    }

    /** The final shelf add of PlaceOrder, logged as a place when it succeeds. */
    method ShelveAndLog(o: Order, now: int) returns (placed: bool)
      requires Valid()
      modifies this, ShelfGroup, ShelfGroup.Repr()
      ensures Valid()
      ensures placed == GroupAdd(old(View()).shelf, StoredOrder(o, now)).0
      ensures View() == if placed then Logged(old(View()).(shelf := GroupAdd(old(View()).shelf, StoredOrder(o, now)).1), o.id, Place, now)
                        else old(View())
    {
      placed := AddTo(Room, StoredOrder(o, now));
      if placed {
        LogAction(o.id, Place, now);
      }
    }

    /** The IsFull of the group of temperature `t`. */
    method IsFullAt(t: Temperature) returns (full: bool)
      requires Valid()
      ensures full == GroupFull(Group(View(), t))
    {
      full := GroupOf(t).IsFull();
    }

    /**
     One tick of ReallocateOrders: when the shelves are full, go through the
     orders listed from the shelves and move each hot (cold) one out of the
     shelves while the heaters (coolers) have room.
     */
    method ReallocateTick(now: int) returns (ghost trace: seq<State>, ghost moves: seq<(Temperature, string, int)>)
      requires Valid()
      modifies this, CoolerGroup, CoolerGroup.Repr(), HeaterGroup, HeaterGroup.Repr(), ShelfGroup, ShelfGroup.Repr()
      ensures Valid()
      ensures Reallocated(old(View()), View(), trace, moves, now)
    {
      ghost var s0 := View();
      trace, moves := [s0], [];
      var full := ShelfGroup.IsFull();
      if !full {
        return;
      }
      ShelfGroup.ValidUnits();
      var shelfOrders, parts := ShelfGroup.ListOrders();
      trace, moves := ReallocateListed(shelfOrders, now);
      TickByListing(s0, View(), shelfOrders, parts, now);
      if UniqueIds(s0) {
        TickComplete(s0, View(), shelfOrders, now);
      }
    }

    /**
     The loop of one reallocation tick over the listing `orders` of the
     shelves: exactly the effect TickListed describes, as a trace of moves.
     */
    method ReallocateListed(orders: seq<StoredOrder>, now: int)
      returns (ghost trace: seq<State>, ghost moves: seq<(Temperature, string, int)>)
      requires Valid()
      requires forall x :: x in orders ==> IsEntry(View().shelf, x)
      modifies this, CoolerGroup, CoolerGroup.Repr(), HeaterGroup, HeaterGroup.Repr(), ShelfGroup, ShelfGroup.Repr()
      ensures Valid()
      ensures View() == TickListed(old(View()), orders, now)
      ensures TickProgress(old(View()), View(), trace, moves, orders, |orders|, now)
    {
      ghost var s0 := View();
      trace, moves := [s0], [];
      TickFollowsStart(s0, orders, now);
      var i := 0;
      while i < |orders|
        invariant 0 <= i <= |orders|
        invariant Valid()
        invariant TickProgress(s0, View(), trace, moves, orders, i, now)
        invariant TickFollows(s0, View(), orders, i, now)
      {
        var so := orders[i];
        ghost var s := View();
        var moved;
        ghost var k;
        moved, k := ReallocateOrder(so, now);
        trace, moves := TickAdvance(s0, s, View(), trace, moves, orders, i, moved, k, now);
        TickFollowsStep(s0, s, View(), orders, i, moved, now);
        i := i + 1;
      }
      TickFollowsDone(s0, View(), orders, now);
    }

    /**
     The body of the reallocation loop for one listed order: a hot (cold)
     order is moved out of the shelves when the heaters (coolers) have room.
     */
    method ReallocateOrder(so: StoredOrder, now: int) returns (moved: bool, ghost k: int)
      requires Valid()
      modifies this, CoolerGroup, CoolerGroup.Repr(), HeaterGroup, HeaterGroup.Repr(), ShelfGroup, ShelfGroup.Repr()
      ensures Valid()
      ensures moved ==> MovedBy(old(View()), View(), so.order.temperature, so.order.id, k, now)
      ensures !moved ==> View() == old(View())
      ensures !moved && so.order.temperature != Room ==>
        GroupFull(Group(View(), so.order.temperature)) || ExpiredEverywhere(View().shelf, so.order.id, now)
      ensures (moved, View()) == TickStep(old(View()), so, now)
    {
      k := 0;
      var t := so.order.temperature;
      if t == Room {
        return false, k;
      }
      var idealFull := IsFullAt(t);
      if idealFull {
        return false, k;
      }
      moved, k := MoveFromShelves(so.order.id, t, now);
    }

    /** PickupOrder: exactly the effect Pickup describes. */
    method PickupOrder(orderId: string, now: int) returns (found: bool)
      requires Valid()
      modifies this, CoolerGroup, CoolerGroup.Repr(), HeaterGroup, HeaterGroup.Repr(), ShelfGroup, ShelfGroup.Repr()
      ensures Valid()
      ensures (found, View()) == FulfilmentSpec.Pickup(old(View()), orderId, now)
    {
      var so := RemoveFrom(Hot, orderId);
      if so.Some? {
        LogAction(so.value.order.id, ActionKind.Pickup, now);
        return true;
      }
      so := RemoveFrom(Cold, orderId);
      if so.Some? {
        LogAction(so.value.order.id, ActionKind.Pickup, now);
        return true;
      }
      so := RemoveFrom(Room, orderId);
      if so.Some? {
        LogAction(so.value.order.id, ActionKind.Pickup, now);
        return true;
      }
      return false;
    }
  }
}
