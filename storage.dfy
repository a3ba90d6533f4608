/**
 A single storage unit (entity/storage.go): a bounded map from order id to
 stored order. Durations and instants are integers in nanoseconds.
 */
module StorageUnits {
  import opened Config
  import opened Wrappers

  /**
   An order as received. `freshness` is rewritten when an order is moved;
   `initialFreshness` never is.
   */
  datatype Order = Order(
    id: string,
    name: string,
    temperature: Temperature,
    freshness: int,
    initialFreshness: int)

  /** An order together with the instant it was placed into its current unit. */
  datatype StoredOrder = StoredOrder(order: Order, placedAt: int)

  /** The abstract value of a unit: its capacity and its orders by id. */
  datatype Unit = Unit(capacity: int, orders: map<string, StoredOrder>)

  /** A unit is full when it holds at least `capacity` orders. */
  predicate Full(u: Unit) {
    |u.orders| >= u.capacity
  }

  /**
   Occupancy never exceeds capacity (a unit whose capacity is not positive
   stays empty) and every order is kept under its own id.
   */
  ghost predicate WellFormed(u: Unit) {
    && (|u.orders| <= u.capacity || u.orders == map[])
    && forall id :: id in u.orders ==> u.orders[id].order.id == id
  }

  /** `r` lists the entries of `m`, each of them exactly once. */
  ghost predicate Lists(r: seq<StoredOrder>, m: map<string, StoredOrder>) {
    && |r| == |m|
    && (forall i :: 0 <= i < |r| ==> r[i].order.id in m && m[r[i].order.id] == r[i])
    && (forall i, j :: 0 <= i < j < |r| ==> r[i] != r[j])
    && (forall id :: id in m ==> m[id] in r)
  }

  class Storage {
    const Name: string
    const Capacity: int
    var Orders: map<string, StoredOrder>

    ghost function View(): Unit
      reads this
    {
      Unit(Capacity, Orders)
    }

    ghost predicate Valid()
      reads this
    {
      WellFormed(View())
    }

    /** NewStorage: an empty unit with the given name and capacity. */
    constructor (name: string, capacity: int)
      ensures Name == name && Capacity == capacity && Orders == map[]
      ensures Valid()
    {
      Name := name;
      Capacity := capacity;
      Orders := map[];
    }

    method GetOrder(orderId: string) returns (r: Option<StoredOrder>)
      requires Valid()
      ensures r.Some? <==> orderId in Orders
      ensures r.Some? ==> r.value == Orders[orderId] && r.value.order.id == orderId
    {
      if orderId in Orders {
        r := Some(Orders[orderId]);
      } else {
        r := None;
      }
    }

    /**
     An id already present is overwritten; a new id is admitted only while
     the unit is below capacity.
     */
    method Add(so: StoredOrder) returns (ok: bool)
      requires Valid()
      modifies this
      ensures Valid()
      ensures ok <==> so.order.id in old(Orders) || |old(Orders)| < Capacity
      ensures Orders == if ok then old(Orders)[so.order.id := so] else old(Orders)
      ensures |Orders| == if ok && so.order.id !in old(Orders) then |old(Orders)| + 1 else |old(Orders)|
    {
      if so.order.id in Orders {
        Orders := Orders[so.order.id := so];
        return true;
      }
      if |Orders| < Capacity {
        Orders := Orders[so.order.id := so];
        return true;
      }
      return false;
    }

    method Remove(orderId: string) returns (r: Option<StoredOrder>)
      requires Valid()
      modifies this
      ensures Valid()
      ensures r == if orderId in old(Orders) then Some(old(Orders)[orderId]) else None
      ensures Orders == old(Orders) - {orderId}
      ensures orderId !in old(Orders) ==> unchanged(this)
    {
      if orderId in Orders {
        r := Some(Orders[orderId]);
        Orders := Orders - {orderId};
      } else {
        r := None;
      }
    }

    method IsFull() returns (full: bool)
      ensures full <==> Full(View())
      ensures Capacity <= 0 ==> full
    {
      full := |Orders| >= Capacity;
    }

    /** A snapshot of the stored orders, in no particular order. */
    method ListOrders() returns (r: seq<StoredOrder>)
      requires Valid()
      ensures Lists(r, Orders)
    {
      r := [];
      var rest := Orders.Keys;
      while rest != {}
        invariant rest <= Orders.Keys
        invariant |r| + |rest| == |Orders|
        invariant forall i :: 0 <= i < |r| ==>
          r[i].order.id in Orders && r[i].order.id !in rest && Orders[r[i].order.id] == r[i]
        invariant forall i, j :: 0 <= i < j < |r| ==> r[i] != r[j]
        invariant forall id :: id in Orders && id !in rest ==> Orders[id] in r
        decreases |rest|
      {
        var id :| id in rest;
        r := r + [Orders[id]];
        rest := rest - {id};
      }
    }
  }
}
