/**
 A storage group (entity/storage_group.go): an ordered list of units of one
 temperature class, filled first-fit, with a group-wide least-fresh search.
 */
module StorageGroups {
  import opened Config
  import opened Wrappers
  import opened StorageUnits

  /** Go's `Duration / 2`: integer division truncating toward zero. */
  function HalfTrunc(d: int): int {
    if d >= 0 then d / 2 else -((-d) / 2)
  }

  /**
   RemainingFreshness: the freshness left at instant `now`. Room orders use
   their freshness as is; every other order, wherever it sits, uses half of it.
   */
  function RemainingFreshness(so: StoredOrder, now: int): int {
    var elapsed := now - so.placedAt;
    if so.order.temperature == Room then so.order.freshness - elapsed
    else HalfTrunc(so.order.freshness) - elapsed
  }

  /** For a fixed stored order, remaining freshness falls by exactly the time that passes. */
  lemma RemainingFreshnessDecreases(so: StoredOrder, t1: int, t2: int)
    requires t1 < t2
    ensures RemainingFreshness(so, t2) < RemainingFreshness(so, t1)
    ensures RemainingFreshness(so, t1) - RemainingFreshness(so, t2) == t2 - t1
  {
  }

  /**
   Measured on the scale of the nominal freshness, a non-room order is
   consumed at twice the rate of elapsed time (up to the rounding of the halving).
   */
  lemma NonRoomDecayIsDoubled(so: StoredOrder, now: int)
    requires so.order.temperature != Room
    ensures -1 <= 2 * RemainingFreshness(so, now) - (so.order.freshness - 2 * (now - so.placedAt)) <= 1
  {
  }

  /** Some unit of the group holds `id`. */
  ghost predicate Holds(us: seq<Unit>, id: string) {
    exists i :: 0 <= i < |us| && id in us[i].orders
  }

  /** `so` is an entry of some unit of the group. */
  ghost predicate IsEntry(us: seq<Unit>, so: StoredOrder) {
    exists i :: 0 <= i < |us| && so.order.id in us[i].orders && us[i].orders[so.order.id] == so
  }

  /** Every unit is full; vacuously true of a group without units. */
  predicate GroupFull(us: seq<Unit>) {
    forall i :: 0 <= i < |us| ==> Full(us[i])
  }

  ghost predicate NoOrders(us: seq<Unit>) {
    forall i :: 0 <= i < |us| ==> us[i].orders == map[]
  }

  ghost predicate AllWellFormed(us: seq<Unit>) {
    forall i :: 0 <= i < |us| ==> WellFormed(us[i])
  }

  /** Units have the same count and capacities in both groups. */
  ghost predicate SameShape(us: seq<Unit>, vs: seq<Unit>) {
    |us| == |vs| && forall i :: 0 <= i < |us| ==> us[i].capacity == vs[i].capacity
  }

  /** `c` is stored in the group and no stored order has less remaining freshness. */
  ghost predicate IsLeastFresh(us: seq<Unit>, c: StoredOrder, now: int) {
    && IsEntry(us, c)
    && forall i, id :: 0 <= i < |us| && id in us[i].orders ==>
         RemainingFreshness(c, now) <= RemainingFreshness(us[i].orders[id], now)
  }

  /** Number of orders held by the group. */
  function TotalSize(us: seq<Unit>): nat {
    if |us| == 0 then 0 else TotalSize(us[..|us| - 1]) + |us[|us| - 1].orders|
  }

  function Flatten(parts: seq<seq<StoredOrder>>): seq<StoredOrder> {
    if |parts| == 0 then [] else Flatten(parts[..|parts| - 1]) + parts[|parts| - 1]
  }

  /** Index of the first unit that is not full, or the number of units. */
  function FirstNotFull(us: seq<Unit>): (r: nat)
    ensures r <= |us|
    ensures forall i :: 0 <= i < r ==> Full(us[i])
    ensures r < |us| ==> !Full(us[r])
  {
    if |us| == 0 || !Full(us[0]) then 0 else 1 + FirstNotFull(us[1..])
  }

  /** Index of the first unit holding `id`, or the number of units. */
  function FirstHolding(us: seq<Unit>, id: string): (r: nat)
    ensures r <= |us|
    ensures forall i :: 0 <= i < r ==> id !in us[i].orders
    ensures r < |us| ==> id in us[r].orders
  {
    if |us| == 0 || id in us[0].orders then 0 else 1 + FirstHolding(us[1..], id)
  }

  /**
   First-fit add: the order goes to the first unit that is not full, and the
   add succeeds exactly when such a unit exists. Every other unit is left as it
   was, and no unit goes over capacity.
   */
  function GroupAdd(us: seq<Unit>, so: StoredOrder): (r: (bool, seq<Unit>))
    ensures r.0 <==> !GroupFull(us)
    ensures SameShape(us, r.1)
    ensures forall i :: 0 <= i < |us| && i != FirstNotFull(us) ==> r.1[i] == us[i]
    ensures r.0 ==> var j := FirstNotFull(us);
      && so.order.id in r.1[j].orders && r.1[j].orders[so.order.id] == so
      && r.1[j].orders - {so.order.id} == us[j].orders - {so.order.id}
    ensures !r.0 ==> r.1 == us
    ensures AllWellFormed(us) ==> AllWellFormed(r.1)
  {
    var j := FirstNotFull(us);
    if j == |us| then (false, us)
    else
      var u := us[j].(orders := us[j].orders[so.order.id := so]);
      StoreKeepsWellFormed(us, j, so);
      (true, us[j := u])
  }

  /** Storing into a unit that is not full keeps every unit well formed. */
  lemma StoreKeepsWellFormed(us: seq<Unit>, j: int, so: StoredOrder)
    requires 0 <= j < |us| && !Full(us[j])
    ensures AllWellFormed(us) ==>
      AllWellFormed(us[j := us[j].(orders := us[j].orders[so.order.id := so])])
  {
    var m := us[j].orders[so.order.id := so];
    assert |m| <= |us[j].orders| + 1;
  }

  /**
   Remove from the first unit that holds the id, returning the entry found
   there; a group that does not hold the id is left unchanged.
   */
  function GroupRemove(us: seq<Unit>, id: string): (r: (Option<StoredOrder>, seq<Unit>))
    ensures r.0.Some? <==> Holds(us, id)
    ensures SameShape(us, r.1)
    ensures forall i :: 0 <= i < |us| && i != FirstHolding(us, id) ==> r.1[i] == us[i]
    ensures r.0.Some? ==> var j := FirstHolding(us, id);
      && id in us[j].orders && r.0.value == us[j].orders[id]
      && r.1[j].orders == us[j].orders - {id}
    ensures r.0.None? ==> r.1 == us
    ensures AllWellFormed(us) ==> AllWellFormed(r.1)
    ensures AllWellFormed(us) && r.0.Some? ==> r.0.value.order.id == id
  {
    var j := FirstHolding(us, id);
    if j == |us| then (None, us)
    else (Some(us[j].orders[id]), us[j := us[j].(orders := us[j].orders - {id})])
  }

  /** The add lands in unit `i` when every earlier unit is full and `i` is not. */
  lemma GroupAddAt(us: seq<Unit>, so: StoredOrder, i: int)
    requires 0 <= i < |us| && !Full(us[i])
    requires forall k :: 0 <= k < i ==> Full(us[k])
    ensures GroupAdd(us, so) == (true, us[i := us[i].(orders := us[i].orders[so.order.id := so])])
  {
    assert FirstNotFull(us) == i;
  }

  /** The removal happens in unit `i` when `i` is the first unit holding the id. */
  lemma GroupRemoveAt(us: seq<Unit>, id: string, i: int)
    requires 0 <= i < |us| && id in us[i].orders
    requires forall k :: 0 <= k < i ==> id !in us[k].orders
    ensures GroupRemove(us, id) == (Some(us[i].orders[id]), us[i := us[i].(orders := us[i].orders - {id})])
  {
    assert FirstHolding(us, id) == i;
  }

  /** A group with no units is full, so adding to it always fails. */
  lemma EmptyGroupRefusesAdd(us: seq<Unit>, so: StoredOrder)
    requires |us| == 0
    ensures GroupFull(us) && !GroupAdd(us, so).0
  {
  }

  /** The concatenation of per-unit listings has one element per stored order. */
  lemma {:induction false} FlattenSize(parts: seq<seq<StoredOrder>>, us: seq<Unit>)
    requires |parts| == |us|
    requires forall k :: 0 <= k < |us| ==> Lists(parts[k], us[k].orders)
    ensures |Flatten(parts)| == TotalSize(us)
  {
    if |us| > 0 {
      FlattenSize(parts[..|parts| - 1], us[..|us| - 1]);
    }
  }

  /** Every element of `r` is stored, and so is every order of the first `i` units. */
  ghost predicate ListedUpTo(us: seq<Unit>, i: int, r: seq<StoredOrder>) {
    && (forall x :: x in r ==> IsEntry(us, x))
    && (forall k, id :: 0 <= k < i && k < |us| && id in us[k].orders ==> us[k].orders[id] in r)
  }

  /** After scanning `i` units, `parts` holds their listings and `r` their concatenation. */
  ghost predicate Scanned(us: seq<Unit>, i: int, r: seq<StoredOrder>, parts: seq<seq<StoredOrder>>) {
    && 0 <= i <= |us|
    && |parts| == i
    && (forall k :: 0 <= k < i ==> Lists(parts[k], us[k].orders))
    && r == Flatten(parts)
    && ListedUpTo(us, i, r)
  }

  lemma ScannedStep(us: seq<Unit>, i: int, r: seq<StoredOrder>, parts: seq<seq<StoredOrder>>, l: seq<StoredOrder>)
    requires Scanned(us, i, r, parts) && i < |us|
    requires Lists(l, us[i].orders)
    ensures Scanned(us, i + 1, r + l, parts + [l])
  {
    FlattenSnoc(parts, l);
    PartsStep(us, parts, l);
    ListedUpToStep(us, i, r, l);
  }

  /** Appending a listing of the next unit keeps every part a listing of its unit. */
  lemma PartsStep(us: seq<Unit>, parts: seq<seq<StoredOrder>>, l: seq<StoredOrder>)
    requires |parts| < |us|
    requires forall k :: 0 <= k < |parts| ==> Lists(parts[k], us[k].orders)
    requires Lists(l, us[|parts|].orders)
    ensures forall k :: 0 <= k < |parts| + 1 ==> Lists((parts + [l])[k], us[k].orders)
  {
    forall k | 0 <= k < |parts| + 1
      ensures Lists((parts + [l])[k], us[k].orders)
    {
      if k < |parts| {
        assert (parts + [l])[k] == parts[k];
      }
    }
  }

  lemma FlattenSnoc(parts: seq<seq<StoredOrder>>, l: seq<StoredOrder>)
    ensures Flatten(parts + [l]) == Flatten(parts) + l
  {
    assert (parts + [l])[..|parts|] == parts;
  }

  /** Appending a listing of unit `i` extends `ListedUpTo` by one unit. */
  lemma ListedUpToStep(us: seq<Unit>, i: int, r: seq<StoredOrder>, l: seq<StoredOrder>)
    requires 0 <= i < |us| && ListedUpTo(us, i, r)
    requires Lists(l, us[i].orders)
    ensures ListedUpTo(us, i + 1, r + l)
  {
    forall x | x in r + l
      ensures IsEntry(us, x)
    {
      if x !in r {
        var p :| 0 <= p < |l| && l[p] == x;
        assert x.order.id in us[i].orders && us[i].orders[x.order.id] == x;
      }
    }
    forall k, id | 0 <= k < i + 1 && id in us[k].orders
      ensures us[k].orders[id] in r + l
    {
      if k < i {
        assert us[k].orders[id] in r;
      } else {
        assert us[i].orders[id] in l;
      }
    }
  }

  /** No id is held by two units of a group. */
  ghost predicate Unique(us: seq<Unit>) {
    forall a, b, id :: 0 <= a < b < |us| && id in us[a].orders ==> id !in us[b].orders
  }

  /** No two elements of `r` carry the same id. */
  ghost predicate DistinctIds(r: seq<StoredOrder>) {
    forall a, b :: 0 <= a < b < |r| ==> r[a].order.id != r[b].order.id
  }

  /** Every element of `r` has its id held by one of the first `i` units. */
  ghost predicate FromFirst(us: seq<Unit>, i: int, r: seq<StoredOrder>) {
    forall p :: 0 <= p < |r| ==> exists k :: 0 <= k < i && k < |us| && r[p].order.id in us[k].orders
  }

  /** The ids listed from the first `i` units, distinct when no id is held by two units. */
  ghost predicate ScannedIds(us: seq<Unit>, i: int, r: seq<StoredOrder>) {
    FromFirst(us, i, r) && (Unique(us) ==> DistinctIds(r))
  }

  /** Appending the listing of unit `i` keeps ids distinct when no id is held by two units. */
  lemma DistinctStep(us: seq<Unit>, i: int, r: seq<StoredOrder>, l: seq<StoredOrder>)
    requires 0 <= i < |us| && Lists(l, us[i].orders)
    requires ScannedIds(us, i, r)
    ensures ScannedIds(us, i + 1, r + l)
  {
    var r' := r + l;
    forall p | 0 <= p < |r'|
      ensures exists k :: 0 <= k < i + 1 && k < |us| && r'[p].order.id in us[k].orders
    {
      if p >= |r| {
        assert r'[p] == l[p - |r|];
        assert r'[p].order.id in us[i].orders;
      } else {
        assert r'[p] == r[p];
        var k :| 0 <= k < i && k < |us| && r[p].order.id in us[k].orders;
        assert r'[p].order.id in us[k].orders;
      }
    }
    if Unique(us) {
      forall a, b | 0 <= a < b < |r'|
        ensures r'[a].order.id != r'[b].order.id
      {
        if b < |r| {
          assert r'[a] == r[a] && r'[b] == r[b];
        } else if a >= |r| {
          assert r'[a] == l[a - |r|] && r'[b] == l[b - |r|];
          assert us[i].orders[l[a - |r|].order.id] == l[a - |r|];
        } else {
          assert r'[a] == r[a] && r'[b] == l[b - |r|];
          var k :| 0 <= k < i && k < |us| && r[a].order.id in us[k].orders;
          assert l[b - |r|].order.id in us[i].orders;
        }
      }
    }
  }

  /** `parts` holds one snapshot per unit of `us`, in unit order, as ListOrders builds them. */
  ghost predicate UnitListings(us: seq<Unit>, parts: seq<seq<StoredOrder>>) {
    |parts| == |us| && forall k :: 0 <= k < |us| ==> Lists(parts[k], us[k].orders)
  }

  /** Snapshots of the first `|ps|` units, concatenated, list exactly the entries of those units. */
  lemma {:induction false} FlattenScanned(us: seq<Unit>, ps: seq<seq<StoredOrder>>)
    requires |ps| <= |us| && forall k :: 0 <= k < |ps| ==> Lists(ps[k], us[k].orders)
    ensures Scanned(us, |ps|, Flatten(ps), ps)
  {
    if |ps| > 0 {
      var init := ps[..|ps| - 1];
      FlattenScanned(us, init);
      assert ps == init + [ps[|ps| - 1]];
      ScannedStep(us, |ps| - 1, Flatten(init), init, ps[|ps| - 1]);
    }
  }

  /** Snapshots of the first `|ps|` units, concatenated, carry distinct ids when the group does. */
  lemma {:induction false} FlattenIds(us: seq<Unit>, ps: seq<seq<StoredOrder>>)
    requires |ps| <= |us| && forall k :: 0 <= k < |ps| ==> Lists(ps[k], us[k].orders)
    ensures ScannedIds(us, |ps|, Flatten(ps))
  {
    if |ps| > 0 {
      var init := ps[..|ps| - 1];
      FlattenIds(us, init);
      DistinctStep(us, |ps| - 1, Flatten(init), ps[|ps| - 1]);
    }
  }

  /** The concatenated snapshots list every entry of the group and only its entries. */
  lemma ListedEntries(us: seq<Unit>, parts: seq<seq<StoredOrder>>)
    requires UnitListings(us, parts)
    ensures ListedUpTo(us, |us|, Flatten(parts))
  {
    FlattenScanned(us, parts);
  }

  /** The concatenated snapshots name no id twice when no id is held by two units. */
  lemma ListedIdsDistinct(us: seq<Unit>, parts: seq<seq<StoredOrder>>)
    requires UnitListings(us, parts) && Unique(us)
    ensures DistinctIds(Flatten(parts))
  {
    FlattenIds(us, parts);
  }

  /** No order in the first `i` units has less remaining freshness than `c`. */
  ghost predicate FresherThan(c: StoredOrder, us: seq<Unit>, i: int, now: int) {
    forall k, id :: 0 <= k < i && k < |us| && id in us[k].orders ==>
      RemainingFreshness(c, now) <= RemainingFreshness(us[k].orders[id], now)
  }

  /** The first `i` units hold no orders. */
  ghost predicate EmptyUpTo(us: seq<Unit>, i: int) {
    forall k :: 0 <= k < i && k < |us| ==> us[k].orders == map[]
  }

  /** No order among the first `j` of `l` has less remaining freshness than `c`. */
  ghost predicate FresherThanPrefix(c: StoredOrder, l: seq<StoredOrder>, j: int, now: int) {
    forall p :: 0 <= p < j && p < |l| ==> RemainingFreshness(c, now) <= RemainingFreshness(l[p], now)
  }

  /** The least fresh order of the first `i` units, if they hold any, is `r`. */
  ghost predicate LeastUpTo(us: seq<Unit>, i: int, r: Option<StoredOrder>, now: int) {
    && (r.None? <==> EmptyUpTo(us, i))
    && (r.Some? ==> IsEntry(us, r.value) && FresherThan(r.value, us, i, now))
  }

  /**
   Within unit `i`, whose listing is `l`: `r` is least among the first `i`
   units and the first `j` entries of `l`.
   */
  ghost predicate LeastWithin(us: seq<Unit>, i: int, l: seq<StoredOrder>, j: int, r: Option<StoredOrder>, now: int) {
    && (r.None? <==> EmptyUpTo(us, i) && j == 0)
    && (r.Some? ==> IsEntry(us, r.value) && FresherThan(r.value, us, i, now)
                    && FresherThanPrefix(r.value, l, j, now))
  }

  /** The candidate after looking at `so`: the first one seen, or a strictly less fresh one. */
  function Pick(r: Option<StoredOrder>, so: StoredOrder, now: int): (r': Option<StoredOrder>)
    ensures r'.Some?
    ensures r' == r || r' == Some(so)
    ensures RemainingFreshness(r'.value, now) <= RemainingFreshness(so, now)
    ensures r.Some? ==> RemainingFreshness(r'.value, now) <= RemainingFreshness(r.value, now)
  {
    if r.None? || RemainingFreshness(so, now) < RemainingFreshness(r.value, now) then Some(so) else r
  }

  lemma LeastWithinStart(us: seq<Unit>, i: int, l: seq<StoredOrder>, r: Option<StoredOrder>, now: int)
    requires LeastUpTo(us, i, r, now)
    ensures LeastWithin(us, i, l, 0, r, now)
  {
  }

  lemma LeastWithinStep(us: seq<Unit>, i: int, l: seq<StoredOrder>, j: int, r: Option<StoredOrder>, now: int)
    requires 0 <= i < |us| && 0 <= j < |l|
    requires Lists(l, us[i].orders)
    requires LeastWithin(us, i, l, j, r, now)
    ensures LeastWithin(us, i, l, j + 1, Pick(r, l[j], now), now)
  {
    var so := l[j];
    assert so.order.id in us[i].orders && us[i].orders[so.order.id] == so;
    var r' := Pick(r, so, now);
    if r.Some? {
      forall k, id | 0 <= k < i && k < |us| && id in us[k].orders
        ensures RemainingFreshness(r'.value, now) <= RemainingFreshness(us[k].orders[id], now)
      {
        assert RemainingFreshness(r.value, now) <= RemainingFreshness(us[k].orders[id], now);
      }
    }
  }

  lemma LeastWithinDone(us: seq<Unit>, i: int, l: seq<StoredOrder>, r: Option<StoredOrder>, now: int)
    requires 0 <= i < |us|
    requires Lists(l, us[i].orders)
    requires LeastWithin(us, i, l, |l|, r, now)
    ensures LeastUpTo(us, i + 1, r, now)
  {
    assert |l| == 0 <==> us[i].orders == map[];
    if r.Some? {
      forall k, id | 0 <= k < i + 1 && k < |us| && id in us[k].orders
        ensures RemainingFreshness(r.value, now) <= RemainingFreshness(us[k].orders[id], now)
      {
        if k == i {
          assert us[k].orders[id] in l;
        }
      }
    }
  }

  /** Storage `s` is valid and its abstract value is `u`. */
  ghost predicate Models(s: Storage, u: Unit)
    reads s
  {
    u == Unit(s.Capacity, s.Orders) && WellFormed(u)
  }

  class StorageGroup {
    const Storages: seq<Storage>
    /** The abstract value of the group: one Unit per storage, in order. */
    ghost var Units: seq<Unit>

    ghost function Repr(): set<Storage> {
      set s | s in Storages
    }

    ghost predicate Valid()
      reads this, Repr()
    {
      && |Units| == |Storages|
      && (forall i, j :: 0 <= i < j < |Storages| ==> Storages[i] != Storages[j])
      && (forall i :: 0 <= i < |Storages| ==> Models(Storages[i], Units[i]))
    }

    lemma ValidUnits()
      requires Valid()
      ensures AllWellFormed(Units)
    {
    }

    constructor (units: seq<Storage>)
      requires forall i, j :: 0 <= i < j < |units| ==> units[i] != units[j]
      requires forall i :: 0 <= i < |units| ==> units[i].Valid()
      ensures Storages == units
      ensures Valid()
    {
      Storages := units;
      Units := seq(|units|, i requires 0 <= i < |units| reads units => units[i].View());
    }

    /** First-fit add over the units in declaration order. */
    method Add(so: StoredOrder) returns (ok: bool)
      requires Valid()
      modifies this, Repr()
      ensures Valid()
      ensures (ok, Units) == GroupAdd(old(Units), so)
    {
      ghost var us := Units;
      var i := 0;
      while i < |Storages|
        invariant 0 <= i <= |Storages|
        invariant Valid() && Units == us
        invariant forall k :: 0 <= k < i ==> Full(us[k])
      {
        ok := AddToUnit(i, so);
        if ok {
          GroupAddAt(us, so, i);
          return;
        }
        i := i + 1;
      }
      return false;
    }

    /** One step of Add: store into storage `i` unless it is full. */
    method AddToUnit(i: int, so: StoredOrder) returns (ok: bool)
      requires Valid() && 0 <= i < |Storages|
      modifies this, Storages[i]
      ensures Valid()
      ensures ok <==> !Full(old(Units)[i])
      ensures ok ==> Units == old(Units)[i := old(Units)[i].(orders := old(Units)[i].orders[so.order.id := so])]
      ensures !ok ==> Units == old(Units)
    {
      var full := Storages[i].IsFull();
      if full {
        return false;
      }
      ok := Storages[i].Add(so);
      Units := Units[i := Unit(Storages[i].Capacity, Storages[i].Orders)];
    }

    /** Remove from the first unit that holds the id. */
    method Remove(orderId: string) returns (r: Option<StoredOrder>)
      requires Valid()
      modifies this, Repr()
      ensures Valid()
      ensures (r, Units) == GroupRemove(old(Units), orderId)
    {
      ghost var us := Units;
      var i := 0;
      while i < |Storages|
        invariant 0 <= i <= |Storages|
        invariant Valid() && Units == us
        invariant forall k :: 0 <= k < i ==> orderId !in us[k].orders
      {
        r := RemoveFromUnit(i, orderId);
        if r.Some? {
          GroupRemoveAt(us, orderId, i);
          return;
        }
        i := i + 1;
      }
      return None;
    }

    /** One step of Remove: remove the id from storage `i`, if it is there. */
    method RemoveFromUnit(i: int, orderId: string) returns (r: Option<StoredOrder>)
      requires Valid() && 0 <= i < |Storages|
      modifies this, Storages[i]
      ensures Valid()
      ensures r.Some? <==> orderId in old(Units)[i].orders
      ensures r.Some? ==> r.value == old(Units)[i].orders[orderId]
      ensures Units == old(Units)[i := old(Units)[i].(orders := old(Units)[i].orders - {orderId})]
      ensures r.None? ==> Units == old(Units)
    {
      r := Storages[i].Remove(orderId);
      if r.Some? {
        Units := Units[i := Unit(Storages[i].Capacity, Storages[i].Orders)];
      } else {
        assert Units[i].orders - {orderId} == Units[i].orders;
        assert Units[i := Units[i].(orders := Units[i].orders - {orderId})] == Units;
      }
    }

    /**
     Overwrite the entry under `so`'s id in storage `i`: the in-place rewrite
     of a stored order that the group's callers perform through its pointer.
     */
    method ReplaceInUnit(i: int, so: StoredOrder)
      requires Valid() && 0 <= i < |Storages| && so.order.id in Units[i].orders
      modifies this, Storages[i]
      ensures Valid()
      ensures Units == old(Units)[i := old(Units)[i].(orders := old(Units)[i].orders[so.order.id := so])]
    {
      var ok := Storages[i].Add(so);
      Units := Units[i := Unit(Storages[i].Capacity, Storages[i].Orders)];
    }

    /** The index of the first storage below capacity, or the number of storages when all are full. */
    method FirstWithRoom() returns (i: int)
      requires Valid()
      ensures i == FirstNotFull(Units)
    {
      i := 0;
      while i < |Storages|
        invariant 0 <= i <= |Storages|
        invariant forall q :: 0 <= q < i ==> Full(Units[q])
      {
        var full := Storages[i].IsFull();
        if !full {
          return;
        }
        i := i + 1;
      }
    }

    method IsFull() returns (full: bool)
      requires Valid()
      ensures full <==> GroupFull(Units)
    {
      var i := 0;
      while i < |Storages|
        invariant 0 <= i <= |Storages|
        invariant forall k :: 0 <= k < i ==> Full(Units[k])
      {
        var unitFull := Storages[i].IsFull();
        if !unitFull {
          return false;
        }
        i := i + 1;
      }
      return true;
    }

    /**
     The concatenation of the units' snapshots: every stored order appears,
     and only stored orders do.
     */
    method ListOrders() returns (r: seq<StoredOrder>, ghost parts: seq<seq<StoredOrder>>)
      requires Valid()
      ensures |parts| == |Units|
      ensures forall k :: 0 <= k < |Units| ==> Lists(parts[k], Units[k].orders)
      ensures r == Flatten(parts)
      ensures |r| == TotalSize(Units)
      ensures forall x :: x in r ==> IsEntry(Units, x)
      ensures forall k, id :: 0 <= k < |Units| && id in Units[k].orders ==> Units[k].orders[id] in r
    {
      ghost var us := Units;
      r, parts := [], [];
      var i := 0;
      while i < |Storages|
        invariant Scanned(us, i, r, parts)
      {
        var unitOrders := Storages[i].ListOrders();
        ScannedStep(us, i, r, parts, unitOrders);
        r, parts := r + unitOrders, parts + [unitOrders];
        i := i + 1;
      }
      FlattenSize(parts, us);
    }

    /**
     A stored order of least remaining freshness at `now`, or None when the
     group holds no orders. Among equals, which one is returned is left open.
     */
    method GetLeastFreshOrder(now: int) returns (r: Option<StoredOrder>)
      requires Valid()
      ensures r.None? <==> NoOrders(Units)
      ensures r.Some? ==> IsLeastFresh(Units, r.value, now)
    {
      ghost var us := Units;
      r := None;
      var i := 0;
      while i < |Storages|
        invariant 0 <= i <= |Storages|
        invariant LeastUpTo(us, i, r, now)
      {
        var unitOrders := Storages[i].ListOrders();
        LeastWithinStart(us, i, unitOrders, r, now);
        var j := 0;
        while j < |unitOrders|
          invariant 0 <= j <= |unitOrders|
          invariant LeastWithin(us, i, unitOrders, j, r, now)
        {
          var so := unitOrders[j];
          LeastWithinStep(us, i, unitOrders, j, r, now);
          if r.None? || RemainingFreshness(so, now) < RemainingFreshness(r.value, now) {
            r := Some(so);
          }
          j := j + 1;
        }
        LeastWithinDone(us, i, unitOrders, r, now);
        i := i + 1;
      }
    }
  }
}
