/** The stock arithmetic of order placement, over a snapshot of the
    catalogue's stock levels (product id to units in stock).

    Placement runs two passes over the requested (product id, quantity)
    items. The validation pass checks every item on its own against the
    snapshot and stops at the first bad item. The commit pass then
    decrements the stock item by item, and stops at the first decrement that
    would take a stock below zero. Decrements made before that point stay
    made. With distinct product ids the commit pass never stops once
    validation has passed; with a repeated id it can stop part-way. */
module Checkout {
  import opened Common

  type Stocks = map<string, int>

  type Item = (string, int)

  predicate NonNegative(s: Stocks) {
    forall k :: k in s ==> s[k] >= 0
  }

  lemma NonNegativeUpdate(s: Stocks, id: string, v: int)
    requires NonNegative(s) && v >= 0
    ensures NonNegative(s[id := v])
  {
  }

  /** No product id is requested twice. */
  predicate DistinctIds(items: seq<Item>) {
    forall i, j :: 0 <= i < j < |items| ==> items[i].0 != items[j].0
  }

  function Ids(items: seq<Item>): set<string> {
    set i | 0 <= i < |items| :: items[i].0
  }

  /** The checks the validation pass makes on one item, in order: a
      positive quantity, a known product, enough stock for this item. */
  function LineError(s: Stocks, item: Item): (e: Option<Error>)
    ensures item.1 <= 0 ==> e == Some(NonPositiveQuantity)
    ensures item.1 > 0 && item.0 !in s ==> e == Some(ProductNotFound(item.0))
    ensures item.1 > 0 && item.0 in s && s[item.0] < item.1 ==> e == Some(InsufficientStock(item.0))
    ensures e == None <==> item.1 > 0 && item.0 in s && item.1 <= s[item.0]
  {
    if item.1 <= 0 then Some(NonPositiveQuantity)
    else if item.0 !in s then Some(ProductNotFound(item.0))
    else if s[item.0] < item.1 then Some(InsufficientStock(item.0))
    else None
  }

  /** The validation pass: the error of the first bad item, if any. */
  function Validate(s: Stocks, items: seq<Item>): (e: Option<Error>)
    ensures e == None <==> forall i :: 0 <= i < |items| ==> LineError(s, items[i]) == None
    ensures e == None ==> forall i :: 0 <= i < |items| ==> items[i].0 in s && 0 < items[i].1 <= s[items[i].0]
  {
    FirstFailure(items, (item: Item) => LineError(s, item))
  }

  /** Validation reports the error of the first bad item and no other. */
  lemma ValidateStopsAt(s: Stocks, items: seq<Item>, k: nat)
    requires k < |items| && LineError(s, items[k]) != None
    requires forall i :: 0 <= i < k ==> LineError(s, items[i]) == None
    ensures Validate(s, items) == LineError(s, items[k])
  {
    FirstFailureAt(items, (item: Item) => LineError(s, item), k);
  }

  datatype CommitOutcome =
    | Done(stocks: Stocks)                  // every decrement was applied
    | Stopped(stocks: Stocks, at: string)   // the decrement of `at` failed

  /** The commit pass: decrement each item's stock in order, stopping at
      the first decrement that would leave a negative stock, with the
      earlier decrements kept. */
  function Commit(s: Stocks, items: seq<Item>): (c: CommitOutcome)
    requires forall i :: 0 <= i < |items| ==> items[i].0 in s
    ensures c.stocks.Keys == s.Keys
    decreases |items|
  {
    if items == [] then Done(s)
    else
      var (id, q) := items[|items| - 1];
      match Commit(s, items[..|items| - 1])
      case Stopped(t, at) => Stopped(t, at)
      case Done(t) => if t[id] - q < 0 then Stopped(t, id) else Done(t[id := t[id] - q])
  }

  /** One step of the commit pass: when every decrement before item `i`
      was applied, leaving `t`, item `i` is applied too if it leaves its
      product's stock non-negative, and stops the pass otherwise. */
  lemma CommitStep(s: Stocks, items: seq<Item>, i: nat, t: Stocks, id: string, q: int)
    requires forall j :: 0 <= j < |items| ==> items[j].0 in s
    requires i < |items| && items[i] == (id, q) && Commit(s, items[..i]) == Done(t)
    ensures t[id] - q < 0 ==> Commit(s, items[..i + 1]) == Stopped(t, id)
    ensures t[id] - q >= 0 ==> Commit(s, items[..i + 1]) == Done(t[id := t[id] - q])
  {
    assert items[..i + 1][..i] == items[..i];
  }

  /** Once the commit pass has stopped, later items change nothing: the
      outcome of the whole pass is the outcome at the stop. */
  lemma {:induction false} CommitStoppedPersists(s: Stocks, items: seq<Item>, n: nat)
    requires forall i :: 0 <= i < |items| ==> items[i].0 in s
    requires n <= |items| && Commit(s, items[..n]).Stopped?
    ensures Commit(s, items) == Commit(s, items[..n])
    decreases |items|
  {
    if n < |items| {
      var prefix := items[..|items| - 1];
      assert prefix[..n] == items[..n];
      CommitStoppedPersists(s, prefix, n);
    } else {
      assert items[..n] == items;
    }
  }

  /** The total quantity requested of product `k`. */
  function Requested(items: seq<Item>, k: string): int
    decreases |items|
  {
    if items == [] then 0
    else Requested(items[..|items| - 1], k) + (if items[|items| - 1].0 == k then items[|items| - 1].1 else 0)
  }

  /** The snapshot with every requested quantity taken off. */
  function Deduct(s: Stocks, items: seq<Item>): (t: Stocks)
    ensures t.Keys == s.Keys
  {
    map k | k in s :: s[k] - Requested(items, k)
  }

  /** Adding an item adds its quantity to the total of its product only. */
  lemma RequestedSnoc(items: seq<Item>, item: Item)
    ensures forall k :: Requested(items + [item], k) == Requested(items, k) + (if k == item.0 then item.1 else 0)
  {
    assert (items + [item])[..|items|] == items;
  }

  /** The commit pass applies every decrement exactly when, for every
      product, the total requested does not exceed its stock; it then
      deducts those totals. */
  lemma {:induction false} CommitCharacterized(s: Stocks, items: seq<Item>)
    requires NonNegative(s)
    requires forall i :: 0 <= i < |items| ==> items[i].0 in s && items[i].1 >= 0
    ensures Commit(s, items).Done? <==> forall k :: k in s ==> Requested(items, k) <= s[k]
    ensures Commit(s, items).Done? ==> Commit(s, items).stocks == Deduct(s, items)
    decreases |items|
  {
    if items == [] {
      assert Deduct(s, items) == s;
    } else {
      var n := |items| - 1;
      var prefix := items[..n];
      var (id, q) := items[n];
      assert prefix + [(id, q)] == items;
      RequestedSnoc(prefix, (id, q));
      CommitCharacterized(s, prefix);
      match Commit(s, prefix)
      case Stopped(_, _) =>
        var k :| k in s && Requested(prefix, k) > s[k];
        assert Requested(items, k) > s[k];
      case Done(t) =>
        DeductSnoc(s, prefix, (id, q));
        if t[id] - q < 0 {
          assert Requested(items, id) > s[id];
        }
    }
  }

  /** Adding an item takes its quantity off its own product only. */
  lemma DeductSnoc(s: Stocks, items: seq<Item>, item: Item)
    requires item.0 in s
    ensures Deduct(s, items + [item]) == Deduct(s, items)[item.0 := Deduct(s, items)[item.0] - item.1]
  {
    RequestedSnoc(items, item);
  }

  /** When the commit pass stops, it stops at some item `n`, with exactly
      the decrements of the items before `n` applied. */
  lemma {:induction false} CommitStopsAfterPrefix(s: Stocks, items: seq<Item>)
    requires NonNegative(s)
    requires forall i :: 0 <= i < |items| ==> items[i].0 in s && items[i].1 >= 0
    requires Commit(s, items).Stopped?
    ensures exists n :: 0 <= n < |items| && Commit(s, items).at == items[n].0 && Commit(s, items).stocks == Deduct(s, items[..n])
    decreases |items|
  {
    var n := |items| - 1;
    var prefix := items[..n];
    if Commit(s, prefix).Stopped? {
      CommitStopsAfterPrefix(s, prefix);
      var m :| 0 <= m < |prefix| && Commit(s, prefix).at == prefix[m].0 && Commit(s, prefix).stocks == Deduct(s, prefix[..m]);
      assert prefix[..m] == items[..m];
    } else {
      CommitCharacterized(s, prefix);
    }
  }

  /** With distinct ids, the total requested of a product is the quantity
      of its one item, or nothing. */
  lemma {:induction false} RequestedDistinct(items: seq<Item>)
    requires DistinctIds(items)
    ensures forall i :: 0 <= i < |items| ==> Requested(items, items[i].0) == items[i].1
    ensures forall k :: k !in Ids(items) ==> Requested(items, k) == 0
    decreases |items|
  {
    if items != [] {
      var n := |items| - 1;
      var prefix := items[..n];
      assert DistinctIds(prefix);
      RequestedDistinct(prefix);
      forall i | 0 <= i < |items|
        ensures Requested(items, items[i].0) == items[i].1
      {
        if i < n {
          assert prefix[i] == items[i];
          assert items[n].0 != items[i].0;
        } else {
          assert items[n].0 !in Ids(prefix);
        }
      }
      assert items == prefix + [items[n]];
      IdsSnoc(prefix, items[n]);
    }
  }

  lemma IdsSnoc(items: seq<Item>, item: Item)
    ensures Ids(items + [item]) == Ids(items) + {item.0}
  {
    var all := items + [item];
    forall x | x in Ids(items) ensures x in Ids(all) {
      var i :| 0 <= i < |items| && items[i].0 == x;
      assert all[i].0 == x;
    }
    assert all[|items|].0 == item.0;
  }

  /** All-or-nothing, for orders that name each product once: once every
      item has passed validation the commit pass applies every decrement,
      each named product loses exactly its item's quantity and keeps a
      non-negative stock, and every other product keeps its stock. */
  lemma DistinctIdsCommitFully(s: Stocks, items: seq<Item>)
    requires NonNegative(s) && DistinctIds(items) && Validate(s, items) == None
    ensures Commit(s, items) == Done(Deduct(s, items))
    ensures NonNegative(Deduct(s, items))
    ensures forall i :: 0 <= i < |items| ==> Deduct(s, items)[items[i].0] == s[items[i].0] - items[i].1
    ensures forall k :: k in s && k !in Ids(items) ==> Deduct(s, items)[k] == s[k]
  {
    RequestedDistinct(items);
    assert forall i :: 0 <= i < |items| ==> LineError(s, items[i]) == None;
    forall k | k in s ensures Requested(items, k) <= s[k] {
      if k in Ids(items) {
        var i :| 0 <= i < |items| && items[i].0 == k;
      }
    }
    CommitCharacterized(s, items);
  }

  /** What order placement does to the stock levels: the error it
      reports, if any, and the stock levels it leaves. */
  datatype Placement = Placement(error: Option<Error>, stocks: Stocks)

  /** Validation, then, when it passes, the commit pass; a decrement the
      commit pass refuses is reported as insufficient stock of that
      product. */
  function Place(s: Stocks, items: seq<Item>): (p: Placement)
    ensures Validate(s, items) != None ==> p == Placement(Validate(s, items), s)
  {
    match Validate(s, items)
    case Some(e) => Placement(Some(e), s)
    case None =>
      match Commit(s, items)
      case Stopped(t, at) => Placement(Some(InsufficientStock(at)), t)
      case Done(t) => Placement(None, t)
  }

  /** Placement succeeds exactly when every item passes validation and,
      for every product, the total requested does not exceed its stock;
      it then deducts those totals, leaving no stock negative. When it
      fails part-way through the commit pass, it leaves the stock levels
      with the decrements of some prefix of the items applied. */
  lemma PlaceCharacterized(s: Stocks, items: seq<Item>)
    requires NonNegative(s)
    ensures Place(s, items).error == None <==>
      Validate(s, items) == None && forall k :: k in s ==> Requested(items, k) <= s[k]
    ensures Place(s, items).error == None ==>
      Place(s, items).stocks == Deduct(s, items) && NonNegative(Place(s, items).stocks)
    ensures Place(s, items).error != None ==>
      exists n :: 0 <= n <= |items| && Place(s, items).stocks == Deduct(s, items[..n])
  {
    if Validate(s, items) == None {
      CommitCharacterized(s, items);
      if Commit(s, items).Stopped? {
        CommitStopsAfterPrefix(s, items);
      }
    } else {
      assert Deduct(s, items[..0]) == s;
    }
  }

  /** All-or-nothing, for orders that name each product once: a failed
      placement leaves every stock level as it was, and a successful one
      takes exactly each item's quantity off its product and leaves every
      other product as it was. */
  lemma PlaceAllOrNothing(s: Stocks, items: seq<Item>)
    requires NonNegative(s) && DistinctIds(items)
    ensures Place(s, items).error != None ==> Place(s, items).stocks == s
    ensures Place(s, items).error == None ==>
      forall i :: 0 <= i < |items| ==> Place(s, items).stocks[items[i].0] == s[items[i].0] - items[i].1
    ensures Place(s, items).error == None ==>
      forall k :: k in s && k !in Ids(items) ==> Place(s, items).stocks[k] == s[k]
  {
    if Validate(s, items) == None {
      DistinctIdsCommitFully(s, items);
    }
  }

  /** A repeated product id defeats all-or-nothing: two items of 3 units of
      a product with 5 in stock each pass validation, and the commit pass
      applies the first decrement, then stops at the second with 2 units
      left. */
  lemma RepeatedIdCommitsPartially()
    ensures Validate(map["p" := 5], [("p", 3), ("p", 3)]) == None
    ensures Commit(map["p" := 5], [("p", 3), ("p", 3)]) == Stopped(map["p" := 2], "p")
    ensures Place(map["p" := 5], [("p", 3), ("p", 3)]) == Placement(Some(InsufficientStock("p")), map["p" := 2])
  {
    var items: seq<Item> := [("p", 3), ("p", 3)];
    assert LineError(map["p" := 5], items[0]) == None;
    assert LineError(map["p" := 5], items[1]) == None;
    var first: seq<Item> := [("p", 3)];
    assert items[..1] == first && first[..0] == [];
    assert Commit(map["p" := 5], items[..1]) == Done(map["p" := 2]);
  }
}
