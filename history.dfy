/** A customer's order history: the orders of one customer, sorted by date
    with a stable sort, so that orders of the same date keep the order in
    which they were placed. */
module History {
  import opened Orders

  /** The orders placed by the customer with id `uid`, in placement order. */
  function OfCustomer(os: seq<Order>, uid: string): (r: seq<Order>)
    ensures forall i :: 0 <= i < |r| ==> r[i].customer.id == uid && r[i] in os
    ensures forall i :: 0 <= i < |os| && os[i].customer.id == uid ==> os[i] in r
    decreases |os|
  {
    if os == [] then []
    else
      var prefix := os[..|os| - 1];
      var last := os[|os| - 1];
      var r := OfCustomer(prefix, uid);
      assert forall j :: 0 <= j < |prefix| ==> prefix[j] == os[j];
      if last.customer.id == uid then r + [last] else r
  }

  /** The orders of date `d`, in the order they appear. */
  function WithDate(os: seq<Order>, d: int): seq<Order>
    decreases |os|
  {
    if os == [] then []
    else WithDate(os[..|os| - 1], d) + (if os[|os| - 1].date == d then [os[|os| - 1]] else [])
  }

  predicate SortedByDate(os: seq<Order>) {
    forall i, j :: 0 <= i < j < |os| ==> os[i].date <= os[j].date
  }

  /** Insert `x` into `t` after every order whose date is not later. */
  function Insert(t: seq<Order>, x: Order): seq<Order>
    decreases |t|
  {
    if t == [] || t[|t| - 1].date <= x.date then t + [x]
    else Insert(t[..|t| - 1], x) + [t[|t| - 1]]
  }

  /** Insertion sort by date, taking the orders from first to last. */
  function SortByDate(os: seq<Order>): seq<Order>
    decreases |os|
  {
    if os == [] then [] else Insert(SortByDate(os[..|os| - 1]), os[|os| - 1])
  }

  lemma WithDateSnoc(os: seq<Order>, x: Order, d: int)
    ensures WithDate(os + [x], d) == WithDate(os, d) + (if x.date == d then [x] else [])
  {
    assert (os + [x])[..|os|] == os;
  }

  lemma OfCustomerSnoc(os: seq<Order>, x: Order, uid: string)
    ensures OfCustomer(os + [x], uid) == OfCustomer(os, uid) + (if x.customer.id == uid then [x] else [])
  {
    assert (os + [x])[..|os|] == os;
  }

  /** Filtering by customer keeps placement order: the customer's orders of
      date `d` are, in order, the orders of date `d` that belong to them. */
  lemma {:induction false} OfCustomerKeepsOrder(os: seq<Order>, uid: string)
    ensures forall d :: WithDate(OfCustomer(os, uid), d) == OfCustomer(WithDate(os, d), uid)
    decreases |os|
  {
    if os != [] {
      var p, x := os[..|os| - 1], os[|os| - 1];
      assert os == p + [x];
      OfCustomerKeepsOrder(p, uid);
      forall d ensures WithDate(OfCustomer(os, uid), d) == OfCustomer(WithDate(os, d), uid) {
        OfCustomerSnoc(p, x, uid);
        WithDateSnoc(p, x, d);
        WithDateSnoc(OfCustomer(p, uid), x, d);
        OfCustomerSnoc(WithDate(p, d), x, uid);
        assert OfCustomer(WithDate(p, d) + [], uid) == OfCustomer(WithDate(p, d), uid) by {
          assert WithDate(p, d) + [] == WithDate(p, d);
        }
        assert OfCustomer(p, uid) + [] == OfCustomer(p, uid);
      }
    }
  }

  lemma {:induction false} InsertPermutes(t: seq<Order>, x: Order)
    ensures multiset(Insert(t, x)) == multiset(t) + multiset{x}
    decreases |t|
  {
    if t != [] && t[|t| - 1].date > x.date {
      var n := |t| - 1;
      assert t == t[..n] + [t[n]];
      InsertPermutes(t[..n], x);
    }
  }

  lemma {:induction false} InsertSorted(t: seq<Order>, x: Order)
    requires SortedByDate(t)
    ensures SortedByDate(Insert(t, x))
    decreases |t|
  {
    if t != [] && t[|t| - 1].date > x.date {
      var n := |t| - 1;
      var prefix, y := t[..n], t[n];
      assert SortedByDate(prefix);
      InsertSorted(prefix, x);
      InsertPermutes(prefix, x);
      var ins := Insert(prefix, x);
      forall i | 0 <= i < |ins| ensures ins[i].date <= y.date {
        assert ins[i] in multiset(ins);
        if ins[i] != x {
          assert ins[i] in multiset(prefix);
          var j :| 0 <= j < |prefix| && prefix[j] == ins[i];
          assert t[j] == prefix[j];
        }
      }
      assert Insert(t, x) == ins + [y];
    }
  }

  lemma {:induction false} InsertWithDate(t: seq<Order>, x: Order, d: int)
    ensures WithDate(Insert(t, x), d) == WithDate(t, d) + (if x.date == d then [x] else [])
    decreases |t|
  {
    if t == [] || t[|t| - 1].date <= x.date {
      WithDateSnoc(t, x, d);
    } else {
      var n := |t| - 1;
      var prefix, y := t[..n], t[n];
      assert t == prefix + [y];
      InsertWithDate(prefix, x, d);
      WithDateSnoc(Insert(prefix, x), y, d);
      WithDateSnoc(prefix, y, d);
    }
  }

  /** The sort returns the orders sorted by date, as a permutation of its
      input, and stably: for every date, the orders of that date come in
      the order they had in the input. These three properties fix the
      result uniquely. */
  lemma {:induction false} SortByDateCorrect(os: seq<Order>)
    ensures SortedByDate(SortByDate(os))
    ensures multiset(SortByDate(os)) == multiset(os)
    ensures forall d :: WithDate(SortByDate(os), d) == WithDate(os, d)
    decreases |os|
  {
    if os != [] {
      var n := |os| - 1;
      var prefix, x := os[..n], os[n];
      assert os == prefix + [x];
      SortByDateCorrect(prefix);
      InsertSorted(SortByDate(prefix), x);
      InsertPermutes(SortByDate(prefix), x);
      forall d ensures WithDate(SortByDate(os), d) == WithDate(os, d) {
        InsertWithDate(SortByDate(prefix), x, d);
        WithDateSnoc(prefix, x, d);
      }
    }
  }
}
