// A stable sort by an integer key, as a function on sequences.
module StableSort {

  ghost predicate Ordered<T>(key: T -> int, xs: seq<T>) {
    forall i, j :: 0 <= i < j < |xs| ==> key(xs[i]) <= key(xs[j])
  }

  // Puts `x` behind everything whose key is not greater.
  function Insert<T>(key: T -> int, x: T, xs: seq<T>): seq<T> {
    if xs == [] then [x]
    else
      var last := xs[|xs| - 1];
      if key(last) <= key(x) then xs + [x] else Insert(key, x, xs[..|xs| - 1]) + [last]
  }

  function Sorted<T>(key: T -> int, xs: seq<T>): seq<T> {
    if xs == [] then [] else Insert(key, xs[|xs| - 1], Sorted(key, xs[..|xs| - 1]))
  }

  lemma {:induction false} InsertKeeps<T>(key: T -> int, x: T, xs: seq<T>)
    ensures multiset(Insert(key, x, xs)) == multiset(xs) + multiset{x}
  {
    if xs == [] {
    } else {
      var init, last := xs[..|xs| - 1], xs[|xs| - 1];
      assert xs == init + [last];
      InsertKeeps(key, x, init);
    }
  }

  lemma {:induction false} InsertBelow<T>(key: T -> int, x: T, xs: seq<T>, bound: int)
    requires key(x) <= bound && forall i :: 0 <= i < |xs| ==> key(xs[i]) <= bound
    ensures forall i :: 0 <= i < |Insert(key, x, xs)| ==> key(Insert(key, x, xs)[i]) <= bound
  {
    if xs == [] {
    } else {
      InsertBelow(key, x, xs[..|xs| - 1], bound);
    }
  }

  lemma {:induction false} InsertOrders<T>(key: T -> int, x: T, xs: seq<T>)
    requires Ordered(key, xs)
    ensures Ordered(key, Insert(key, x, xs))
  {
    if xs == [] {
    } else {
      var n := |xs| - 1;
      var init, last := xs[..n], xs[n];
      if key(last) <= key(x) {
        forall i | 0 <= i < |xs| ensures key(xs[i]) <= key(x) { assert i < n ==> key(xs[i]) <= key(xs[n]); }
      } else {
        InsertOrders(key, x, init);
        InsertBelow(key, x, init, key(last));
      }
    }
  }

  lemma {:induction false} SortedSorts<T>(key: T -> int, xs: seq<T>)
    ensures Ordered(key, Sorted(key, xs)) && multiset(Sorted(key, xs)) == multiset(xs)
  {
    if xs == [] {
    } else {
      var init, last := xs[..|xs| - 1], xs[|xs| - 1];
      assert xs == init + [last];
      SortedSorts(key, init);
      InsertOrders(key, last, Sorted(key, init));
      InsertKeeps(key, last, Sorted(key, init));
    }
  }
}
