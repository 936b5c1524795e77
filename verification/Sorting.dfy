/**
 Sorting as the library promises it (`sort.Slice`): the result is a sorted permutation, and where each element goes
 depends on the keys alone, since nothing else is compared; but elements of one key may come in any order.
 */
module Sorting {
  import opened Bytes

  /** Place `i` of the result takes element `order(keys)[i]`. */
  type Order = seq<int> -> seq<nat>

  function Places(from: nat, n: nat): (p: seq<nat>)
    requires from <= n
    ensures |p| == n - from && forall i :: 0 <= i < |p| ==> p[i] == from + i
    decreases n - from
  {
    if from == n then [] else [from] + Places(from + 1, n)
  }

  /** `p` names every place once, in the order of the keys. */
  ghost predicate Arranges(p: seq<nat>, keys: seq<int>) {
    && multiset(p) == multiset(Places(0, |keys|))
    && (forall i :: 0 <= i < |p| ==> p[i] < |keys|)
    && (forall i, k :: 0 <= i < k < |p| ==> keys[p[i]] <= keys[p[k]])
  }

  /** What every sorting function satisfies. */
  ghost predicate Sorts(order: Order) {
    forall keys :: Arranges(order(keys), keys)
  }

  function Keys<T>(key: T -> int, s: seq<T>): (keys: seq<int>)
    ensures |keys| == |s| && forall i :: 0 <= i < |s| ==> keys[i] == key(s[i])
  {
    seq(|s|, i requires 0 <= i < |s| => key(s[i]))
  }

  function Pick<T>(s: seq<T>, p: seq<nat>): (r: seq<T>)
    requires forall i :: 0 <= i < |p| ==> p[i] < |s|
    ensures |r| == |p| && forall i :: 0 <= i < |p| ==> r[i] == s[p[i]]
  {
    seq(|p|, i requires 0 <= i < |p| => s[p[i]])
  }

  function Sort<T>(order: Order, key: T -> int, s: seq<T>): seq<T>
    requires Sorts(order)
  {
    assert Arranges(order(Keys(key, s)), Keys(key, s));
    Pick(s, order(Keys(key, s)))
  }

  predicate SortedBy<T>(key: T -> int, s: seq<T>) {
    forall i, j :: 0 <= i < j < |s| ==> key(s[i]) <= key(s[j])
  }

  // ---- A sorted permutation ----

  lemma PickWithout<T>(s: seq<T>, p: seq<nat>, i: nat)
    requires i < |p| && forall k :: 0 <= k < |p| ==> p[k] < |s|
    ensures var rest := p[..i] + p[i + 1..];
            && multiset(p) == multiset(rest) + multiset{p[i]}
            && (forall k :: 0 <= k < |rest| ==> rest[k] < |s|)
            && multiset(Pick(s, p)) == multiset(Pick(s, rest)) + multiset{s[p[i]]}
  {
    var rest, all := p[..i] + p[i + 1..], Pick(s, p);
    MultisetWithout(p, i);
    MultisetWithout(all, i);
    assert Pick(s, rest) == all[..i] + all[i + 1..];
  }

  lemma {:induction false} PickPermutes<T>(s: seq<T>, p: seq<nat>, q: seq<nat>)
    requires forall i :: 0 <= i < |p| ==> p[i] < |s|
    requires forall i :: 0 <= i < |q| ==> q[i] < |s|
    requires multiset(p) == multiset(q)
    ensures multiset(Pick(s, p)) == multiset(Pick(s, q))
    decreases |p|
  {
    if p == [] {
      assert |multiset(q)| == 0;
      assert q == [];
    } else {
      hide Pick;
      var i := Position(p[0], q, multiset(p));
      PickWithout(s, p, 0);
      PickWithout(s, q, i);
      var p', q' := p[..0] + p[1..], q[..i] + q[i + 1..];
      CancelOne(multiset(p'), multiset(q'), p[0]);
      PickPermutes(s, p', q');
    }
  }

  lemma SortSorts<T>(order: Order, key: T -> int, s: seq<T>)
    requires Sorts(order)
    ensures SortedBy(key, Sort(order, key, s)) && multiset(Sort(order, key, s)) == multiset(s)
  {
    var keys := Keys(key, s);
    var p := order(keys);
    assert Arranges(p, keys);
    PickPermutes(s, p, Places(0, |s|));
    PickPlaces(s);
  }

  // ---- When the sorting function does not matter ----

  /** Elements of one key are equal. */
  ghost predicate KeysTell<T(!new)>(key: T -> int, m: multiset<T>) {
    forall x, y :: x in m && y in m && key(x) == key(y) ==> x == y
  }

  lemma SameHead<T(!new)>(key: T -> int, a: seq<T>, b: seq<T>)
    requires SortedBy(key, a) && SortedBy(key, b) && multiset(a) == multiset(b) && a != [] && b != []
    requires KeysTell(key, multiset(a))
    ensures a[0] == b[0]
  {
    assert a[0] in multiset(b) && b[0] in multiset(a);
    var i :| 0 <= i < |a| && a[i] == b[0];
    var k :| 0 <= k < |b| && b[k] == a[0];
    assert key(a[0]) <= key(a[i]) && key(b[0]) <= key(b[k]);
  }

  lemma DropHead<T(!new)>(key: T -> int, s: seq<T>)
    requires s != [] && SortedBy(key, s)
    ensures multiset(s) == multiset(s[1..]) + multiset{s[0]} && SortedBy(key, s[1..])
    ensures KeysTell(key, multiset(s)) ==> KeysTell(key, multiset(s[1..]))
  {
    assert s == [s[0]] + s[1..];
  }

  /** Where elements of one key are equal there is only one sorted arrangement. */
  lemma {:induction false} SortedIsUnique<T(!new)>(key: T -> int, a: seq<T>, b: seq<T>)
    requires SortedBy(key, a) && SortedBy(key, b) && multiset(a) == multiset(b) && KeysTell(key, multiset(a))
    ensures a == b
  {
    hide SortedBy, KeysTell;
    assert |a| == |multiset(a)| && |b| == |multiset(b)|;
    if a != [] {
      SameHead(key, a, b);
      DropHead(key, a);
      DropHead(key, b);
      CancelOne(multiset(a[1..]), multiset(b[1..]), a[0]);
      SortedIsUnique(key, a[1..], b[1..]);
      assert a == [a[0]] + a[1..] && b == [b[0]] + b[1..];
    }
  }

  function Swapped<T>(s: seq<T>, i: nat, k: nat): seq<T>
    requires i < |s| && k < |s|
  {
    s[i := s[k]][k := s[i]]
  }

  lemma SwapPermutes<T>(s: seq<T>, i: nat, k: nat)
    requires i < k < |s|
    ensures multiset(Swapped(s, i, k)) == multiset(s)
  {
  }

  /** Like `order`, but for these keys with two places exchanged. */
  function Otherwise(order: Order, keys: seq<int>, i: nat, k: nat): Order
    requires i < |order(keys)| && k < |order(keys)|
  {
    keys' => if keys' == keys then Swapped(order(keys), i, k) else order(keys')
  }

  lemma SwappedArranges(p: seq<nat>, keys: seq<int>, i: nat, k: nat)
    requires Arranges(p, keys) && i < k < |p| && keys[p[i]] == keys[p[k]]
    ensures Arranges(Swapped(p, i, k), keys)
  {
    SwapPermutes(p, i, k);
    var q := Swapped(p, i, k);
    assert forall l :: 0 <= l < |p| ==> q[l] < |keys| && keys[q[l]] == keys[p[l]];
  }

  lemma OtherwiseSorts(order: Order, keys: seq<int>, i: nat, k: nat)
    requires Sorts(order) && i < k < |order(keys)| && Arranges(order(keys), keys)
    requires keys[order(keys)[i]] == keys[order(keys)[k]]
    ensures Sorts(Otherwise(order, keys, i, k))
  {
    SwappedArranges(order(keys), keys, i, k);
    hide Arranges, Swapped;
    forall keys'
      ensures Arranges(Otherwise(order, keys, i, k)(keys'), keys')
    {
      assert Arranges(order(keys'), keys');
    }
  }

  /** All sorting functions give the same exactly when elements of one key are equal. */
  lemma SortDoesNotMatterIff<T(!new)>(order: Order, key: T -> int, s: seq<T>)
    requires Sorts(order)
    ensures (forall order': Order | Sorts(order') :: Sort(order', key, s) == Sort(order, key, s))
       <==> KeysTell(key, multiset(s))
  {
    hide Sort, SortedBy;
    var a := Sort(order, key, s);
    SortSorts(order, key, s);
    if KeysTell(key, multiset(s)) {
      forall order': Order | Sorts(order')
        ensures Sort(order', key, s) == a
      {
        SortSorts(order', key, s);
        SortedIsUnique(key, Sort(order', key, s), a);
      }
    } else {
      var x, y :| x in multiset(a) && y in multiset(a) && key(x) == key(y) && x != y;
      var i, k :| 0 <= i < |a| && 0 <= k < |a| && a[i] == x && a[k] == y;
      if i < k {
        AnotherSort(order, key, s, i, k);
      } else {
        AnotherSort(order, key, s, k, i);
      }
    }
  }

  lemma AnotherSort<T>(order: Order, key: T -> int, s: seq<T>, i: nat, k: nat)
    requires Sorts(order) && i < k < |Sort(order, key, s)|
    requires key(Sort(order, key, s)[i]) == key(Sort(order, key, s)[k])
    ensures i < k < |order(Keys(key, s))|
    ensures var order' := Otherwise(order, Keys(key, s), i, k);
            Sorts(order') && Sort(order', key, s) == Swapped(Sort(order, key, s), i, k)
  {
    var keys := Keys(key, s);
    assert Arranges(order(keys), keys);
    OtherwiseSorts(order, keys, i, k);
    var order' := Otherwise(order, keys, i, k);
    assert Arranges(order'(keys), keys);
    assert Sort(order', key, s) == Pick(s, Swapped(order(keys), i, k));
  }

  // ---- A sorting function ----

  ghost predicate Ascending(keys: seq<int>, p: seq<nat>) {
    && (forall i :: 0 <= i < |p| ==> p[i] < |keys|)
    && (forall i, k :: 0 <= i < k < |p| ==> keys[p[i]] <= keys[p[k]])
  }

  /** Insertion by key, before elements of the same key. */
  function Insert(keys: seq<int>, i: nat, p: seq<nat>): seq<nat>
    requires i < |keys| && Ascending(keys, p)
  {
    if p == [] then [i]
    else if keys[i] <= keys[p[0]] then [i] + p
    else
      AscendingTail(keys, p);
      [p[0]] + Insert(keys, i, p[1..])
  }

  lemma AscendingTail(keys: seq<int>, p: seq<nat>)
    requires Ascending(keys, p) && p != []
    ensures Ascending(keys, p[1..]) && p[0] < |keys|
    ensures forall k :: k in multiset(p[1..]) ==> k < |keys| && keys[p[0]] <= keys[k]
    ensures multiset(p) == multiset(p[1..]) + multiset{p[0]}
  {
    assert p == [p[0]] + p[1..];
  }

  lemma AscendingCons(keys: seq<int>, i: nat, p: seq<nat>)
    requires i < |keys| && Ascending(keys, p) && forall k :: k in multiset(p) ==> k < |keys| && keys[i] <= keys[k]
    ensures Ascending(keys, [i] + p)
  {
    assert forall k :: 0 <= k < |p| ==> p[k] in multiset(p);
  }

  lemma Cons(x: nat, s: seq<nat>)
    ensures multiset([x] + s) == multiset(s) + multiset{x}
  {
  }

  /** Insertion behind the first place. */
  lemma InsertBehind(keys: seq<int>, i: nat, first: nat, tail: seq<nat>, rest: seq<nat>)
    requires i < |keys| && first < |keys| && keys[first] <= keys[i] && Ascending(keys, rest)
    requires forall k :: k in multiset(tail) ==> k < |keys| && keys[first] <= keys[k]
    requires multiset(rest) == multiset(tail) + multiset{i}
    ensures Ascending(keys, [first] + rest)
    ensures multiset([first] + rest) == multiset(tail) + multiset{first} + multiset{i}
  {
    hide Ascending;
    forall k | k in multiset(rest)
      ensures k < |keys| && keys[first] <= keys[k]
    {
      assert k == i || k in multiset(tail);
    }
    AscendingCons(keys, first, rest);
    Cons(first, rest);
  }

  lemma {:induction false} InsertArranges(keys: seq<int>, i: nat, p: seq<nat>)
    requires i < |keys| && Ascending(keys, p)
    ensures multiset(Insert(keys, i, p)) == multiset(p) + multiset{i} && Ascending(keys, Insert(keys, i, p))
  {
    if p == [] {
      assert Insert(keys, i, p) == [i];
    } else {
      AscendingTail(keys, p);
      if keys[i] <= keys[p[0]] {
        AscendingCons(keys, i, p);
        Cons(i, p);
      } else {
        var rest := Insert(keys, i, p[1..]);
        assert Insert(keys, i, p) == [p[0]] + rest;
        hide Ascending, Insert;
        InsertArranges(keys, i, p[1..]);
        InsertBehind(keys, i, p[0], p[1..], rest);
      }
    }
  }

  function InsertionFrom(keys: seq<int>, from: nat): (p: seq<nat>)
    requires from <= |keys|
    ensures Ascending(keys, p)
    decreases |keys| - from
  {
    if from == |keys| then []
    else
      var rest := InsertionFrom(keys, from + 1);
      InsertArranges(keys, from, rest);
      Insert(keys, from, rest)
  }

  lemma {:induction false} InsertionPermutes(keys: seq<int>, from: nat)
    requires from <= |keys|
    ensures multiset(InsertionFrom(keys, from)) == multiset(Places(from, |keys|))
    decreases |keys| - from
  {
    if from < |keys| {
      hide Ascending, Insert;
      InsertionPermutes(keys, from + 1);
      InsertArranges(keys, from, InsertionFrom(keys, from + 1));
      Cons(from, Places(from + 1, |keys|));
    }
  }

  /** Insertion sort, which keeps elements of one key in order. */
  function InOrder(keys: seq<int>): (p: seq<nat>)
    ensures Arranges(p, keys) && |p| == |keys|
  {
    var p := InsertionFrom(keys, 0);
    InsertionPermutes(keys, 0);
    assert |p| == |multiset(p)| && |Places(0, |keys|)| == |multiset(Places(0, |keys|))|;
    p
  }

  lemma InOrderSorts()
    ensures Sorts(InOrder)
  {
    hide InOrder;
  }

  // ---- Sorting what is sorted ----

  predicate Ordered(keys: seq<int>) {
    forall i, k :: 0 <= i < k < |keys| ==> keys[i] <= keys[k]
  }

  /** The sorting function leaves alone what is sorted, which not every one does. */
  ghost predicate KeepsSorted(order: Order) {
    forall keys | Ordered(keys) :: order(keys) == Places(0, |keys|)
  }

  lemma SortKeepsSorted<T>(order: Order, key: T -> int, s: seq<T>)
    requires Sorts(order) && KeepsSorted(order) && SortedBy(key, s)
    ensures Sort(order, key, s) == s
  {
    hide Places, Keys, Pick;
    var keys := Keys(key, s);
    assert Ordered(keys);
    hide Ordered, SortedBy;
    assert order(keys) == Places(0, |s|);
    hide KeepsSorted;
    PickPlaces(s);
  }

  lemma PickPlaces<T>(s: seq<T>)
    ensures Pick(s, Places(0, |s|)) == s
  {
    hide Places, Pick;
  }

  lemma InsertFirst(keys: seq<int>, i: nat, p: seq<nat>)
    requires i < |keys| && Ascending(keys, p) && (p != [] ==> p[0] < |keys| && keys[i] <= keys[p[0]])
    ensures Insert(keys, i, p) == [i] + p
  {
    hide Ascending;
  }

  lemma OrderedNext(keys: seq<int>, i: nat)
    requires Ordered(keys) && i + 1 < |keys|
    ensures keys[i] <= keys[i + 1]
  {
  }

  lemma InsertionStep(keys: seq<int>, from: nat)
    requires from < |keys|
    ensures Ascending(keys, InsertionFrom(keys, from + 1))
    ensures InsertionFrom(keys, from) == Insert(keys, from, InsertionFrom(keys, from + 1))
  {
    hide Insert, Ascending, Places;
  }

  lemma {:induction false} InsertionKeepsSorted(keys: seq<int>, from: nat)
    requires from <= |keys| && Ordered(keys)
    ensures InsertionFrom(keys, from) == Places(from, |keys|)
    decreases |keys| - from
  {
    if from < |keys| {
      hide Insert, Ascending, Ordered, InsertionFrom;
      var rest := Places(from + 1, |keys|);
      InsertionKeepsSorted(keys, from + 1);
      InsertionStep(keys, from);
      if from + 1 < |keys| {
        OrderedNext(keys, from);
      }
      InsertFirst(keys, from, rest);
    }
  }

  lemma InOrderKeepsSorted()
    ensures KeepsSorted(InOrder)
  {
    hide Ordered;
    forall keys | Ordered(keys)
      ensures InOrder(keys) == Places(0, |keys|)
    {
      InsertionKeepsSorted(keys, 0);
    }
  }
}
