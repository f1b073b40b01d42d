/** sort.Slice and sort.SliceStable by a numeric key. */
module Sorting {

  function InsertBy<T>(x: T, xs: seq<T>, key: T -> int): (r: seq<T>)
    ensures multiset(r) == multiset(xs) + multiset{x}
  {
    if xs == [] || key(x) <= key(xs[0]) then
      assert xs == [] || xs == [xs[0]] + xs[1..];
      [x] + xs
    else
      assert xs == [xs[0]] + xs[1..];
      [xs[0]] + InsertBy(x, xs[1..], key)
  }

  /** The stable sort, ascending by key. */
  function SortBy<T>(xs: seq<T>, key: T -> int): (r: seq<T>)
    ensures multiset(r) == multiset(xs)
  {
    if xs == [] then []
    else
      assert xs == [xs[0]] + xs[1..];
      InsertBy(xs[0], SortBy(xs[1..], key), key)
  }

  ghost predicate SortedBy<T>(xs: seq<T>, key: T -> int) {
    forall i, j | 0 <= i < j < |xs| :: key(xs[i]) <= key(xs[j])
  }

  lemma {:induction false} InsertBySorted<T>(x: T, xs: seq<T>, key: T -> int)
    requires SortedBy(xs, key)
    ensures SortedBy(InsertBy(x, xs, key), key)
  {
    if xs != [] && key(x) > key(xs[0]) {
      var rest := InsertBy(x, xs[1..], key);
      InsertBySorted(x, xs[1..], key);
      forall j | 0 <= j < |rest| ensures key(xs[0]) <= key(rest[j]) {
        assert rest[j] in multiset(rest);
        assert rest[j] == x || rest[j] in xs[1..];
      }
    }
  }

  lemma {:induction false} SortBySorted<T>(xs: seq<T>, key: T -> int)
    ensures SortedBy(SortBy(xs, key), key)
  {
    if xs != [] {
      SortBySorted(xs[1..], key);
      InsertBySorted(xs[0], SortBy(xs[1..], key), key);
    }
  }

  /** The elements with key c, in order. */
  function Select<T>(xs: seq<T>, key: T -> int, c: int): seq<T> {
    if xs == [] then []
    else (if key(xs[0]) == c then [xs[0]] else []) + Select(xs[1..], key, c)
  }

  lemma SelectCons<T>(x: T, xs: seq<T>, key: T -> int, c: int)
    ensures Select([x] + xs, key, c) == (if key(x) == c then [x] else []) + Select(xs, key, c)
  {
    assert ([x] + xs)[1..] == xs;
  }

  lemma {:induction false} InsertByStable<T>(x: T, xs: seq<T>, key: T -> int, c: int)
    ensures Select(InsertBy(x, xs, key), key, c) == (if key(x) == c then [x] else []) + Select(xs, key, c)
  {
    hide Select;
    if xs != [] && key(x) > key(xs[0]) {
      InsertByStable(x, xs[1..], key, c);
      SelectCons(xs[0], InsertBy(x, xs[1..], key), key, c);
      assert xs == [xs[0]] + xs[1..];
      SelectCons(xs[0], xs[1..], key, c);
    } else {
      SelectCons(x, xs, key, c);
    }
  }

  /** Elements with equal keys keep their order. */
  lemma {:induction false} SortByStable<T>(xs: seq<T>, key: T -> int, c: int)
    ensures Select(SortBy(xs, key), key, c) == Select(xs, key, c)
  {
    if xs != [] {
      SortByStable(xs[1..], key, c);
      InsertByStable(xs[0], SortBy(xs[1..], key), key, c);
    }
  }
}
