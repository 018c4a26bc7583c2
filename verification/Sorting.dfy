/** Sorting by a key: what `sort` of the source leaves, for any total comparison. */
module Sorting {

  ghost predicate Total<T(!new)>(before: (T, T) -> bool) {
    forall a, b :: before(a, b) || before(b, a)
  }

  predicate Increasing<T>(before: (T, T) -> bool, items: seq<T>) {
    |items| <= 1 || (before(items[0], items[1]) && Increasing(before, items[1..]))
  }

  function Insert<T(!new)>(before: (T, T) -> bool, x: T, items: seq<T>): (r: seq<T>)
    ensures |r| == |items| + 1 && (r[0] == x || (items != [] && r[0] == items[0]))
    ensures Total(before) && Increasing(before, items) ==> Increasing(before, r)
  {
    if items == [] || before(x, items[0]) then
      assert ([x] + items)[1..] == items;
      [x] + items
    else
      var rest := Insert(before, x, items[1..]);
      assert ([items[0]] + rest)[1..] == rest;
      [items[0]] + rest
  }

  /** The items in increasing order; equal ones keep the order they had. */
  function Sorted<T(!new)>(before: (T, T) -> bool, items: seq<T>): (r: seq<T>)
    ensures |r| == |items|
    ensures Total(before) ==> Increasing(before, r)
  {
    if items == [] then [] else Insert(before, items[0], Sorted(before, items[1..]))
  }

  lemma {:induction false} InsertPermutes<T(!new)>(before: (T, T) -> bool, x: T, items: seq<T>)
    ensures multiset(Insert(before, x, items)) == multiset(items) + multiset{x}
  {
    if items != [] && !before(x, items[0]) {
      InsertPermutes(before, x, items[1..]);
      assert items == [items[0]] + items[1..];
    }
  }

  lemma {:induction false} SortPermutes<T(!new)>(before: (T, T) -> bool, items: seq<T>)
    ensures multiset(Sorted(before, items)) == multiset(items)
  {
    hide Insert;
    if items != [] {
      SortPermutes(before, items[1..]);
      InsertPermutes(before, items[0], Sorted(before, items[1..]));
      assert items == [items[0]] + items[1..];
    }
  }
}
