/** Keeps a list of buffers in block order, as the transfer list of a swap-out is kept. */
module BlockOrder {
  ghost predicate Ascending<T>(block: T -> int, list: seq<T>) {
    forall i, j | 0 <= i < j < |list| :: block(list[i]) < block(list[j])
  }

  /** The place of `x` is searched from the end: right behind the last element with a smaller block. */
  function Place<T>(block: T -> int, list: seq<T>, x: T): seq<T>
    decreases |list|
  {
    if list == [] then [x]
    else
      var last := list[|list| - 1];
      if block(x) > block(last) then list + [x] else Place(block, list[..|list| - 1], x) + [last]
  }

  lemma {:induction false} PlaceAdds<T>(block: T -> int, list: seq<T>, x: T)
    ensures multiset(Place(block, list, x)) == multiset(list) + multiset{x}
    ensures forall y :: y in Place(block, list, x) <==> y == x || y in list
    decreases |list|
  {
    if list != [] {
      var front := list[..|list| - 1];
      assert list == front + [list[|list| - 1]];
      PlaceAdds(block, front, x);
    }
  }

  ghost predicate Below<T>(block: T -> int, list: seq<T>, bound: int) {
    forall i | 0 <= i < |list| :: block(list[i]) < bound
  }

  lemma {:induction false} PlaceBelow<T>(block: T -> int, list: seq<T>, x: T, bound: int)
    requires Below(block, list, bound) && block(x) < bound
    ensures Below(block, Place(block, list, x), bound)
    decreases |list|
  {
    if list != [] {
      PlaceBelow(block, list[..|list| - 1], x, bound);
    }
  }

  lemma Appended<T>(block: T -> int, list: seq<T>, last: T)
    ensures Ascending(block, list + [last]) <==> Ascending(block, list) && Below(block, list, block(last))
  {
    var s := list + [last];
    if Ascending(block, s) {
      forall i | 0 <= i < |list| ensures block(list[i]) < block(last) {
        assert block(s[i]) < block(s[|list|]);
      }
      forall i, j | 0 <= i < j < |list| ensures block(list[i]) < block(list[j]) {
        assert block(s[i]) < block(s[j]);
      }
    }
  }

  /** A list in order stays in order, if no element has the new block already. */
  lemma {:induction false} PlaceAscends<T>(block: T -> int, list: seq<T>, x: T)
    requires Ascending(block, list) && forall i | 0 <= i < |list| :: block(list[i]) != block(x)
    ensures Ascending(block, Place(block, list, x))
    decreases |list|
  {
    hide Ascending, Below;
    if list == [] {
      Appended(block, [], x);
      Lone(block, x);
    } else {
      var last, front := list[|list| - 1], list[..|list| - 1];
      assert list == front + [last];
      Appended(block, front, last);
      if block(x) > block(last) {
        Raised(block, front, last, block(x));
        Appended(block, list, x);
      } else {
        PlaceAscends(block, front, x);
        PlaceBelow(block, front, x, block(last));
        Appended(block, Place(block, front, x), last);
      }
    }
  }

  lemma Lone<T>(block: T -> int, x: T)
    ensures Ascending(block, [x])
  {
  }

  lemma Raised<T>(block: T -> int, front: seq<T>, last: T, bound: int)
    requires Below(block, front, block(last)) && block(last) < bound
    ensures Below(block, front + [last], bound)
  {
  }
}
