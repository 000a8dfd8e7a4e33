/** The tree of links and the set of descriptors that stands for it in the protocol behave alike. */
module CacheTree {
  import opened Basics
  import opened CacheState
  import opened CacheSteps
  import H = AvlHeap
  import T = BufferTree

  /** The tree holds the descriptors that the protocol says are in it, under their keys. */
  ghost predicate Mirrors(keys: seq<Key>, ids: seq<int>, c: Cache) {
    && |keys| == |c.bufs| && (forall i: nat :: i in c.tree <==> i in ids)
    && (forall i: nat | i in c.tree && i < |keys| :: keys[i] == c.bufs[i].key)
  }

  /** What the search says is what the look-up says, whichever descriptor that picks. */
  lemma SameFound(keys: seq<Key>, ids: seq<int>, c: Cache, key: Key, p: int)
    requires T.Sorted(keys, ids) && Mirrors(keys, ids, c)
    requires if T.Absent(keys, ids, key) then p == H.NULL else p in ids && T.InKeys(keys, p) && keys[p] == key
    ensures Find(c, key) == if T.Absent(keys, ids, key) then None else Some(p)
  {
    if T.Absent(keys, ids, key) {
      forall i: nat | i in c.tree && i < |c.bufs| ensures c.bufs[i].key != key {
        var j :| 0 <= j < |ids| && ids[j] == i;
      }
    } else {
      forall i: nat | i in c.tree && i < |c.bufs| && c.bufs[i].key == key ensures i == p {
        OneKey(keys, ids, i, p);
      }
      assert p in c.tree && c.bufs[p].key == key;
    }
  }

  lemma OneKey(keys: seq<Key>, ids: seq<int>, x: int, y: int)
    requires T.Sorted(keys, ids) && x in ids && y in ids && T.InKeys(keys, x) && T.InKeys(keys, y) && keys[x] == keys[y]
    ensures x == y
  {
    var i :| 0 <= i < |ids| && ids[i] == x;
    var j :| 0 <= j < |ids| && ids[j] == y;
    assert i < j ==> T.Less(keys[x], keys[y]);
    assert j < i ==> T.Less(keys[y], keys[x]);
  }

  lemma InsertedMembers(a: seq<int>, b: seq<int>, node: int)
    requires T.Inserted(a, b, node)
    ensures forall i :: i in b <==> i in a || i == node
  {
    var m :| 0 <= m <= |a| && b == a[..m] + [node] + a[m..];
    assert a == a[..m] + a[m..];
  }

  /** `rtems_bdbuf_avl_search` is the look-up of the protocol. */
  method Search(t: T.BufferTree, ghost c: Cache, key: Key) returns (p: int)
    requires t.Valid() && Mirrors(t.keys, t.Contents(), c)
    ensures Find(c, key) == if p == H.NULL then None else Some(p)
  {
    p := t.Search(key);
    SameFound(t.keys, t.Contents(), c, key, p);
  }

  /** `rtems_bdbuf_setup_empty_buffer`: the insertion fails exactly where the protocol has its fatal error. */
  method Setup(t: T.BufferTree, ghost c: Cache, b: nat, key: Key) returns (ok: bool)
    requires t.Valid() && Mirrors(t.keys, t.Contents(), c) && b < |c.bufs| && b !in c.tree
    modifies t
    ensures t.Valid()
    ensures var o := CacheSteps.Setup(c, b, key); ok == o.Next? && (ok ==> Mirrors(t.keys, t.Contents(), o.cache))
  {
    ghost var keys, ids := t.keys, t.Contents();
    ghost var p := AnyWith(keys, ids, key);
    SameFound(keys, ids, c, key, p);
    ok := t.Assign(b, key);
    if ok {
      InsertedMembers(ids, t.Contents(), b);
    }
  }

  lemma AnyWith(keys: seq<Key>, ids: seq<int>, key: Key) returns (p: int)
    requires T.Sorted(keys, ids)
    ensures if T.Absent(keys, ids, key) then p == H.NULL else p in ids && T.InKeys(keys, p) && keys[p] == key
  {
    if T.Absent(keys, ids, key) {
      p := H.NULL;
    } else {
      var i :| 0 <= i < |ids| && keys[ids[i]] == key;
      p := ids[i];
    }
  }

  /** `rtems_bdbuf_remove_from_tree`: exactly this descriptor leaves the set, and the fatal error does not occur. */
  method Remove(t: T.BufferTree, ghost c: Cache, b: nat) returns (r: int)
    requires t.Valid() && Mirrors(t.keys, t.Contents(), c) && b < |c.bufs| && b in c.tree
    modifies t
    ensures t.Valid() && r == 0 && Mirrors(t.keys, t.Contents(), c.(tree := c.tree - {b}))
  {
    r := t.Remove(b);
  }
}
