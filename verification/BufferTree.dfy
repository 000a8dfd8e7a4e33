/**
 The tree of the block buffer cache: pointer surgery on the links of the buffer descriptors, with an
 explicit stack of parents instead of recursion.
 */
module BufferTree {
  import opened Basics
  import opened AvlModel
  import opened AvlHeap

  predicate Less(a: Key, b: Key) {
    a.dd < b.dd || (a.dd == b.dd && a.block < b.block)
  }

  ghost predicate Sorted(keys: seq<Key>, ids: seq<int>) {
    && (forall i | 0 <= i < |ids| :: 0 <= ids[i] < |keys|)
    && (forall i, j | 0 <= i < j < |ids| :: Less(keys[ids[i]], keys[ids[j]]))
  }

  // ---- order ----

  lemma SortedParts(keys: seq<Key>, a: seq<int>, b: seq<int>)
    requires Sorted(keys, a + b)
    ensures Sorted(keys, a) && Sorted(keys, b)
    ensures forall i, j | 0 <= i < |a| && 0 <= j < |b| :: Less(keys[a[i]], keys[b[j]])
  {
    var s := a + b;
    assert forall i | 0 <= i < |a| :: s[i] == a[i];
    assert forall j | 0 <= j < |b| :: s[|a| + j] == b[j];
  }

  lemma SortedJoin(keys: seq<Key>, a: seq<int>, b: seq<int>)
    requires Sorted(keys, a) && Sorted(keys, b)
    requires forall i, j | 0 <= i < |a| && 0 <= j < |b| :: Less(keys[a[i]], keys[b[j]])
    ensures Sorted(keys, a + b)
  {
  }

  lemma SortedUnique(keys: seq<Key>, s: seq<int>)
    requires Sorted(keys, s)
    ensures Unique(s) && |s| <= |keys|
  {
    UniqueCount(s, |keys|);
  }

  ghost predicate AllBelow(keys: seq<Key>, ids: seq<int>, key: Key) {
    forall i | 0 <= i < |ids| :: 0 <= ids[i] < |keys| && Less(keys[ids[i]], key)
  }

  ghost predicate AllAbove(keys: seq<Key>, ids: seq<int>, key: Key) {
    forall i | 0 <= i < |ids| :: 0 <= ids[i] < |keys| && Less(key, keys[ids[i]])
  }

  /** No buffer in `ids` has the key. */
  ghost predicate Absent(keys: seq<Key>, ids: seq<int>, key: Key) {
    forall i | 0 <= i < |ids| :: 0 <= ids[i] < |keys| && keys[ids[i]] != key
  }

  // ---- the search path ----

  /** The stacked path leads to a subtree outside which every key lies on the right side of `key`. */
  ghost predicate Descending(h: seq<Link>, root: int, ctx: seq<Frame>, p: int, t: Tree, keys: seq<Key>, key: Key, whole: seq<int>) {
    && Path(h, root, ctx, p) && Shape(h, p, t) && |h| == |keys|
    && Balanced(t) && FitsHeight(ctx, Height(t)) && |ctx| + Height(t) <= MAX_HEIGHT
    && Whole(ctx, t) == whole && AllBelow(keys, Before(ctx), key) && AllAbove(keys, After(ctx), key)
  }

  lemma LeftBelow(keys: seq<Key>, t: Tree, key: Key)
    requires t.T? && Sorted(keys, InOrder(t)) && InKeys(keys, t.id) && Less(keys[t.id], key)
    ensures AllBelow(keys, InOrder(t.left) + [t.id], key)
  {
    var a := InOrder(t.left);
    SortedParts(keys, a + [t.id], InOrder(t.right));
    SortedParts(keys, a, [t.id]);
    assert [t.id][0] == t.id;
  }

  lemma RightAbove(keys: seq<Key>, t: Tree, key: Key)
    requires t.T? && Sorted(keys, InOrder(t)) && InKeys(keys, t.id) && Less(key, keys[t.id])
    ensures AllAbove(keys, [t.id] + InOrder(t.right), key)
  {
    var a, c := InOrder(t.left) + [t.id], InOrder(t.right);
    SortedParts(keys, a, c);
    assert a[|a| - 1] == t.id;
  }

  lemma DescendBounds(ctx: seq<Frame>, t: Tree, keys: seq<Key>, key: Key, whole: seq<int>, dir: int)
    requires t.T? && Whole(ctx, t) == whole && Sorted(keys, whole)
    requires AllBelow(keys, Before(ctx), key) && AllAbove(keys, After(ctx), key)
    requires InKeys(keys, t.id)
    requires (dir == 1 && Less(keys[t.id], key)) || (dir == -1 && Less(key, keys[t.id]))
    ensures var ctx' := ctx + [FrameOf(t, dir)];
            AllBelow(keys, Before(ctx'), key) && AllAbove(keys, After(ctx'), key)
  {
    hide InOrder, Less, Sorted;
    InitOfPush(ctx, FrameOf(t, dir));
    SortedParts(keys, Before(ctx) + InOrder(t), After(ctx));
    SortedParts(keys, Before(ctx), InOrder(t));
    if dir == 1 {
      LeftBelow(keys, t, key);
    } else {
      RightAbove(keys, t, key);
    }
  }

  predicate InKeys(keys: seq<Key>, i: int) {
    0 <= i < |keys|
  }

  lemma DescendStep(h: seq<Link>, root: int, ctx: seq<Frame>, t: Tree, keys: seq<Key>, key: Key, whole: seq<int>, dir: int)
    requires t.T? && Descending(h, root, ctx, t.id, t, keys, key, whole) && Sorted(keys, whole)
    requires InKeys(keys, t.id)
    requires (dir == 1 && Less(keys[t.id], key)) || (dir == -1 && Less(key, keys[t.id]))
    ensures var h' := h[t.id := h[t.id].(cache := dir)];
            Descending(h', root, ctx + [FrameOf(t, dir)], Child(h'[t.id], dir), Toward(t, dir), keys, key, whole)
  {
    hide Path, Shape, Balanced, FitsHeight, Height, Whole, Before, After, AllBelow, AllAbove, Sorted, Less;
    SortedUnique(keys, whole);
    PushPath(h, root, ctx, t, dir);
    PushWhole(ctx, t, dir);
    PushHeight(ctx, t, dir);
    DescendBounds(ctx, t, keys, key, whole, dir);
  }

  lemma LessTotal(a: Key, b: Key)
    ensures Less(a, b) || Less(b, a) || a == b
  {
  }

  lemma AbsentBounds(keys: seq<Key>, ids: seq<int>, key: Key)
    ensures AllBelow(keys, ids, key) || AllAbove(keys, ids, key) ==> Absent(keys, ids, key)
  {
  }

  lemma AbsentJoin(keys: seq<Key>, a: seq<int>, b: seq<int>, key: Key)
    requires Absent(keys, a, key) && Absent(keys, b, key)
    ensures Absent(keys, a + b, key)
  {
  }

  /** Keys on the other side of a node are out of the question. */
  lemma SearchSide(keys: seq<Key>, t: Tree, key: Key)
    requires t.T? && Sorted(keys, InOrder(t)) && InKeys(keys, t.id) && keys[t.id] != key
    ensures Sorted(keys, InOrder(t.left)) && Sorted(keys, InOrder(t.right))
    ensures forall i | i in InOrder(t.left) || i in InOrder(t.right) :: i in InOrder(t)
    ensures Less(keys[t.id], key) && Absent(keys, InOrder(t.right), key) ==> Absent(keys, InOrder(t), key)
    ensures !Less(keys[t.id], key) && Absent(keys, InOrder(t.left), key) ==> Absent(keys, InOrder(t), key)
    ensures t.left.T? ==> InKeys(keys, t.left.id)
    ensures t.right.T? ==> InKeys(keys, t.right.id)
  {
    hide Absent, Less, Sorted;
    var a, b, c := InOrder(t.left), [t.id], InOrder(t.right);
    SortedParts(keys, a + b, c);
    SortedParts(keys, a, b);
    RootInKeys(keys, t.left);
    RootInKeys(keys, t.right);
    LessTotal(keys[t.id], key);
    if Less(keys[t.id], key) {
      LeftBelow(keys, t, key);
      AbsentBounds(keys, a + b, key);
      if Absent(keys, c, key) {
        AbsentJoin(keys, a + b, c, key);
      }
    } else {
      RightAbove(keys, t, key);
      AbsentBounds(keys, b + c, key);
      if Absent(keys, a, key) {
        AbsentJoin(keys, a, b + c, key);
        assert a + (b + c) == InOrder(t);
      }
    }
  }

  lemma RootInKeys(keys: seq<Key>, t: Tree)
    requires Sorted(keys, InOrder(t))
    ensures t.T? ==> InKeys(keys, t.id)
  {
    if t.T? {
      assert InOrder(t)[|InOrder(t.left)|] == t.id;
    }
  }

  lemma NilAbsent(keys: seq<Key>, t: Tree, key: Key)
    requires t.Nil?
    ensures Absent(keys, InOrder(t), key)
  {
  }

  /** The first `k` stack slots name the nodes of the context. */
  ghost predicate StackShows(stack: seq<int>, k: nat, ctx: seq<Frame>) {
    k == |ctx| <= |stack| && forall i | 0 <= i < k :: stack[i] == ctx[i].id
  }

  /** What one rebalancing step of an insertion does to heights and order. */
  lemma GrowFacts(ctx: seq<Frame>, t: Tree)
    requires ctx != [] && Grown(t) && Height(t) > 0 && FitsHeight(ctx, Height(t) - 1)
    requires Last(ctx).dir == -1 || Last(ctx).dir == 1
    ensures var whole := Graft(Last(ctx), t);
            if Last(ctx).dir == -1 then
              && (whole.bal == -1 ==> whole.left.T? && (whole.left.bal != -1 ==> whole.left.right.T?))
              && Raised(Init(ctx), whole, GrownLeft(whole))
            else
              && (whole.bal == 1 ==> whole.right.T? && (whole.right.bal != 1 ==> whole.right.left.T?))
              && Raised(Init(ctx), whole, GrownRight(whole))
  {
    hide FitsHeight, Height, Balanced, InOrder, GrownLeft, GrownRight, Grown;
    HeightStep(ctx, Height(t) - 1);
    GrownBalanced(t);
    if Last(ctx).dir == -1 {
      GrownLeftCorrect(Graft(Last(ctx), t));
    } else {
      GrownRightCorrect(Graft(Last(ctx), t));
    }
  }

  lemma ShrinkFacts(ctx: seq<Frame>, t: Tree)
    requires ctx != [] && Balanced(t) && FitsHeight(ctx, Height(t) + 1)
    requires Last(ctx).dir == -1 || Last(ctx).dir == 1
    ensures var whole := Graft(Last(ctx), t);
            if Last(ctx).dir == -1 then
              && (whole.bal == 1 ==> whole.right.T? && (whole.right.bal < 0 ==> whole.right.left.T?))
              && Lowered(Init(ctx), whole, ShrunkLeft(whole))
            else
              && (whole.bal == -1 ==> whole.left.T? && (whole.left.bal > 0 ==> whole.left.right.T?))
              && Lowered(Init(ctx), whole, ShrunkRight(whole))
  {
    hide FitsHeight, Height, Balanced, InOrder, ShrunkLeft, ShrunkRight;
    HeightStep(ctx, Height(t) + 1);
    if Last(ctx).dir == -1 {
      ShrunkLeftCorrect(Graft(Last(ctx), t));
    } else {
      ShrunkRightCorrect(Graft(Last(ctx), t));
    }
  }

  /** The rebalanced subtree keeps the order and suits the context, if need be one level lower. */
  ghost predicate Lowered(ctx: seq<Frame>, whole: Tree, r: Rebalanced) {
    && InOrder(r.tree) == InOrder(whole) && Balanced(r.tree)
    && FitsHeight(ctx, Height(r.tree) + if r.modified then 1 else 0)
  }

  lemma AtRoot(t: Tree, modified: bool)
    requires if modified then Grown(t) else Balanced(t)
    ensures Balanced(t) && FitsHeight([], Height(t))
  {
  }

  lemma GrownBalanced(t: Tree)
    requires Grown(t)
    ensures t.T? && Balanced(t)
  {
  }

  /** The rebalanced subtree keeps the order and suits the context, if need be one level higher. */
  ghost predicate Raised(ctx: seq<Frame>, whole: Tree, r: Rebalanced) {
    && InOrder(r.tree) == InOrder(whole)
    && if r.modified then Grown(r.tree) && Height(r.tree) > 0 && FitsHeight(ctx, Height(r.tree) - 1)
       else Balanced(r.tree) && FitsHeight(ctx, Height(r.tree))
  }

  lemma SameWhole(ctx: seq<Frame>, t: Tree, t': Tree)
    requires InOrder(t) == InOrder(t')
    ensures Whole(ctx, t) == Whole(ctx, t')
  {
  }

  /** A path and the tree in its hole make the tree of the root. */
  lemma Plugged(h: seq<Link>, root: int, ctx: seq<Frame>, p: int, t: Tree)
    requires Path(h, root, ctx, p) && Shape(h, p, t) && Balanced(t) && FitsHeight(ctx, Height(t))
    ensures var whole := Plug(ctx, t); Shape(h, root, whole) && Balanced(whole) && InOrder(whole) == Whole(ctx, t)
  {
    PathShape(h, root, ctx, p, t);
    PlugBalanced(ctx, t);
    PlugInOrder(ctx, t);
  }

  ghost predicate Inserted(a: seq<int>, b: seq<int>, node: int) {
    exists i {:trigger a[..i]} :: 0 <= i <= |a| && b == a[..i] + [node] + a[i..]
  }

  ghost predicate SameAllLinks(h: seq<Link>, h': seq<Link>) {
    |h'| == |h| && forall i | 0 <= i < |h| :: SameLinks(h[i], h'[i])
  }

  lemma SingleTree(h: seq<Link>, h': seq<Link>, t: Tree, node: int, keys: seq<Key>)
    requires Shape(h, NULL, t) && InRange(h, node) && |h| == |keys|
    requires h' == h[node := h[node].(left := NULL, right := NULL, bal := 0)]
    ensures var t' := T(Nil, node, 0, Nil);
            && Shape(h', node, t') && Balanced(t') && Sorted(keys, InOrder(t'))
            && Absent(keys, InOrder(t), keys[node]) && Inserted(InOrder(t), InOrder(t'), node)
  {
    var t' := T(Nil, node, 0, Nil);
    assert InOrder(t) == [] && InOrder(t') == [node];
    assert InOrder(t') == InOrder(t)[..0] + [node] + InOrder(t)[0..];
  }

  lemma StartDescent(h: seq<Link>, root: int, t: Tree, keys: seq<Key>, key: Key)
    requires Shape(h, root, t) && Balanced(t) && Sorted(keys, InOrder(t)) && |h| == |keys| <= MAX_NODES
    ensures Descending(h, root, [], root, t, keys, key, InOrder(t))
    ensures root != NULL ==> t.T? && root == t.id && InKeys(keys, root)
  {
    SortedUnique(keys, InOrder(t));
    HeightBound(t);
    RootInKeys(keys, t);
    assert Whole([], t) == InOrder(t);
  }

  lemma ShapeRoot(h: seq<Link>, p: int, t: Tree)
    requires Shape(h, p, t)
    ensures if p == NULL then t == Nil else t.T? && p == t.id && InRange(h, p)
  {
  }

  lemma FoundDuplicate(h: seq<Link>, h': seq<Link>, root: int, tree: Tree, ctx: seq<Frame>, t: Tree, keys: seq<Key>, key: Key)
    requires Shape(h, root, tree) && SameAllLinks(h, h') && Whole(ctx, t) == InOrder(tree)
    requires t.T? && InKeys(keys, t.id) && keys[t.id] == key
    ensures Shape(h', root, tree) && !Absent(keys, InOrder(tree), key)
  {
    ShapeFrame(h, h', root, tree);
    var i := |Before(ctx)| + |InOrder(t.left)|;
    assert Whole(ctx, t)[i] == InOrder(t)[|InOrder(t.left)|] == t.id;
  }

  /** At the end of the search path there is room for exactly the new key. */
  lemma LeafReady(h: seq<Link>, root: int, ctx: seq<Frame>, keys: seq<Key>, whole: seq<int>, node: int)
    requires InKeys(keys, node) && Sorted(keys, whole)
    requires Descending(h, root, ctx, NULL, Nil, keys, keys[node], whole)
    ensures var t := T(Nil, node, 0, Nil);
            && Sorted(keys, Whole(ctx, t)) && Unique(Whole(ctx, t)) && Inserted(whole, Whole(ctx, t), node)
            && Grown(t) && Height(t) == 1 && FitsHeight(ctx, Height(t) - 1)
    ensures Absent(keys, whole, keys[node])
  {
    hide Path, FitsHeight, Before, After, Less;
    var t := T(Nil, node, 0, Nil);
    var a, b := Before(ctx), After(ctx);
    assert whole == a + b;
    LeafInOrder(node);
    SortedParts(keys, a, b);
    SortedLeaf(keys, a, node, b);
    SortedUnique(keys, Whole(ctx, t));
    assert whole[..|a|] == a && whole[|a|..] == b;
    AbsentBounds(keys, a, keys[node]);
    AbsentBounds(keys, b, keys[node]);
    AbsentJoin(keys, a, b, keys[node]);
  }

  lemma LeafInOrder(node: int)
    ensures InOrder(Nil) == [] && InOrder(T(Nil, node, 0, Nil)) == [node]
  {
  }

  lemma SortedLeaf(keys: seq<Key>, a: seq<int>, node: int, b: seq<int>)
    requires Sorted(keys, a) && Sorted(keys, b) && InKeys(keys, node)
    requires AllBelow(keys, a, keys[node]) && AllAbove(keys, b, keys[node])
    requires forall i, j | 0 <= i < |a| && 0 <= j < |b| :: Less(keys[a[i]], keys[b[j]])
    ensures Sorted(keys, a + [node] + b)
  {
    SortedJoin(keys, a, [node]);
    SortedJoin(keys, a + [node], b);
  }

  lemma RightOf(h: seq<Link>, t: Tree)
    requires t.T? && InRange(h, t.id) && Shape(h, t.id, t)
    ensures h[t.id].right == NULL <==> t.right.Nil?
    ensures t.right.T? ==> h[t.id].right == t.right.id && InRange(h, t.right.id)
  {
  }

  lemma RightLeaning(h: seq<Link>, t: Tree)
    requires t.T? && t.right.T? && Shape(h, t.id, t) && Balanced(t)
    requires InRange(h, t.id) && InRange(h, t.right.id) && h[t.right.id].left == NULL
    ensures t.right.left.Nil? && LeftSpine(h, h[t.id].right, [], t.right.id, t.right, t.right)
  {
    ShapeNode(h, t.right);
    ShapeRoot(h, h[t.right.id].left, t.right.left);
    LeftSpineStart(h, h[t.id].right, t.right);
  }

  lemma HeightOfRight(t: Tree)
    requires t.T? && t.right.T?
    ensures Height(t) >= 2
  {
  }

  lemma SpineFacts(h: seq<Link>, top: int, inner: seq<Frame>, s: int, ts: Tree, whole: Tree)
    requires LeftSpine(h, top, inner, s, ts, whole)
    ensures Shape(h, s, ts) && |inner| + Height(ts) <= Height(whole)
    ensures if s == NULL then ts == Nil else ts.T? && s == ts.id && InRange(h, s)
    ensures ts.T? ==> (h[s].left == NULL <==> ts.left.Nil?)
    ensures Height(ts) == 0 ==> ts == Nil
    ensures inner == [] ==> s == top
  {
    if ts.T? {
      ShapeNode(h, ts);
      ShapeRoot(h, h[s].left, ts.left);
    }
  }

  lemma ChangedNothing(h: seq<Link>, ids: seq<int>)
    ensures ChangedOnly(h, h, ids)
  {
  }

  lemma ChangedMore(h: seq<Link>, h': seq<Link>, i: int, l: Link, ids: seq<int>)
    requires ChangedOnly(h, h', ids) && InRange(h', i) && i in ids
    ensures ChangedOnly(h, h'[i := l], ids)
  {
  }

  lemma ChangedTwice(h: seq<Link>, h1: seq<Link>, h2: seq<Link>, ids: seq<int>, more: seq<int>)
    requires ChangedOnly(h, h1, ids) && ChangedOnly(h1, h2, more) && forall i | i in ids :: i in more
    ensures ChangedOnly(h, h2, more)
  {
  }

  /** The node taken out, its successor, and the successor's parent are three nodes. */
  lemma SpineNodes(h: seq<Link>, t: Tree, inner: seq<Frame>, ts: Tree, top: int)
    requires t.T? && t.right.T? && Unique(InOrder(t)) && ts.T? && ts.left.Nil?
    requires LeftSpine(h, top, inner, ts.id, ts, t.right)
    ensures t.id != ts.id && (inner != [] ==> Last(inner).id != ts.id && Last(inner).id != t.id)
    ensures inner != [] ==> InRange(h, Last(inner).id)
  {
    NodeApart(t);
    SpineUnique(inner, ts, t.right);
    hide InOrder;
    if inner != [] {
      SpineDirection(inner);
      assert Last(inner).id in After(inner);
    }
  }

  ghost predicate Removed(keys: seq<Key>, a: seq<int>, b: seq<int>, key: Key) {
    exists i {:trigger a[..i]} :: 0 <= i < |a| && InKeys(keys, a[i]) && keys[a[i]] == key && b == a[..i] + a[i + 1..]
  }

  lemma CutOut(a: seq<int>, i: nat)
    requires Unique(a) && i < |a|
    ensures forall x :: x in a[..i] + a[i + 1..] <==> x in a && x != a[i]
  {
    forall x | x in a && x != a[i] ensures x in a[..i] + a[i + 1..] {
      var m :| 0 <= m < |a| && a[m] == x;
      assert if m < i then a[..i][m] == x else a[i + 1..][m - i - 1] == x;
    }
  }

  lemma SameKeySamePlace(keys: seq<Key>, a: seq<int>, i: nat, j: nat)
    requires Sorted(keys, a) && i < |a| && j < |a| && keys[a[i]] == keys[a[j]]
    ensures i == j
  {
    assert j < i ==> Less(keys[a[j]], keys[a[i]]);
    assert i < j ==> Less(keys[a[i]], keys[a[j]]);
  }

  /** If the node itself is in the tree, it is the one with its key that is taken out. */
  lemma RemovedNode(keys: seq<Key>, a: seq<int>, b: seq<int>, node: int)
    requires Sorted(keys, a) && InKeys(keys, node) && Removed(keys, a, b, keys[node])
    ensures node in a ==> forall i :: i in b <==> i in a && i != node
  {
    var i :| 0 <= i < |a| && InKeys(keys, a[i]) && keys[a[i]] == keys[node] && b == a[..i] + a[i + 1..];
    SortedUnique(keys, a);
    CutOut(a, i);
    if node in a {
      var j :| 0 <= j < |a| && a[j] == node;
      SameKeySamePlace(keys, a, i, j);
    }
  }

  lemma PresentNode(keys: seq<Key>, t: Tree, node: int)
    requires InKeys(keys, node) && Absent(keys, InOrder(t), keys[node])
    ensures node !in InOrder(t)
  {
  }

  lemma NotFound(h: seq<Link>, h': seq<Link>, root: int, tree: Tree, ctx: seq<Frame>, keys: seq<Key>, key: Key)
    requires Shape(h, root, tree) && SameAllLinks(h, h') && Whole(ctx, Nil) == InOrder(tree)
    requires AllBelow(keys, Before(ctx), key) && AllAbove(keys, After(ctx), key)
    ensures Shape(h', root, tree) && Absent(keys, InOrder(tree), key)
  {
    hide Before, After, AllBelow, AllAbove, Absent;
    ShapeFrame(h, h', root, tree);
    AbsentBounds(keys, Before(ctx), key);
    AbsentBounds(keys, After(ctx), key);
    AbsentJoin(keys, Before(ctx), After(ctx), key);
    assert Whole(ctx, Nil) == Before(ctx) + After(ctx);
  }

  /** Taking one element out of a sorted sequence leaves it sorted. */
  lemma SortedWithout(keys: seq<Key>, a: seq<int>, x: int, b: seq<int>)
    requires Sorted(keys, a + [x] + b)
    ensures Sorted(keys, a + b)
  {
    var s := a + [x] + b;
    assert forall i | 0 <= i < |a + b| :: (a + b)[i] == s[if i < |a| then i else i + 1];
  }

  /** Once a subtree has lost its root, the whole has lost exactly that node. */
  lemma Withdrawn(h: seq<Link>, r: int, ctx: seq<Frame>, c: seq<Frame>, hole: int, t: Tree, t': Tree, keys: seq<Key>, key: Key, whole: seq<int>)
    requires t.T? && Detached(h, r, c, hole, t', t) && Whole(ctx, t) == whole && Sorted(keys, whole)
    requires InKeys(keys, t.id) && keys[t.id] == key && FitsHeight(ctx, Height(t))
    ensures Sorted(keys, Whole(ctx + c, t')) && Unique(Whole(ctx + c, t')) && Removed(keys, whole, Whole(ctx + c, t'), key)
    ensures Whole(ctx, Plug(c, t')) == Whole(ctx + c, t') && Shape(h, r, Plug(c, t'))
    ensures FitsHeight(ctx + c, Height(t') + 1) && Balanced(t')
  {
    hide Before, After, Sorted, Path, Shape, FitsHeight, Height, ContextHeight, Balanced, Plug;
    PathShape(h, r, c, hole, t');
    PlugInOrder(c, t');
    WholeJoin(ctx, c, t');
    FitsJoin(ctx, c, Height(t') + 1);
    WithdrawnOrder(Before(ctx), InOrder(t.left), t.id, InOrder(t.right), After(ctx), keys, key);
    SortedUnique(keys, Whole(ctx + c, t'));
  }

  lemma WithdrawnOrder(a: seq<int>, l: seq<int>, x: int, r: seq<int>, b: seq<int>, keys: seq<Key>, key: Key)
    requires Sorted(keys, a + (l + [x] + r) + b) && InKeys(keys, x) && keys[x] == key
    ensures Sorted(keys, a + (l + r) + b) && Removed(keys, a + (l + [x] + r) + b, a + (l + r) + b, key)
  {
    hide Sorted;
    var s := a + (l + [x] + r) + b;
    var i := |a + l|;
    assert s == (a + l) + [x] + (r + b) && a + (l + r) + b == (a + l) + (r + b);
    SortedWithout(keys, a + l, x, r + b);
    assert s[..i] == a + l && s[i] == x && s[i + 1..] == r + b;
  }

  /** After relinking, one path leads through the old context and the new one to the hole. */
  lemma Rejoined(h: seq<Link>, h': seq<Link>, root: int, r: int, ctx: seq<Frame>, c: seq<Frame>, hole: int, t: Tree, t': Tree)
    requires t.T? && Detached(h, r, c, hole, t', t) && Unique(Whole(ctx + c, t'))
    requires Path(h', root, ctx, r) && ChangedOnly(h, h', Before(ctx) + After(ctx))
    ensures Path(h', root, ctx + c, hole) && Shape(h', hole, t')
  {
    hide Before, After, Shape, FitsHeight, Height, ContextHeight, Balanced, Path;
    WholeJoin(ctx, c, t');
    UniqueParts(Before(ctx) + Whole(c, t'), After(ctx));
    UniqueParts(Before(ctx), Whole(c, t'));
    PathFrame(h, h', r, c, hole);
    ShapeFrame(h, h', hole, t');
    PathJoin(h', root, ctx, r, c, hole);
  }

  /** The walk stands at the subtree `t`; below the sentinel, the stack holds its ancestors. */
  ghost predicate WalkingAt(h: seq<Link>, root: int, tree: Tree, ctx: seq<Frame>, t: Tree, stack: seq<int>, prev: nat, cur: int) {
    && t.T? && cur == t.id && Plug(ctx, t) == tree && Shape(h, root, tree)
    && prev == |ctx| < |stack| && stack[0] == NULL
    && (forall i | 0 <= i < |ctx| :: stack[i + 1] == ctx[i].id && (ctx[i].dir == -1 || ctx[i].dir == 1))
  }

  lemma {:induction false} PlugShape(h: seq<Link>, root: int, ctx: seq<Frame>, t: Tree)
    requires t.T? && Shape(h, root, Plug(ctx, t))
    ensures Shape(h, t.id, t) && InRange(h, t.id)
    decreases |ctx|
  {
    if ctx != [] {
      PlugShape(h, root, Init(ctx), Graft(Last(ctx), t));
    }
  }

  lemma WalkNode(h: seq<Link>, root: int, tree: Tree, ctx: seq<Frame>, t: Tree, stack: seq<int>, prev: nat, cur: int)
    requires WalkingAt(h, root, tree, ctx, t, stack, prev, cur) && Height(tree) <= |stack|
    ensures InRange(h, cur)
    ensures if t.left.T? then h[cur].left == t.left.id else h[cur].left == NULL
    ensures if t.right.T? then h[cur].right == t.right.id else h[cur].right == NULL
    ensures t.left.T? || t.right.T? ==> prev + 1 < |stack|
    ensures t.left.T? ==> t.left.id != NULL
    ensures t.right.T? ==> t.right.id != NULL
    ensures PreOrder(t) == [cur] + (PreOrder(t.left) + PreOrder(t.right))
    ensures t.left.Nil? ==> PreOrder(t.left) == []
    ensures t.right.Nil? ==> PreOrder(t.right) == []
  {
    hide Plug;
    PlugShape(h, root, ctx, t);
    ShapeNode(h, t);
    ShapeRoot(h, h[cur].left, t.left);
    ShapeRoot(h, h[cur].right, t.right);
    PlugHeight(ctx, t);
    NodeFacts(t);
    NodeFacts(t.left);
    NodeFacts(t.right);
  }

  /** What the top of the stack tells about the frame above the current subtree. */
  lemma WalkUp(h: seq<Link>, root: int, tree: Tree, ctx: seq<Frame>, t: Tree, stack: seq<int>, prev: nat, cur: int)
    requires WalkingAt(h, root, tree, ctx, t, stack, prev, cur) && Unique(InOrder(tree))
    ensures stack[prev] == NULL <==> ctx == []
    ensures ctx == [] ==> Rest(ctx) == []
    ensures ctx != [] ==> var f := Last(ctx);
            && InRange(h, f.id) && stack[prev] == f.id
            && WalkingAt(h, root, tree, Init(ctx), Graft(f, t), stack, prev - 1, f.id)
            && Rest(ctx) == (if f.dir == -1 then PreOrder(f.sib) else []) + Rest(Init(ctx))
            && (if f.dir == 1 then h[f.id].right == cur
                else h[f.id].right != cur && if f.sib.Nil? then h[f.id].right == NULL && PreOrder(f.sib) == []
                                             else h[f.id].right == f.sib.id != NULL)
  {
    if ctx != [] {
      var f := Last(ctx);
      var g := Graft(f, t);
      PlugShape(h, root, Init(ctx), g);
      ShapeNode(h, g);
      ShapeRoot(h, h[g.id].right, g.right);
      PlugUnique(Init(ctx), g, tree);
      NodeApart(g);
      WalkChildren(g);
    }
  }

  lemma WalkChildren(g: Tree)
    requires g.T? && Unique(InOrder(g)) && forall x | x in InOrder(g.left) :: x !in InOrder(g.right)
    ensures g.left.T? && g.right.T? ==> g.left.id != g.right.id
  {
    if g.left.T? && g.right.T? {
      assert g.left.id in InOrder(g.left) && g.right.id in InOrder(g.right);
    }
  }

  lemma PlugUnique(ctx: seq<Frame>, t: Tree, tree: Tree)
    requires Plug(ctx, t) == tree && Unique(InOrder(tree))
    ensures Unique(InOrder(t))
  {
    hide InOrder;
    PlugInOrder(ctx, t);
    WholeApart(ctx, t);
  }

  lemma WalkBounds(keys: seq<Key>, t: Tree)
    requires Sorted(keys, InOrder(t)) && |keys| <= MAX_NODES && Balanced(t)
    ensures Height(t) <= MAX_HEIGHT && Unique(InOrder(t))
  {
    SortedUnique(keys, InOrder(t));
    HeightBound(t);
  }

  lemma WalkStart(h: seq<Link>, root: int, t: Tree, stack: seq<int>)
    requires Shape(h, root, t) && |stack| > 0 && stack[0] == NULL
    ensures Plug([], t) == t && Rest([]) == [] && (t.Nil? ==> PreOrder(t) == [])
    ensures if root == NULL then t == Nil else WalkingAt(h, root, t, [], t, stack, 0, root)
  {
  }

  lemma WalkPermutes(keys: seq<Key>, t: Tree)
    requires Unique(InOrder(t))
    ensures Unique(PreOrder(t)) && forall i :: i in PreOrder(t) <==> i in InOrder(t)
  {
    hide PreOrder, InOrder;
    PreOrderPermutes(t);
    UniquePermutes(InOrder(t), PreOrder(t));
  }

  lemma TwiceIn(b: seq<int>, i: nat, j: nat)
    requires i < j < |b|
    ensures b[i] == b[j] ==> multiset(b)[b[i]] >= 2
  {
    assert b == b[..i] + [b[i]] + b[i + 1..j] + [b[j]] + b[j + 1..];
  }

  lemma UniquePermutes(a: seq<int>, b: seq<int>)
    requires Unique(a) && multiset(a) == multiset(b)
    ensures Unique(b) && forall i :: i in a <==> i in b
  {
    UniqueMultiplicity(a);
    forall i ensures i in a <==> i in b {
      assert i in a <==> i in multiset(a);
      assert i in b <==> i in multiset(b);
    }
    forall i, j | 0 <= i < j < |b| ensures b[i] != b[j] {
      TwiceIn(b, i, j);
    }
  }

  lemma {:induction false} UniqueMultiplicity(a: seq<int>)
    requires Unique(a)
    ensures forall x :: multiset(a)[x] <= 1
    decreases |a|
  {
    if a != [] {
      UniqueMultiplicity(a[1..]);
      assert a == [a[0]] + a[1..];
      assert a[0] !in a[1..];
    }
  }

  lemma KeyOutside(keys: seq<Key>, ids: seq<int>, node: int, key: Key)
    requires Sorted(keys, ids) && InKeys(keys, node) && node !in ids
    ensures Sorted(keys[node := key], ids)
  {
    assert forall i | 0 <= i < |ids| :: ids[i] in ids && keys[node := key][ids[i]] == keys[ids[i]];
  }

  lemma TreeHasHeight(t: Tree)
    requires t.T?
    ensures Height(t) > 0
  {
  }

  class BufferTree {
    var keys: seq<Key>
    var links: seq<Link>
    var root: int
    ghost var tree: Tree

    ghost predicate Valid()
      reads this
    {
      && |keys| == |links| <= MAX_NODES
      && Shape(links, root, tree) && Balanced(tree) && Sorted(keys, InOrder(tree))
    }

    /** The keys in the tree, in order. */
    ghost function Contents(): seq<int>
      reads this
    {
      InOrder(tree)
    }

    /** An empty tree over `n` zeroed descriptors. */
    constructor (n: nat)
      requires n <= MAX_NODES
      ensures Valid() && Contents() == [] && |keys| == n
    {
      keys := seq(n, _ => Key(0, 0));
      links := seq(n, _ => Link(NULL, NULL, 0, 0));
      root := NULL;
      tree := Nil;
    }

    method SetLeft(p: int, q: int)
      requires InRange(links, p)
      modifies this`links
      ensures links == old(links)[p := old(links)[p].(left := q)]
    {
      links := links[p := links[p].(left := q)];
    }

    method SetRight(p: int, q: int)
      requires InRange(links, p)
      modifies this`links
      ensures links == old(links)[p := old(links)[p].(right := q)]
    {
      links := links[p := links[p].(right := q)];
    }

    method SetBal(p: int, bal: int)
      requires InRange(links, p)
      modifies this`links
      ensures links == old(links)[p := old(links)[p].(bal := bal)]
    {
      links := links[p := links[p].(bal := bal)];
    }

    // ---- rebalancing steps ----

    method GrownLeftStep(p: int, ghost t: Tree) returns (q: int, modified: bool)
      requires t.T? && Shape(links, p, t) && Unique(InOrder(t))
      requires t.bal == -1 ==> t.left.T? && (t.left.bal != -1 ==> t.left.right.T?)
      modifies this`links
      ensures Shape(links, q, GrownLeft(t).tree) && modified == GrownLeft(t).modified
      ensures ChangedOnly(old(links), links, InOrder(t))
    {
      ShapeNode(links, t);
      InOrderParts(t);
      hide Shape, InOrder, TurnRight, DoubleTurnRight;
      q, modified := p, true;
      if links[p].bal == 1 {
        SetBal(p, 0);
        RelabelShape(old(links), links, t, 0);
        modified := false;
      } else if links[p].bal == 0 {
        SetBal(p, -1);
        RelabelShape(old(links), links, t, -1);
      } else if links[p].bal == -1 {
        LeftFacts(links, t);
        var p1 := links[p].left;
        if links[p1].bal == -1 {
          SetLeft(p, links[p1].right);
          SetRight(p1, p);
          SetBal(p, 0);
          q := p1;
          SetBal(q, 0);
          TurnRightShape(old(links), links, t, 0, 0);
        } else {
          q := DoubleRight(p, t);
          SetBal(q, 0);
        }
        modified := false;
      }
    }

    /** The shared part of the LR-turns, up to the balance of the new root. */
    method DoubleRight(p: int, ghost t: Tree) returns (p2: int)
      requires t.T? && t.left.T? && t.left.right.T? && Shape(links, p, t) && Unique(InOrder(t))
      modifies this`links
      ensures p2 == t.left.right.id && InRange(links, p2) && p2 in InOrder(t)
      ensures Shape(links[p2 := links[p2].(bal := 0)], p2, DoubleTurnRight(t))
      ensures ChangedOnly(old(links), links, InOrder(t))
    {
      assert p == t.id;
      hide InOrder, Shape;
      LeftFacts(links, t);
      RightFacts(links, t.left);
      var p1 := links[p].left;
      p2 := links[p1].right;
      SetRight(p1, links[p2].left);
      SetLeft(p2, p1);
      SetLeft(p, links[p2].right);
      SetRight(p2, p);
      SetBal(p, if links[p2].bal == -1 then 1 else 0);
      SetBal(p1, if links[p2].bal == 1 then -1 else 0);
      DoubleTurnRightShape(old(links), links[p2 := links[p2].(bal := 0)], t);
      ChangedWithin(old(links), links, [p, p1, p2], InOrder(t));
    }

    method GrownRightStep(p: int, ghost t: Tree) returns (q: int, modified: bool)
      requires t.T? && Shape(links, p, t) && Unique(InOrder(t))
      requires t.bal == 1 ==> t.right.T? && (t.right.bal != 1 ==> t.right.left.T?)
      modifies this`links
      ensures Shape(links, q, GrownRight(t).tree) && modified == GrownRight(t).modified
      ensures ChangedOnly(old(links), links, InOrder(t))
    {
      ShapeNode(links, t);
      InOrderParts(t);
      hide Shape, InOrder, TurnLeft, DoubleTurnLeft;
      q, modified := p, true;
      if links[p].bal == -1 {
        SetBal(p, 0);
        RelabelShape(old(links), links, t, 0);
        modified := false;
      } else if links[p].bal == 0 {
        SetBal(p, 1);
        RelabelShape(old(links), links, t, 1);
      } else if links[p].bal == 1 {
        RightFacts(links, t);
        var p1 := links[p].right;
        if links[p1].bal == 1 {
          SetRight(p, links[p1].left);
          SetLeft(p1, p);
          SetBal(p, 0);
          q := p1;
          SetBal(q, 0);
          TurnLeftShape(old(links), links, t, 0, 0);
        } else {
          q := DoubleLeft(p, t);
          SetBal(q, 0);
        }
        modified := false;
      }
    }

    /** The shared part of the RL-turns, up to the balance of the new root. */
    method DoubleLeft(p: int, ghost t: Tree) returns (p2: int)
      requires t.T? && t.right.T? && t.right.left.T? && Shape(links, p, t) && Unique(InOrder(t))
      modifies this`links
      ensures p2 == t.right.left.id && InRange(links, p2) && p2 in InOrder(t)
      ensures Shape(links[p2 := links[p2].(bal := 0)], p2, DoubleTurnLeft(t))
      ensures ChangedOnly(old(links), links, InOrder(t))
    {
      assert p == t.id;
      hide InOrder, Shape;
      RightFacts(links, t);
      LeftFacts(links, t.right);
      var p1 := links[p].right;
      p2 := links[p1].left;
      SetLeft(p1, links[p2].right);
      SetRight(p2, p1);
      SetRight(p, links[p2].left);
      SetLeft(p2, p);
      SetBal(p, if links[p2].bal == 1 then -1 else 0);
      SetBal(p1, if links[p2].bal == -1 then 1 else 0);
      DoubleTurnLeftShape(old(links), links[p2 := links[p2].(bal := 0)], t);
      ChangedWithin(old(links), links, [p, p1, p2], InOrder(t));
    }

    method ShrunkLeftStep(p: int, ghost t: Tree) returns (q: int, modified: bool)
      requires t.T? && Shape(links, p, t) && Unique(InOrder(t))
      requires t.bal == 1 ==> t.right.T? && (t.right.bal < 0 ==> t.right.left.T?)
      modifies this`links
      ensures Shape(links, q, ShrunkLeft(t).tree) && modified == ShrunkLeft(t).modified
      ensures ChangedOnly(old(links), links, InOrder(t))
    {
      ShapeNode(links, t);
      InOrderParts(t);
      hide Shape, InOrder, TurnLeft, DoubleTurnLeft;
      q, modified := p, true;
      if links[p].bal == -1 {
        SetBal(p, 0);
        RelabelShape(old(links), links, t, 0);
      } else if links[p].bal == 0 {
        SetBal(p, 1);
        RelabelShape(old(links), links, t, 1);
        modified := false;
      } else if links[p].bal == 1 {
        RightFacts(links, t);
        var p1 := links[p].right;
        if links[p1].bal >= 0 {
          SetRight(p, links[p1].left);
          SetLeft(p1, p);
          if links[p1].bal == 0 {
            SetBal(p1, -1);
            modified := false;
            TurnLeftShape(old(links), links, t, -1, 1);
          } else {
            SetBal(p, 0);
            SetBal(p1, 0);
            TurnLeftShape(old(links), links, t, 0, 0);
          }
          q := p1;
        } else {
          q := DoubleLeft(p, t);
          SetBal(q, 0);
        }
      }
    }

    method ShrunkRightStep(p: int, ghost t: Tree) returns (q: int, modified: bool)
      requires t.T? && Shape(links, p, t) && Unique(InOrder(t))
      requires t.bal == -1 ==> t.left.T? && (t.left.bal > 0 ==> t.left.right.T?)
      modifies this`links
      ensures Shape(links, q, ShrunkRight(t).tree) && modified == ShrunkRight(t).modified
      ensures ChangedOnly(old(links), links, InOrder(t))
    {
      ShapeNode(links, t);
      InOrderParts(t);
      hide Shape, InOrder, TurnRight, DoubleTurnRight;
      q, modified := p, true;
      if links[p].bal == 1 {
        SetBal(p, 0);
        RelabelShape(old(links), links, t, 0);
      } else if links[p].bal == 0 {
        SetBal(p, -1);
        RelabelShape(old(links), links, t, -1);
        modified := false;
      } else if links[p].bal == -1 {
        LeftFacts(links, t);
        var p1 := links[p].left;
        if links[p1].bal <= 0 {
          SetLeft(p, links[p1].right);
          SetRight(p1, p);
          if links[p1].bal == 0 {
            SetBal(p1, 1);
            modified := false;
            TurnRightShape(old(links), links, t, 1, -1);
          } else {
            SetBal(p, 0);
            SetBal(p1, 0);
            TurnRightShape(old(links), links, t, 0, 0);
          }
          q := p1;
        } else {
          q := DoubleRight(p, t);
          SetBal(q, 0);
        }
      }
    }

    /** Hangs the subtree at `q` under the node on top of the stack, or makes it the root. */
    method Relink(stack: array<int>, k: nat, q: int, ghost ctx: seq<Frame>, ghost p: int, ghost t: Tree)
      requires Path(links, root, ctx, p) && Shape(links, q, t) && Unique(Whole(ctx, t))
      requires k == |ctx| <= stack.Length && (k > 0 ==> stack[k - 1] == Last(ctx).id)
      modifies this`links, this`root
      ensures Path(links, root, ctx, q) && Shape(links, q, t) && |links| == |old(links)|
      ensures ChangedOnly(old(links), links, Before(ctx) + After(ctx))
    {
      hide InOrder, Before, After;
      if k > 0 {
        PathNotHere(links, root, ctx, p);
        var parent := stack[k - 1];
        if links[parent].cache == -1 {
          SetLeft(parent, q);
        } else {
          SetRight(parent, q);
        }
        RelinkPath(old(links), root, ctx, p, q, t);
      } else {
        root := q;
      }
    }

    // ---- search ----

    method Search(key: Key) returns (p: int)
      requires Valid()
      ensures p == NULL <==> Absent(keys, Contents(), key)
      ensures p != NULL ==> p in Contents() && InKeys(keys, p) && keys[p] == key
    {
      hide InOrder;
      p := root;
      ghost var t := tree;
      RootInKeys(keys, t);
      while p != NULL && keys[p] != key
        invariant Shape(links, p, t) && Sorted(keys, InOrder(t)) && (p != NULL ==> InKeys(keys, p))
        invariant forall i | i in InOrder(t) :: i in Contents()
        invariant Absent(keys, InOrder(t), key) ==> Absent(keys, Contents(), key)
        decreases t
      {
        ShapeNode(links, t);
        SearchSide(keys, t, key);
        if Less(keys[p], key) {
          p, t := links[p].right, t.right;
        } else {
          p, t := links[p].left, t.left;
        }
      }
      if p != NULL {
        InOrderParts(t);
        assert p == t.id && p in InOrder(t);
        assert p in Contents();
        ghost var i :| 0 <= i < |Contents()| && Contents()[i] == p;
      } else {
        NilAbsent(keys, t, key);
      }
    }

    // ---- insertion ----

    /** Rebalances upwards from a subtree that has grown by one level. */
    method GrowUp(stack: array<int>, k0: nat, p0: int, ghost ctx0: seq<Frame>, ghost hp0: int, ghost t0: Tree)
      requires ctx0 != [] && p0 == Last(ctx0).id && StackShows(stack[..], k0 + 1, ctx0)
      requires Path(links, root, ctx0, hp0) && Shape(links, hp0, t0) && Unique(Whole(ctx0, t0))
      requires Grown(t0) && Height(t0) > 0 && FitsHeight(ctx0, Height(t0) - 1)
      modifies this`links, this`root, this`tree
      ensures Shape(links, root, tree) && Balanced(tree) && InOrder(tree) == Whole(ctx0, t0)
      ensures |links| == |old(links)|
    {
      hide Path, Shape, Balanced, FitsHeight, Height, Before, After, InOrder, Whole, GrownLeft, GrownRight, Grown, FrameShows;
      var k: nat, p, modified := k0, p0, true;
      ghost var ctx, hp, t := ctx0, hp0, t0;
      while modified
        invariant ctx != [] && p == Last(ctx).id && StackShows(stack[..], k + 1, ctx)
        invariant Path(links, root, ctx, hp) && Shape(links, hp, t) && Whole(ctx, t) == Whole(ctx0, t0)
        invariant if modified then Grown(t) && Height(t) > 0 && FitsHeight(ctx, Height(t) - 1)
                  else Balanced(t) && FitsHeight(ctx, Height(t))
        invariant |links| == |old(links)|
        decreases |ctx|, modified
      {
        ghost var whole := Graft(Last(ctx), t);
        ghost var rest := Init(ctx);
        GraftShape(links, root, ctx, hp, t);
        PopWhole(ctx, t);
        WholeApart(rest, whole);
        GrowFacts(ctx, t);
        ghost var before := links;
        var q;
        if links[p].cache == -1 {
          q, modified := GrownLeftStep(p, whole);
          t := GrownLeft(whole).tree;
        } else {
          q, modified := GrownRightStep(p, whole);
          t := GrownRight(whole).tree;
        }
        SameWhole(rest, whole, t);
        PathOutside(before, links, root, rest, p, whole);
        Relink(stack, k, q, rest, p, t);
        ctx, hp := rest, q;
        if k == 0 {
          AtRoot(t, modified);
          break;
        }
        k := k - 1;
        p := stack[k];
      }
      Plugged(links, root, ctx, hp, t);
      tree := Plug(ctx, t);
    }

    /** The first buffer becomes the root. */
    method InsertFirst(node: int)
      requires Valid() && InKeys(keys, node) && root == NULL
      modifies this
      ensures Valid() && keys == old(keys)
      ensures Absent(keys, old(Contents()), keys[node]) && Inserted(old(Contents()), Contents(), node)
    {
      hide Shape, Balanced, Sorted, InOrder, Absent;
      root := node;
      links := links[node := links[node].(left := NULL, right := NULL, bal := 0)];
      SingleTree(old(links), links, old(tree), node, keys);
      tree := T(Nil, node, 0, Nil);
    }

    /**
     Inserts a buffer under its key. A duplicate key is refused and the tree keeps its shape; otherwise
     exactly this buffer joins the order.
     */
    method Insert(node: int) returns (r: int)
      requires Valid() && InKeys(keys, node)
      modifies this
      ensures Valid() && keys == old(keys)
      ensures r == if Absent(keys, old(Contents()), keys[node]) then 0 else -1
      ensures r == 0 ==> Inserted(old(Contents()), Contents(), node)
      ensures r == -1 ==> tree == old(tree) && root == old(root) && SameAllLinks(old(links), links)
    {
      hide Shape, Balanced, Sorted, InOrder, Path, FitsHeight, Height, Before, After, Absent, Less, Whole, AllAbove, AllBelow, Inserted;
      var key := keys[node];
      if root == NULL {
        InsertFirst(node);
        return 0;
      }
      var stack := new int[MAX_HEIGHT];
      ghost var ctx, t, whole := [], tree, Contents();
      StartDescent(links, root, t, keys, key);
      var k: nat, p, q := 0, root, root;
      ghost var before := links;
      while true
        invariant t.T? && Descending(links, root, ctx, p, t, keys, key, whole) && StackShows(stack[..], k, ctx)
        invariant p == t.id && InKeys(keys, p) && SameAllLinks(old(links), links)
        invariant stack.Length == MAX_HEIGHT && unchanged(this`keys) && unchanged(this`root) && unchanged(this`tree)
        decreases t
      {
        TreeHasHeight(t);
        stack[k] := p;
        k := k + 1;
        if Less(keys[p], key) {
          DescendStep(links, root, ctx, t, keys, key, whole, 1);
          links := links[p := links[p].(cache := 1)];
          ctx, t := ctx + [FrameOf(t, 1)], t.right;
          q := links[p].right;
          if q == NULL {
            before := links;
            q := node;
            SetRight(p, q);
            break;
          }
        } else if keys[p] != key {
          LessTotal(keys[p], key);
          DescendStep(links, root, ctx, t, keys, key, whole, -1);
          links := links[p := links[p].(cache := -1)];
          ctx, t := ctx + [FrameOf(t, -1)], t.left;
          q := links[p].left;
          if q == NULL {
            before := links;
            q := node;
            SetLeft(p, q);
            break;
          }
        } else {
          FoundDuplicate(old(links), links, root, tree, ctx, t, keys, key);
          return -1;
        }
        p := q;
        ShapeRoot(links, p, t);
      }
      ShapeRoot(before, NULL, t);
      links := links[q := links[q].(left := NULL, right := NULL, bal := 0)];
      LeafReady(before, root, ctx, keys, whole, node);
      LeafPath(before, root, ctx, node, links[node]);
      GrowUp(stack, k - 1, p, ctx, node, T(Nil, node, 0, Nil));
      r := 0;
    }

    // ---- removal ----

    /** Rebalances upwards from a subtree that has lost one level. */
    method ShrinkUp(stack: array<int>, k0: nat, ghost ctx0: seq<Frame>, ghost hp0: int, ghost t0: Tree)
      requires StackShows(stack[..], k0, ctx0)
      requires Path(links, root, ctx0, hp0) && Shape(links, hp0, t0) && Unique(Whole(ctx0, t0))
      requires Balanced(t0) && FitsHeight(ctx0, Height(t0) + 1)
      modifies this`links, this`root, this`tree
      ensures Shape(links, root, tree) && Balanced(tree) && InOrder(tree) == Whole(ctx0, t0)
      ensures |links| == |old(links)|
    {
      hide Path, Shape, Balanced, FitsHeight, Height, Before, After, InOrder, Whole, ShrunkLeft, ShrunkRight, FrameShows;
      var k: nat, modified := k0, true;
      ghost var ctx, hp, t := ctx0, hp0, t0;
      while modified
        invariant StackShows(stack[..], k, ctx)
        invariant Path(links, root, ctx, hp) && Shape(links, hp, t) && Whole(ctx, t) == Whole(ctx0, t0)
        invariant Balanced(t) && FitsHeight(ctx, Height(t) + if modified then 1 else 0)
        invariant |links| == |old(links)|
        decreases |ctx|, modified
      {
        if k == 0 {
          AtRoot(t, false);
          break;
        }
        k := k - 1;
        var p, q := stack[k], root;
        ghost var whole := Graft(Last(ctx), t);
        ghost var rest := Init(ctx);
        GraftShape(links, root, ctx, hp, t);
        PopWhole(ctx, t);
        WholeApart(rest, whole);
        ShrinkFacts(ctx, t);
        ghost var before := links;
        if links[p].cache == -1 {
          q, modified := ShrunkLeftStep(p, whole);
          t := ShrunkLeft(whole).tree;
        } else {
          q, modified := ShrunkRightStep(p, whole);
          t := ShrunkRight(whole).tree;
        }
        SameWhole(rest, whole, t);
        PathOutside(before, links, root, rest, p, whole);
        Relink(stack, k, q, rest, p, t);
        ctx, hp := rest, q;
        if k == 0 {
          AtRoot(t, false);
          break;
        }
      }
      Plugged(links, root, ctx, hp, t);
      tree := Plug(ctx, t);
    }

    /** Takes node `q` out of the subtree that it roots; `r` takes its place. */
    method Detach(q: int, stack: array<int>, k0: nat, ghost ctx: seq<Frame>, ghost t: Tree)
      returns (r: int, k: nat, ghost c: seq<Frame>, ghost hole: int, ghost t': Tree)
      requires t.T? && q == t.id && InRange(links, q) && Shape(links, q, t) && Balanced(t) && Unique(InOrder(t))
      requires StackShows(stack[..], k0, ctx) && k0 + Height(t) <= stack.Length
      modifies this`links, stack
      ensures Detached(links, r, c, hole, t', t) && ChangedOnly(old(links), links, InOrder(t))
      ensures StackShows(stack[..], k, ctx + c)
    {
      hide Path, Shape, Balanced, FitsHeight, Height, Before, After, InOrder, Whole, Detached, ContextHeight, LeftSpine;
      ShapeNode(links, t);
      k, c := k0, [];
      if links[q].right == NULL {
        RightOf(links, t);
        r := links[q].left;
        LeftPromoted(links, t);
        ShapeRoot(links, r, t.left);
        if r != NULL {
          ShapeNode(links, t.left);
          SetBal(r, 0);
          assert links == old(links);
        }
        hole, t' := links[q].left, t.left;
        assert ctx + c == ctx;
        return;
      }
      RightOf(links, t);
      r := links[q].right;
      ShapeNode(links, t.right);
      RightFacts(links, t);
      if links[r].left == NULL {
        RightLeaning(links, t);
        SuccessorPromoted(links, t, [], t.right);
        links := links[r := links[r].(left := links[q].left)];
        links := links[r := links[r].(bal := links[q].bal)];
        links := links[r := links[r].(cache := 1)];
        assert links == Promoted(old(links), q, [], r);
        c := [Frame(r, 1, t.bal, t.left)] + [];
        hole, t' := links[r].right, t.right.right;
        HeightOfRight(t);
        stack[k] := r;
        k := k + 1;
      } else {
        r, k, c, hole, t' := TakeSuccessor(q, stack, k0, ctx, t);
      }
    }

    /** The successor takes the place of the removed node, and its right child its own place. */
    method Promote(q: int, r: int, s: int, ghost inner: seq<Frame>)
      requires InRange(links, q) && InRange(links, r) && InRange(links, s) && inner != [] && r == Last(inner).id
      requires q != r && q != s && r != s
      modifies this`links
      ensures links == Promoted(old(links), q, inner, s)
    {
      links := links[s := links[s].(left := links[q].left)];
      links := links[r := links[r].(left := links[s].right)];
      links := links[s := links[s].(right := links[q].right)];
      links := links[s := links[s].(bal := links[q].bal)];
      links := links[s := links[s].(cache := 1)];
    }

    /** Walks down the left spine of the right subtree; its nodes follow on the stack, behind a slot that is kept free. */
    method FindSuccessor(q: int, stack: array<int>, k0: nat, ghost ctx: seq<Frame>, ghost t: Tree)
      returns (r: int, s: int, k: nat, ghost inner: seq<Frame>, ghost ts: Tree)
      requires t.T? && q == t.id && InRange(links, q) && Shape(links, q, t) && Balanced(t) && Unique(InOrder(t))
      requires links[q].right != NULL && InRange(links, links[q].right) && links[links[q].right].left != NULL
      requires StackShows(stack[..], k0, ctx) && k0 + Height(t) <= stack.Length
      modifies this`links, stack
      ensures |links| == |old(links)| && SameAllLinks(old(links), links) && ChangedOnly(old(links), links, InOrder(t.right))
      ensures ts.T? && s == ts.id && LeftSpine(links, old(links[q].right), inner, s, ts, t.right) && InRange(links, s) && links[s].left == NULL
      ensures inner != [] && r == Last(inner).id && k == k0 + 1 + |inner| <= stack.Length
      ensures StackShows(stack[..], k0, ctx) && forall i | 0 <= i < |inner| :: stack[k0 + 1 + i] == inner[i].id
    {
      hide Path, Shape, Balanced, FitsHeight, Height, Before, After, InOrder, Whole, ContextHeight, LeftSpine, ChangedOnly;
      RightOf(links, t);
      RightFacts(links, t);
      NodeFacts(t);
      k := k0 + 1;
      r := links[q].right;
      s := r;
      ghost var top := r;
      inner, ts := [], t.right;
      LeftSpineStart(links, top, ts);
      SpineFacts(links, top, inner, s, ts, t.right);
      ChangedNothing(links, InOrder(t.right));
      while links[s].left != NULL
        invariant |links| == |old(links)| && SameAllLinks(old(links), links)
        invariant ts.T? && s == ts.id && InRange(links, s) && LeftSpine(links, top, inner, s, ts, t.right)
        invariant |inner| + Height(ts) <= Height(t.right) && k == k0 + 1 + |inner|
        invariant StackShows(stack[..], k0, ctx) && forall i | 0 <= i < |inner| :: stack[k0 + 1 + i] == inner[i].id
        invariant inner != [] ==> r == Last(inner).id
        invariant ChangedOnly(old(links), links, InOrder(t.right))
        invariant inner == [] ==> links == old(links) && s == top
        decreases ts
      {
        SpineFacts(links, top, inner, s, ts, t.right);
        TreeHasHeight(ts);
        stack[k] := s;
        k := k + 1;
        r := s;
        s := links[r].left;
        LeftSpineStep(links, top, inner, ts, t.right);
        ChangedMore(old(links), links, r, links[r].(cache := -1), InOrder(t.right));
        links := links[r := links[r].(cache := -1)];
        InitOfPush(inner, FrameOf(ts, -1));
        inner, ts := inner + [FrameOf(ts, -1)], ts.left;
        SpineFacts(links, top, inner, s, ts, t.right);
      }
    }

    /** The successor lies further down: walk the left spine, bypass it, and promote it. */
    method TakeSuccessor(q: int, stack: array<int>, k0: nat, ghost ctx: seq<Frame>, ghost t: Tree)
      returns (s: int, k: nat, ghost c: seq<Frame>, ghost hole: int, ghost t': Tree)
      requires t.T? && q == t.id && InRange(links, q) && Shape(links, q, t) && Balanced(t) && Unique(InOrder(t))
      requires links[q].right != NULL && InRange(links, links[q].right) && links[links[q].right].left != NULL
      requires StackShows(stack[..], k0, ctx) && k0 + Height(t) <= stack.Length
      modifies this`links, stack
      ensures Detached(links, s, c, hole, t', t) && ChangedOnly(old(links), links, InOrder(t))
      ensures StackShows(stack[..], k, ctx + c)
    {
      hide Path, Shape, Balanced, FitsHeight, Height, Before, After, InOrder, Whole, Detached, ContextHeight, LeftSpine, ChangedOnly;
      RightOf(links, t);
      ghost var top := links[q].right;
      ghost var inner, ts;
      var r;
      r, s, k, inner, ts := FindSuccessor(q, stack, k0, ctx, t);
      SpineFacts(links, top, inner, s, ts, t.right);
      ShapeFrame(old(links), links, q, t);
      ghost var h := links;
      SpineNodes(h, t, inner, ts, top);
      SuccessorPromoted(h, t, inner, ts);
      Promote(q, r, s, inner);
      stack[k0] := s;
      InOrderParts(t);
      ChangedTwice(old(links), h, links, InOrder(t.right), InOrder(t));
      c, hole, t' := [Frame(s, 1, t.bal, t.left)] + inner, h[s].right, ts.right;
    }

    /**
     Removes the buffer with the key of `node`, if there is one. Exactly that buffer leaves the order;
     otherwise the tree keeps its shape.
     */
    method Remove(node: int) returns (r: int)
      requires Valid() && InKeys(keys, node)
      modifies this
      ensures Valid() && keys == old(keys)
      ensures r == if Absent(keys, old(Contents()), keys[node]) then -1 else 0
      ensures r == 0 ==> Removed(keys, old(Contents()), Contents(), keys[node])
      ensures node in old(Contents()) ==> r == 0 && forall i :: i in Contents() <==> i in old(Contents()) && i != node
      ensures r == -1 ==> tree == old(tree) && root == old(root) && SameAllLinks(old(links), links)
    {
      hide Shape, Balanced, Sorted, InOrder, Path, FitsHeight, Height, Before, After, Absent, Less, AllBelow, AllAbove, Whole, Detached, Removed;
      var key := keys[node];
      var stack := new int[MAX_HEIGHT];
      ghost var ctx, t, whole := [], tree, Contents();
      StartDescent(links, root, t, keys, key);
      ShapeRoot(links, root, t);
      var k: nat, p := 0, root;
      while p != NULL
        invariant Descending(links, root, ctx, p, t, keys, key, whole) && StackShows(stack[..], k, ctx)
        invariant if p == NULL then t == Nil else t.T? && p == t.id && InKeys(keys, p)
        invariant SameAllLinks(old(links), links)
        invariant stack.Length == MAX_HEIGHT && unchanged(this`keys) && unchanged(this`root) && unchanged(this`tree)
        decreases t
      {
        TreeHasHeight(t);
        stack[k] := p;
        k := k + 1;
        if Less(keys[p], key) {
          DescendStep(links, root, ctx, t, keys, key, whole, 1);
          links := links[p := links[p].(cache := 1)];
          ctx, t := ctx + [FrameOf(t, 1)], t.right;
          p := links[p].right;
        } else if keys[p] != key {
          LessTotal(keys[p], key);
          DescendStep(links, root, ctx, t, keys, key, whole, -1);
          links := links[p := links[p].(cache := -1)];
          ctx, t := ctx + [FrameOf(t, -1)], t.left;
          p := links[p].left;
        } else {
          break;
        }
        ShapeRoot(links, p, t);
      }
      if p == NULL {
        NotFound(old(links), links, root, tree, ctx, keys, key);
        PresentNode(keys, tree, node);
        return -1;
      }
      FoundDuplicate(old(links), links, root, tree, ctx, t, keys, key);
      SortedUnique(keys, whole);
      WholeApart(ctx, t);
      k := k - 1;
      var k';
      ghost var before, c, hole, t' := links, [], 0, Nil;
      r, k', c, hole, t' := Detach(p, stack, k, ctx, t);
      PathOutside(before, links, root, ctx, p, t);
      Withdrawn(links, r, ctx, c, hole, t, t', keys, key, whole);
      ghost var detached := links;
      Relink(stack, k, r, ctx, p, Plug(c, t'));
      Rejoined(detached, links, root, r, ctx, c, hole, t, t');
      ShrinkUp(stack, k', ctx + c, hole, t');
      r := 0;
      RemovedNode(keys, old(Contents()), Contents(), node);
    }

    // ---- the purge walk ----

    /** Visits every node of the tree in preorder with an explicit stack of ancestors. */
    method Walk() returns (visited: seq<int>)
      requires Valid()
      ensures visited == PreOrder(tree)
      ensures Unique(visited) && forall i :: i in visited <==> i in Contents()
    {
      hide Shape, Balanced, Sorted, InOrder, Height, Plug, Rest, PreOrder, WalkingAt;
      var stack := new int[MAX_HEIGHT](_ => NULL);
      ghost var ctx, t := [], tree;
      WalkBounds(keys, tree);
      WalkStart(links, root, tree, stack[..]);
      visited := [];
      var prev: nat, cur := 0, root;
      while cur != NULL
        invariant stack.Length == MAX_HEIGHT && |visited| <= |PreOrder(tree)|
        invariant cur == NULL ==> visited == PreOrder(tree)
        invariant cur != NULL ==> WalkingAt(links, root, tree, ctx, t, stack[..], prev, cur)
                                  && visited + (PreOrder(t) + Rest(ctx)) == PreOrder(tree)
        decreases |PreOrder(tree)| - |visited|
      {
        ghost var rest := PreOrder(t) + Rest(ctx);
        visited := visited + [cur];
        prev, cur, ctx, t := GoOn(stack, prev, cur, ctx, t);
        ghost var next := if cur == NULL then [] else PreOrder(t) + Rest(ctx);
        assert (visited[..|visited| - 1] + [visited[|visited| - 1]]) + next == visited[..|visited| - 1] + rest;
      }
      WalkPermutes(keys, tree);
    }

    /** From a node that is visited to the next one: to a child, or up to the next right subtree. */
    method GoOn(stack: array<int>, prev0: nat, cur0: int, ghost ctx0: seq<Frame>, ghost t0: Tree)
      returns (prev: nat, cur: int, ghost ctx: seq<Frame>, ghost t: Tree)
      requires stack.Length == MAX_HEIGHT && Shape(links, root, tree) && Unique(InOrder(tree)) && Height(tree) <= MAX_HEIGHT
      requires WalkingAt(links, root, tree, ctx0, t0, stack[..], prev0, cur0)
      modifies stack
      ensures cur == NULL ==> PreOrder(t0) + Rest(ctx0) == [cur0]
      ensures cur != NULL ==> WalkingAt(links, root, tree, ctx, t, stack[..], prev, cur)
                              && PreOrder(t0) + Rest(ctx0) == [cur0] + (PreOrder(t) + Rest(ctx))
    {
      hide Shape, InOrder, Height, Rest, PreOrder, Plug;
      WalkNode(links, root, tree, ctx0, t0, stack[..], prev0, cur0);
      if links[cur0].left != NULL {
        prev, cur, ctx, t := StepDown(stack, prev0, cur0, -1, ctx0, t0);
      } else if links[cur0].right != NULL {
        prev, cur, ctx, t := StepDown(stack, prev0, cur0, 1, ctx0, t0);
      } else {
        prev, cur, ctx, t := Ascend(stack, prev0, cur0, ctx0, t0);
      }
    }

    /** Goes down to a child, and remembers the node on the stack. */
    method StepDown(stack: array<int>, prev0: nat, cur0: int, dir: int, ghost ctx0: seq<Frame>, ghost t0: Tree)
      returns (prev: nat, cur: int, ghost ctx: seq<Frame>, ghost t: Tree)
      requires stack.Length == MAX_HEIGHT && Shape(links, root, tree) && Unique(InOrder(tree)) && Height(tree) <= MAX_HEIGHT
      requires WalkingAt(links, root, tree, ctx0, t0, stack[..], prev0, cur0) && InRange(links, cur0) && t0.T?
      requires if dir == -1 then links[cur0].left != NULL else dir == 1 && links[cur0].left == NULL && links[cur0].right != NULL
      modifies stack
      ensures cur != NULL && WalkingAt(links, root, tree, ctx, t, stack[..], prev, cur)
      ensures [cur0] + (PreOrder(t) + Rest(ctx)) == PreOrder(t0) + Rest(ctx0)
    {
      hide Shape, InOrder, Plug, Rest, PreOrder;
      WalkNode(links, root, tree, ctx0, t0, stack[..], prev0, cur0);
      PlugDown(ctx0, t0, dir);
      prev := prev0 + 1;
      stack[prev] := cur0;
      if dir == -1 {
        cur := links[cur0].left;
        ctx, t := ctx0 + [Frame(t0.id, -1, t0.bal, t0.right)], t0.left;
      } else {
        cur := links[cur0].right;
        ctx, t := ctx0 + [Frame(t0.id, 1, t0.bal, t0.left)], t0.right;
      }
    }

    /** Climbs past finished subtrees to the next right subtree, if there is one. */
    method Ascend(stack: array<int>, prev0: nat, cur0: int, ghost ctx0: seq<Frame>, ghost t0: Tree)
      returns (prev: nat, cur: int, ghost ctx: seq<Frame>, ghost t: Tree)
      requires stack.Length == MAX_HEIGHT && Shape(links, root, tree) && Unique(InOrder(tree))
      requires WalkingAt(links, root, tree, ctx0, t0, stack[..], prev0, cur0)
      ensures cur == NULL ==> Rest(ctx0) == []
      ensures cur != NULL ==> WalkingAt(links, root, tree, ctx, t, stack[..], prev, cur) && PreOrder(t) + Rest(ctx) == Rest(ctx0)
    {
      hide Shape, InOrder, Plug, Rest, PreOrder;
      prev, cur, ctx, t := prev0, cur0, ctx0, t0;
      WalkUp(links, root, tree, ctx, t, stack[..], prev, cur);
      while stack[prev] != NULL && (cur == links[stack[prev]].right || links[stack[prev]].right == NULL)
        invariant WalkingAt(links, root, tree, ctx, t, stack[..], prev, cur) && Rest(ctx) == Rest(ctx0)
        invariant prev < stack.Length && (stack[prev] != NULL ==> InRange(links, stack[prev]))
        decreases |ctx|
      {
        WalkUp(links, root, tree, ctx, t, stack[..], prev, cur);
        cur := stack[prev];
        prev := prev - 1;
        t, ctx := Graft(Last(ctx), t), Init(ctx);
        WalkUp(links, root, tree, ctx, t, stack[..], prev, cur);
      }
      WalkUp(links, root, tree, ctx, t, stack[..], prev, cur);
      if stack[prev] != NULL {
        cur := links[stack[prev]].right;
        ghost var whole := Graft(Last(ctx), t);
        ctx := Init(ctx);
        PlugDown(ctx, whole, 1);
        t := whole.right;
        ctx := ctx + [Frame(whole.id, 1, whole.bal, whole.left)];
      } else {
        cur := NULL;
      }
    }

    /**
     Assigns a buffer outside the tree to a block and inserts it, as when a buffer is recycled. `ok` is
     false, which the cache treats as fatal, exactly when the block already has a buffer.
     */
    method Assign(node: int, key: Key) returns (ok: bool)
      requires Valid() && InKeys(keys, node) && node !in Contents()
      modifies this
      ensures Valid() && keys == old(keys)[node := key]
      ensures ok == Absent(keys, old(Contents()), key)
      ensures if ok then Inserted(old(Contents()), Contents(), node) else tree == old(tree)
    {
      hide Balanced, Shape, InOrder, Inserted;
      KeyOutside(keys, InOrder(tree), node, key);
      keys := keys[node := key];
      var r := Insert(node);
      ok := r == 0;
    }
  }
}
