/** How link fields of the buffer descriptors represent trees and stacked paths. */
module AvlHeap {
  import opened AvlModel

  const NULL := -1

  /** The `avl` member of a buffer descriptor. */
  datatype Link = Link(left: int, right: int, cache: int, bal: int)

  predicate InRange(h: seq<Link>, p: int) {
    0 <= p < |h|
  }

  /** The pointer `p` leads to the tree `t`. */
  ghost predicate Shape(h: seq<Link>, p: int, t: Tree)
    decreases t
  {
    match t
    case Nil => p == NULL
    case T(l, id, bal, r) =>
      && p == id && InRange(h, p) && h[p].bal == bal
      && Shape(h, h[p].left, l) && Shape(h, h[p].right, r)
  }

  function Child(l: Link, dir: int): int {
    if dir == -1 then l.left else l.right
  }

  function SetChild(l: Link, dir: int, q: int): Link {
    if dir == -1 then l.(left := q) else l.(right := q)
  }

  /** From `root`, the directions noted in the nodes of `ctx` lead to the pointer `p`. */
  ghost predicate Path(h: seq<Link>, root: int, ctx: seq<Frame>, p: int)
    decreases |ctx|
  {
    if ctx == [] then p == root
    else
      var f := Last(ctx);
      && InRange(h, f.id) && (f.dir == -1 || f.dir == 1)
      && h[f.id].cache == f.dir && h[f.id].bal == f.bal
      && Child(h[f.id], f.dir) == p && Shape(h, Child(h[f.id], -f.dir), f.sib)
      && Path(h, root, Init(ctx), f.id)
  }

  predicate SameLinks(a: Link, b: Link) {
    a.(cache := 0) == b.(cache := 0)
  }

  /** `h'` differs from `h` only at the listed nodes. */
  ghost predicate ChangedOnly(h: seq<Link>, h': seq<Link>, ids: seq<int>) {
    |h'| == |h| && forall i | 0 <= i < |h| && i !in ids :: h'[i] == h[i]
  }

  ghost predicate Unique(s: seq<int>) {
    forall i, j | 0 <= i < j < |s| :: s[i] != s[j]
  }

  // ---- framing ----

  lemma {:induction false} ShapeFrame(h: seq<Link>, h': seq<Link>, p: int, t: Tree)
    requires Shape(h, p, t) && |h'| == |h|
    requires forall i | InRange(h, i) && i in InOrder(t) :: SameLinks(h[i], h'[i])
    ensures Shape(h', p, t)
    decreases t
  {
    if t.T? {
      assert t.id in InOrder(t);
      ShapeFrame(h, h', h[p].left, t.left);
      ShapeFrame(h, h', h[p].right, t.right);
    }
  }

  lemma ShapeFrameOnly(h: seq<Link>, h': seq<Link>, p: int, t: Tree, ids: seq<int>)
    requires Shape(h, p, t) && ChangedOnly(h, h', ids)
    requires forall i | i in ids :: i !in InOrder(t)
    ensures Shape(h', p, t) && |h'| == |h|
  {
    ShapeFrame(h, h', p, t);
  }

  lemma {:induction false} PathFrame(h: seq<Link>, h': seq<Link>, root: int, ctx: seq<Frame>, p: int)
    requires Path(h, root, ctx, p) && |h'| == |h|
    requires forall i | InRange(h, i) && (i in Before(ctx) || i in After(ctx)) :: h[i] == h'[i]
    ensures Path(h', root, ctx, p)
    decreases |ctx|
  {
    if ctx != [] {
      var f := Last(ctx);
      assert f.id in Before(ctx) || f.id in After(ctx);
      ShapeFrame(h, h', Child(h[f.id], -f.dir), f.sib);
      PathFrame(h, h', root, Init(ctx), f.id);
    }
  }

  lemma {:induction false} PathShape(h: seq<Link>, root: int, ctx: seq<Frame>, p: int, t: Tree)
    requires Path(h, root, ctx, p) && Shape(h, p, t)
    ensures Shape(h, root, Plug(ctx, t))
    decreases |ctx|
  {
    if ctx != [] {
      PathShape(h, root, Init(ctx), Last(ctx).id, Graft(Last(ctx), t));
    }
  }

  // ---- uniqueness ----

  lemma UniqueParts(a: seq<int>, b: seq<int>)
    requires Unique(a + b)
    ensures Unique(a) && Unique(b) && forall x | x in a :: x !in b
  {
    var s := a + b;
    forall i, j | 0 <= i < j < |a| ensures a[i] != a[j] {
      assert s[i] == a[i] && s[j] == a[j];
    }
    forall i, j | 0 <= i < j < |b| ensures b[i] != b[j] {
      assert s[|a| + i] == b[i] && s[|a| + j] == b[j];
    }
    forall i, j | 0 <= i < |a| && 0 <= j < |b| ensures a[i] != b[j] {
      assert s[i] == a[i] && s[|a| + j] == b[j];
    }
  }

  /** A node lies in neither of its subtrees, and these are disjoint. */
  lemma NodeApart(t: Tree)
    requires t.T? && Unique(InOrder(t))
    ensures Unique(InOrder(t.left)) && Unique(InOrder(t.right))
    ensures t.id !in InOrder(t.left) && t.id !in InOrder(t.right)
    ensures forall x | x in InOrder(t.left) :: x !in InOrder(t.right)
  {
    UniqueParts(InOrder(t.left) + [t.id], InOrder(t.right));
    UniqueParts(InOrder(t.left), [t.id]);
    assert t.id in InOrder(t.left) + [t.id];
  }

  /** Distinct indices below `n` are at most `n`. */
  lemma {:induction false} UniqueCount(s: seq<int>, n: nat)
    requires Unique(s) && forall i | 0 <= i < |s| :: 0 <= s[i] < n
    ensures |s| <= n
    decreases n
  {
    if s != [] {
      assert 0 <= s[0] < n;
      if n - 1 in s {
        var i :| 0 <= i < |s| && s[i] == n - 1;
        var s' := s[..i] + s[i + 1..];
        assert forall j | 0 <= j < |s'| :: s'[j] == s[if j < i then j else j + 1];
        UniqueCount(s', n - 1);
      } else {
        UniqueCount(s, n - 1);
      }
    }
  }

  // ---- turning trees in place ----

  lemma ShapeNode(h: seq<Link>, t: Tree)
    requires t.T? && Shape(h, t.id, t)
    ensures InRange(h, t.id) && h[t.id].bal == t.bal
    ensures Shape(h, h[t.id].left, t.left) && Shape(h, h[t.id].right, t.right)
    ensures if t.left.T? then h[t.id].left == t.left.id else h[t.id].left == NULL
    ensures if t.right.T? then h[t.id].right == t.right.id else h[t.id].right == NULL
  {
  }

  lemma ShapeJoin(h: seq<Link>, t: Tree)
    requires t.T? && InRange(h, t.id) && h[t.id].bal == t.bal
    requires Shape(h, h[t.id].left, t.left) && Shape(h, h[t.id].right, t.right)
    ensures Shape(h, t.id, t)
  {
  }

  lemma TurnRightShape(h: seq<Link>, h': seq<Link>, t: Tree, u: int, l: int)
    requires t.T? && t.left.T? && Shape(h, t.id, t) && Unique(InOrder(t))
    requires ChangedOnly(h, h', [t.id, t.left.id])
    requires var p, p1 := t.id, t.left.id;
             && InRange(h, p1)
             && SameLinks(h'[p], Link(h[p1].right, h[p].right, 0, l))
             && SameLinks(h'[p1], Link(h[p1].left, p, 0, u))
    ensures Shape(h', t.left.id, TurnRight(t, u, l))
  {
    var p, p1 := t.id, t.left.id;
    hide InOrder;
    NodeApart(t);
    NodeApart(t.left);
    InOrderParts(t.left);
    ShapeFrame(h, h', h[p1].left, t.left.left);
    ShapeFrame(h, h', h[p1].right, t.left.right);
    ShapeFrame(h, h', h[p].right, t.right);
  }

  lemma TurnLeftShape(h: seq<Link>, h': seq<Link>, t: Tree, u: int, l: int)
    requires t.T? && t.right.T? && Shape(h, t.id, t) && Unique(InOrder(t))
    requires ChangedOnly(h, h', [t.id, t.right.id])
    requires var p, p1 := t.id, t.right.id;
             && InRange(h, p1)
             && SameLinks(h'[p], Link(h[p].left, h[p1].left, 0, l))
             && SameLinks(h'[p1], Link(p, h[p1].right, 0, u))
    ensures Shape(h', t.right.id, TurnLeft(t, u, l))
  {
    var p, p1 := t.id, t.right.id;
    hide InOrder;
    NodeApart(t);
    NodeApart(t.right);
    InOrderParts(t.right);
    ShapeFrame(h, h', h[p1].left, t.right.left);
    ShapeFrame(h, h', h[p1].right, t.right.right);
    ShapeFrame(h, h', h[p].left, t.left);
  }

  /** The nodes that a double turn changes are in none of the four subtrees below them. */
  lemma DoubleTurnRightApart(t: Tree)
    requires t.T? && t.left.T? && t.left.right.T? && Unique(InOrder(t))
    ensures forall i | i in [t.id, t.left.id, t.left.right.id] ::
              i !in InOrder(t.left.right.left) && i !in InOrder(t.left.right.right) && i !in InOrder(t.left.left) && i !in InOrder(t.right)
  {
    hide InOrder, Unique;
    NodeApart(t);
    NodeApart(t.left);
    NodeApart(t.left.right);
    InOrderParts(t.left);
    InOrderParts(t.left.right);
  }

  lemma DoubleTurnRightParts(h: seq<Link>, h': seq<Link>, t: Tree)
    requires t.T? && t.left.T? && t.left.right.T? && Shape(h, t.id, t) && Unique(InOrder(t))
    requires ChangedOnly(h, h', [t.id, t.left.id, t.left.right.id])
    ensures |h'| == |h| && InRange(h, t.id) && InRange(h, t.left.id) && InRange(h, t.left.right.id)
    ensures var g := t.left.right; Shape(h', h[g.id].left, g.left) && Shape(h', h[g.id].right, g.right) && h[g.id].bal == g.bal
    ensures Shape(h', h[t.left.id].left, t.left.left) && Shape(h', h[t.id].right, t.right)
  {
    hide InOrder, Shape, ChangedOnly, Unique;
    var m := t.left;
    var g := m.right;
    var ids := [t.id, m.id, g.id];
    DoubleTurnRightApart(t);
    ShapeNode(h, t);
    ShapeNode(h, m);
    ShapeNode(h, g);
    ShapeFrameOnly(h, h', h[g.id].left, g.left, ids);
    ShapeFrameOnly(h, h', h[g.id].right, g.right, ids);
    ShapeFrameOnly(h, h', h[m.id].left, m.left, ids);
    ShapeFrameOnly(h, h', h[t.id].right, t.right, ids);
  }

  lemma DoubleTurnRightShape(h: seq<Link>, h': seq<Link>, t: Tree)
    requires t.T? && t.left.T? && t.left.right.T? && Shape(h, t.id, t) && Unique(InOrder(t))
    requires ChangedOnly(h, h', [t.id, t.left.id, t.left.right.id])
    requires var p, p1, p2 := t.id, t.left.id, t.left.right.id;
             && InRange(h, p1) && InRange(h, p2)
             && SameLinks(h'[p], Link(h[p2].right, h[p].right, 0, if h[p2].bal == -1 then 1 else 0))
             && SameLinks(h'[p1], Link(h[p1].left, h[p2].left, 0, if h[p2].bal == 1 then -1 else 0))
             && SameLinks(h'[p2], Link(p1, p, 0, 0))
    ensures Shape(h', t.left.right.id, DoubleTurnRight(t))
  {
    hide InOrder, Shape, Unique;
    DoubleTurnRightParts(h, h', t);
    var d := DoubleTurnRight(t);
    ShapeJoin(h', d.left);
    ShapeJoin(h', d.right);
    ShapeJoin(h', d);
  }

  /** The nodes that a double turn changes are in none of the four subtrees below them. */
  lemma DoubleTurnLeftApart(t: Tree)
    requires t.T? && t.right.T? && t.right.left.T? && Unique(InOrder(t))
    ensures forall i | i in [t.id, t.right.id, t.right.left.id] ::
              i !in InOrder(t.right.left.left) && i !in InOrder(t.right.left.right) && i !in InOrder(t.right.right) && i !in InOrder(t.left)
  {
    hide InOrder, Unique;
    NodeApart(t);
    NodeApart(t.right);
    NodeApart(t.right.left);
    InOrderParts(t.right);
    InOrderParts(t.right.left);
  }

  lemma DoubleTurnLeftParts(h: seq<Link>, h': seq<Link>, t: Tree)
    requires t.T? && t.right.T? && t.right.left.T? && Shape(h, t.id, t) && Unique(InOrder(t))
    requires ChangedOnly(h, h', [t.id, t.right.id, t.right.left.id])
    ensures |h'| == |h| && InRange(h, t.id) && InRange(h, t.right.id) && InRange(h, t.right.left.id)
    ensures var g := t.right.left; Shape(h', h[g.id].left, g.left) && Shape(h', h[g.id].right, g.right) && h[g.id].bal == g.bal
    ensures Shape(h', h[t.right.id].right, t.right.right) && Shape(h', h[t.id].left, t.left)
  {
    hide InOrder, Shape, ChangedOnly, Unique;
    var m := t.right;
    var g := m.left;
    var ids := [t.id, m.id, g.id];
    DoubleTurnLeftApart(t);
    ShapeNode(h, t);
    ShapeNode(h, m);
    ShapeNode(h, g);
    ShapeFrameOnly(h, h', h[g.id].left, g.left, ids);
    ShapeFrameOnly(h, h', h[g.id].right, g.right, ids);
    ShapeFrameOnly(h, h', h[m.id].right, m.right, ids);
    ShapeFrameOnly(h, h', h[t.id].left, t.left, ids);
  }

  lemma DoubleTurnLeftShape(h: seq<Link>, h': seq<Link>, t: Tree)
    requires t.T? && t.right.T? && t.right.left.T? && Shape(h, t.id, t) && Unique(InOrder(t))
    requires ChangedOnly(h, h', [t.id, t.right.id, t.right.left.id])
    requires var p, p1, p2 := t.id, t.right.id, t.right.left.id;
             && InRange(h, p1) && InRange(h, p2)
             && SameLinks(h'[p], Link(h[p].left, h[p2].left, 0, if h[p2].bal == 1 then -1 else 0))
             && SameLinks(h'[p1], Link(h[p2].right, h[p1].right, 0, if h[p2].bal == -1 then 1 else 0))
             && SameLinks(h'[p2], Link(p, p1, 0, 0))
    ensures Shape(h', t.right.left.id, DoubleTurnLeft(t))
  {
    hide InOrder, Shape, Unique;
    DoubleTurnLeftParts(h, h', t);
    var d := DoubleTurnLeft(t);
    ShapeJoin(h', d.left);
    ShapeJoin(h', d.right);
    ShapeJoin(h', d);
  }

  lemma InOrderParts(t: Tree)
    requires t.T?
    ensures forall x :: x in InOrder(t) <==> x == t.id || x in InOrder(t.left) || x in InOrder(t.right)
  {
  }

  lemma RelabelShape(h: seq<Link>, h': seq<Link>, t: Tree, bal: int)
    requires t.T? && Shape(h, t.id, t) && Unique(InOrder(t))
    requires ChangedOnly(h, h', [t.id]) && SameLinks(h'[t.id], h[t.id].(bal := bal))
    ensures Shape(h', t.id, t.(bal := bal))
  {
    hide InOrder;
    NodeApart(t);
    ShapeFrame(h, h', h[t.id].left, t.left);
    ShapeFrame(h, h', h[t.id].right, t.right);
  }

  lemma LeftFacts(h: seq<Link>, t: Tree)
    requires t.T? && t.left.T? && Shape(h, t.id, t) && Unique(InOrder(t))
    ensures t.id != t.left.id && t.id in InOrder(t) && t.left.id in InOrder(t)
    ensures InRange(h, t.id) && InRange(h, t.left.id) && h[t.id].left == t.left.id
    ensures Shape(h, t.left.id, t.left) && Unique(InOrder(t.left)) && h[t.left.id].bal == t.left.bal
    ensures forall x | x in InOrder(t.left) :: x in InOrder(t) && x != t.id
  {
    NodeApart(t);
    hide InOrder;
    InOrderParts(t);
    InOrderParts(t.left);
  }

  lemma RightFacts(h: seq<Link>, t: Tree)
    requires t.T? && t.right.T? && Shape(h, t.id, t) && Unique(InOrder(t))
    ensures t.id != t.right.id && t.id in InOrder(t) && t.right.id in InOrder(t)
    ensures InRange(h, t.id) && InRange(h, t.right.id) && h[t.id].right == t.right.id
    ensures Shape(h, t.right.id, t.right) && Unique(InOrder(t.right)) && h[t.right.id].bal == t.right.bal
    ensures forall x | x in InOrder(t.right) :: x in InOrder(t) && x != t.id
  {
    NodeApart(t);
    hide InOrder;
    InOrderParts(t);
    InOrderParts(t.right);
  }

  lemma ChangedWithin(h: seq<Link>, h': seq<Link>, ids: seq<int>, more: seq<int>)
    requires ChangedOnly(h, h', ids) && forall i | i in ids :: i in more
    ensures ChangedOnly(h, h', more)
  {
  }

  // ---- moving along a path ----

  ghost function Whole(ctx: seq<Frame>, t: Tree): seq<int> {
    Before(ctx) + InOrder(t) + After(ctx)
  }

  /** With distinct nodes, the context and the tree in its hole share none. */
  lemma WholeApart(ctx: seq<Frame>, t: Tree)
    requires Unique(Whole(ctx, t))
    ensures Unique(InOrder(t))
    ensures forall i | i in InOrder(t) :: i !in Before(ctx) && i !in After(ctx)
    ensures forall i | i in Before(ctx) :: i !in After(ctx)
  {
    UniqueParts(Before(ctx) + InOrder(t), After(ctx));
    UniqueParts(Before(ctx), InOrder(t));
  }

  ghost function Toward(t: Tree, dir: int): Tree
    requires t.T?
  {
    if dir == -1 then t.left else t.right
  }

  ghost function FrameOf(t: Tree, dir: int): Frame
    requires t.T?
  {
    Frame(t.id, dir, t.bal, Toward(t, -dir))
  }

  /** Noting the direction in a node moves it from the tree to the context. */
  lemma PushPath(h: seq<Link>, root: int, ctx: seq<Frame>, t: Tree, dir: int)
    requires t.T? && (dir == -1 || dir == 1)
    requires Path(h, root, ctx, t.id) && Shape(h, t.id, t) && Unique(Whole(ctx, t))
    ensures var h' := h[t.id := h[t.id].(cache := dir)];
            && Path(h', root, ctx + [FrameOf(t, dir)], Child(h'[t.id], dir))
            && Shape(h', Child(h'[t.id], dir), Toward(t, dir))
  {
    hide InOrder, Before, After;
    var h' := h[t.id := h[t.id].(cache := dir)];
    var ctx' := ctx + [FrameOf(t, dir)];
    InitOfPush(ctx, FrameOf(t, dir));
    InOrderParts(t);
    WholeApart(ctx, t);
    PathFrame(h, h', root, ctx, t.id);
    ShapeFrame(h, h', h[t.id].left, t.left);
    ShapeFrame(h, h', h[t.id].right, t.right);
  }

  lemma PushWhole(ctx: seq<Frame>, t: Tree, dir: int)
    requires t.T? && (dir == -1 || dir == 1)
    ensures Whole(ctx + [FrameOf(t, dir)], Toward(t, dir)) == Whole(ctx, t)
  {
    InitOfPush(ctx, FrameOf(t, dir));
  }

  lemma PushHeight(ctx: seq<Frame>, t: Tree, dir: int)
    requires t.T? && (dir == -1 || dir == 1) && Balanced(t) && FitsHeight(ctx, Height(t))
    ensures FitsHeight(ctx + [FrameOf(t, dir)], Height(Toward(t, dir)))
    ensures Balanced(Toward(t, dir)) && Height(Toward(t, dir)) < Height(t)
  {
    InitOfPush(ctx, FrameOf(t, dir));
  }

  lemma PopWhole(ctx: seq<Frame>, t: Tree)
    requires ctx != []
    ensures Whole(Init(ctx), Graft(Last(ctx), t)) == Whole(ctx, t)
  {
    var f := Last(ctx);
    var a, x, s, b := Before(Init(ctx)), InOrder(t), InOrder(f.sib), After(Init(ctx));
    Assoc(x, [f.id], s);
    Assoc(a, x, [f.id] + s);
    Assoc(a + x, [f.id] + s, b);
    Assoc(a, s + [f.id], x);
  }

  ghost predicate FrameShows(h: seq<Link>, f: Frame, p: int) {
    && InRange(h, f.id) && (f.dir == -1 || f.dir == 1)
    && h[f.id].cache == f.dir && h[f.id].bal == f.bal
    && Child(h[f.id], f.dir) == p && Shape(h, Child(h[f.id], -f.dir), f.sib)
  }

  lemma PathLast(h: seq<Link>, root: int, ctx: seq<Frame>, p: int)
    requires ctx != []
    ensures Path(h, root, ctx, p) <==> FrameShows(h, Last(ctx), p) && Path(h, root, Init(ctx), Last(ctx).id)
  {
  }

  lemma FrameInRange(h: seq<Link>, f: Frame, p: int)
    requires FrameShows(h, f, p)
    ensures InRange(h, f.id) && (f.dir == -1 || f.dir == 1)
  {
  }

  lemma RelinkFrame(h: seq<Link>, f: Frame, p: int, q: int)
    requires FrameShows(h, f, p) && f.id !in InOrder(f.sib)
    ensures FrameShows(h[f.id := SetChild(h[f.id], f.dir, q)], f, q)
  {
    ShapeFrame(h, h[f.id := SetChild(h[f.id], f.dir, q)], Child(h[f.id], -f.dir), f.sib);
  }

  /** Redirecting the last link of a path. */
  lemma RelinkPath(h: seq<Link>, root: int, ctx: seq<Frame>, p: int, q: int, t: Tree)
    requires ctx != [] && Path(h, root, ctx, p) && Shape(h, q, t) && Unique(Whole(ctx, t))
    ensures var f := Last(ctx);
            var h' := h[f.id := SetChild(h[f.id], f.dir, q)];
            Path(h', root, ctx, q) && Shape(h', q, t)
  {
    hide InOrder, Before, After, Whole, Shape, Path, FrameShows;
    var f := Last(ctx);
    PathLast(h, root, ctx, p);
    FrameInRange(h, f, p);
    var h' := h[f.id := SetChild(h[f.id], f.dir, q)];
    PopWhole(ctx, t);
    WholeApart(Init(ctx), Graft(f, t));
    NodeApart(Graft(f, t));
    InOrderParts(Graft(f, t));
    RelinkFrame(h, f, p, q);
    ShapeFrame(h, h', q, t);
    PathFrame(h, h', root, Init(ctx), f.id);
    PathLast(h', root, ctx, q);
  }

  /** Replacing the subtree below a context leaves the context in place. */
  lemma PathOutside(h: seq<Link>, h': seq<Link>, root: int, ctx: seq<Frame>, p: int, t: Tree)
    requires Path(h, root, ctx, p) && Unique(Whole(ctx, t)) && ChangedOnly(h, h', InOrder(t))
    ensures Path(h', root, ctx, p)
  {
    WholeApart(ctx, t);
    PathFrame(h, h', root, ctx, p);
  }

  lemma PathNotHere(h: seq<Link>, root: int, ctx: seq<Frame>, p: int)
    requires ctx != [] && Path(h, root, ctx, p)
    ensures Last(ctx).id in Before(ctx) || Last(ctx).id in After(ctx)
  {
  }

  /** Hanging a new leaf under the last node of a path that ends in a null link. */
  lemma LeafPath(h: seq<Link>, root: int, ctx: seq<Frame>, node: int, leaf: Link)
    requires ctx != [] && Path(h, root, ctx, NULL) && InRange(h, node) && SameLinks(leaf, Link(NULL, NULL, 0, 0))
    requires Unique(Whole(ctx, T(Nil, node, 0, Nil)))
    ensures var f := Last(ctx);
            && InRange(h, f.id)
            && var h' := h[f.id := SetChild(h[f.id], f.dir, node)][node := leaf];
            Path(h', root, ctx, node) && Shape(h', node, T(Nil, node, 0, Nil))
  {
    hide Path, Before, After, FrameShows;
    var t := T(Nil, node, 0, Nil);
    var h1 := h[node := leaf];
    assert node in InOrder(t);
    WholeApart(ctx, t);
    PathFrame(h, h1, root, ctx, NULL);
    PathLast(h, root, ctx, NULL);
    FrameInRange(h, Last(ctx), NULL);
    PathNotHere(h, root, ctx, NULL);
    RelinkPath(h1, root, ctx, NULL, node, t);
    var f := Last(ctx);
    assert h[f.id := SetChild(h[f.id], f.dir, node)][node := leaf] == h1[f.id := SetChild(h1[f.id], f.dir, node)];
  }

  lemma HeightStep(ctx: seq<Frame>, h: nat)
    requires ctx != []
    ensures var f := Last(ctx);
            FitsHeight(ctx, h) <==>
            && f.bal == (if f.dir == -1 then Height(f.sib) - h else h - Height(f.sib))
            && -1 <= f.bal <= 1 && Balanced(f.sib)
            && FitsHeight(Init(ctx), 1 + Max(h, Height(f.sib)))
  {
  }

  /** Below the last frame of a path hangs the grafted tree. */
  lemma GraftShape(h: seq<Link>, root: int, ctx: seq<Frame>, p: int, t: Tree)
    requires ctx != [] && Path(h, root, ctx, p) && Shape(h, p, t)
    ensures Shape(h, Last(ctx).id, Graft(Last(ctx), t)) && Path(h, root, Init(ctx), Last(ctx).id)
    ensures InRange(h, Last(ctx).id) && h[Last(ctx).id].cache == Last(ctx).dir
    ensures Last(ctx).dir == -1 || Last(ctx).dir == 1
  {
  }

  // ---- joining paths ----

  lemma InitOfJoin(c1: seq<Frame>, c2: seq<Frame>)
    requires c2 != []
    ensures c1 + c2 != [] && Last(c1 + c2) == Last(c2) && Init(c1 + c2) == c1 + Init(c2)
  {
  }

  lemma {:induction false} PathJoin(h: seq<Link>, root: int, c1: seq<Frame>, p1: int, c2: seq<Frame>, p: int)
    requires Path(h, root, c1, p1) && Path(h, p1, c2, p)
    ensures Path(h, root, c1 + c2, p)
    decreases |c2|
  {
    if c2 == [] {
      assert c1 + c2 == c1;
    } else {
      InitOfJoin(c1, c2);
      PathJoin(h, root, c1, p1, Init(c2), Last(c2).id);
    }
  }

  lemma {:induction false} SidesJoin(c1: seq<Frame>, c2: seq<Frame>)
    ensures Before(c1 + c2) == Before(c1) + Before(c2) && After(c1 + c2) == After(c2) + After(c1)
    decreases |c2|
  {
    hide InOrder;
    if c2 == [] {
      assert c1 + c2 == c1;
    } else {
      InitOfJoin(c1, c2);
      SidesJoin(c1, Init(c2));
      var f := Last(c2);
      Assoc(Before(c1), Before(Init(c2)), InOrder(f.sib) + [f.id]);
      Assoc([f.id] + InOrder(f.sib), After(Init(c2)), After(c1));
    }
  }

  lemma WholeJoin(c1: seq<Frame>, c2: seq<Frame>, t: Tree)
    ensures Whole(c1 + c2, t) == Before(c1) + Whole(c2, t) + After(c1)
  {
    hide InOrder, Before, After;
    SidesJoin(c1, c2);
    var a, b, i, c, d := Before(c1), Before(c2), InOrder(t), After(c2), After(c1);
    Assoc(a, b, i);
    Assoc(a + (b + i), c, d);
    Assoc(a, b + i, c);
  }

  /** The height of a context whose hole holds a tree of height `h`. */
  ghost function ContextHeight(ctx: seq<Frame>, h: nat): nat
    decreases |ctx|
  {
    if ctx == [] then h else ContextHeight(Init(ctx), 1 + Max(h, Height(Last(ctx).sib)))
  }

  lemma {:induction false} FitsJoin(c1: seq<Frame>, c2: seq<Frame>, h: nat)
    requires FitsHeight(c2, h) && FitsHeight(c1, ContextHeight(c2, h))
    ensures FitsHeight(c1 + c2, h)
    decreases |c2|
  {
    if c2 == [] {
      assert c1 + c2 == c1;
    } else {
      InitOfJoin(c1, c2);
      FitsJoin(c1, Init(c2), 1 + Max(h, Height(Last(c2).sib)));
    }
  }

  // ---- the successor of a node ----

  /** From `top`, left links lead through `inner` to the subtree `t` of `whole`. */
  ghost predicate LeftSpine(h: seq<Link>, top: int, inner: seq<Frame>, s: int, t: Tree, whole: Tree) {
    && Path(h, top, inner, s) && Shape(h, s, t) && Balanced(t)
    && FitsHeight(inner, Height(t)) && ContextHeight(inner, Height(t)) == Height(whole)
    && |inner| + Height(t) <= Height(whole)
    && Before(inner) == [] && InOrder(t) + After(inner) == InOrder(whole)
  }

  lemma LeftSpineStart(h: seq<Link>, top: int, t: Tree)
    requires Shape(h, top, t) && Balanced(t)
    ensures LeftSpine(h, top, [], top, t, t)
  {
  }

  lemma PushSides(ctx: seq<Frame>, t: Tree)
    requires t.T?
    ensures var ctx' := ctx + [FrameOf(t, -1)];
            && Before(ctx') == Before(ctx) && InOrder(t.left) + After(ctx') == InOrder(t) + After(ctx)
            && ContextHeight(ctx', Height(t.left)) == ContextHeight(ctx, Height(t))
  {
    hide Height, FitsHeight;
    InitOfPush(ctx, FrameOf(t, -1));
    NodeHeight(t);
    Assoc(InOrder(t.left), [t.id] + InOrder(t.right), After(ctx));
    Assoc(InOrder(t.left), [t.id], InOrder(t.right));
  }

  lemma NodeHeight(t: Tree)
    requires t.T?
    ensures Height(t) == 1 + Max(Height(t.left), Height(t.right))
  {
  }

  lemma LeftSpineStep(h: seq<Link>, top: int, inner: seq<Frame>, t: Tree, whole: Tree)
    requires t.T? && LeftSpine(h, top, inner, t.id, t, whole) && Unique(InOrder(whole))
    ensures InRange(h, t.id) && t.id in InOrder(whole)
    ensures var h' := h[t.id := h[t.id].(cache := -1)];
            LeftSpine(h', top, inner + [FrameOf(t, -1)], h'[t.id].left, t.left, whole)
  {
    hide Path, Shape, Balanced, FitsHeight, InOrder, Before, After, Height, ContextHeight;
    assert Whole(inner, t) == InOrder(whole);
    InOrderParts(t);
    ShapeNode(h, t);
    PushPath(h, top, inner, t, -1);
    PushHeight(inner, t, -1);
    PushSides(inner, t);
  }

  lemma {:induction false} ContextHeightJoin(c1: seq<Frame>, c2: seq<Frame>, h: nat)
    ensures ContextHeight(c1 + c2, h) == ContextHeight(c1, ContextHeight(c2, h))
    decreases |c2|
  {
    if c2 == [] {
      assert c1 + c2 == c1;
    } else {
      InitOfJoin(c1, c2);
      ContextHeightJoin(c1, Init(c2), 1 + Max(h, Height(Last(c2).sib)));
    }
  }

  // ---- taking a node out ----

  /**
   In place of the tree `t` there is now one rooted at `r` without the root of `t`.  Its context `c`
   still has the balance factors of before, when the hole held a tree one level higher.
   */
  ghost predicate Detached(h: seq<Link>, r: int, c: seq<Frame>, hole: int, t': Tree, t: Tree)
    requires t.T?
  {
    && Path(h, r, c, hole) && Shape(h, hole, t') && Balanced(t')
    && FitsHeight(c, Height(t') + 1) && ContextHeight(c, Height(t') + 1) == Height(t)
    && Whole(c, t') == InOrder(t.left) + InOrder(t.right)
  }

  /** The links after the successor `s` has taken the place of the root of `t`. */
  ghost function Promoted(h: seq<Link>, q: int, inner: seq<Frame>, s: int): seq<Link>
    requires InRange(h, q) && InRange(h, s) && (inner != [] ==> InRange(h, Last(inner).id))
  {
    var h1 := if inner == [] then h else h[Last(inner).id := h[Last(inner).id].(left := h[s].right)];
    h1[s := Link(h[q].left, if inner == [] then h[s].right else h[q].right, 1, h[q].bal)]
  }

  lemma PromotedWhole(t: Tree, inner: seq<Frame>, ts: Tree)
    requires t.T? && ts.T? && ts.left.Nil?
    requires Before(inner) == [] && InOrder(ts) + After(inner) == InOrder(t.right)
    ensures Whole([Frame(ts.id, 1, t.bal, t.left)] + inner, ts.right) == InOrder(t.left) + InOrder(t.right)
  {
    hide InOrder, Before, After;
    var f := Frame(ts.id, 1, t.bal, t.left);
    NilLeft(ts);
    OneFrame(f);
    WholeJoin([f], inner, ts.right);
    Assoc([ts.id], InOrder(ts.right), After(inner));
    Assoc(InOrder(t.left), [ts.id], InOrder(ts.right) + After(inner));
  }

  lemma NilLeft(ts: Tree)
    requires ts.T? && ts.left.Nil?
    ensures InOrder(ts) == [ts.id] + InOrder(ts.right) && Height(ts) == 1 + Height(ts.right)
  {
  }

  lemma OneFrame(f: Frame)
    requires f.dir == 1
    ensures Before([f]) == InOrder(f.sib) + [f.id] && After([f]) == []
    ensures forall h: nat :: ContextHeight([f], h) == 1 + Max(h, Height(f.sib))
    ensures forall h: nat :: FitsHeight([f], h) <==> f.bal == h - Height(f.sib) && -1 <= f.bal <= 1 && Balanced(f.sib)
  {
    assert Init([f]) == [] && Last([f]) == f;
  }

  lemma PromotedHeights(t: Tree, inner: seq<Frame>, ts: Tree)
    requires t.T? && Balanced(t) && ts.T? && ts.left.Nil?
    requires FitsHeight(inner, Height(ts)) && ContextHeight(inner, Height(ts)) == Height(t.right)
    ensures var c := [Frame(ts.id, 1, t.bal, t.left)] + inner;
            FitsHeight(c, Height(ts.right) + 1) && ContextHeight(c, Height(ts.right) + 1) == Height(t)
  {
    hide InOrder, Before, After, FitsHeight, ContextHeight, Height, Balanced;
    var f := Frame(ts.id, 1, t.bal, t.left);
    NilLeft(ts);
    OneFrame(f);
    NodeFacts(t);
    ContextHeightJoin([f], inner, Height(ts));
    FitsJoin([f], inner, Height(ts));
  }

  /** Bypassing the successor at the end of the left spine. */
  lemma Bypassed(h: seq<Link>, top: int, inner: seq<Frame>, ts: Tree, whole: Tree)
    requires ts.T? && ts.left.Nil? && LeftSpine(h, top, inner, ts.id, ts, whole) && Unique(InOrder(whole))
    ensures InRange(h, ts.id) && (inner != [] ==> InRange(h, Last(inner).id))
    ensures var h1 := if inner == [] then h else h[Last(inner).id := h[Last(inner).id].(left := h[ts.id].right)];
            && Path(h1, if inner == [] then h[ts.id].right else top, inner, h[ts.id].right)
            && Shape(h1, h[ts.id].right, ts.right)
  {
    hide InOrder, Before, After, FitsHeight, ContextHeight, Height, Balanced, FrameShows;
    ShapeNode(h, ts);
    SpineUnique(inner, ts, whole);
    if inner != [] {
      PathLast(h, top, inner, ts.id);
      FrameInRange(h, Last(inner), ts.id);
      SpineDirection(inner);
      RelinkPath(h, top, inner, ts.id, h[ts.id].right, ts.right);
    }
  }

  lemma SpineDirection(inner: seq<Frame>)
    requires inner != [] && Before(inner) == []
    ensures Last(inner).dir == -1
  {
  }

  lemma SpineUnique(inner: seq<Frame>, ts: Tree, whole: Tree)
    requires ts.T? && ts.left.Nil?
    requires Before(inner) == [] && InOrder(ts) + After(inner) == InOrder(whole) && Unique(InOrder(whole))
    ensures Unique(Whole(inner, ts.right))
    ensures ts.id !in InOrder(ts.right) && ts.id !in After(inner)
    ensures forall i | i in InOrder(ts.right) || i in After(inner) :: i in InOrder(whole)
    ensures ts.id in InOrder(whole)
  {
    hide Before, After;
    NilLeft(ts);
    hide InOrder;
    var rest := InOrder(ts.right) + After(inner);
    Assoc([ts.id], InOrder(ts.right), After(inner));
    UniqueParts([ts.id], rest);
    assert ts.id in [ts.id];
    assert Whole(inner, ts.right) == rest;
  }

  /** Promoting the successor takes the root of `t` out. */
  lemma SuccessorPromoted(h: seq<Link>, t: Tree, inner: seq<Frame>, ts: Tree)
    requires t.T? && t.right.T? && Shape(h, t.id, t) && Balanced(t) && Unique(InOrder(t))
    requires InRange(h, t.id)
    requires ts.T? && ts.left.Nil? && LeftSpine(h, h[t.id].right, inner, ts.id, ts, t.right)
    ensures InRange(h, ts.id) && (inner != [] ==> InRange(h, Last(inner).id))
    ensures var h' := Promoted(h, t.id, inner, ts.id);
            && Detached(h', ts.id, [Frame(ts.id, 1, t.bal, t.left)] + inner, h[ts.id].right, ts.right, t)
            && ChangedOnly(h, h', InOrder(t))
  {
    hide InOrder, Before, After, FitsHeight, ContextHeight, Height, Balanced;
    ShapeNode(h, t);
    NodeApart(t);
    InOrderParts(t);
    Bypassed(h, h[t.id].right, inner, ts, t.right);
    SpineUnique(inner, ts, t.right);
    PromotedWhole(t, inner, ts);
    PromotedHeights(t, inner, ts);
    NodeFacts(ts);
    var h' := Promoted(h, t.id, inner, ts.id);
    PromotedPath(h, h', t, inner, ts);
    PromotedChange(h, t, inner, ts.id);
  }

  lemma PromotedChange(h: seq<Link>, t: Tree, inner: seq<Frame>, s: int)
    requires t.T? && InRange(h, t.id) && InRange(h, s) && (inner != [] ==> InRange(h, Last(inner).id))
    requires s in InOrder(t) && Before(inner) == [] && forall i | i in After(inner) :: i in InOrder(t)
    ensures ChangedOnly(h, Promoted(h, t.id, inner, s), InOrder(t))
  {
    hide InOrder;
    if inner != [] {
      SpineDirection(inner);
      assert Last(inner).id in After(inner);
    }
  }

  lemma PromotedPath(h: seq<Link>, h': seq<Link>, t: Tree, inner: seq<Frame>, ts: Tree)
    requires t.T? && t.right.T? && Shape(h, t.id, t) && Balanced(t) && Unique(InOrder(t))
    requires InRange(h, t.id)
    requires ts.T? && ts.left.Nil? && LeftSpine(h, h[t.id].right, inner, ts.id, ts, t.right)
    requires InRange(h, ts.id) && (inner != [] ==> InRange(h, Last(inner).id))
    requires h' == Promoted(h, t.id, inner, ts.id)
    ensures Path(h', ts.id, [Frame(ts.id, 1, t.bal, t.left)] + inner, h[ts.id].right)
    ensures Shape(h', h[ts.id].right, ts.right)
  {
    hide InOrder, Before, After, FitsHeight, ContextHeight, Height, Balanced;
    ShapeNode(h, t);
    NodeApart(t);
    Bypassed(h, h[t.id].right, inner, ts, t.right);
    SpineUnique(inner, ts, t.right);
    var h1 := if inner == [] then h else h[Last(inner).id := h[Last(inner).id].(left := h[ts.id].right)];
    var top := if inner == [] then h[ts.id].right else h[t.id].right;
    var hole := h[ts.id].right;
    PathFrame(h1, h', top, inner, hole);
    ShapeFrame(h1, h', hole, ts.right);
    LeftStays(h, h', t, inner, ts);
    var f := Frame(ts.id, 1, t.bal, t.left);
    OneFramePath(h', f, top);
    PathJoin(h', ts.id, [f], top, inner, hole);
  }

  lemma OneFramePath(h: seq<Link>, f: Frame, p: int)
    requires FrameShows(h, f, p)
    ensures Path(h, f.id, [f], p)
  {
    assert Init([f]) == [] && Last([f]) == f;
  }

  lemma LeftStays(h: seq<Link>, h': seq<Link>, t: Tree, inner: seq<Frame>, ts: Tree)
    requires t.T? && ts.T? && Shape(h, t.id, t) && Unique(InOrder(t)) && InRange(h, t.id) && InRange(h, ts.id)
    requires Before(inner) == [] && ts.id in InOrder(t.right) && (inner != [] ==> InRange(h, Last(inner).id))
    requires forall i | i in After(inner) :: i in InOrder(t.right)
    requires h' == Promoted(h, t.id, inner, ts.id)
    ensures Shape(h', h[t.id].left, t.left)
  {
    NodeApart(t);
    hide InOrder;
    if inner != [] {
      SpineDirection(inner);
      assert Last(inner).id in After(inner);
    }
    ShapeFrame(h, h', h[t.id].left, t.left);
  }

  /** A node without a right child gives way to its left subtree. */
  lemma LeftPromoted(h: seq<Link>, t: Tree)
    requires t.T? && t.right.Nil? && Shape(h, t.id, t) && Balanced(t) && Unique(InOrder(t)) && InRange(h, t.id)
    ensures Detached(h, h[t.id].left, [], h[t.id].left, t.left, t)
    ensures t.left.T? ==> t.left.bal == 0
  {
    assert Whole([], t.left) == InOrder(t.left) + InOrder(t.right);
    if t.left.T? {
      NodeFacts(t.left.left);
      NodeFacts(t.left.right);
    }
  }
}
