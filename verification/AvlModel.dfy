/**
 Height-balanced trees as values: in-order contents, balance factors, the contexts that an explicit
 parent stack describes, and the rebalancing steps of the buffer cache's tree.
 A node is named by its index in the array of buffer descriptors.
 */
module AvlModel {
  datatype Tree = Nil | T(left: Tree, id: int, bal: int, right: Tree)

  /** One stack entry: a node, the direction taken from it, and the subtree on the other side. */
  datatype Frame = Frame(id: int, dir: int, bal: int, sib: Tree)

  ghost function Height(t: Tree): nat {
    if t.Nil? then 0 else 1 + Max(Height(t.left), Height(t.right))
  }

  function Max(a: int, b: int): int {
    if a > b then a else b
  }

  ghost function InOrder(t: Tree): seq<int> {
    if t.Nil? then [] else InOrder(t.left) + [t.id] + InOrder(t.right)
  }

  /** Every stored balance factor is the true height difference, and it is -1, 0 or 1. */
  ghost predicate Balanced(t: Tree) {
    t.Nil? || (&& t.bal == Height(t.right) - Height(t.left) && -1 <= t.bal <= 1
               && Balanced(t.left) && Balanced(t.right))
  }

  // ---- contexts ----

  ghost function Graft(f: Frame, t: Tree): Tree {
    if f.dir == -1 then T(t, f.id, f.bal, f.sib) else T(f.sib, f.id, f.bal, t)
  }

  ghost function Last(ctx: seq<Frame>): Frame
    requires ctx != []
  {
    ctx[|ctx| - 1]
  }

  ghost function Init(ctx: seq<Frame>): seq<Frame>
    requires ctx != []
  {
    ctx[..|ctx| - 1]
  }

  /** The whole tree when `t` fills the hole of the context. */
  ghost function Plug(ctx: seq<Frame>, t: Tree): Tree
    decreases |ctx|
  {
    if ctx == [] then t else Plug(Init(ctx), Graft(Last(ctx), t))
  }

  /** What precedes the hole in order. */
  ghost function Before(ctx: seq<Frame>): seq<int>
    decreases |ctx|
  {
    if ctx == [] then []
    else if Last(ctx).dir == -1 then Before(Init(ctx))
    else Before(Init(ctx)) + (InOrder(Last(ctx).sib) + [Last(ctx).id])
  }

  /** What follows the hole in order. */
  ghost function After(ctx: seq<Frame>): seq<int>
    decreases |ctx|
  {
    if ctx == [] then []
    else if Last(ctx).dir == -1 then ([Last(ctx).id] + InOrder(Last(ctx).sib)) + After(Init(ctx))
    else After(Init(ctx))
  }

  /** Every balance factor of the context is right if the hole holds a tree of height `h`. */
  ghost predicate FitsHeight(ctx: seq<Frame>, h: nat)
    decreases |ctx|
  {
    ctx == [] ||
    var f := Last(ctx);
    && f.bal == (if f.dir == -1 then Height(f.sib) - h else h - Height(f.sib))
    && -1 <= f.bal <= 1
    && Balanced(f.sib)
    && FitsHeight(Init(ctx), 1 + Max(h, Height(f.sib)))
  }

  lemma GraftInOrder(f: Frame, t: Tree)
    ensures InOrder(Graft(f, t)) == if f.dir == -1 then InOrder(t) + [f.id] + InOrder(f.sib) else InOrder(f.sib) + [f.id] + InOrder(t)
  {
  }

  lemma {:induction false} PlugInOrder(ctx: seq<Frame>, t: Tree)
    ensures InOrder(Plug(ctx, t)) == Before(ctx) + InOrder(t) + After(ctx)
    decreases |ctx|
  {
    if ctx == [] {
      assert [] + InOrder(t) + [] == InOrder(t);
    } else {
      PlugInOrder(Init(ctx), Graft(Last(ctx), t));
      hide InOrder, Graft;
      GraftInOrder(Last(ctx), t);
      var a, b, x, l := Before(Init(ctx)), After(Init(ctx)), InOrder(t), Last(ctx);
      var y := InOrder(l.sib);
      if l.dir == -1 {
        assert a + (x + [l.id] + y) + b == a + x + (([l.id] + y) + b);
      } else {
        assert a + (y + [l.id] + x) + b == (a + (y + [l.id])) + x + b;
      }
    }
  }

  lemma {:induction false} PlugBalanced(ctx: seq<Frame>, t: Tree)
    requires FitsHeight(ctx, Height(t)) && Balanced(t)
    ensures Balanced(Plug(ctx, t))
    decreases |ctx|
  {
    if ctx != [] {
      PlugBalanced(Init(ctx), Graft(Last(ctx), t));
    }
  }

  lemma InitOfPush(ctx: seq<Frame>, f: Frame)
    ensures ctx + [f] != [] && Init(ctx + [f]) == ctx && Last(ctx + [f]) == f
  {
  }

  // ---- rebalancing after an insertion ----

  /** A left-heavy node and its left child trade places (LL-turn). */
  ghost function TurnRight(t: Tree, upper: int, lower: int): Tree
    requires t.T? && t.left.T?
  {
    T(t.left.left, t.left.id, upper, T(t.left.right, t.id, lower, t.right))
  }

  ghost function TurnLeft(t: Tree, upper: int, lower: int): Tree
    requires t.T? && t.right.T?
  {
    T(T(t.left, t.id, lower, t.right.left), t.right.id, upper, t.right.right)
  }

  /** The right child of the left child becomes the root (LR-turn). */
  ghost function DoubleTurnRight(t: Tree): Tree
    requires t.T? && t.left.T? && t.left.right.T?
  {
    var p1, p2 := t.left, t.left.right;
    T(T(p1.left, p1.id, if p2.bal == 1 then -1 else 0, p2.left), p2.id, 0,
      T(p2.right, t.id, if p2.bal == -1 then 1 else 0, t.right))
  }

  ghost function DoubleTurnLeft(t: Tree): Tree
    requires t.T? && t.right.T? && t.right.left.T?
  {
    var p1, p2 := t.right, t.right.left;
    T(T(t.left, t.id, if p2.bal == 1 then -1 else 0, p2.left), p2.id, 0,
      T(p2.right, p1.id, if p2.bal == -1 then 1 else 0, p1.right))
  }

  datatype Rebalanced = Rebalanced(tree: Tree, modified: bool)

  /** The left subtree of `t` has grown by one level; the balance factor of `t` is the old one. */
  ghost function GrownLeft(t: Tree): Rebalanced
    requires t.T?
    requires t.bal == -1 ==> t.left.T? && (t.left.bal != -1 ==> t.left.right.T?)
  {
    if t.bal == 1 then Rebalanced(t.(bal := 0), false)
    else if t.bal == 0 then Rebalanced(t.(bal := -1), true)
    else if t.bal == -1 then
      Rebalanced(if t.left.bal == -1 then TurnRight(t, 0, 0) else DoubleTurnRight(t), false)
    else Rebalanced(t, true)
  }

  ghost function GrownRight(t: Tree): Rebalanced
    requires t.T?
    requires t.bal == 1 ==> t.right.T? && (t.right.bal != 1 ==> t.right.left.T?)
  {
    if t.bal == -1 then Rebalanced(t.(bal := 0), false)
    else if t.bal == 0 then Rebalanced(t.(bal := 1), true)
    else if t.bal == 1 then
      Rebalanced(if t.right.bal == 1 then TurnLeft(t, 0, 0) else DoubleTurnLeft(t), false)
    else Rebalanced(t, true)
  }

  /** A subtree that has just grown: only a new leaf has balance 0. */
  ghost predicate Grown(t: Tree) {
    t.T? && Balanced(t) && (Height(t) == 1 || t.bal != 0)
  }

  lemma GrownLeftCorrect(t: Tree)
    requires t.T? && Grown(t.left) && Balanced(t.right)
    requires t.bal == Height(t.right) - (Height(t.left) - 1) && -1 <= t.bal <= 1
    ensures t.bal == -1 ==> t.left.T? && (t.left.bal != -1 ==> t.left.right.T?)
    ensures var r := GrownLeft(t);
            && r.tree.T? && Balanced(r.tree) && InOrder(r.tree) == InOrder(t)
            && (if r.modified then Height(r.tree) == 2 + Max(Height(t.left) - 1, Height(t.right)) && Grown(r.tree)
                else Height(r.tree) == 1 + Max(Height(t.left) - 1, Height(t.right)))
  {
    hide InOrder, Height, Balanced;
    TurnsInOrder(t);
    NodeFacts(t);
    if t.bal == -1 {
      NodeFacts(t.left);
      if t.left.bal == -1 {
        TurnRightBalanced(t, 0, 0);
      } else {
        DoubleTurnRightBalanced(t);
      }
    } else {
      RelabelFacts(t);
    }
  }

  lemma GrownRightCorrect(t: Tree)
    requires t.T? && Grown(t.right) && Balanced(t.left)
    requires t.bal == (Height(t.right) - 1) - Height(t.left) && -1 <= t.bal <= 1
    ensures t.bal == 1 ==> t.right.T? && (t.right.bal != 1 ==> t.right.left.T?)
    ensures var r := GrownRight(t);
            && r.tree.T? && Balanced(r.tree) && InOrder(r.tree) == InOrder(t)
            && (if r.modified then Height(r.tree) == 2 + Max(Height(t.right) - 1, Height(t.left)) && Grown(r.tree)
                else Height(r.tree) == 1 + Max(Height(t.right) - 1, Height(t.left)))
  {
    hide InOrder, Height, Balanced;
    TurnsInOrder(t);
    NodeFacts(t);
    if t.bal == 1 {
      NodeFacts(t.right);
      if t.right.bal == 1 {
        TurnLeftBalanced(t, 0, 0);
      } else {
        DoubleTurnLeftBalanced(t);
      }
    } else {
      RelabelFacts(t);
    }
  }

  // ---- heights of turned trees ----

  lemma NodeFacts(t: Tree)
    ensures t.Nil? ==> Height(t) == 0 && Balanced(t)
    ensures t.T? ==> Height(t) == 1 + Max(Height(t.left), Height(t.right))
    ensures t.T? ==> (Balanced(t) <==> t.bal == Height(t.right) - Height(t.left) && -1 <= t.bal <= 1
                                       && Balanced(t.left) && Balanced(t.right))
  {
  }

  lemma RelabelFacts(t: Tree)
    requires t.T?
    ensures forall b :: Height(t.(bal := b)) == Height(t) && InOrder(t.(bal := b)) == InOrder(t)
    ensures forall b :: Balanced(t.(bal := b)) <==> b == Height(t.right) - Height(t.left) && -1 <= b <= 1
                                                    && Balanced(t.left) && Balanced(t.right)
  {
  }

  lemma TurnRightBalanced(t: Tree, u: int, l: int)
    requires t.T? && t.left.T? && Balanced(t.left.left) && Balanced(t.left.right) && Balanced(t.right)
    requires l == Height(t.right) - Height(t.left.right) && -1 <= l <= 1
    requires u == 1 + Max(Height(t.left.right), Height(t.right)) - Height(t.left.left) && -1 <= u <= 1
    ensures Balanced(TurnRight(t, u, l))
    ensures Height(TurnRight(t, u, l)) == 1 + Max(Height(t.left.left), 1 + Max(Height(t.left.right), Height(t.right)))
  {
  }

  lemma TurnLeftBalanced(t: Tree, u: int, l: int)
    requires t.T? && t.right.T? && Balanced(t.right.left) && Balanced(t.right.right) && Balanced(t.left)
    requires l == Height(t.right.left) - Height(t.left) && -1 <= l <= 1
    requires u == Height(t.right.right) - (1 + Max(Height(t.left), Height(t.right.left))) && -1 <= u <= 1
    ensures Balanced(TurnLeft(t, u, l))
    ensures Height(TurnLeft(t, u, l)) == 1 + Max(1 + Max(Height(t.left), Height(t.right.left)), Height(t.right.right))
  {
  }

  /** The middle node's subtrees differ by at most one and reach the height of the outer subtrees. */
  lemma DoubleTurnRightBalanced(t: Tree)
    requires t.T? && t.left.T? && Balanced(t.left) && t.left.bal == 1 && Balanced(t.right)
    requires Height(t.left) == Height(t.right) + 2
    ensures t.left.right.T? && Balanced(DoubleTurnRight(t)) && Height(DoubleTurnRight(t)) == Height(t.right) + 2
  {
    hide InOrder, Height, Balanced;
    NodeFacts(t.left);
    NodeFacts(t.left.right);
    var d := DoubleTurnRight(t);
    NodeFacts(d);
    NodeFacts(d.left);
    NodeFacts(d.right);
  }

  lemma DoubleTurnLeftBalanced(t: Tree)
    requires t.T? && t.right.T? && Balanced(t.right) && t.right.bal == -1 && Balanced(t.left)
    requires Height(t.right) == Height(t.left) + 2
    ensures t.right.left.T? && Balanced(DoubleTurnLeft(t)) && Height(DoubleTurnLeft(t)) == Height(t.left) + 2
  {
    hide InOrder, Height, Balanced;
    NodeFacts(t.right);
    NodeFacts(t.right.left);
    var d := DoubleTurnLeft(t);
    NodeFacts(d);
    NodeFacts(d.left);
    NodeFacts(d.right);
  }

  /** Turning never changes the order. */
  lemma TurnsInOrder(t: Tree)
    requires t.T?
    ensures t.left.T? ==> forall u, l :: InOrder(TurnRight(t, u, l)) == InOrder(t)
    ensures t.right.T? ==> forall u, l :: InOrder(TurnLeft(t, u, l)) == InOrder(t)
    ensures t.left.T? && t.left.right.T? ==> InOrder(DoubleTurnRight(t)) == InOrder(t)
    ensures t.right.T? && t.right.left.T? ==> InOrder(DoubleTurnLeft(t)) == InOrder(t)
  {
    if t.left.T? {
      forall u, l ensures InOrder(TurnRight(t, u, l)) == InOrder(t) {
        TurnRightInOrder(t, u, l);
      }
      if t.left.right.T? {
        DoubleTurnRightInOrder(t);
      }
    }
    if t.right.T? {
      forall u, l ensures InOrder(TurnLeft(t, u, l)) == InOrder(t) {
        TurnLeftInOrder(t, u, l);
      }
      if t.right.left.T? {
        DoubleTurnLeftInOrder(t);
      }
    }
  }

  lemma Assoc(a: seq<int>, b: seq<int>, c: seq<int>)
    ensures (a + b) + c == a + (b + c)
  {
  }

  lemma TurnRightInOrder(t: Tree, u: int, l: int)
    requires t.T? && t.left.T?
    ensures InOrder(TurnRight(t, u, l)) == InOrder(t)
  {
    var a, b, c := InOrder(t.left.left), InOrder(t.left.right), InOrder(t.right);
    Assoc(a + [t.left.id], b + [t.id], c);
    Assoc(a + [t.left.id], b, [t.id]);
  }

  lemma TurnLeftInOrder(t: Tree, u: int, l: int)
    requires t.T? && t.right.T?
    ensures InOrder(TurnLeft(t, u, l)) == InOrder(t)
  {
    var a, b, c := InOrder(t.left), InOrder(t.right.left), InOrder(t.right.right);
    Assoc(a + [t.id], b + [t.right.id], c);
    Assoc(a + [t.id], b, [t.right.id]);
  }

  lemma DoubleTurnRightInOrder(t: Tree)
    requires t.T? && t.left.T? && t.left.right.T?
    ensures InOrder(DoubleTurnRight(t)) == InOrder(t)
  {
    TurnLeftInOrder(t.left, 0, 0);
    var t' := t.(left := TurnLeft(t.left, 0, 0));
    TurnRightInOrder(t', 0, 0);
    SameShape(DoubleTurnRight(t), TurnRight(t', 0, 0));
  }

  lemma DoubleTurnLeftInOrder(t: Tree)
    requires t.T? && t.right.T? && t.right.left.T?
    ensures InOrder(DoubleTurnLeft(t)) == InOrder(t)
  {
    TurnRightInOrder(t.right, 0, 0);
    var t' := t.(right := TurnRight(t.right, 0, 0));
    TurnLeftInOrder(t', 0, 0);
    SameShape(DoubleTurnLeft(t), TurnLeft(t', 0, 0));
  }

  /** Balance factors do not matter to the order. */
  lemma SameShape(t: Tree, u: Tree)
    requires t.T? && u.T? && t.id == u.id
    requires t.left.T? && u.left.T? && t.left.(bal := 0) == u.left.(bal := 0)
    requires t.right.T? && u.right.T? && t.right.(bal := 0) == u.right.(bal := 0)
    ensures InOrder(t) == InOrder(u)
  {
  }

  // ---- rebalancing after a removal ----

  /** The left subtree of `t` has lost one level; the balance factor of `t` is the old one. */
  ghost function ShrunkLeft(t: Tree): Rebalanced
    requires t.T?
    requires t.bal == 1 ==> t.right.T? && (t.right.bal < 0 ==> t.right.left.T?)
  {
    if t.bal == -1 then Rebalanced(t.(bal := 0), true)
    else if t.bal == 0 then Rebalanced(t.(bal := 1), false)
    else if t.bal == 1 then
      if t.right.bal == 0 then Rebalanced(TurnLeft(t, -1, 1), false)
      else if t.right.bal > 0 then Rebalanced(TurnLeft(t, 0, 0), true)
      else Rebalanced(DoubleTurnLeft(t), true)
    else Rebalanced(t, true)
  }

  ghost function ShrunkRight(t: Tree): Rebalanced
    requires t.T?
    requires t.bal == -1 ==> t.left.T? && (t.left.bal > 0 ==> t.left.right.T?)
  {
    if t.bal == 1 then Rebalanced(t.(bal := 0), true)
    else if t.bal == 0 then Rebalanced(t.(bal := -1), false)
    else if t.bal == -1 then
      if t.left.bal == 0 then Rebalanced(TurnRight(t, 1, -1), false)
      else if t.left.bal < 0 then Rebalanced(TurnRight(t, 0, 0), true)
      else Rebalanced(DoubleTurnRight(t), true)
    else Rebalanced(t, true)
  }

  /** What a step of the removal climb must achieve, for the height that the tree had before. */
  ghost predicate Settled(r: Rebalanced, t: Tree, height: nat) {
    r.tree.T? && Balanced(r.tree) && InOrder(r.tree) == InOrder(t) && Height(r.tree) == height - (if r.modified then 1 else 0)
  }

  lemma ShrunkLeftTurns(t: Tree)
    requires t.T? && t.bal == 1 && Balanced(t.left) && Balanced(t.right) && Height(t.right) == Height(t.left) + 2
    ensures t.right.T? && (t.right.bal < 0 ==> t.right.left.T?)
    ensures Settled(ShrunkLeft(t), t, Height(t.right) + 1)
  {
    hide InOrder, Height, Balanced;
    TurnsInOrder(t);
    NodeFacts(t);
    NodeFacts(t.right);
    if t.right.bal == 0 {
      TurnLeftBalanced(t, -1, 1);
    } else if t.right.bal > 0 {
      TurnLeftBalanced(t, 0, 0);
    } else {
      DoubleTurnLeftBalanced(t);
    }
  }

  lemma ShrunkLeftCorrect(t: Tree)
    requires t.T? && Balanced(t.left) && Balanced(t.right)
    requires t.bal == Height(t.right) - (Height(t.left) + 1) && -1 <= t.bal <= 1
    ensures t.bal == 1 ==> t.right.T? && (t.right.bal < 0 ==> t.right.left.T?)
    ensures Settled(ShrunkLeft(t), t, 1 + Max(Height(t.left) + 1, Height(t.right)))
  {
    hide InOrder, Height, Balanced;
    NodeFacts(t);
    if t.bal == 1 {
      ShrunkLeftTurns(t);
    } else {
      RelabelFacts(t);
    }
  }

  lemma ShrunkRightTurns(t: Tree)
    requires t.T? && t.bal == -1 && Balanced(t.left) && Balanced(t.right) && Height(t.left) == Height(t.right) + 2
    ensures t.left.T? && (t.left.bal > 0 ==> t.left.right.T?)
    ensures Settled(ShrunkRight(t), t, Height(t.left) + 1)
  {
    hide InOrder, Height, Balanced;
    TurnsInOrder(t);
    NodeFacts(t);
    NodeFacts(t.left);
    if t.left.bal == 0 {
      TurnRightBalanced(t, 1, -1);
    } else if t.left.bal < 0 {
      TurnRightBalanced(t, 0, 0);
    } else {
      DoubleTurnRightBalanced(t);
    }
  }

  lemma ShrunkRightCorrect(t: Tree)
    requires t.T? && Balanced(t.left) && Balanced(t.right)
    requires t.bal == (Height(t.right) + 1) - Height(t.left) && -1 <= t.bal <= 1
    ensures t.bal == -1 ==> t.left.T? && (t.left.bal > 0 ==> t.left.right.T?)
    ensures Settled(ShrunkRight(t), t, 1 + Max(Height(t.right) + 1, Height(t.left)))
  {
    hide InOrder, Height, Balanced;
    NodeFacts(t);
    if t.bal == -1 {
      ShrunkRightTurns(t);
    } else {
      RelabelFacts(t);
    }
  }

  // ---- height and size ----

  function Fib(n: nat): nat {
    if n < 2 then n else Fib(n - 1) + Fib(n - 2)
  }

  lemma {:induction false} FibMonotone(m: nat, n: nat)
    requires m <= n
    ensures Fib(m) <= Fib(n)
    decreases n
  {
    if m < n {
      FibMonotone(m, n - 1);
      if n < 2 {
        assert Fib(0) == 0;
      }
    }
  }

  /** A balanced tree of height `h` has at least as many nodes as the Fibonacci tree. */
  lemma {:induction false} SizeBound(t: Tree)
    requires Balanced(t)
    ensures |InOrder(t)| + 1 >= Fib(Height(t) + 2)
  {
    if t.T? {
      SizeBound(t.left);
      SizeBound(t.right);
      var h := Height(t);
      FibMonotone(h, Height(t.left) + 2);
      FibMonotone(h, Height(t.right) + 2);
    } else {
      assert Fib(2) == Fib(1) + Fib(0);
    }
  }

  lemma {:induction false} FibStep(n: nat, a: nat, b: nat)
    requires Fib(n) == a && Fib(n + 1) == b
    ensures Fib(n + 2) == a + b
  {
  }

  lemma FibBase()
    ensures Fib(0) == 0 && Fib(1) == 1
  {
  }

  lemma Fib35()
    ensures Fib(35) == 9227465
  {
    hide Fib;
    FibBase();
    FibStep(0, 0, 1); FibStep(1, 1, 1); FibStep(2, 1, 2); FibStep(3, 2, 3); FibStep(4, 3, 5);
    FibStep(5, 5, 8); FibStep(6, 8, 13); FibStep(7, 13, 21); FibStep(8, 21, 34); FibStep(9, 34, 55);
    FibStep(10, 55, 89); FibStep(11, 89, 144); FibStep(12, 144, 233); FibStep(13, 233, 377);
    FibStep(14, 377, 610); FibStep(15, 610, 987); FibStep(16, 987, 1597); FibStep(17, 1597, 2584);
    FibStep(18, 2584, 4181); FibStep(19, 4181, 6765); FibStep(20, 6765, 10946); FibStep(21, 10946, 17711);
    FibStep(22, 17711, 28657); FibStep(23, 28657, 46368); FibStep(24, 46368, 75025); FibStep(25, 75025, 121393);
    FibStep(26, 121393, 196418); FibStep(27, 196418, 317811); FibStep(28, 317811, 514229);
    FibStep(29, 514229, 832040); FibStep(30, 832040, 1346269); FibStep(31, 1346269, 2178309);
    FibStep(32, 2178309, 3524578); FibStep(33, 3524578, 5702887);
  }

  const MAX_HEIGHT := 32

  /** The largest number of nodes for which 32 stack slots always suffice. */
  const MAX_NODES := 9227463

  lemma HeightBound(t: Tree)
    requires Balanced(t) && |InOrder(t)| <= MAX_NODES
    ensures Height(t) <= MAX_HEIGHT
  {
    hide Height, Balanced, InOrder, Fib;
    if Height(t) > MAX_HEIGHT {
      SizeBound(t);
      Fib35();
      FibMonotone(35, Height(t) + 2);
    }
  }

  ghost function FibonacciTree(h: nat): Tree {
    if h == 0 then Nil
    else if h == 1 then T(Nil, 0, 0, Nil)
    else T(FibonacciTree(h - 1), 0, -1, FibonacciTree(h - 2))
  }

  lemma FibonacciTreeSmall()
    ensures FibonacciTree(0) == Nil && FibonacciTree(1) == T(Nil, 0, 0, Nil)
    ensures Fib(2) == 1 && Fib(3) == 2
    ensures InOrder(Nil) == [] && InOrder(T(Nil, 0, 0, Nil)) == [0]
  {
  }

  lemma FibonacciTreeStep(h: nat)
    requires h >= 2
    ensures FibonacciTree(h) == T(FibonacciTree(h - 1), 0, -1, FibonacciTree(h - 2))
    ensures |InOrder(FibonacciTree(h))| == |InOrder(FibonacciTree(h - 1))| + 1 + |InOrder(FibonacciTree(h - 2))|
    ensures Fib(h + 2) == Fib(h) + Fib(h + 1)
  {
  }

  lemma {:induction false} FibonacciTreeSize(h: nat)
    ensures var t := FibonacciTree(h); Balanced(t) && Height(t) == h && |InOrder(t)| + 1 == Fib(h + 2)
  {
    hide Height, Balanced, Fib, FibonacciTree, InOrder;
    NodeFacts(FibonacciTree(h));
    if h >= 2 {
      FibonacciTreeSize(h - 1);
      FibonacciTreeSize(h - 2);
      FibonacciTreeStep(h);
    } else {
      FibonacciTreeSmall();
      NodeFacts(Nil);
    }
  }

  /** One node more, and a balanced tree may need 33 levels. */
  lemma HeightBoundIsSharp()
    ensures exists t :: Balanced(t) && |InOrder(t)| == MAX_NODES + 1 && Height(t) == MAX_HEIGHT + 1
  {
    hide Height, Balanced, InOrder, Fib, FibonacciTree;
    FibonacciTreeSize(33);
    Fib35();
    var t := FibonacciTree(33);
    assert Balanced(t) && |InOrder(t)| == MAX_NODES + 1 && Height(t) == MAX_HEIGHT + 1;
  }

  // ---- preorder ----

  ghost function PreOrder(t: Tree): seq<int> {
    if t.Nil? then [] else [t.id] + (PreOrder(t.left) + PreOrder(t.right))
  }

  /** What a preorder walk visits after the subtree in the hole. */
  ghost function Rest(ctx: seq<Frame>): seq<int>
    decreases |ctx|
  {
    if ctx == [] then []
    else if Last(ctx).dir == -1 then PreOrder(Last(ctx).sib) + Rest(Init(ctx))
    else Rest(Init(ctx))
  }

  /** Preorder and inorder visit the same nodes, each equally often. */
  lemma {:induction false} PreOrderPermutes(t: Tree)
    ensures multiset(PreOrder(t)) == multiset(InOrder(t)) && |PreOrder(t)| == |InOrder(t)|
  {
    if t.T? {
      PreOrderPermutes(t.left);
      PreOrderPermutes(t.right);
    }
  }

  lemma {:induction false} PlugHeight(ctx: seq<Frame>, t: Tree)
    ensures |ctx| + Height(t) <= Height(Plug(ctx, t))
    decreases |ctx|
  {
    if ctx != [] {
      PlugHeight(Init(ctx), Graft(Last(ctx), t));
    }
  }

  lemma PlugDown(ctx: seq<Frame>, t: Tree, dir: int)
    requires t.T? && (dir == -1 || dir == 1)
    ensures var f := if dir == -1 then Frame(t.id, -1, t.bal, t.right) else Frame(t.id, 1, t.bal, t.left);
            && Plug(ctx + [f], if dir == -1 then t.left else t.right) == Plug(ctx, t)
            && Rest(ctx + [f]) == if dir == -1 then PreOrder(t.right) + Rest(ctx) else Rest(ctx)
  {
    var f := if dir == -1 then Frame(t.id, -1, t.bal, t.right) else Frame(t.id, 1, t.bal, t.left);
    InitOfPush(ctx, f);
  }
}
