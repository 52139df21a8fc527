/**
 * The shapes an AVL tree goes through, apart from the heap: trees of nodes, trees with a
 * hole, the rotations and the bottom-up rebalancing, and what they keep.
 */
module AvlShape {

  /** A node as the shapes see it: its identity and the value it was created with. */
  datatype Node = Node(id: nat, value: int)

  datatype Tree = Leaf | Branch(l: Tree, n: Node, r: Tree)

  /** A tree with a hole, from the hole upwards. */
  datatype Context = Top | InLeft(n: Node, r: Tree, up: Context) | InRight(l: Tree, n: Node, up: Context)

  function Plug(c: Context, t: Tree): Tree
  {
    match c
    case Top => t
    case InLeft(n, r, up) => Plug(up, Branch(t, n, r))
    case InRight(l, n, up) => Plug(up, Branch(l, n, t))
  }

  function Max(a: int, b: int): int
  {
    if a < b then b else a
  }

  function Height(t: Tree): nat
  {
    match t
    case Leaf => 0
    case Branch(l, _, r) => Max(Height(l), Height(r)) + 1
  }

  function Factor(t: Tree): int
    requires t.Branch?
  {
    Height(t.r) - Height(t.l)
  }

  function InOrder(t: Tree): seq<int>
  {
    match t
    case Leaf => []
    case Branch(l, n, r) => InOrder(l) + [n.value] + InOrder(r)
  }

  function KeysLeft(c: Context): seq<int>
  {
    match c
    case Top => []
    case InLeft(_, _, up) => KeysLeft(up)
    case InRight(l, n, up) => KeysLeft(up) + InOrder(l) + [n.value]
  }

  function KeysRight(c: Context): seq<int>
  {
    match c
    case Top => []
    case InLeft(n, r, up) => [n.value] + InOrder(r) + KeysRight(up)
    case InRight(_, _, up) => KeysRight(up)
  }

  predicate Ascending(s: seq<int>)
  {
    forall i, j :: 0 <= i < j < |s| ==> s[i] < s[j]
  }

  /** Every node's subtrees differ in height by at most one. */
  predicate Balanced(t: Tree)
  {
    match t
    case Leaf => true
    case Branch(l, _, r) => Balanced(l) && Balanced(r) && -1 <= Height(r) - Height(l) <= 1
  }

  lemma {:induction false} ButLast(a: seq<int>, k: int)
    requires Ascending(a) && |a| > 0
    ensures k in a[..|a| - 1] <==> k in a && k != a[|a| - 1]
    ensures k in a ==> k <= a[|a| - 1]
    ensures a[|a| - 1] in a && a == a[..|a| - 1] + [a[|a| - 1]] && Ascending(a[..|a| - 1])
  {
  }

  lemma {:induction false} SameEmpty(a: seq<int>, b: seq<int>)
    requires forall k :: k in a ==> k in b
    requires forall k :: k in b ==> k in a
    ensures |a| == 0 <==> |b| == 0
  {
    if |a| > 0 {
      var x := a[0];
      assert x in a && x in b;
    }
    if |b| > 0 {
      var x := b[0];
      assert x in b && x in a;
    }
  }

  /** Ascending lists with the same elements are equal. */
  lemma {:induction false} SameKeys(a: seq<int>, b: seq<int>)
    requires Ascending(a) && Ascending(b) && forall k :: k in a <==> k in b
    ensures a == b
  {
    hide Ascending;
    SameEmpty(a, b);
    if |a| > 0 {
      var m, n := |a| - 1, |b| - 1;
      ButLast(a, b[n]);
      ButLast(b, a[m]);
      forall k
        ensures k in a[..m] <==> k in b[..n]
      {
        ButLast(a, k);
        ButLast(b, k);
      }
      SameKeys(a[..m], b[..n]);
    }
  }

  // ------------------------------------------------------------------ rotations

  function RotateRight(t: Tree): Tree
    requires t.Branch? && t.l.Branch?
  {
    Branch(t.l.l, t.l.n, Branch(t.l.r, t.n, t.r))
  }

  function RotateLeft(t: Tree): Tree
    requires t.Branch? && t.r.Branch?
  {
    Branch(Branch(t.l, t.n, t.r.l), t.r.n, t.r.r)
  }

  /** A child whose factor is 0 goes to the double rotation, as in the source. */
  function Balance(t: Tree): (r: Tree)
    requires t.Branch?
    ensures r.Branch?
  {
    if Factor(t) < -1 then
      if Factor(t.l) <= -1 then RotateRight(t) else RotateRight(Branch(RotateLeft(t.l), t.n, t.r))
    else if Factor(t) > 1 then
      if Factor(t.r) >= 1 then RotateLeft(t) else RotateLeft(Branch(t.l, t.n, RotateRight(t.r)))
    else t
  }

  /** Rebalancing from the node at the hole all the way to the root. */
  function RebalanceUp(c: Context, t: Tree): (r: Tree)
    requires t.Branch?
    ensures r.Branch?
    decreases c
  {
    match c
    case Top => Balance(t)
    case InLeft(n, r, up) => RebalanceUp(up, Branch(Balance(t), n, r))
    case InRight(l, n, up) => RebalanceUp(up, Branch(l, n, Balance(t)))
  }

  lemma {:induction false} Regroup(a: seq<int>, b: seq<int>, x: seq<int>, d: seq<int>, e: seq<int>)
    ensures a + (b + x + d) + e == a + b + (x + d + e)
    ensures a + (b + x + d) + e == (a + b + x) + d + e
    ensures (a + b + x) + d + e == a + b + (x + d + e)
    ensures a + (b + x + d) + e == (a + b) + x + (d + e)
  {
  }

  lemma {:induction false} PlugInOrder(c: Context, t: Tree)
    ensures InOrder(Plug(c, t)) == KeysLeft(c) + InOrder(t) + KeysRight(c)
    decreases c
  {
    match c {
      case Top =>
      case InLeft(n, r, up) =>
        PlugInOrder(up, Branch(t, n, r));
        Regroup(KeysLeft(up), InOrder(t), [n.value], InOrder(r), KeysRight(up));
      case InRight(l, n, up) =>
        PlugInOrder(up, Branch(l, n, t));
        Regroup(KeysLeft(up), InOrder(l), [n.value], InOrder(t), KeysRight(up));
    }
  }

  lemma {:induction false} RotateRightKeys(t: Tree)
    requires t.Branch? && t.l.Branch?
    ensures InOrder(RotateRight(t)) == InOrder(t)
  {
    Regroup(InOrder(t.l.l), [t.l.n.value], InOrder(t.l.r), [t.n.value], InOrder(t.r));
  }

  lemma {:induction false} RotateLeftKeys(t: Tree)
    requires t.Branch? && t.r.Branch?
    ensures InOrder(RotateLeft(t)) == InOrder(t)
  {
    Regroup(InOrder(t.l), [t.n.value], InOrder(t.r.l), [t.r.n.value], InOrder(t.r.r));
  }

  lemma {:induction false} BalanceKeys(t: Tree)
    requires t.Branch?
    ensures InOrder(Balance(t)) == InOrder(t)
  {
    if Factor(t) < -1 {
      if Factor(t.l) <= -1 {
        RotateRightKeys(t);
      } else {
        RotateLeftKeys(t.l);
        RotateRightKeys(Branch(RotateLeft(t.l), t.n, t.r));
      }
    } else if Factor(t) > 1 {
      if Factor(t.r) >= 1 {
        RotateLeftKeys(t);
      } else {
        RotateRightKeys(t.r);
        RotateLeftKeys(Branch(t.l, t.n, RotateRight(t.r)));
      }
    }
  }

  /** Rebalancing keeps the in-order sequence of keys. */
  lemma {:induction false} RebalanceKeys(c: Context, t: Tree)
    requires t.Branch?
    ensures InOrder(RebalanceUp(c, t)) == KeysLeft(c) + InOrder(t) + KeysRight(c)
    decreases c
  {
    BalanceKeys(t);
    match c {
      case Top =>
      case InLeft(n, r, up) =>
        RebalanceKeys(up, Branch(Balance(t), n, r));
        Regroup(KeysLeft(up), InOrder(t), [n.value], InOrder(r), KeysRight(up));
      case InRight(l, n, up) =>
        RebalanceKeys(up, Branch(l, n, Balance(t)));
        Regroup(KeysLeft(up), InOrder(l), [n.value], InOrder(t), KeysRight(up));
    }
  }

  // ------------------------------------------------------------------ balance after insertion

  /**
   * What a subtree looks like after an insertion below it: `s` before, `t` after but not
   * yet balanced itself.  It may have grown by one, and then it leans to one side.
   */
  predicate Grown(s: Tree, t: Tree)
  {
    && t.Branch?
    && Balanced(Balance(t))
    && Height(s) <= Height(Balance(t)) <= Height(s) + 1
    && (Height(Balance(t)) == Height(s) + 1 ==> s.Leaf? || Factor(Balance(t)) != 0)
  }

  lemma {:induction false} GrownLeft(s: Tree, t: Tree, n: Node, r: Tree)
    requires Grown(s, t) && Balanced(Branch(s, n, r))
    ensures Grown(Branch(s, n, r), Branch(Balance(t), n, r))
  {
    hide Balance;
    var u := Balance(t);
    GrownLeftBalanced(s, u, n, r);
  }

  lemma {:induction false} GrownRight(l: Tree, n: Node, s: Tree, t: Tree)
    requires Grown(s, t) && Balanced(Branch(l, n, s))
    ensures Grown(Branch(l, n, s), Branch(l, n, Balance(t)))
  {
    hide Balance;
    var u := Balance(t);
    GrownRightBalanced(l, n, s, u);
  }

  /** The four rotations of an insertion: the subtree regains the height it had before. */
  lemma {:induction false} SingleRight(u: Tree, n: Node, r: Tree)
    requires Balanced(u) && Balanced(r) && Height(u) == Height(r) + 2 && Factor(u) == -1
    ensures var b := Balance(Branch(u, n, r)); Balanced(b) && Height(b) == Height(u)
  {
    assert Balance(Branch(u, n, r)) == RotateRight(Branch(u, n, r));
  }

  lemma {:induction false} DoubleRight(u: Tree, n: Node, r: Tree)
    requires Balanced(u) && Balanced(r) && Height(u) == Height(r) + 2 && Factor(u) == 1
    ensures var b := Balance(Branch(u, n, r)); Balanced(b) && Height(b) == Height(u)
  {
    assert u.r.Branch?;
    assert Balance(Branch(u, n, r)) == Branch(Branch(u.l, u.n, u.r.l), u.r.n, Branch(u.r.r, n, r));
  }

  lemma {:induction false} SingleLeft(l: Tree, n: Node, u: Tree)
    requires Balanced(u) && Balanced(l) && Height(u) == Height(l) + 2 && Factor(u) == 1
    ensures var b := Balance(Branch(l, n, u)); Balanced(b) && Height(b) == Height(u)
  {
    assert Balance(Branch(l, n, u)) == RotateLeft(Branch(l, n, u));
  }

  lemma {:induction false} DoubleLeft(l: Tree, n: Node, u: Tree)
    requires Balanced(u) && Balanced(l) && Height(u) == Height(l) + 2 && Factor(u) == -1
    ensures var b := Balance(Branch(l, n, u)); Balanced(b) && Height(b) == Height(u)
  {
    assert u.l.Branch?;
    assert Balance(Branch(l, n, u)) == Branch(Branch(l, n, u.l.l), u.l.n, Branch(u.l.r, u.n, u.r));
  }

  lemma {:induction false} BalanceIdle(t: Tree)
    requires t.Branch? && -1 <= Factor(t) <= 1
    ensures Balance(t) == t
  {
  }

  lemma {:induction false} GrownLeftBalanced(s: Tree, u: Tree, n: Node, r: Tree)
    requires u.Branch? && Balanced(u) && Height(s) <= Height(u) <= Height(s) + 1
    requires Height(u) == Height(s) + 1 ==> s.Leaf? || Factor(u) != 0
    requires Balanced(Branch(s, n, r))
    ensures Grown(Branch(s, n, r), Branch(u, n, r))
  {
    hide Balance;
    if Height(u) == Height(r) + 2 {
      if Factor(u) == -1 { SingleRight(u, n, r); } else { DoubleRight(u, n, r); }
    } else {
      BalanceIdle(Branch(u, n, r));
    }
  }

  lemma {:induction false} GrownRightBalanced(l: Tree, n: Node, s: Tree, u: Tree)
    requires u.Branch? && Balanced(u) && Height(s) <= Height(u) <= Height(s) + 1
    requires Height(u) == Height(s) + 1 ==> s.Leaf? || Factor(u) != 0
    requires Balanced(Branch(l, n, s))
    ensures Grown(Branch(l, n, s), Branch(l, n, u))
  {
    hide Balance;
    if Height(u) == Height(l) + 2 {
      if Factor(u) == 1 { SingleLeft(l, n, u); } else { DoubleLeft(l, n, u); }
    } else {
      BalanceIdle(Branch(l, n, u));
    }
  }

  /** A freshly inserted leaf has grown out of nothing. */
  lemma {:induction false} LeafGrown(n: Node)
    ensures Grown(Leaf, Branch(Leaf, n, Leaf))
  {
    var leaf := Branch(Leaf, n, Leaf);
    BalanceIdle(leaf);
    assert Height(leaf) == 1 && Balanced(leaf);
  }

  lemma {:induction false} BalancedParts(c: Context, s: Tree)
    requires Balanced(Plug(c, s))
    ensures Balanced(s)
    decreases c
  {
    match c {
      case Top =>
      case InLeft(n, r, up) => BalancedParts(up, Branch(s, n, r));
      case InRight(l, n, up) => BalancedParts(up, Branch(l, n, s));
    }
  }

  /** Rebalancing after an insertion balances the whole tree. */
  lemma {:induction false} RebalanceBalances(c: Context, s: Tree, t: Tree)
    requires Balanced(Plug(c, s)) && Grown(s, t)
    ensures Balanced(RebalanceUp(c, t))
    decreases c
  {
    match c {
      case Top =>
      case InLeft(n, r, up) =>
        BalancedParts(up, Branch(s, n, r));
        GrownLeft(s, t, n, r);
        RebalanceBalances(up, Branch(s, n, r), Branch(Balance(t), n, r));
      case InRight(l, n, up) =>
        BalancedParts(up, Branch(l, n, s));
        GrownRight(l, n, s, t);
        RebalanceBalances(up, Branch(l, n, s), Branch(l, n, Balance(t)));
    }
  }

  // ------------------------------------------------------------------ balance after removal

  /** The step that goes wrong: a child of factor 0 whose inner subtree leans away from the gap. */
  predicate BadStep(t: Tree)
    requires t.Branch?
  {
    || (Factor(t) == 2 && Factor(t.r) == 0 && t.r.l.Branch? && Factor(t.r.l) == -1)
    || (Factor(t) == -2 && Factor(t.l) == 0 && t.l.r.Branch? && Factor(t.l.r) == 1)
  }

  lemma {:induction false} BadRight(t: Tree)
    requires t.Branch? && Balanced(t.l) && Balanced(t.r) && Factor(t) == 2 && Factor(t.r) == 0
    ensures t.r.l.Branch? && (Balanced(Balance(t)) <==> Factor(t.r.l) != -1)
  {
    var a, u := t.l, t.r;
    assert u.l.Branch?;
    assert Balance(t) == Branch(Branch(a, t.n, u.l.l), u.l.n, Branch(u.l.r, u.n, u.r));
  }

  lemma {:induction false} BadLeft(t: Tree)
    requires t.Branch? && Balanced(t.l) && Balanced(t.r) && Factor(t) == -2 && Factor(t.l) == 0
    ensures t.l.r.Branch? && (Balanced(Balance(t)) <==> Factor(t.l.r) != 1)
  {
    var u, d := t.l, t.r;
    assert u.r.Branch?;
    assert Balance(t) == Branch(Branch(u.l, u.n, u.r.l), u.r.n, Branch(u.r.r, t.n, d));
  }

  /**
   * One rebalancing step over balanced subtrees, at most two apart, restores balance exactly
   * when it is not a bad step.
   */
  lemma {:induction false} StepBalancesIff(t: Tree)
    requires t.Branch? && Balanced(t.l) && Balanced(t.r) && -2 <= Factor(t) <= 2
    ensures Balanced(Balance(t)) <==> !BadStep(t)
  {
    hide Balance;
    if Factor(t) == 2 {
      if Factor(t.r) == 0 {
        BadRight(t);
      } else if Factor(t.r) == 1 {
        SingleLeft(t.l, t.n, t.r);
      } else {
        DoubleLeft(t.l, t.n, t.r);
      }
    } else if Factor(t) == -2 {
      if Factor(t.l) == 0 {
        BadLeft(t);
      } else if Factor(t.l) == -1 {
        SingleRight(t.l, t.n, t.r);
      } else {
        DoubleRight(t.l, t.n, t.r);
      }
    } else {
      BalanceIdle(t);
    }
  }

  /** Some step of the climb from `t` to the root is a bad step. */
  predicate MeetsBadStep(c: Context, t: Tree)
    requires t.Branch?
    decreases c
  {
    BadStep(t) ||
    match c
    case Top => false
    case InLeft(n, r, up) => MeetsBadStep(up, Branch(Balance(t), n, r))
    case InRight(l, n, up) => MeetsBadStep(up, Branch(l, n, Balance(t)))
  }

  /** What a subtree looks like after a removal below it: `s` before, `t` after but not yet balanced itself. */
  predicate Lowered(s: Tree, t: Tree)
  {
    && t.Branch? && Balanced(t.l) && Balanced(t.r) && -2 <= Factor(t) <= 2
    && Height(s) - 1 <= Height(t) <= Height(s)
    && (Factor(t) == 2 || Factor(t) == -2 ==> Height(t) == Height(s))
  }

  /** A bad step gives the subtree its old height back. */
  lemma {:induction false} StepHeight(t: Tree)
    requires t.Branch? && Balanced(t.l) && Balanced(t.r) && -2 <= Factor(t) <= 2
    ensures BadStep(t) ==> Height(Balance(t)) == Height(t)
    ensures -1 <= Factor(t) <= 1 ==> Balance(t) == t
    ensures Height(t) - 1 <= Height(Balance(t)) <= Height(t)
  {
    if Factor(t) == 2 {
      HeightAfterLeft(t);
    } else if Factor(t) == -2 {
      HeightAfterRight(t);
    }
  }

  lemma {:induction false} HeightAfterLeft(t: Tree)
    requires t.Branch? && Balanced(t.l) && Balanced(t.r) && Factor(t) == 2
    ensures Height(t) - 1 <= Height(Balance(t)) <= Height(t) && (Factor(t.r) == 0 ==> Height(Balance(t)) == Height(t))
  {
    var u := t.r;
    if Factor(u) < 1 {
      assert u.l.Branch?;
      assert Balance(t) == Branch(Branch(t.l, t.n, u.l.l), u.l.n, Branch(u.l.r, u.n, u.r));
    }
  }

  lemma {:induction false} HeightAfterRight(t: Tree)
    requires t.Branch? && Balanced(t.l) && Balanced(t.r) && Factor(t) == -2
    ensures Height(t) - 1 <= Height(Balance(t)) <= Height(t) && (Factor(t.l) == 0 ==> Height(Balance(t)) == Height(t))
  {
    var u := t.l;
    if Factor(u) > -1 {
      assert u.r.Branch?;
      assert Balance(t) == Branch(Branch(u.l, u.n, u.r.l), u.r.n, Branch(u.r.r, t.n, t.r));
    }
  }

  /** A subtree of unchanged height leaves the rest of the climb nothing to do. */
  lemma {:induction false} ClimbIdle(c: Context, s: Tree, t: Tree)
    requires t.Branch? && Balanced(Plug(c, s)) && Height(Balance(t)) == Height(s)
    ensures RebalanceUp(c, t) == Plug(c, Balance(t))
    decreases c
  {
    hide Balance;
    match c {
      case Top =>
      case InLeft(n, r, up) =>
        BalancedParts(up, Branch(s, n, r));
        BalanceIdle(Branch(Balance(t), n, r));
        ClimbIdle(up, Branch(s, n, r), Branch(Balance(t), n, r));
      case InRight(l, n, up) =>
        BalancedParts(up, Branch(l, n, s));
        BalanceIdle(Branch(l, n, Balance(t)));
        ClimbIdle(up, Branch(l, n, s), Branch(l, n, Balance(t)));
    }
  }

  lemma {:induction false} LoweredLeft(s: Tree, u: Tree, n: Node, r: Tree)
    requires Balanced(Branch(s, n, r)) && Balanced(u) && Height(s) - 1 <= Height(u) <= Height(s)
    ensures Lowered(Branch(s, n, r), Branch(u, n, r))
  {
  }

  lemma {:induction false} LoweredRight(l: Tree, n: Node, s: Tree, u: Tree)
    requires Balanced(Branch(l, n, s)) && Balanced(u) && Height(s) - 1 <= Height(u) <= Height(s)
    ensures Lowered(Branch(l, n, s), Branch(l, n, u))
  {
  }

  /** Rebalancing after a removal balances the whole tree exactly when no step of the climb is a bad one. */
  lemma {:induction false} ClimbBalancesIff(c: Context, s: Tree, t: Tree)
    requires Balanced(Plug(c, s)) && Lowered(s, t)
    ensures Balanced(RebalanceUp(c, t)) <==> !MeetsBadStep(c, t)
    decreases c
  {
    hide Balance;
    StepBalancesIff(t);
    StepHeight(t);
    if BadStep(t) {
      ClimbIdle(c, s, t);
      if Balanced(Plug(c, Balance(t))) { BalancedParts(c, Balance(t)); }
    } else {
      match c {
        case Top =>
        case InLeft(n, r, up) =>
          BalancedParts(up, Branch(s, n, r));
          LoweredLeft(s, Balance(t), n, r);
          ClimbBalancesIff(up, Branch(s, n, r), Branch(Balance(t), n, r));
        case InRight(l, n, up) =>
          BalancedParts(up, Branch(l, n, s));
          LoweredRight(l, n, s, Balance(t));
          ClimbBalancesIff(up, Branch(l, n, s), Branch(l, n, Balance(t)));
      }
    }
  }
}
