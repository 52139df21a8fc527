/**
 * What a removal makes of the shape of a tree: where the climb that rebalances it starts,
 * and exactly when the tree is balanced at the end of it.
 */
module AvlClimb {
  import opened AvlShape
  import opened AvlStore
  import opened AvlRemoval

  /** A subtree and the way to it. */
  datatype Place = Place(c: Context, t: Tree)

  /** Where the search for a value ends. */
  function Locate(c: Context, t: Tree, value: int): Place
    decreases t
  {
    if t.Leaf? || t.n.value == value then Place(c, t)
    else if t.n.value < value then Locate(InRight(t.l, t.n, c), t.r, value)
    else Locate(InLeft(t.n, t.r, c), t.l, value)
  }

  /** The subtree at the end of the left spine. */
  function Leftmost(c: Context, t: Tree): (p: Place)
    requires t.Branch?
    ensures p.t.Branch? && p.t.l.Leaf?
    decreases t
  {
    if t.l.Leaf? then Place(c, t) else Leftmost(InLeft(t.n, t.r, c), t.l)
  }

  lemma {:induction false} LocateInside(c: Context, t: Tree, value: int)
    ensures var p := Locate(c, t, value); Plug(p.c, p.t) == Plug(c, t) && (p.t.Branch? ==> p.t.n.value == value)
    decreases t
  {
    if t.Branch? && t.n.value != value {
      if t.n.value < value {
        LocateInside(InRight(t.l, t.n, c), t.r, value);
      } else {
        LocateInside(InLeft(t.n, t.r, c), t.l, value);
      }
    }
  }

  lemma {:induction false} AtRoot(t: Tree, value: int)
    ensures t.Branch? && t.n.value == value ==> Locate(Top, t, value) == Place(Top, t) && value in InOrder(t)
  {
  }

  lemma {:induction false} LeftmostInside(c: Context, t: Tree)
    requires t.Branch?
    ensures var p := Leftmost(c, t); Plug(p.c, p.t) == Plug(c, t)
    ensures LeftSpine(c) ==> LeftSpine(Leftmost(c, t).c)
    decreases t
  {
    if t.l.Branch? { LeftmostInside(InLeft(t.n, t.r, c), t.l); }
  }

  /** Taking out the root of `t` below `c`: where rebalancing starts, or a leaf when nothing is left. */
  function ClimbStart(c: Context, t: Tree): Place
    requires t.Branch?
  {
    if t.l.Branch? && t.r.Branch? then
      var p := Leftmost(Top, t.r);
      if p.c.InLeft? then Place(Append(p.c.up, InRight(t.l, p.t.n, c)), Branch(p.t.r, p.c.n, p.c.r))
      else Place(c, Branch(t.l, p.t.n, p.t.r))
    else
      var only := if t.l.Branch? then t.l else t.r;
      if only.Branch? || c.Top? then Place(c, only) else Place(c.up, Lifted(c, only))
  }

  /** The tree after the root of `t` below `c` was removed. */
  function AfterRemoval(c: Context, t: Tree): Tree
    requires t.Branch?
  {
    var p := ClimbStart(c, t);
    if p.t.Branch? then RebalanceUp(p.c, p.t) else Leaf
  }

  /** The climb after that removal makes a bad step. */
  predicate RemovalMeetsBadStep(c: Context, t: Tree)
    requires t.Branch?
  {
    var p := ClimbStart(c, t);
    p.t.Branch? && MeetsBadStep(p.c, p.t)
  }

  /** A balanced whole stays balanced when a part is replaced by a balanced one of the same height. */
  lemma {:induction false} PlugSameHeight(c: Context, s: Tree, t: Tree)
    requires Balanced(Plug(c, s)) && Balanced(t) && Height(t) == Height(s)
    ensures Balanced(Plug(c, t))
    decreases c
  {
    match c {
      case Top =>
      case InLeft(n, r, up) =>
        BalancedParts(up, Branch(s, n, r));
        PlugSameHeight(up, Branch(s, n, r), Branch(t, n, r));
      case InRight(l, n, up) =>
        BalancedParts(up, Branch(l, n, s));
        PlugSameHeight(up, Branch(l, n, s), Branch(l, n, t));
    }
  }

  lemma {:induction false} NearLowered(t: Tree)
    requires t.Branch? && t.r.Branch? && t.r.l.Leaf? && Balanced(t)
    ensures Lowered(t, Branch(t.l, t.r.n, t.r.r))
  {
  }

  lemma {:induction false} SmallLowered(s: Tree)
    requires s.Branch? && s.l.Leaf? && Balanced(s)
    ensures Balanced(s.r) && Height(s.r) == Height(s) - 1
  {
  }

  /** The successor unlinked deep down and put in the removed node's place. */
  lemma {:induction false} DeepLowered(c: Context, t: Tree)
    requires t.Branch? && t.l.Branch? && t.r.Branch? && Balanced(Plug(c, t)) && Leftmost(Top, t.r).c.InLeft?
    ensures Balanced(RebalanceUp(ClimbStart(c, t).c, ClimbStart(c, t).t)) <==> !RemovalMeetsBadStep(c, t)
  {
    hide Balance, RebalanceUp, MeetsBadStep;
    var p := Leftmost(Top, t.r);
    var q, s := p.c, p.t;
    LeftmostInside(Top, t.r);
    BalancedParts(c, t);
    var renamed := Branch(t.l, s.n, t.r);
    PlugSameHeight(c, t, renamed);
    var base := InRight(t.l, s.n, c);
    PlugAppend(q, base, s);
    assert Plug(Append(q, base), s) == Plug(c, renamed);
    var lower := Branch(s, q.n, q.r);
    assert Plug(Append(q.up, base), lower) == Plug(Append(q, base), s);
    BalancedParts(Append(q.up, base), lower);
    SmallLowered(s);
    LoweredLeft(s, s.r, q.n, q.r);
    ClimbBalancesIff(Append(q.up, base), lower, Branch(s.r, q.n, q.r));
  }

  lemma {:induction false} OuterLowered(c: Context, t: Tree)
    requires t.Branch? && (t.l.Leaf? || t.r.Leaf?) && Balanced(Plug(c, t))
    ensures Balanced(AfterRemoval(c, t)) <==> !RemovalMeetsBadStep(c, t)
  {
    hide Balance, RebalanceUp, MeetsBadStep;
    BalancedParts(c, t);
    OnlyChild(t);
    var only := if t.l.Branch? then t.l else t.r;
    if only.Branch? {
      ClimbBalancesIff(c, t, only);
    } else if !c.Top? {
      LeafLifted(c, t);
    }
  }

  lemma {:induction false} OnlyChild(t: Tree)
    requires t.Branch? && (t.l.Leaf? || t.r.Leaf?) && Balanced(t)
    ensures var only := if t.l.Branch? then t.l else t.r;
            Balanced(only) && Height(only) == Height(t) - 1 && (only.Branch? ==> Lowered(t, only))
  {
  }

  lemma {:induction false} LeafLifted(c: Context, t: Tree)
    requires !c.Top? && t.Branch? && t.l.Leaf? && t.r.Leaf? && Balanced(Plug(c, t))
    ensures Balanced(RebalanceUp(c.up, Lifted(c, Leaf))) <==> !MeetsBadStep(c.up, Lifted(c, Leaf))
  {
    hide Balance, RebalanceUp, MeetsBadStep;
    assert Plug(c, t) == Plug(c.up, Lifted(c, t));
    BalancedParts(c.up, Lifted(c, t));
    if c.InLeft? { LoweredLeft(t, Leaf, c.n, c.r); } else { LoweredRight(c.l, c.n, t, Leaf); }
    ClimbBalancesIff(c.up, Lifted(c, t), Lifted(c, Leaf));
  }

  /** Removing a node from a balanced tree leaves it balanced exactly when the climb makes no bad step. */
  lemma {:induction false} RemovalBalancesIff(c: Context, t: Tree)
    requires t.Branch? && Balanced(Plug(c, t))
    ensures Balanced(AfterRemoval(c, t)) <==> !RemovalMeetsBadStep(c, t)
  {
    hide Balance, RebalanceUp, MeetsBadStep;
    if t.l.Branch? && t.r.Branch? {
      if Leftmost(Top, t.r).c.InLeft? {
        DeepLowered(c, t);
      } else {
        LeftmostInside(Top, t.r);
        BalancedParts(c, t);
        NearLowered(t);
        ClimbBalancesIff(c, t, Branch(t.l, t.r.n, t.r.r));
      }
    } else {
      OuterLowered(c, t);
    }
  }

  // ------------------------------------------------------------ a tree that loses its balance

  /** The memory that holds a tree. */
  function StoreOf(t: Tree, up: Ref): Store
  {
    match t
    case Leaf => map[]
    case Branch(l, n, r) =>
      StoreOf(l, n.id) + StoreOf(r, n.id) + map[n.id := Cell(n.value, Height(t), up, RootOf(l), RootOf(r))]
  }

  function RootOf(t: Tree): Ref { if t.Leaf? then NULL else t.n.id }

  /** Every tree of distinct nodes can be held. */
  lemma {:induction false} StoreHolds(t: Tree, up: Ref)
    requires Apart(t) && NULL !in Ids(t)
    ensures StoreOf(t, up).Keys == Ids(t) && Rep(StoreOf(t, up), t, RootOf(t), up)
  {
    if t.Branch? {
      StoreHolds(t.l, t.n.id);
      StoreHolds(t.r, t.n.id);
      StoreParts(StoreOf(t.l, t.n.id), StoreOf(t.r, t.n.id), t,
                 Cell(t.n.value, Height(t), up, RootOf(t.l), RootOf(t.r)));
      hide Height, Apart;
      var h := StoreOf(t, up);
      RepFrame(StoreOf(t.l, t.n.id), h, t.l, RootOf(t.l), t.n.id);
      RepFrame(StoreOf(t.r, t.n.id), h, t.r, RootOf(t.r), t.n.id);
    }
  }

  lemma {:induction false} StoreParts(l: Store, r: Store, t: Tree, cell: Cell)
    requires t.Branch? && l.Keys == Ids(t.l) && r.Keys == Ids(t.r) && Apart(t)
    ensures var h := l + r + map[t.n.id := cell];
            h.Keys == Ids(t) && SameOn(l, h, Ids(t.l)) && SameOn(r, h, Ids(t.r)) && h[t.n.id] == cell
  {
    hide Height;
    assert Ids(t) == Ids(t.l) + {t.n.id} + Ids(t.r);
  }

  function Key(value: nat): Node { Node(value, value) }
  function Single(value: nat): Tree { Branch(Leaf, Key(value), Leaf) }

  /** Keys 1 to 8, with 3 at the root. */
  function Leaning(): Tree
  {
    Branch(Branch(Single(1), Key(2), Leaf), Key(3), Tall())
  }

  function Tall(): Tree
  {
    Branch(Branch(Single(4), Key(5), Leaf), Key(6), Branch(Single(7), Key(8), Leaf))
  }

  /** Removing 1 from it leaves a tree that is not balanced. */
  lemma {:induction false} RemovalCanUnbalance()
    ensures Apart(Leaning()) && Ascending(InOrder(Leaning()))
    ensures Rep(StoreOf(Leaning(), NULL), Leaning(), 3, NULL) && StoreOf(Leaning(), NULL).Keys == Ids(Leaning())
    ensures Balanced(Leaning())
    ensures var p := Locate(Top, Leaning(), 1); p.t.Branch? && !Balanced(AfterRemoval(p.c, p.t))
  {
    hide Rep, Apart, Ids, Balanced, StoreOf, InOrder, Locate, AfterRemoval, RemovalMeetsBadStep;
    LeaningNodes();
    LeaningKeys();
    StoreHolds(Leaning(), NULL);
    LeaningBalanced();
    LeaningClimb();
    LocateInside(Top, Leaning(), 1);
    var p := Locate(Top, Leaning(), 1);
    assert Plug(Top, Leaning()) == Leaning();
    RemovalBalancesIff(p.c, p.t);
  }

  lemma {:induction false} LeaningClimb()
    ensures var p := Locate(Top, Leaning(), 1); p.t.Branch? && RemovalMeetsBadStep(p.c, p.t)
  {
    hide Balanced;
    var left := InLeft(Key(3), Tall(), Top);
    var place := Place(InLeft(Key(2), Leaf, left), Single(1));
    assert Locate(Top, Leaning(), 1) == Locate(left, Branch(Single(1), Key(2), Leaf), 1);
    assert Locate(left, Branch(Single(1), Key(2), Leaf), 1) == place;
    assert ClimbStart(place.c, place.t) == Place(left, Single(2));
    LeaningBalanced();
    BalanceIdle(Single(2));
    assert BadStep(Branch(Single(2), Key(3), Tall()));
    assert MeetsBadStep(Top, Branch(Balance(Single(2)), Key(3), Tall()));
  }

  /** One node with a smaller child. */
  lemma {:induction false} PairNodes(a: nat, b: nat)
    requires 0 < a < b
    ensures var t := Branch(Single(a), Key(b), Leaf); Ids(t) == {a, b} && Apart(t) && InOrder(t) == [a, b]
  {
    SingleNode(a);
    hide Single;
  }

  lemma {:induction false} SingleNode(a: nat)
    requires a > 0
    ensures Ids(Single(a)) == {a} && Apart(Single(a)) && InOrder(Single(a)) == [a]
  {
    assert InOrder(Single(a)) == InOrder(Leaf) + [a] + InOrder(Leaf);
  }

  lemma {:induction false} LeaningNodes()
    ensures Apart(Leaning()) && NULL !in Ids(Leaning())
  {
    PairNodes(1, 2);
    PairNodes(4, 5);
    PairNodes(7, 8);
    var m, r := Branch(Single(4), Key(5), Leaf), Branch(Single(7), Key(8), Leaf);
    hide InOrder, Single;
    assert Ids(Branch(m, Key(6), r)) == {4, 5, 6, 7, 8};
  }

  lemma {:induction false} LeaningKeys()
    ensures Ascending(InOrder(Leaning()))
  {
    PairNodes(1, 2);
    PairNodes(4, 5);
    PairNodes(7, 8);
    var m, r := Branch(Single(4), Key(5), Leaf), Branch(Single(7), Key(8), Leaf);
    hide Ids, Apart, Single;
    assert InOrder(Branch(m, Key(6), r)) == [4, 5] + [6] + [7, 8];
    assert InOrder(Leaning()) == [1, 2] + [3] + ([4, 5] + [6] + [7, 8]) == [1, 2, 3, 4, 5, 6, 7, 8];
  }

  lemma {:induction false} LeaningBalanced()
    ensures Balanced(Leaning()) && Height(Tall()) == 3 && Balanced(Tall())
    ensures Height(Single(2)) == 1 && Factor(Tall()) == 0 && Factor(Tall().l) == -1
  {
    var l, m, r := Branch(Single(1), Key(2), Leaf), Branch(Single(4), Key(5), Leaf), Branch(Single(7), Key(8), Leaf);
    assert Height(Single(1)) == 1 && Height(Single(2)) == 1 && Height(Single(4)) == 1 && Height(Single(7)) == 1;
    assert Height(l) == 2 && Height(m) == 2 && Height(r) == 2;
    assert Balanced(l) && Balanced(m) && Balanced(r);
  }
}
