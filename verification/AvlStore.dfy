/**
 * The memory of an AVL tree: linked nodes with parent pointers and cached heights.
 * A pointer is a node identity, null is 0, and a `Store` is the memory the nodes live in.
 * `Rep` ties a pointer and everything below it to a `Tree`; `RepAbove` does the same for
 * everything above it.  The lemmas say what single writes and rotations leave represented.
 */
module AvlStore {
  import opened AvlShape

  type Ref = nat
  const NULL: Ref := 0

  datatype Cell = Cell(value: int, height: int, parent: Ref, left: Ref, right: Ref)
  type Store = map<Ref, Cell>

  ghost function Ids(t: Tree): set<Ref>
  {
    match t
    case Leaf => {}
    case Branch(l, n, r) => Ids(l) + {n.id} + Ids(r)
  }

  ghost function Above(c: Context): set<Ref>
  {
    match c
    case Top => {}
    case InLeft(n, r, up) => {n.id} + Ids(r) + Above(up)
    case InRight(l, n, up) => Ids(l) + {n.id} + Above(up)
  }

  /** No node occurs twice. */
  ghost predicate Apart(t: Tree)
  {
    match t
    case Leaf => true
    case Branch(l, n, r) => n.id !in Ids(l) && n.id !in Ids(r) && Ids(l) !! Ids(r) && Apart(l) && Apart(r)
  }

  ghost predicate ApartAbove(c: Context)
  {
    match c
    case Top => true
    case InLeft(n, r, up) =>
      n.id !in Ids(r) && n.id !in Above(up) && Ids(r) !! Above(up) && Apart(r) && ApartAbove(up)
    case InRight(l, n, up) =>
      n.id !in Ids(l) && n.id !in Above(up) && Ids(l) !! Above(up) && Apart(l) && ApartAbove(up)
  }

  ghost predicate Separate(c: Context, t: Tree)
  {
    Apart(t) && ApartAbove(c) && Ids(t) !! Above(c)
  }

  function Owner(c: Context): Ref
  {
    match c
    case Top => NULL
    case InLeft(n, _, _) => n.id
    case InRight(_, n, _) => n.id
  }

  /** Pointer p with parent `up` is the root of t: links, parent links, values and exact cached heights. */
  ghost predicate Rep(h: Store, t: Tree, p: Ref, up: Ref)
  {
    match t
    case Leaf => p == NULL
    case Branch(l, n, r) =>
      && p == n.id && p != NULL && p in h
      && h[p].value == n.value && h[p].parent == up && h[p].height == Height(t)
      && Rep(h, l, h[p].left, p) && Rep(h, r, h[p].right, p)
  }

  /** The same, except that the root's own cached height may be stale. */
  ghost predicate RepStale(h: Store, t: Tree, p: Ref, up: Ref)
    requires t.Branch?
  {
    && p == t.n.id && p != NULL && p in h
    && h[p].value == t.n.value && h[p].parent == up
    && Rep(h, t.l, h[p].left, p) && Rep(h, t.r, h[p].right, p)
  }

  /** Everything above the hole, with p in the hole; heights on the way up may be stale, siblings are exact. */
  ghost predicate RepAbove(h: Store, c: Context, p: Ref)
  {
    match c
    case Top => true
    case InLeft(n, r, up) =>
      && n.id != NULL && n.id in h && h[n.id].value == n.value
      && h[n.id].left == p && h[n.id].parent == Owner(up) && Rep(h, r, h[n.id].right, n.id) && RepAbove(h, up, n.id)
    case InRight(l, n, up) =>
      && n.id != NULL && n.id in h && h[n.id].value == n.value
      && h[n.id].right == p && h[n.id].parent == Owner(up) && Rep(h, l, h[n.id].left, n.id) && RepAbove(h, up, n.id)
  }

  ghost predicate SameOn(h: Store, k: Store, ids: set<Ref>)
  {
    forall i :: i in ids && i in h ==> i in k && k[i] == h[i]
  }

  lemma {:induction false} RepFrame(h: Store, k: Store, t: Tree, p: Ref, up: Ref)
    requires Rep(h, t, p, up) && SameOn(h, k, Ids(t))
    ensures Rep(k, t, p, up)
  {
    match t {
      case Leaf =>
      case Branch(l, n, r) =>
        RepFrame(h, k, l, h[p].left, p);
        RepFrame(h, k, r, h[p].right, p);
    }
  }

  lemma {:induction false} RepAboveFrame(h: Store, k: Store, c: Context, p: Ref)
    requires RepAbove(h, c, p) && SameOn(h, k, Above(c))
    ensures RepAbove(k, c, p)
  {
    match c {
      case Top =>
      case InLeft(n, r, up) =>
        RepFrame(h, k, r, h[n.id].right, n.id);
        RepAboveFrame(h, k, up, n.id);
      case InRight(l, n, up) =>
        RepFrame(h, k, l, h[n.id].left, n.id);
        RepAboveFrame(h, k, up, n.id);
    }
  }

  /** Hanging a subtree under another parent changes its root's parent pointer only. */
  lemma {:induction false} RepReparent(h: Store, k: Store, t: Tree, p: Ref, before: Ref, after: Ref)
    requires Apart(t) && Rep(h, t, p, before)
    requires if p == NULL then SameOn(h, k, Ids(t))
             else p in h && p in k && k[p] == h[p].(parent := after) && SameOn(h, k, Ids(t) - {p})
    ensures Rep(k, t, p, after)
  {
    if t.Branch? {
      RepFrame(h, k, t.l, h[p].left, p);
      RepFrame(h, k, t.r, h[p].right, p);
    }
  }

  /** Putting q where p hung changes one child link of the owner. */
  lemma {:induction false} RepRelink(h: Store, k: Store, c: Context, p: Ref, q: Ref)
    requires ApartAbove(c) && RepAbove(h, c, p)
    requires c.Top? || (Owner(c) in k && SameOn(h, k, Above(c) - {Owner(c)}) &&
                        k[Owner(c)] == if c.InLeft? then h[Owner(c)].(left := q) else h[Owner(c)].(right := q))
    ensures RepAbove(k, c, q)
  {
    match c {
      case Top =>
      case InLeft(n, r, up) =>
        RepFrame(h, k, r, h[n.id].right, n.id);
        RepAboveFrame(h, k, up, n.id);
      case InRight(l, n, up) =>
        RepFrame(h, k, l, h[n.id].left, n.id);
        RepAboveFrame(h, k, up, n.id);
    }
  }

  function CachedHeight(h: Store, p: Ref): int
  {
    if p in h && p != NULL then h[p].height else 0
  }

  lemma {:induction false} RepHeight(h: Store, t: Tree, p: Ref, up: Ref)
    requires Rep(h, t, p, up)
    ensures CachedHeight(h, p) == Height(t) && (p == NULL <==> t.Leaf?)
    ensures p != NULL ==> p in Ids(t)
  {
  }

  /** The child hangs on the left exactly when the context says so. */
  lemma {:induction false} RepSide(h: Store, c: Context, child: Ref)
    requires !c.Top? && RepAbove(h, c, child) && child !in Above(c) && child != NULL
    ensures h[Owner(c)].left == child <==> c.InLeft?
  {
    if c.InRight? {
      RepHeight(h, c.l, h[Owner(c)].left, Owner(c));
    }
  }

  // ---------------------------------------------------------------- updates of the store

  function WithHeight(h: Store, p: Ref): Store
    requires p in h
  {
    h[p := h[p].(height := Max(CachedHeight(h, h[p].left), CachedHeight(h, h[p].right)) + 1)]
  }

  lemma {:induction false} HeightUpdated(h: Store, t: Tree, p: Ref, up: Ref)
    requires t.Branch? && Apart(t) && RepStale(h, t, p, up)
    ensures Rep(WithHeight(h, p), t, p, up)
  {
    RepHeight(h, t.l, h[p].left, p);
    RepHeight(h, t.r, h[p].right, p);
    RepFrame(h, WithHeight(h, p), t.l, h[p].left, p);
    RepFrame(h, WithHeight(h, p), t.r, h[p].right, p);
  }

  /** `next->parent = parent`, when there is a next. */
  function WithParent(h: Store, p: Ref, parent: Ref): Store
  {
    if p != NULL && p in h then h[p := h[p].(parent := parent)] else h
  }

  /** The parent's link to `old` redirected, on the side that holds it. */
  function WithChild(h: Store, parent: Ref, old': Ref, replacement: Ref): Store
  {
    if parent != NULL && parent in h then
      if h[parent].left == old' then h[parent := h[parent].(left := replacement)]
      else h[parent := h[parent].(right := replacement)]
    else h
  }

  lemma {:induction false} ChildReplaced(h: Store, c: Context, child: Ref, replacement: Ref)
    requires ApartAbove(c) && RepAbove(h, c, child) && child !in Above(c) && child != NULL
    ensures RepAbove(WithChild(h, Owner(c), child, replacement), c, replacement)
    ensures forall i :: i in h && i != Owner(c) ==>
              i in WithChild(h, Owner(c), child, replacement) && WithChild(h, Owner(c), child, replacement)[i] == h[i]
  {
    if !c.Top? {
      RepSide(h, c, child);
    }
    RepRelink(h, WithChild(h, Owner(c), child, replacement), c, child, replacement);
  }

  lemma {:induction false} OwnerAbove(h: Store, c: Context, p: Ref)
    requires RepAbove(h, c, p)
    ensures if c.Top? then Owner(c) == NULL else Owner(c) in Above(c) && Owner(c) in h && Owner(c) != NULL
  {
  }

  /** Updating the heights of two rotated nodes does not reach what is above them. */
  lemma {:induction false} RotationAbove(h: Store, k: Store, c: Context, t: Tree, top: Ref, child: Ref)
    requires RepAbove(h, c, child) && Ids(t) !! Above(c) && top in Ids(t) && child in Ids(t)
    requires forall i :: i in h && i != top && i != child ==> i in k && k[i] == h[i]
    ensures RepAbove(k, c, child)
  {
    RepAboveFrame(h, k, c, child);
  }

  // ---------------------------------------------------------------- rotations on the store

  /** The links after `rotate_right(top)`, before the two heights are updated. */
  function RotatedRight(h: Store, top: Ref): Store
    requires top in h && h[top].left in h
  {
    var child := h[top].left;
    var middle := h[child].right;
    var h1 := h[top := h[top].(left := middle)];
    var h2 := h1[child := h1[child].(right := top)];
    var h3 := WithParent(h2, middle, top);
    var h4 := WithChild(h3, h3[top].parent, top, child);
    var h5 := h4[child := h4[child].(parent := h4[top].parent)];
    h5[top := h5[top].(parent := child)]
  }

  /** The five disjoint parts of a tree that can be rotated right. */
  lemma {:induction false} PartsRight(t: Tree)
    requires t.Branch? && t.l.Branch? && Apart(t)
    ensures Apart(t.l.l) && Apart(t.l.r) && Apart(t.r)
    ensures Apart(Branch(t.l.r, t.n, t.r)) && Apart(RotateRight(t)) && Ids(RotateRight(t)) == Ids(t)
    ensures Ids(t) == Ids(t.l.l) + {t.l.n.id} + Ids(t.l.r) + {t.n.id} + Ids(t.r)
    ensures t.n.id != t.l.n.id
    ensures t.n.id !in Ids(t.l.l) && t.n.id !in Ids(t.l.r) && t.n.id !in Ids(t.r)
    ensures t.l.n.id !in Ids(t.l.l) && t.l.n.id !in Ids(t.l.r) && t.l.n.id !in Ids(t.r)
    ensures Ids(t.l.l) !! Ids(t.l.r) && Ids(t.l.l) !! Ids(t.r) && Ids(t.l.r) !! Ids(t.r)
  {
  }

  /** What the links then represent; only the two rotated nodes have stale heights. */
  lemma {:induction false} RotatedRightRep(h: Store, t: Tree, c: Context, top: Ref)
    requires t.Branch? && t.l.Branch? && Separate(c, t)
    requires RepStale(h, t, top, Owner(c)) && RepAbove(h, c, top)
    ensures t.l.n.id in h && h[top].left == t.l.n.id
    ensures var k := RotatedRight(h, top);
            && RepStale(k, Branch(t.l.r, t.n, t.r), top, t.l.n.id)
            && RepAbove(k, c, t.l.n.id)
            && t.l.n.id in k && k[t.l.n.id].value == t.l.n.value && t.l.n.id != NULL
            && k[t.l.n.id].parent == Owner(c) && k[t.l.n.id].right == top
            && Rep(k, t.l.l, k[t.l.n.id].left, t.l.n.id)
            && k.Keys == h.Keys
  {
    hide Height, Above, ApartAbove, Apart, Ids, RotatedRight;
    PartsRight(t);
    var child := h[top].left;
    var middle := h[child].right;
    var k := RotatedRight(h, top);
    RepHeight(h, t.l.r, middle, child);
    OwnerAbove(h, c, top);
    RotatedRightCells(h, t, c, top);
    RepReparent(h, k, t.l.r, middle, child, top);
    RepFrame(h, k, t.r, h[top].right, top);
    RepFrame(h, k, t.l.l, h[child].left, child);
    RepRelink(h, k, c, top, child);
  }

  /** The cells a right rotation touches, one by one. */
  lemma {:induction false} RotatedRightCells(h: Store, t: Tree, c: Context, top: Ref)
    requires t.Branch? && t.l.Branch? && Separate(c, t)
    requires RepStale(h, t, top, Owner(c)) && RepAbove(h, c, top)
    ensures h[top].left in h
    ensures var child, k := h[top].left, RotatedRight(h, top);
            var middle := h[child].right;
            && child in k && top in k
            && k[top] == h[top].(left := middle, parent := child)
            && k[child] == h[child].(right := top, parent := h[top].parent)
            && (middle != NULL ==> middle in h && middle in k && k[middle] == h[middle].(parent := top))
            && (!c.Top? ==> Owner(c) in h && Owner(c) in k)
            && (!c.Top? ==>
                  k[Owner(c)] == if c.InLeft? then h[Owner(c)].(left := child) else h[Owner(c)].(right := child))
            && (forall i ::
                  i in h && i != top && i != child && (middle == NULL || i != middle) && (c.Top? || i != Owner(c)) ==>
                  i in k && k[i] == h[i])
            && (forall i :: i in k ==> i in h)
  {
    hide Height, Above, ApartAbove, Apart, Ids;
    PartsRight(t);
    var child := h[top].left;
    var middle := h[child].right;
    RepHeight(h, t.l.r, middle, child);
    OwnerAbove(h, c, top);
    if !c.Top? {
      RepSide(h, c, top);
    }
  }

  /** The links after `rotate_left(top)`, before the two heights are updated. */
  function RotatedLeft(h: Store, top: Ref): Store
    requires top in h && h[top].right in h
  {
    var child := h[top].right;
    var middle := h[child].left;
    var h1 := h[top := h[top].(right := middle)];
    var h2 := h1[child := h1[child].(left := top)];
    var h3 := WithParent(h2, middle, top);
    var h4 := WithChild(h3, h3[top].parent, top, child);
    var h5 := h4[child := h4[child].(parent := h4[top].parent)];
    h5[top := h5[top].(parent := child)]
  }

  /** The five disjoint parts of a tree that can be rotated left. */
  lemma {:induction false} PartsLeft(t: Tree)
    requires t.Branch? && t.r.Branch? && Apart(t)
    ensures Apart(t.r.r) && Apart(t.r.l) && Apart(t.l)
    ensures Apart(Branch(t.l, t.n, t.r.l)) && Apart(RotateLeft(t)) && Ids(RotateLeft(t)) == Ids(t)
    ensures Ids(t) == Ids(t.r.r) + {t.r.n.id} + Ids(t.r.l) + {t.n.id} + Ids(t.l)
    ensures t.n.id != t.r.n.id
    ensures t.n.id !in Ids(t.r.r) && t.n.id !in Ids(t.r.l) && t.n.id !in Ids(t.l)
    ensures t.r.n.id !in Ids(t.r.r) && t.r.n.id !in Ids(t.r.l) && t.r.n.id !in Ids(t.l)
    ensures Ids(t.r.r) !! Ids(t.r.l) && Ids(t.r.r) !! Ids(t.l) && Ids(t.r.l) !! Ids(t.l)
  {
  }

  /** What the links then represent; only the two rotated nodes have stale heights. */
  lemma {:induction false} RotatedLeftRep(h: Store, t: Tree, c: Context, top: Ref)
    requires t.Branch? && t.r.Branch? && Separate(c, t)
    requires RepStale(h, t, top, Owner(c)) && RepAbove(h, c, top)
    ensures t.r.n.id in h && h[top].right == t.r.n.id
    ensures var k := RotatedLeft(h, top);
            && RepStale(k, Branch(t.l, t.n, t.r.l), top, t.r.n.id)
            && RepAbove(k, c, t.r.n.id)
            && t.r.n.id in k && k[t.r.n.id].value == t.r.n.value && t.r.n.id != NULL
            && k[t.r.n.id].parent == Owner(c) && k[t.r.n.id].left == top
            && Rep(k, t.r.r, k[t.r.n.id].right, t.r.n.id)
            && k.Keys == h.Keys
  {
    hide Height, Above, ApartAbove, Apart, Ids, RotatedLeft;
    PartsLeft(t);
    var child := h[top].right;
    var middle := h[child].left;
    var k := RotatedLeft(h, top);
    RepHeight(h, t.r.l, middle, child);
    OwnerAbove(h, c, top);
    RotatedLeftCells(h, t, c, top);
    RepReparent(h, k, t.r.l, middle, child, top);
    RepFrame(h, k, t.l, h[top].left, top);
    RepFrame(h, k, t.r.r, h[child].right, child);
    RepRelink(h, k, c, top, child);
  }

  /** The cells a left rotation touches, one by one. */
  lemma {:induction false} RotatedLeftCells(h: Store, t: Tree, c: Context, top: Ref)
    requires t.Branch? && t.r.Branch? && Separate(c, t)
    requires RepStale(h, t, top, Owner(c)) && RepAbove(h, c, top)
    ensures h[top].right in h
    ensures var child, k := h[top].right, RotatedLeft(h, top);
            var middle := h[child].left;
            && child in k && top in k
            && k[top] == h[top].(right := middle, parent := child)
            && k[child] == h[child].(left := top, parent := h[top].parent)
            && (middle != NULL ==> middle in h && middle in k && k[middle] == h[middle].(parent := top))
            && (!c.Top? ==> Owner(c) in h && Owner(c) in k)
            && (!c.Top? ==>
                  k[Owner(c)] == if c.InLeft? then h[Owner(c)].(left := child) else h[Owner(c)].(right := child))
            && (forall i ::
                  i in h && i != top && i != child && (middle == NULL || i != middle) && (c.Top? || i != Owner(c)) ==>
                  i in k && k[i] == h[i])
            && (forall i :: i in k ==> i in h)
  {
    hide Height, Above, ApartAbove, Apart, Ids;
    PartsLeft(t);
    var child := h[top].right;
    var middle := h[child].left;
    RepHeight(h, t.r.l, middle, child);
    OwnerAbove(h, c, top);
    if !c.Top? {
      RepSide(h, c, top);
    }
  }

  // ---------------------------------------------------------------- moving between a node and its parent

  /** The subtree one level up. */
  function Lifted(c: Context, t: Tree): (r: Tree)
    requires !c.Top?
    ensures r.Branch?
  {
    if c.InLeft? then Branch(t, c.n, c.r) else Branch(c.l, c.n, t)
  }

  lemma {:induction false} Climb(h: Store, c: Context, t: Tree, p: Ref)
    requires !c.Top? && t.Branch? && Rep(h, t, p, Owner(c)) && RepAbove(h, c, p) && Separate(c, t)
    ensures RepStale(h, Lifted(c, t), Owner(c), Owner(c.up))
    ensures RepAbove(h, c.up, Owner(c)) && Separate(c.up, Lifted(c, t))
  {
  }

  lemma {:induction false} DescendLeft(h: Store, t: Tree, c: Context, top: Ref)
    requires t.Branch? && t.l.Branch? && Separate(c, t) && RepStale(h, t, top, Owner(c)) && RepAbove(h, c, top)
    ensures RepStale(h, t.l, h[top].left, top) && RepAbove(h, InLeft(t.n, t.r, c), h[top].left)
    ensures Separate(InLeft(t.n, t.r, c), t.l)
  {
  }

  lemma {:induction false} AscendLeft(h: Store, t: Tree, l: Tree, c: Context, top: Ref, inner: Ref)
    requires t.Branch? && t.l.Branch? && t.l.r.Branch?
    requires l == RotateLeft(t.l) && Separate(c, t) && Rep(h, l, inner, top)
    requires RepAbove(h, InLeft(t.n, t.r, c), inner) && top == t.n.id
    ensures RepStale(h, Branch(l, t.n, t.r), top, Owner(c)) && RepAbove(h, c, top) && Separate(c, Branch(l, t.n, t.r))
  {
    hide Ids, Apart, Above, ApartAbove;
    SwapLeft(t, l);
  }

  lemma {:induction false} DescendRight(h: Store, t: Tree, c: Context, top: Ref)
    requires t.Branch? && t.r.Branch? && Separate(c, t) && RepStale(h, t, top, Owner(c)) && RepAbove(h, c, top)
    ensures RepStale(h, t.r, h[top].right, top) && RepAbove(h, InRight(t.l, t.n, c), h[top].right)
    ensures Separate(InRight(t.l, t.n, c), t.r)
  {
  }

  lemma {:induction false} AscendRight(h: Store, t: Tree, r: Tree, c: Context, top: Ref, inner: Ref)
    requires t.Branch? && t.r.Branch? && t.r.l.Branch?
    requires r == RotateRight(t.r) && Separate(c, t) && Rep(h, r, inner, top)
    requires RepAbove(h, InRight(t.l, t.n, c), inner) && top == t.n.id
    ensures RepStale(h, Branch(t.l, t.n, r), top, Owner(c)) && RepAbove(h, c, top) && Separate(c, Branch(t.l, t.n, r))
  {
    hide Ids, Apart, Above, ApartAbove;
    SwapRight(t, r);
  }

  /** Rotating a child in place keeps the nodes and keeps them apart. */
  lemma {:induction false} SwapLeft(t: Tree, l: Tree)
    requires t.Branch? && t.l.Branch? && t.l.r.Branch? && l == RotateLeft(t.l) && Apart(t)
    ensures Apart(Branch(l, t.n, t.r)) && Ids(Branch(l, t.n, t.r)) == Ids(t)
  {
    PartsLeft(t.l);
    assert Apart(t.l) && Apart(l) && Ids(l) == Ids(t.l);
  }

  lemma {:induction false} SwapRight(t: Tree, r: Tree)
    requires t.Branch? && t.r.Branch? && t.r.l.Branch? && r == RotateRight(t.r) && Apart(t)
    ensures Apart(Branch(t.l, t.n, r)) && Ids(Branch(t.l, t.n, r)) == Ids(t)
  {
    PartsRight(t.r);
    assert Apart(t.r) && Apart(r) && Ids(r) == Ids(t.r);
  }

  lemma {:induction false} SeparateTop(t: Tree)
    requires Apart(t)
    ensures Separate(Top, t)
  {
  }

  lemma {:induction false} SeparateRoot(c: Context, t: Tree)
    requires t.Branch? && Separate(c, t)
    ensures t.n.id in Ids(t) && t.n.id !in Above(c) && Apart(t)
  {
  }

  lemma {:induction false} BalancedSeparate(c: Context, t: Tree)
    requires t.Branch? && Separate(c, t)
    ensures Separate(c, Balance(t)) && Ids(Balance(t)) == Ids(t)
  {
    hide Ids, Apart, Above, ApartAbove;
    if Factor(t) < -1 {
      if Factor(t.l) <= -1 {
        PartsRight(t);
      } else {
        SwapLeft(t, RotateLeft(t.l));
        PartsRight(Branch(RotateLeft(t.l), t.n, t.r));
      }
    } else if Factor(t) > 1 {
      if Factor(t.r) >= 1 {
        PartsLeft(t);
      } else {
        SwapRight(t, RotateRight(t.r));
        PartsLeft(Branch(t.l, t.n, RotateRight(t.r)));
      }
    }
  }

  // ---------------------------------------------------------------- places in the order of keys

  /** Everything left of the hole is smaller and everything right of it larger than `value`. */
  ghost predicate Fits(c: Context, value: int)
  {
    (forall k :: k in KeysLeft(c) ==> k < value) && (forall k :: k in KeysRight(c) ==> value < k)
  }

  lemma {:induction false} FitsTop(t: Tree, value: int)
    ensures Fits(Top, value) && Plug(Top, t) == t
  {
  }

  lemma {:induction false} FitsSide(c: Context, value: int)
    requires Fits(c, value)
    ensures c.InLeft? ==> value < c.n.value
    ensures c.InRight? ==> c.n.value < value
  {
    if c.InLeft? { assert c.n.value in KeysRight(c); }
    if c.InRight? { assert c.n.value in KeysLeft(c); }
  }

  lemma {:induction false} SameValue(h: Store, c: Context, p: Ref)
    requires RepAbove(h, c, p)
    ensures !c.Top? ==> h[Owner(c)].value == c.n.value
  {
  }

  lemma {:induction false} AscendingAround(a: seq<int>, x: int, b: seq<int>)
    requires Ascending(a + [x] + b)
    ensures forall k :: k in a ==> k < x
    ensures forall k :: k in b ==> x < k
    ensures Ascending(a) && Ascending(b)
  {
    var s := a + [x] + b;
    assert s[|a|] == x;
    forall k | k in a ensures k < x { var i :| 0 <= i < |a| && a[i] == k; assert s[i] == k; }
    forall k | k in b ensures x < k { var i :| 0 <= i < |b| && b[i] == k; assert s[|a| + 1 + i] == k; }
    forall i, j | 0 <= i < j < |a| ensures a[i] < a[j] { assert s[i] == a[i] && s[j] == a[j]; }
    forall i, j | 0 <= i < j < |b| ensures b[i] < b[j] { assert s[|a| + 1 + i] == b[i] && s[|a| + 1 + j] == b[j]; }
  }

  /** The keys around the root of a plugged-in tree. */
  lemma {:induction false} AroundRoot(c: Context, t: Tree)
    requires t.Branch? && Ascending(InOrder(Plug(c, t)))
    ensures forall k :: k in KeysLeft(c) + InOrder(t.l) ==> k < t.n.value
    ensures forall k :: k in InOrder(t.r) + KeysRight(c) ==> t.n.value < k
  {
    hide Ascending;
    PlugInOrder(c, t);
    Regroup(KeysLeft(c), InOrder(t.l), [t.n.value], InOrder(t.r), KeysRight(c));
    AscendingAround(KeysLeft(c) + InOrder(t.l), t.n.value, InOrder(t.r) + KeysRight(c));
  }

  lemma {:induction false} ValueInPlace(c: Context, t: Tree)
    ensures t.Branch? ==> t.n.value in InOrder(Plug(c, t))
  {
    if t.Branch? {
      PlugInOrder(c, t);
      assert t.n.value in InOrder(t);
    }
  }

  lemma {:induction false} FitsLeft(c: Context, t: Tree, value: int)
    requires t.Branch? && Ascending(InOrder(Plug(c, t))) && Fits(c, value) && value < t.n.value
    ensures Fits(InLeft(t.n, t.r, c), value)
  {
    hide Ascending, InOrder;
    AroundRoot(c, t);
    assert KeysRight(InLeft(t.n, t.r, c)) == [t.n.value] + (InOrder(t.r) + KeysRight(c));
    assert KeysLeft(InLeft(t.n, t.r, c)) == KeysLeft(c);
  }

  lemma {:induction false} FitsRight(c: Context, t: Tree, value: int)
    requires t.Branch? && Ascending(InOrder(Plug(c, t))) && Fits(c, value) && t.n.value < value
    ensures Fits(InRight(t.l, t.n, c), value)
  {
    hide Ascending, InOrder;
    AroundRoot(c, t);
    assert KeysLeft(InRight(t.l, t.n, c)) == (KeysLeft(c) + InOrder(t.l)) + [t.n.value];
    assert KeysRight(InRight(t.l, t.n, c)) == KeysRight(c);
  }

  lemma {:induction false} GoLeft(h: Store, c: Context, t: Tree, p: Ref)
    requires t.Branch? && Rep(h, t, p, Owner(c)) && RepAbove(h, c, p) && Separate(c, t)
    ensures p in h && h[p].value == t.n.value && Rep(h, t.l, h[p].left, p)
    ensures RepAbove(h, InLeft(t.n, t.r, c), h[p].left) && Separate(InLeft(t.n, t.r, c), t.l)
    ensures Owner(InLeft(t.n, t.r, c)) == p && Plug(InLeft(t.n, t.r, c), t.l) == Plug(c, t)
  {
  }

  lemma {:induction false} GoRight(h: Store, c: Context, t: Tree, p: Ref)
    requires t.Branch? && Rep(h, t, p, Owner(c)) && RepAbove(h, c, p) && Separate(c, t)
    ensures p in h && h[p].value == t.n.value && Rep(h, t.r, h[p].right, p)
    ensures RepAbove(h, InRight(t.l, t.n, c), h[p].right) && Separate(InRight(t.l, t.n, c), t.r)
    ensures Owner(InRight(t.l, t.n, c)) == p && Plug(InRight(t.l, t.n, c), t.r) == Plug(c, t)
  {
  }

  lemma {:induction false} PlugIds(c: Context, t: Tree)
    ensures Ids(Plug(c, t)) == Above(c) + Ids(t)
    decreases c
  {
    match c {
      case Top =>
      case InLeft(n, r, up) => PlugIds(up, Branch(t, n, r));
      case InRight(l, n, up) => PlugIds(up, Branch(l, n, t));
    }
  }

  lemma {:induction false} RebalanceIds(c: Context, t: Tree)
    requires t.Branch? && Separate(c, t)
    ensures Ids(RebalanceUp(c, t)) == Above(c) + Ids(t)
    decreases c
  {
    BalancedSeparate(c, t);
    match c {
      case Top =>
      case InLeft(n, r, up) => RebalanceIds(up, Branch(Balance(t), n, r));
      case InRight(l, n, up) => RebalanceIds(up, Branch(l, n, Balance(t)));
    }
  }

  /** A new leaf hung into its place. */
  lemma {:induction false} LinkedLeaf(h: Store, k: Store, c: Context, value: int, id: Ref)
    requires RepAbove(h, c, NULL) && Separate(c, Leaf) && id !in h && id != NULL && id !in Above(c)
    requires id in k && k[id] == Cell(value, 1, Owner(c), NULL, NULL)
    requires forall i :: i in h && i != Owner(c) ==> i in k && k[i] == h[i]
    requires c.Top? ==> forall i :: i in h ==> i in k && k[i] == h[i]
    requires !c.Top? ==> Owner(c) in h && Owner(c) in k
    requires !c.Top? ==> k[Owner(c)] == if c.InLeft? then h[Owner(c)].(left := id) else h[Owner(c)].(right := id)
    ensures var leaf := Branch(Leaf, Node(id, value), Leaf);
            RepStale(k, leaf, id, Owner(c)) && RepAbove(k, c, id) && Separate(c, leaf)
  {
    RepRelink(h, k, c, NULL, id);
  }

  lemma {:induction false} AscendingInsert(a: seq<int>, x: int, b: seq<int>)
    requires Ascending(a + b) && (forall k :: k in a ==> k < x) && (forall k :: k in b ==> x < k)
    ensures Ascending(a + [x] + b)
  {
    var s, u := a + [x] + b, a + b;
    forall i, j | 0 <= i < j < |s|
      ensures s[i] < s[j]
    {
      assert i < |a| ==> s[i] == a[i] == u[i] && s[i] in a;
      assert i > |a| ==> s[i] == b[i - |a| - 1] == u[i - 1];
      assert j < |a| ==> s[j] == u[j];
      assert j > |a| ==> s[j] == b[j - |a| - 1] == u[j - 1] && s[j] in b;
    }
  }

  /** The tree after insertion: the new key in its place, balanced if it was before. */
  lemma {:induction false} InsertedShape(c: Context, value: int, id: Ref)
    requires Fits(c, value) && Ascending(InOrder(Plug(c, Leaf))) && Separate(c, Branch(Leaf, Node(id, value), Leaf))
    ensures var t := RebalanceUp(c, Branch(Leaf, Node(id, value), Leaf));
            && Ascending(InOrder(t))
            && (set k | k in InOrder(t)) == (set k | k in InOrder(Plug(c, Leaf))) + {value}
            && Ids(t) == Ids(Plug(c, Leaf)) + {id}
            && (Balanced(Plug(c, Leaf)) ==> Balanced(t))
  {
    hide Ascending;
    var leaf := Branch(Leaf, Node(id, value), Leaf);
    PlugInOrder(c, Leaf);
    RebalanceKeys(c, leaf);
    assert InOrder(leaf) == [value];
    assert KeysLeft(c) + InOrder(Leaf) + KeysRight(c) == KeysLeft(c) + KeysRight(c);
    AscendingInsert(KeysLeft(c), value, KeysRight(c));
    PlugIds(c, Leaf);
    RebalanceIds(c, leaf);
    if Balanced(Plug(c, Leaf)) {
      LeafGrown(Node(id, value));
      RebalanceBalances(c, Leaf, leaf);
    }
  }

  /** What each comparison of a search decides. */
  lemma {:induction false} SearchSplit(t: Tree)
    requires t.Branch? && Ascending(InOrder(t))
    ensures Ascending(InOrder(t.l)) && Ascending(InOrder(t.r))
    ensures forall k :: k in InOrder(t.l) ==> k < t.n.value
    ensures forall k :: k in InOrder(t.r) ==> t.n.value < k
    ensures forall k :: k in InOrder(t) <==> k in InOrder(t.l) || k == t.n.value || k in InOrder(t.r)
  {
    hide Ascending;
    AscendingAround(InOrder(t.l), t.n.value, InOrder(t.r));
  }

  lemma {:induction false} RootKey(t: Tree)
    ensures t.Branch? ==> t.n.value in InOrder(t)
  {
  }

  lemma {:induction false} LeafKeys(t: Tree)
    ensures t.Leaf? ==> InOrder(t) == []
  {
  }

  lemma {:induction false} SearchStep(t: Tree, value: int)
    requires t.Branch? && Ascending(InOrder(t)) && t.n.value != value
    ensures Ascending(InOrder(t.l)) && Ascending(InOrder(t.r))
    ensures value in InOrder(t) <==> value in InOrder(if t.n.value < value then t.r else t.l)
  {
    hide Ascending;
    SearchSplit(t);
  }

  /** The keys still owed by the nodes on the stack, top first. */
  ghost function Pending(trees: seq<Tree>): seq<int>
    requires forall i :: 0 <= i < |trees| ==> trees[i].Branch?
  {
    if trees == [] then [] else
      var t := trees[|trees| - 1];
      [t.n.value] + InOrder(t.r) + Pending(trees[..|trees| - 1])
  }

  lemma {:induction false} Regroup3(a: seq<int>, x: seq<int>, b: seq<int>, p: seq<int>)
    ensures a + (x + b + p) == a + x + b + p
    ensures a + ([] + (x + b + p)) == a + x + (b + p)
  {
  }

  lemma {:induction false} PendingPush(t: Tree, trees: seq<Tree>)
    requires t.Branch? && forall i :: 0 <= i < |trees| ==> trees[i].Branch?
    ensures InOrder(t.l) + Pending(trees + [t]) == InOrder(t) + Pending(trees)
  {
    assert (trees + [t])[..|trees|] == trees;
    Regroup3(InOrder(t.l), [t.n.value], InOrder(t.r), Pending(trees));
  }

  lemma {:induction false} PendingPop(t: Tree, trees: seq<Tree>)
    requires t.Branch? && forall i :: 0 <= i < |trees| ==> trees[i].Branch?
    ensures Pending(trees + [t]) == [t.n.value] + (InOrder(t.r) + Pending(trees))
  {
    assert (trees + [t])[..|trees|] == trees;
  }
}
