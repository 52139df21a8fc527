/**
 * What the pointer writes of a removal leave represented: unlinking the in-order successor
 * and putting it in the place of the removed node.
 */
module AvlRemoval {
  import opened AvlShape
  import opened AvlStore

  /** A path down the left spine, as a context that ends where the spine starts. */
  ghost predicate LeftSpine(p: Context)
  {
    match p
    case Top => true
    case InLeft(_, _, up) => LeftSpine(up)
    case InRight(_, _, _) => false
  }

  function Append(p: Context, base: Context): Context
  {
    match p
    case Top => base
    case InLeft(n, r, up) => InLeft(n, r, Append(up, base))
    case InRight(l, n, up) => InRight(l, n, Append(up, base))
  }

  lemma {:induction false} AppendKeys(p: Context, base: Context)
    requires LeftSpine(p)
    ensures KeysLeft(Append(p, base)) == KeysLeft(base)
    ensures KeysRight(Append(p, base)) == KeysRight(p) + KeysRight(base)
  {
    match p {
      case Top =>
      case InLeft(n, r, up) =>
        AppendKeys(up, base);
        assert [n.value] + InOrder(r) + (KeysRight(up) + KeysRight(base)) ==
               [n.value] + InOrder(r) + KeysRight(up) + KeysRight(base);
    }
  }

  lemma {:induction false} AppendAbove(p: Context, base: Context)
    requires LeftSpine(p)
    ensures Above(Append(p, base)) == Above(p) + Above(base)
  {
    if p.InLeft? {
      AppendAbove(p.up, base);
    }
  }

  /** The pointer writes that put `succ` in the place of `node`, in the source's order. */
  function Substituted(h: Store, node: Ref, succ: Ref): Store
    requires node in h && succ in h && node != succ && h[node].left in h && h[node].left != node
  {
    var h1 := h[succ := h[succ].(left := h[node].left)];
    var h2 := WithParent(h1, h1[node].left, succ);
    var h3 := h2[succ := h2[succ].(right := h2[node].right)];
    var h4 := WithParent(h3, h3[node].right, succ);
    var h5 := h4[succ := h4[succ].(parent := h4[node].parent)];
    WithChild(h5, h5[node].parent, node, succ)
  }

  /** The cells the substitution writes. */
  ghost predicate Touched(h: Store, node: Ref, succ: Ref, c: Context, i: Ref)
    requires node in h
  {
    || i == node || i == succ || i == h[node].left
    || (h[node].right != NULL && i == h[node].right) || (!c.Top? && i == Owner(c))
  }

  /** The cells after the substitution. */
  ghost predicate SubstitutedCells(h: Store, k: Store, node: Ref, succ: Ref, c: Context)
  {
    && node in h && succ in h && node in k && succ in k && h[node].left in h && h[node].left in k
    && k[succ] == Cell(h[succ].value, h[succ].height, h[node].parent, h[node].left, h[node].right)
    && k[h[node].left] == h[h[node].left].(parent := succ)
    && (h[node].right != NULL ==>
          h[node].right in h && h[node].right in k && k[h[node].right] == h[h[node].right].(parent := succ))
    && (!c.Top? ==> Owner(c) in h && Owner(c) in k)
    && (!c.Top? ==> k[Owner(c)] == if c.InLeft? then h[Owner(c)].(left := succ) else h[Owner(c)].(right := succ))
    && (forall i :: i in h && !Touched(h, node, succ, c, i) ==> i in k && k[i] == h[i])
    && k.Keys == h.Keys
  }

  /** The successor has been unlinked and can take the node's place. */
  ghost predicate Ready(h: Store, node: Ref, succ: Ref, c: Context)
  {
    && node in h && succ in h && node != succ && RepAbove(h, c, node) && node !in Above(c) && node != NULL
    && h[node].parent == Owner(c) && succ !in Above(c) && succ != NULL
    && Owner(c) in h && Owner(c) != NULL && Owner(c) != node
    && h[node].left in h && h[node].left != NULL
    && h[node].left !in {node, succ, h[node].right} && h[node].left !in Above(c)
    && (h[node].right != NULL ==> h[node].right in h && h[node].right !in {node, succ} && h[node].right !in Above(c))
  }

  lemma {:induction false} SubstitutionCells(h: Store, node: Ref, succ: Ref, c: Context)
    requires Ready(h, node, succ, c)
    ensures node in h && succ in h && node != succ && h[node].left in h && h[node].left != node
    ensures SubstitutedCells(h, Substituted(h, node, succ), node, succ, c)
  {
    hide Above;
    OwnerAbove(h, c, node);
    if !c.Top? {
      RepSide(h, c, node);
    }
  }

  /** With `succ` in place of `node` the context above node's right subtree is the same with `succ` in it. */
  lemma {:induction false} SpineSubstituted(h: Store, k: Store, p: Context, l: Tree, n: Node, s: Node, c: Context,
                                            hole: Ref)
    requires LeftSpine(p) && !p.Top? && SubstitutedCells(h, k, n.id, s.id, c)
    requires RepAbove(h, Append(p, InRight(l, n, c)), hole) && ApartAbove(Append(p, InRight(l, n, c)))
    requires l.Branch? && h[s.id].value == s.value && s.id != NULL && s.id !in Above(Append(p, InRight(l, n, c)))
    ensures RepAbove(k, Append(p, InRight(l, s, c)), hole)
    decreases p
  {
    hide Above, ApartAbove, Apart, Ids, Height;
    var q := p.n.id;
    SpineParts(p, l, n, c);
    SpineRoot(h, p, l, n, c, hole);
    RepHeight(h, l, h[n.id].left, n.id);
    OwnerAbove(h, c, n.id);
    assert SameOn(h, k, Ids(p.r));
    RepFrame(h, k, p.r, h[q].right, q);
    if p.up.Top? {
      assert SameOn(h, k, Ids(l) - {h[n.id].left});
      RepReparent(h, k, l, h[n.id].left, n.id, s.id);
      assert c.Top? || SameOn(h, k, Above(c) - {Owner(c)});
      RepRelink(h, k, c, n.id, s.id);
    } else {
      assert k[q] == h[q];
      SpineSubstituted(h, k, p.up, l, n, s, c, q);
    }
  }

  /** The disjoint parts of a spine and what it hangs from. */
  lemma {:induction false} SpineParts(p: Context, l: Tree, n: Node, c: Context)
    requires LeftSpine(p) && !p.Top? && ApartAbove(Append(p, InRight(l, n, c)))
    ensures ApartAbove(Append(p.up, InRight(l, n, c)))
    ensures Above(Append(p, InRight(l, n, c))) == {p.n.id} + Ids(p.r) + Above(Append(p.up, InRight(l, n, c)))
    ensures Above(Append(p.up, InRight(l, n, c))) == Above(p.up) + Ids(l) + {n.id} + Above(c)
    ensures p.n.id !in Ids(p.r) && p.n.id !in Above(Append(p.up, InRight(l, n, c)))
    ensures Ids(p.r) !! Above(Append(p.up, InRight(l, n, c)))
    ensures ApartAbove(c) && Apart(l) && n.id !in Ids(l) && n.id !in Above(c) && Ids(l) !! Above(c)
    ensures Above(p.up) !! Ids(l) + {n.id} + Above(c)
    ensures SpineIds(p.up) <= Above(p.up)
  {
    AppendAbove(p.up, InRight(l, n, c));
    SpineIdsAbove(p.up);
    if !p.up.Top? {
      SpineParts(p.up, l, n, c);
    }
  }

  /** The right child of the node below the spine is the spine's first node, which lies on the spine. */
  lemma {:induction false} SpineRoot(h: Store, p: Context, l: Tree, n: Node, c: Context, hole: Ref)
    requires LeftSpine(p) && !p.Top? && RepAbove(h, Append(p, InRight(l, n, c)), hole)
    requires ApartAbove(Append(p, InRight(l, n, c)))
    ensures n.id in h && h[n.id].right in SpineIds(p) && h[n.id].parent == Owner(c) && RepAbove(h, c, n.id)
    ensures Rep(h, l, h[n.id].left, n.id) && h[n.id].value == n.value && n.id != NULL
    ensures p.up.Top? ==> h[n.id].right == p.n.id
    ensures !p.up.Top? ==> h[n.id].right in SpineIds(p.up) && h[n.id].right != p.n.id
    ensures h[n.id].right != NULL
    decreases p
  {
    hide Above, ApartAbove, Apart, Ids, Height;
    SpineParts(p, l, n, c);
    if !p.up.Top? {
      SpineRoot(h, p.up, l, n, c, p.n.id);
    }
  }

  ghost function SpineIds(p: Context): set<Ref>
  {
    match p
    case Top => {}
    case InLeft(n, _, up) => {n.id} + SpineIds(up)
    case InRight(_, n, up) => {n.id} + SpineIds(up)
  }

  lemma {:induction false} SpineIdsAbove(p: Context)
    ensures SpineIds(p) <= Above(p)
  {
    if !p.Top? {
      SpineIdsAbove(p.up);
    }
  }

  /** Replacing the node under the spine by one from outside keeps everything apart. */
  lemma {:induction false} SpineSwapped(p: Context, l: Tree, n: Node, s: Node, c: Context)
    requires LeftSpine(p) && ApartAbove(Append(p, InRight(l, n, c))) && s.id !in Above(Append(p, InRight(l, n, c)))
    ensures ApartAbove(Append(p, InRight(l, s, c)))
    ensures Above(Append(p, InRight(l, s, c))) == (Above(Append(p, InRight(l, n, c))) - {n.id}) + {s.id}
    ensures n.id in Above(Append(p, InRight(l, n, c))) && Above(c) <= Above(Append(p, InRight(l, n, c)))
  {
    if !p.Top? {
      SpineSwapped(p.up, l, n, s, c);
    }
  }

  /**
   * Removal of a node whose successor lies deeper: after unlinking the successor (h) and
   * putting it in the node's place (k), rebalancing can start at the successor's old parent.
   */
  lemma {:induction false} DeepSubstituted(h: Store, k: Store, p: Context, l: Tree, n: Node, s: Node, c: Context,
                                           t: Tree, hole: Ref)
    requires LeftSpine(p) && !p.Top? && SubstitutedCells(h, k, n.id, s.id, c) && l.Branch?
    requires var a := Append(p, InRight(l, n, c));
             RepAbove(h, a, hole) && Separate(a, t) && Rep(h, t, hole, Owner(a)) && s.id !in Above(a) && s.id !in Ids(t)
    requires h[s.id].value == s.value && s.id != NULL
    ensures var b, u := Append(p.up, InRight(l, s, c)), Branch(t, p.n, p.r);
            && RepStale(k - {n.id}, u, p.n.id, Owner(b)) && RepAbove(k - {n.id}, b, p.n.id) && Separate(b, u)
            && Above(b) + Ids(u) == (Above(Append(p, InRight(l, n, c))) - {n.id}) + {s.id} + Ids(t)
  {
    hide Above, ApartAbove, Apart, Ids, Height;
    var a, b := Append(p, InRight(l, n, c)), Append(p, InRight(l, s, c));
    SpineSwapped(p, l, n, s, c);
    SpineSubstituted(h, k, p, l, n, s, c, hole);
    SpineRoot(h, p, l, n, c, hole);
    SpineParts(p, l, n, c);
    RepHeight(h, l, h[n.id].left, n.id);
    OwnerAbove(h, c, n.id);
    assert SameOn(h, k, Ids(t));
    RepFrame(h, k, t, hole, p.n.id);
    var d := k - {n.id};
    assert SameOn(k, d, Ids(t)) && SameOn(k, d, Above(b));
    RepFrame(k, d, t, hole, p.n.id);
    RepAboveFrame(k, d, b, hole);
    ClimbInto(d, b, t, hole);
  }

  lemma {:induction false} ClimbInto(h: Store, c: Context, t: Tree, p: Ref)
    requires !c.Top? && Rep(h, t, p, Owner(c)) && RepAbove(h, c, p) && Separate(c, t)
    ensures RepStale(h, Lifted(c, t), Owner(c), Owner(c.up))
    ensures RepAbove(h, c.up, Owner(c)) && Separate(c.up, Lifted(c, t))
    ensures Above(c.up) + Ids(Lifted(c, t)) == Above(c) + Ids(t)
  {
  }

  /** Removal of a node whose right child is the successor. */
  lemma {:induction false} NearSubstituted(h: Store, k: Store, l: Tree, n: Node, s: Node, r: Tree, c: Context)
    requires SubstitutedCells(h, k, n.id, s.id, c) && l.Branch? && Apart(l) && Apart(r)
    requires Ids(l) !! Ids(r)
    requires ApartAbove(c)
    requires n.id !in Ids(l) && n.id !in Ids(r)
    requires s.id !in Ids(l) && s.id !in Ids(r)
    requires Ids(l) !! Above(c)
    requires Ids(r) !! Above(c)
    requires Ready(h, n.id, s.id, c) && h[s.id].value == s.value
    requires Rep(h, l, h[n.id].left, n.id) && Rep(h, r, h[n.id].right, s.id)
    ensures var t := Branch(l, s, r);
            RepStale(k - {n.id}, t, s.id, Owner(c)) && RepAbove(k - {n.id}, c, s.id) && Separate(c, t)
  {
    hide Above, ApartAbove, Height;
    RepHeight(h, l, h[n.id].left, n.id);
    RepHeight(h, r, h[n.id].right, s.id);
    OwnerAbove(h, c, n.id);
    RepReparent(h, k, l, h[n.id].left, n.id, s.id);
    RepReparent(h, k, r, h[n.id].right, s.id, s.id);
    RepRelink(h, k, c, n.id, s.id);
    var d := k - {n.id};
    RepFrame(k, d, l, h[n.id].left, s.id);
    RepFrame(k, d, r, h[n.id].right, s.id);
    RepAboveFrame(k, d, c, s.id);
  }

  /** Where the successor sits: directly under the node, or on the left spine of the right subtree. */
  lemma {:induction false} SuccessorPlace(h: Store, node: Ref, t: Tree, c: Context, path: Context, s: Tree)
    requires t.Branch? && t.r.Branch? && LeftSpine(path) && s.Branch? && s.l.Leaf? && node == t.n.id && Separate(c, t)
    requires var a := Append(path, InRight(t.l, t.n, c));
             Rep(h, s, s.n.id, Owner(a)) && RepAbove(h, a, s.n.id) && Separate(a, s) && Plug(a, s) == Plug(c, t)
    ensures s.n.id in h && s.n.id != NULL && s.n.id != node && h[s.n.id].value == s.n.value
    ensures h[s.n.id].parent == node <==> path.Top?
    ensures !path.Top? ==> h[s.n.id].parent == path.n.id && path.n.id in h && path.InLeft?
    ensures path.Top? ==> s == t.r
    ensures h[s.n.id].right != NULL ==> h[s.n.id].right in h && h[s.n.id].right != s.n.id
    ensures Above(Append(path, InRight(t.l, t.n, c))) + Ids(s) == Above(c) + Ids(t)
    ensures Ids(s) == {s.n.id} + Ids(s.r) && node !in Ids(s) && node !in Above(c)
  {
    hide Height;
    var a := Append(path, InRight(t.l, t.n, c));
    RepHeight(h, s.r, h[s.n.id].right, s.n.id);
    AppendAbove(path, InRight(t.l, t.n, c));
    PlugIds(a, s);
    PlugIds(c, t);
    if path.Top? {
      assert Plug(a, s) == Plug(c, Branch(t.l, t.n, s));
      PlugInjective(c, Branch(t.l, t.n, s), t);
    } else {
      SpineParts(path, t.l, t.n, c);
    }
  }

  lemma {:induction false} PlugInjective(c: Context, t: Tree, u: Tree)
    requires Plug(c, t) == Plug(c, u)
    ensures t == u
    decreases c
  {
    match c {
      case Top =>
      case InLeft(n, r, up) => PlugInjective(up, Branch(t, n, r), Branch(u, n, r));
      case InRight(l, n, up) => PlugInjective(up, Branch(l, n, t), Branch(l, n, u));
    }
  }

  /** Unlinking the successor from its parent. */
  lemma {:induction false} Detached(h: Store, k: Store, a: Context, s: Tree)
    requires a.InLeft? && s.Branch? && s.l.Leaf?
    requires Rep(h, s, s.n.id, Owner(a)) && RepAbove(h, a, s.n.id) && Separate(a, s)
    requires Owner(a) in h
    requires k == WithParent(h[Owner(a) := h[Owner(a)].(left := h[s.n.id].right)], h[s.n.id].right, Owner(a))
    ensures s.n.id in k && k[s.n.id] == h[s.n.id] && k.Keys == h.Keys
    ensures RepAbove(k, a, h[s.n.id].right) && Rep(k, s.r, h[s.n.id].right, Owner(a))
    ensures Separate(a, s.r) && s.n.id !in Above(a) && s.n.id !in Ids(s.r)
  {
    hide Height;
    RepHeight(h, s.r, h[s.n.id].right, s.n.id);
    RepRelink(h, k, a, s.n.id, h[s.n.id].right);
    RepReparent(h, k, s.r, h[s.n.id].right, s.n.id, Owner(a));
  }

  lemma {:induction false} DeepReady(h: Store, p: Context, l: Tree, n: Node, s: Node, c: Context, t: Tree, hole: Ref)
    requires LeftSpine(p) && !p.Top? && l.Branch? && !c.Top? && s.id in h && s.id != NULL
    requires var a := Append(p, InRight(l, n, c)); RepAbove(h, a, hole) && Separate(a, t) && s.id !in Above(a)
    ensures Ready(h, n.id, s.id, c)
  {
    hide Height;
    SpineRoot(h, p, l, n, c, hole);
    SpineParts(p, l, n, c);
    SpineIdsAbove(p);
    AppendAbove(p, InRight(l, n, c));
    RepHeight(h, l, h[n.id].left, n.id);
    OwnerAbove(h, c, n.id);
    SpineInStore(h, p, InRight(l, n, c), hole);
  }

  lemma {:induction false} SpineInStore(h: Store, p: Context, base: Context, hole: Ref)
    requires LeftSpine(p) && RepAbove(h, Append(p, base), hole)
    ensures forall i :: i in SpineIds(p) ==> i in h
  {
    if !p.Top? {
      SpineInStore(h, p.up, base, p.n.id);
    }
  }

  lemma {:induction false} NearReady(h: Store, k: Store, node: Ref, t: Tree, s: Tree, c: Context)
    requires t.Branch? && t.l.Branch? && t.r == s && s.Branch? && s.l.Leaf? && node == t.n.id && !c.Top?
    requires Rep(h, t, node, Owner(c)) && RepAbove(h, c, node) && Separate(c, t)
    requires s.n.id in h && k == h[node := h[node].(right := h[s.n.id].right)]
    ensures s.n.id in k && k[s.n.id] == h[s.n.id] && h[s.n.id].parent == node && k.Keys == h.Keys
    ensures Ready(k, node, s.n.id, c)
    ensures Rep(k, t.l, k[node].left, node) && Rep(k, s.r, k[node].right, s.n.id)
    ensures Apart(t.l) && Apart(s.r) && Ids(t.l) !! Ids(s.r) && ApartAbove(c)
    ensures node !in Ids(t.l) && node !in Ids(s.r) && s.n.id !in Ids(t.l) && s.n.id !in Ids(s.r)
    ensures Ids(t.l) !! Above(c) && Ids(s.r) !! Above(c)
    ensures Ids(Branch(t.l, s.n, s.r)) == Ids(t) - {node}
  {
    hide Height, Apart, Above, ApartAbove;
    PartsLeft(t);
    RepHeight(h, t.l, h[node].left, node);
    RepHeight(h, s.r, h[s.n.id].right, s.n.id);
    OwnerAbove(h, c, node);
    RepFrame(h, k, t.l, h[node].left, node);
    RepFrame(h, k, s.r, h[s.n.id].right, s.n.id);
    RepAboveFrame(h, k, c, node);
  }

  lemma {:induction false} NearKeys(t: Tree, s: Tree, c: Context)
    requires t.Branch? && t.r == s && s.Branch? && s.l.Leaf?
    ensures InOrder(RebalanceUp(c, Branch(t.l, s.n, s.r))) == KeysLeft(c) + (InOrder(t.l) + InOrder(t.r)) + KeysRight(c)
  {
    hide RebalanceUp, KeysLeft, KeysRight;
    RebalanceKeys(c, Branch(t.l, s.n, s.r));
    assert InOrder(s) == [s.n.value] + InOrder(s.r);
    assert InOrder(t.l) + [s.n.value] + InOrder(s.r) == InOrder(t.l) + InOrder(s);
  }

  lemma {:induction false} DeepKeys(p: Context, t: Tree, s: Tree, c: Context)
    requires LeftSpine(p) && !p.Top? && t.Branch? && s.Branch? && s.l.Leaf?
    requires Plug(Append(p, InRight(t.l, t.n, c)), s) == Plug(c, t)
    ensures InOrder(RebalanceUp(Append(p.up, InRight(t.l, s.n, c)), Branch(s.r, p.n, p.r)))
         == KeysLeft(c) + (InOrder(t.l) + InOrder(t.r)) + KeysRight(c)
  {
    var b, u := Append(p.up, InRight(t.l, s.n, c)), Branch(s.r, p.n, p.r);
    RebalanceKeys(b, u);
    AppendKeys(p.up, InRight(t.l, s.n, c));
    RightKeys(p, t, s, c);
    DeepRegroup(KeysLeft(c), InOrder(t.l), [s.n.value], InOrder(s.r),
                [p.n.value], InOrder(p.r), KeysRight(p.up), KeysRight(c));
  }

  lemma {:induction false} DeepRegroup(a: seq<int>, l: seq<int>, x: seq<int>, r: seq<int>, y: seq<int>, d: seq<int>,
                                       e: seq<int>, f: seq<int>)
    ensures (a + l + x) + (r + y + d) + (e + f) == a + (l + (x + r + (y + d + e))) + f
  {
  }

  /** The right subtree is the successor, its right subtree and the rest of the spine. */
  lemma {:induction false} RightKeys(p: Context, t: Tree, s: Tree, c: Context)
    requires LeftSpine(p) && !p.Top? && t.Branch? && s.Branch? && s.l.Leaf?
    requires Plug(Append(p, InRight(t.l, t.n, c)), s) == Plug(c, t)
    ensures InOrder(t.r) == [s.n.value] + InOrder(s.r) + ([p.n.value] + InOrder(p.r) + KeysRight(p.up))
  {
    PlugAppend(p, InRight(t.l, t.n, c), s);
    PlugInjective(InRight(t.l, t.n, c), Plug(p, s), t.r);
    PlugInOrder(p, s);
    SpineKeysLeft(p);
    assert InOrder(s) == [s.n.value] + InOrder(s.r);
  }

  lemma {:induction false} SpineKeysLeft(p: Context)
    requires LeftSpine(p)
    ensures KeysLeft(p) == []
  {
    if !p.Top? { SpineKeysLeft(p.up); }
  }

  lemma {:induction false} PlugAppend(p: Context, base: Context, t: Tree)
    ensures Plug(Append(p, base), t) == Plug(base, Plug(p, t))
    decreases p
  {
    match p {
      case Top =>
      case InLeft(n, r, up) => PlugAppend(up, base, Branch(t, n, r));
      case InRight(l, n, up) => PlugAppend(up, base, Branch(l, n, t));
    }
  }

  lemma {:induction false} OuterFacts(h: Store, t: Tree, c: Context, node: Ref)
    requires t.Branch? && Rep(h, t, node, Owner(c)) && RepAbove(h, c, node) && Separate(c, t)
    ensures h[node].left != NULL <==> t.l.Branch?
    ensures h[node].right != NULL <==> t.r.Branch?
    ensures h[node].left != NULL ==> h[node].left in h && h[node].left != node && h[node].left != Owner(c)
    ensures h[node].right != NULL ==> h[node].right in h && h[node].right != node && h[node].right != Owner(c)
    ensures Owner(c) == NULL <==> c.Top?
    ensures !c.Top? ==> Owner(c) in h && Owner(c) != node
  {
    hide Height;
    RepHeight(h, t.l, h[node].left, node);
    RepHeight(h, t.r, h[node].right, node);
    OwnerAbove(h, c, node);
  }

  /** The only child in the place of the removed node. */
  lemma {:induction false} OuterUnlinked(h: Store, t: Tree, c: Context, node: Ref, next: Ref)
    requires t.Branch? && (t.l.Leaf? || t.r.Leaf?)
    requires Rep(h, t, node, Owner(c)) && RepAbove(h, c, node) && Separate(c, t)
    requires next == if h[node].left != NULL then h[node].left else h[node].right
    ensures var only := if t.l.Branch? then t.l else t.r;
            var k := WithChild(WithParent(h, next, Owner(c)), Owner(c), node, next) - {node};
            && Rep(k, only, next, Owner(c)) && RepAbove(k, c, next) && Separate(c, only)
            && k.Keys == h.Keys - {node} && Ids(only) == Ids(t) - {node} && node !in Above(c)
            && (next == NULL <==> only.Leaf?)
  {
    hide Height;
    var only := if t.l.Branch? then t.l else t.r;
    RepHeight(h, t.l, h[node].left, node);
    RepHeight(h, t.r, h[node].right, node);
    OwnerAbove(h, c, node);
    var j := WithParent(h, next, Owner(c));
    RepReparent(h, j, only, next, node, Owner(c));
    RepAboveFrame(h, j, c, node);
    ChildReplaced(j, c, node, next);
    var k := WithChild(j, Owner(c), node, next);
    RepFrame(j, k - {node}, only, next, Owner(c));
    RepAboveFrame(k, k - {node}, c, next);
  }

  lemma {:induction false} NothingLeft(t: Tree)
    requires t.Branch? && t.l.Leaf? && t.r.Leaf?
    ensures Ids(t) == {t.n.id} && Ids(Leaf) == {} && Apart(Leaf) && Above(Top) == {}
    ensures InOrder(Leaf) == [] && InOrder(t.l) == []
    ensures InOrder(t.r) == [] && KeysLeft(Top) == [] && KeysRight(Top) == []
  {
  }

  lemma {:induction false} OuterKeys(t: Tree, c: Context)
    requires t.Branch? && (t.l.Leaf? || t.r.Leaf?) && !(t.l.Leaf? && t.r.Leaf? && c.Top?)
    ensures var only := if t.l.Branch? then t.l else t.r;
            && (only.Branch? ==>
                  InOrder(RebalanceUp(c, only)) == KeysLeft(c) + (InOrder(t.l) + InOrder(t.r)) + KeysRight(c))
            && (only.Leaf? ==>
                  InOrder(RebalanceUp(c.up, Lifted(c, only))) ==
                  KeysLeft(c) + (InOrder(t.l) + InOrder(t.r)) + KeysRight(c))
  {
    var only := if t.l.Branch? then t.l else t.r;
    assert InOrder(t.l) + InOrder(t.r) == InOrder(only);
    if only.Branch? {
      RebalanceKeys(c, only);
    } else {
      RebalanceKeys(c.up, Lifted(c, only));
      PlugInOrder(c, only);
      PlugInOrder(c.up, Lifted(c, only));
      assert Plug(c, only) == Plug(c.up, Lifted(c, only));
    }
  }

  lemma {:induction false} AscendingRemove(a: seq<int>, x: int, b: seq<int>)
    requires Ascending(a + [x] + b)
    ensures Ascending(a + b) && (set k | k in a + b) == (set k | k in a + [x] + b) - {x}
  {
    var s, u := a + [x] + b, a + b;
    AscendingAround(a, x, b);
    forall i, j | 0 <= i < j < |u|
      ensures u[i] < u[j]
    {
      assert u[i] == if i < |a| then s[i] else s[i + 1];
      assert u[j] == if j < |a| then s[j] else s[j + 1];
    }
  }

  /** Leaving out the root of a plugged-in tree removes exactly its key. */
  lemma {:induction false} RemovedKeys(c: Context, t: Tree)
    requires t.Branch? && Ascending(InOrder(Plug(c, t)))
    ensures var s := KeysLeft(c) + (InOrder(t.l) + InOrder(t.r)) + KeysRight(c);
            Ascending(s) && (set k | k in s) == (set k | k in InOrder(Plug(c, t))) - {t.n.value}
  {
    hide Ascending;
    var a, b := KeysLeft(c) + InOrder(t.l), InOrder(t.r) + KeysRight(c);
    PlugInOrder(c, t);
    Regroup(KeysLeft(c), InOrder(t.l), [t.n.value], InOrder(t.r), KeysRight(c));
    AscendingRemove(a, t.n.value, b);
    Regroup(KeysLeft(c), InOrder(t.l), [], InOrder(t.r), KeysRight(c));
    assert InOrder(t.l) + [] + InOrder(t.r) == InOrder(t.l) + InOrder(t.r);
    assert a + [] + b == a + b;
  }
}
