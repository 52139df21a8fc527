/**
 * The AVL tree object: insertion, removal, search and traversal in place, with the shape
 * they keep as a ghost.
 */
module AvlTree {
  import opened AvlShape
  import opened AvlStore
  import opened AvlRemoval
  import opened AvlClimb

  datatype RemoveResult = Removed | NotFound | NullParent

  /** What a callback with state makes of a list of keys, up to the first call that says stop. */
  function Fold<S>(callback: (S, int) -> (S, bool), state: S, keys: seq<int>): (S, bool)
  {
    if |keys| == 0 then (state, true)
    else
      var step := callback(state, keys[0]);
      if step.1 then Fold(callback, step.0, keys[1..]) else step
  }

  lemma {:induction false} FoldStep<S>(callback: (S, int) -> (S, bool), state: S, keys: seq<int>)
    requires |keys| > 0
    ensures var step := callback(state, keys[0]);
            Fold(callback, state, keys) == if step.1 then Fold(callback, step.0, keys[1..]) else (step.0, false)
  {
  }

  /** A callback that writes down its keys. */
  function Recorder(more: int -> bool): (seq<int>, int) -> (seq<int>, bool)
  {
    (seen: seq<int>, k: int) => (seen + [k], more(k))
  }

  /** It gets the keys in order, all of them unless it says stop. */
  lemma {:induction false} FoldVisits(more: int -> bool, keys: seq<int>, seen: seq<int>)
    ensures var visited := Fold(Recorder(more), seen, keys).0;
            && seen <= visited <= seen + keys
            && (forall i :: |seen| <= i < |visited| - 1 ==> more(visited[i]))
            && (|visited| < |seen + keys| ==> |seen| < |visited| && !more(visited[|visited| - 1]))
  {
    if |keys| > 0 {
      FoldStep(Recorder(more), seen, keys);
      assert seen + [keys[0]] + keys[1..] == seen + keys;
      if more(keys[0]) { FoldVisits(more, keys[1..], seen + [keys[0]]); }
    }
  }

  class Avl {
    var cells: Store
    var root: Ref
    ghost var shape: Tree

    /** Links, parent links and cached heights are exact, keys ascend in order, no cell is stray. */
    ghost predicate Valid()
      reads this
    {
      Rep(cells, shape, root, NULL) && Apart(shape) && cells.Keys == Ids(shape) && Ascending(InOrder(shape))
    }

    ghost function Keys(): set<int>
      reads this
    {
      set k | k in InOrder(shape)
    }

    constructor ()
      ensures Valid() && shape == Leaf && cells == map[] && Keys() == {} && Balanced(shape)
    {
      cells, root, shape := map[], NULL, Leaf;
    }

    method UpdateHeight(p: Ref, ghost t: Tree, ghost up: Ref)
      requires t.Branch? && Apart(t) && RepStale(cells, t, p, up)
      modifies `cells
      ensures cells == WithHeight(old(cells), p) && Rep(cells, t, p, up)
    {
      HeightUpdated(cells, t, p, up);
      RepHeight(cells, t.l, cells[p].left, p);
      RepHeight(cells, t.r, cells[p].right, p);
      var left := if cells[p].left != NULL then cells[cells[p].left].height else 0;
      var right := if cells[p].right != NULL then cells[cells[p].right].height else 0;
      cells := cells[p := cells[p].(height := Max(left, right) + 1)];
    }

    method GetFactor(p: Ref, ghost t: Tree, ghost up: Ref) returns (factor: int)
      requires t.Branch? && RepStale(cells, t, p, up)
      ensures factor == Factor(t)
    {
      RepHeight(cells, t.l, cells[p].left, p);
      RepHeight(cells, t.r, cells[p].right, p);
      var left := if cells[p].left != NULL then cells[cells[p].left].height else 0;
      var right := if cells[p].right != NULL then cells[cells[p].right].height else 0;
      factor := right - left;
    }

    /** `rotate_right`: the left child takes the place of `top`. */
    method RotateRightAt(top: Ref, ghost t: Tree, ghost c: Context) returns (child: Ref)
      requires t.Branch? && t.l.Branch? && Separate(c, t)
      requires RepStale(cells, t, top, Owner(c)) && RepAbove(cells, c, top)
      modifies `cells
      ensures Rep(cells, RotateRight(t), child, Owner(c)) && RepAbove(cells, c, child)
      ensures cells.Keys == old(cells).Keys
    {
      hide Height, Above, Apart, Ids, ApartAbove, RotatedRight;
      PartsRight(t);
      ghost var start := cells;
      RotatedRightRep(start, t, c, top);
      RotatedRightCells(start, t, c, top);
      child := cells[top].left;
      LinkRight(top, child, t, c);
      ghost var linked := cells;
      UpdateHeight(top, Branch(t.l.r, t.n, t.r), child);
      RepFrame(linked, cells, t.l.l, linked[child].left, child);
      UpdateHeight(child, RotateRight(t), Owner(c));
      RotationAbove(linked, cells, c, t, top, child);
    }

    /** The pointer writes of `rotate_right`, in the source's order. */
    method LinkRight(top: Ref, child: Ref, ghost t: Tree, ghost c: Context)
      requires t.Branch? && t.l.Branch? && Separate(c, t)
      requires RepStale(cells, t, top, Owner(c)) && RepAbove(cells, c, top) && child == cells[top].left
      modifies `cells
      ensures child in old(cells) && cells == RotatedRight(old(cells), top)
    {
      hide Height, Above, Apart, Ids, ApartAbove;
      PartsRight(t);
      ghost var start := cells;
      RotatedRightCells(start, t, c, top);
      OwnerAbove(start, c, top);
      var middle := cells[child].right;
      RepHeight(start, t.l.r, middle, child);
      cells := cells[top := cells[top].(left := middle)];
      cells := cells[child := cells[child].(right := top)];
      if middle != NULL {
        cells := cells[middle := cells[middle].(parent := top)];
      }
      var owner := cells[top].parent;
      if owner != NULL {
        if cells[owner].left == top {
          cells := cells[owner := cells[owner].(left := child)];
        } else {
          cells := cells[owner := cells[owner].(right := child)];
        }
      }
      cells := cells[child := cells[child].(parent := cells[top].parent)];
      cells := cells[top := cells[top].(parent := child)];
    }

    /** `rotate_left`: the right child takes the place of `top`. */
    method RotateLeftAt(top: Ref, ghost t: Tree, ghost c: Context) returns (child: Ref)
      requires t.Branch? && t.r.Branch? && Separate(c, t)
      requires RepStale(cells, t, top, Owner(c)) && RepAbove(cells, c, top)
      modifies `cells
      ensures Rep(cells, RotateLeft(t), child, Owner(c)) && RepAbove(cells, c, child)
      ensures cells.Keys == old(cells).Keys
    {
      hide Height, Above, Apart, Ids, ApartAbove, RotatedLeft;
      PartsLeft(t);
      ghost var start := cells;
      RotatedLeftRep(start, t, c, top);
      RotatedLeftCells(start, t, c, top);
      child := cells[top].right;
      LinkLeft(top, child, t, c);
      ghost var linked := cells;
      UpdateHeight(top, Branch(t.l, t.n, t.r.l), child);
      RepFrame(linked, cells, t.r.r, linked[child].right, child);
      UpdateHeight(child, RotateLeft(t), Owner(c));
      RotationAbove(linked, cells, c, t, top, child);
    }

    /** The pointer writes of `rotate_left`, in the source's order. */
    method LinkLeft(top: Ref, child: Ref, ghost t: Tree, ghost c: Context)
      requires t.Branch? && t.r.Branch? && Separate(c, t)
      requires RepStale(cells, t, top, Owner(c)) && RepAbove(cells, c, top) && child == cells[top].right
      modifies `cells
      ensures child in old(cells) && cells == RotatedLeft(old(cells), top)
    {
      hide Height, Above, Apart, Ids, ApartAbove;
      PartsLeft(t);
      ghost var start := cells;
      RotatedLeftCells(start, t, c, top);
      OwnerAbove(start, c, top);
      var middle := cells[child].left;
      RepHeight(start, t.r.l, middle, child);
      cells := cells[top := cells[top].(right := middle)];
      cells := cells[child := cells[child].(left := top)];
      if middle != NULL {
        cells := cells[middle := cells[middle].(parent := top)];
      }
      var owner := cells[top].parent;
      if owner != NULL {
        if cells[owner].left == top {
          cells := cells[owner := cells[owner].(left := child)];
        } else {
          cells := cells[owner := cells[owner].(right := child)];
        }
      }
      cells := cells[child := cells[child].(parent := cells[top].parent)];
      cells := cells[top := cells[top].(parent := child)];
    }

    /** `rotate_left_right`. */
    method RotateLeftRightAt(top: Ref, ghost t: Tree, ghost c: Context) returns (child: Ref)
      requires t.Branch? && t.l.Branch? && t.l.r.Branch? && Separate(c, t)
      requires RepStale(cells, t, top, Owner(c)) && RepAbove(cells, c, top)
      modifies `cells
      ensures Rep(cells, RotateRight(Branch(RotateLeft(t.l), t.n, t.r)), child, Owner(c)) && RepAbove(cells, c, child)
      ensures cells.Keys == old(cells).Keys
    {
      hide Height, Ids, Apart, Above, ApartAbove;
      DescendLeft(cells, t, c, top);
      var inner := RotateLeftAt(cells[top].left, t.l, InLeft(t.n, t.r, c));
      ghost var rotated := cells;
      cells := cells[top := cells[top].(left := inner)];
      assert cells == rotated;
      AscendLeft(cells, t, RotateLeft(t.l), c, top, inner);
      child := RotateRightAt(top, Branch(RotateLeft(t.l), t.n, t.r), c);
    }

    /** `rotate_right_left`. */
    method RotateRightLeftAt(top: Ref, ghost t: Tree, ghost c: Context) returns (child: Ref)
      requires t.Branch? && t.r.Branch? && t.r.l.Branch? && Separate(c, t)
      requires RepStale(cells, t, top, Owner(c)) && RepAbove(cells, c, top)
      modifies `cells
      ensures Rep(cells, RotateLeft(Branch(t.l, t.n, RotateRight(t.r))), child, Owner(c)) && RepAbove(cells, c, child)
      ensures cells.Keys == old(cells).Keys
    {
      hide Height, Ids, Apart, Above, ApartAbove;
      DescendRight(cells, t, c, top);
      var inner := RotateRightAt(cells[top].right, t.r, InRight(t.l, t.n, c));
      ghost var rotated := cells;
      cells := cells[top := cells[top].(right := inner)];
      assert cells == rotated;
      AscendRight(cells, t, RotateRight(t.r), c, top, inner);
      child := RotateLeftAt(top, Branch(t.l, t.n, RotateRight(t.r)), c);
    }

    /** The body of `rebalance`'s loop: the node's height, then at most one rotation. */
    method BalanceAt(node: Ref, ghost t: Tree, ghost c: Context) returns (top: Ref)
      requires t.Branch? && Separate(c, t) && RepStale(cells, t, node, Owner(c)) && RepAbove(cells, c, node)
      modifies `cells
      ensures Rep(cells, Balance(t), top, Owner(c)) && RepAbove(cells, c, top)
      ensures cells.Keys == old(cells).Keys
    {
      hide Ids, Apart, Above, ApartAbove;
      ghost var start := cells;
      SeparateRoot(c, t);
      UpdateHeight(node, t, Owner(c));
      RepAboveFrame(start, cells, c, node);
      var factor := GetFactor(node, t, Owner(c));
      top := node;
      if factor < -1 {
        var childFactor := GetFactor(cells[node].left, t.l, node);
        if childFactor <= -1 {
          top := RotateRightAt(node, t, c);
        } else {
          top := RotateLeftRightAt(node, t, c);
        }
      } else if factor > 1 {
        var childFactor := GetFactor(cells[node].right, t.r, node);
        if childFactor >= 1 {
          top := RotateLeftAt(node, t, c);
        } else {
          top := RotateRightLeftAt(node, t, c);
        }
      }
    }

    /** `rebalance`: from `node` to the root. */
    method Rebalance(node: Ref, ghost t: Tree, ghost c: Context)
      requires t.Branch? && Separate(c, t) && RepStale(cells, t, node, Owner(c)) && RepAbove(cells, c, node)
      modifies this
      ensures Rep(cells, RebalanceUp(c, t), root, NULL) && Apart(RebalanceUp(c, t))
      ensures cells.Keys == old(cells).Keys
    {
      hide Ids, Apart, Above, ApartAbove, Height, Balance;
      var current := node;
      ghost var sub, above := t, c;
      ghost var done := false;
      while current != NULL
        invariant cells.Keys == old(cells).Keys
        invariant !done ==> sub.Branch? && Separate(above, sub) && RebalanceUp(above, sub) == RebalanceUp(c, t)
        invariant !done ==> RepStale(cells, sub, current, Owner(above)) && RepAbove(cells, above, current)
        invariant done ==> current == NULL && Rep(cells, RebalanceUp(c, t), root, NULL) && Apart(RebalanceUp(c, t))
        decreases !done, above
      {
        BalancedSeparate(above, sub);
        var top := BalanceAt(current, sub, above);
        if cells[top].parent == NULL {
          root := top;
        }
        OwnerAbove(cells, above, top);
        current := cells[top].parent;
        if above.Top? {
          done := true;
        } else {
          Climb(cells, above, Balance(sub), top);
          sub, above := Lifted(above, Balance(sub)), above.up;
        }
      }
    }

    /** The descent of `insert`: the parent of the empty place the value belongs in. */
    method FindPlace(value: int) returns (parent: Ref, ghost above: Context)
      requires Valid() && value !in Keys()
      ensures Plug(above, Leaf) == shape && RepAbove(cells, above, NULL) && parent == Owner(above)
      ensures Separate(above, Leaf) && Fits(above, value)
      ensures parent == NULL <==> root == NULL
      ensures parent != NULL ==>
                && parent in cells && cells[parent].value != value
                && (value < cells[parent].value ==> cells[parent].left == NULL)
                && (value > cells[parent].value ==> cells[parent].right == NULL)
    {
      hide Height, Ascending, KeysLeft, KeysRight, Apart, Ids, Above, ApartAbove, InOrder, Fits;
      var current := root;
      parent := NULL;
      above := Top;
      ghost var sub := shape;
      FitsTop(shape, value);
      SeparateTop(shape);
      while current != NULL
        invariant Plug(above, sub) == shape && Separate(above, sub) && parent == Owner(above)
        invariant Rep(cells, sub, current, Owner(above)) && RepAbove(cells, above, current)
        invariant Fits(above, value) && (parent == NULL ==> current == root) && (root == NULL ==> parent == NULL)
        decreases sub
      {
        parent := current;
        ValueInPlace(above, sub);
        if value < cells[current].value {
          GoLeft(cells, above, sub, current);
          FitsLeft(above, sub, value);
          current := cells[current].left;
          above, sub := InLeft(sub.n, sub.r, above), sub.l;
        } else {
          assert cells[current].value in InOrder(shape);
          GoRight(cells, above, sub, current);
          FitsRight(above, sub, value);
          current := cells[current].right;
          above, sub := InRight(sub.l, sub.n, above), sub.r;
        }
      }
      FitsSide(above, value);
    }

    /** `insert` of a value not yet in the tree, in a fresh node. */
    method Insert(value: int, id: Ref)
      requires Valid() && value !in Keys() && id !in cells && id != NULL
      modifies this
      ensures Valid() && Keys() == old(Keys()) + {value} && cells.Keys == old(cells.Keys) + {id}
      ensures old(Balanced(shape)) ==> Balanced(shape)
    {
      hide Height, Ascending, KeysLeft, KeysRight, Apart, Ids, Above, ApartAbove, InOrder, Fits, Balanced, RebalanceUp;
      var parent;
      ghost var above;
      parent, above := FindPlace(value);
      ghost var leaf := Branch(Leaf, Node(id, value), Leaf);
      ghost var before := cells;
      PlugIds(above, Leaf);
      OwnerAbove(cells, above, NULL);
      FitsSide(above, value);
      SameValue(cells, above, NULL);
      cells := cells[id := Cell(value, 1, parent, NULL, NULL)];
      if parent != NULL {
        if value < cells[parent].value {
          cells := cells[parent := cells[parent].(left := id)];
        } else {
          cells := cells[parent := cells[parent].(right := id)];
        }
      } else {
        root := id;
      }
      LinkedLeaf(before, cells, above, value, id);
      Rebalance(id, leaf, above);
      InsertedShape(above, value, id);
      shape := RebalanceUp(above, leaf);
    }

    /** `find_node` by value; the ghosts say where in the tree the node is. */
    method FindNode(value: int) returns (found: Ref, ghost above: Context, ghost sub: Tree)
      requires Valid()
      ensures found != NULL <==> value in Keys()
      ensures found != NULL ==> found in cells && cells[found].value == value
      ensures found != NULL ==> sub.Branch? && sub.n.value == value && Plug(above, sub) == shape && Separate(above, sub)
      ensures found != NULL ==> Rep(cells, sub, found, Owner(above)) && RepAbove(cells, above, found)
      ensures found != NULL ==> Locate(Top, shape, value) == Place(above, sub)
    {
      hide Height, KeysLeft, KeysRight, Apart, Ids, Above, ApartAbove, Ascending, InOrder;
      found := root;
      above, sub := Top, shape;
      SeparateTop(shape);
      assert Plug(Top, shape) == shape;
      while found != NULL
        invariant Rep(cells, sub, found, Owner(above)) && RepAbove(cells, above, found)
        invariant Plug(above, sub) == shape && Separate(above, sub) && Ascending(InOrder(sub))
        invariant value in InOrder(shape) <==> value in InOrder(sub)
        invariant Locate(Top, shape, value) == Locate(above, sub, value)
        decreases sub
      {
        RootKey(sub);
        if cells[found].value == value {
          return;
        }
        SearchStep(sub, value);
        if cells[found].value < value {
          GoRight(cells, above, sub, found);
          found := cells[found].right;
          above, sub := InRight(sub.l, sub.n, above), sub.r;
        } else {
          GoLeft(cells, above, sub, found);
          found := cells[found].left;
          above, sub := InLeft(sub.n, sub.r, above), sub.l;
        }
      }
      LeafKeys(sub);
    }

    /** `find_node` by a comparator that is negative before the wanted key and positive after it. */
    method FindNodeBy(comparator: int -> int) returns (found: Ref)
      requires Valid()
      requires forall a, b :: a in Keys() && b in Keys() && a < b ==>
                 (comparator(b) <= 0 ==> comparator(a) < 0) && (comparator(a) >= 0 ==> comparator(b) > 0)
      ensures found != NULL <==> exists k :: k in Keys() && comparator(k) == 0
      ensures found != NULL ==> found in cells && cells[found].value in Keys() && comparator(cells[found].value) == 0
    {
      hide Height, KeysLeft, KeysRight, Apart, Ids, Above, ApartAbove;
      found := root;
      ghost var sub, up := shape, NULL;
      while found != NULL
        invariant Rep(cells, sub, found, up) && Ascending(InOrder(sub))
        invariant forall k :: k in InOrder(sub) ==> k in InOrder(shape)
        invariant forall k :: k in InOrder(shape) && comparator(k) == 0 ==> k in InOrder(sub)
        decreases sub
      {
        if comparator(cells[found].value) == 0 {
          assert cells[found].value in InOrder(sub);
          return;
        }
        SearchSplit(sub);
        up := found;
        if comparator(cells[found].value) < 0 {
          found := cells[found].right;
          sub := sub.r;
        } else {
          found := cells[found].left;
          sub := sub.l;
        }
      }
    }

    /** Calls back for the keys in order until one call says stop. */
    method Traverse<S>(init: S, callback: (S, int) -> (S, bool)) returns (state: S, goes: bool)
      requires Valid()
      ensures (state, goes) == Fold(callback, init, InOrder(shape))
    {
      hide Height, KeysLeft, KeysRight, Apart, Ids, Above, ApartAbove, Ascending;
      var node := root;
      var nodes: seq<Ref> := [];
      state, goes := init, true;
      ghost var sub, up := shape, NULL;
      ghost var trees: seq<Tree> := [];
      ghost var rest := InOrder(shape);
      assert InOrder(sub) + Pending(trees) == rest;
      while nodes != [] || node != NULL
        invariant Rep(cells, sub, node, up) && |trees| == |nodes| && goes
        invariant forall i :: 0 <= i < |nodes| ==>
                    trees[i].Branch? && nodes[i] in cells && Rep(cells, trees[i], nodes[i], cells[nodes[i]].parent)
        invariant InOrder(sub) + Pending(trees) == rest
        invariant Fold(callback, state, rest) == Fold(callback, init, InOrder(shape))
        decreases |rest|, sub
      {
        if node != NULL {
          PendingPush(sub, trees);
          nodes, trees := nodes + [node], trees + [sub];
          up, sub := node, sub.l;
          node := cells[node].left;
        } else {
          node := nodes[|nodes| - 1];
          ghost var t := trees[|trees| - 1];
          nodes, trees := nodes[..|nodes| - 1], trees[..|trees| - 1];
          PendingPop(t, trees);
          FoldStep(callback, state, rest);
          var step := callback(state, cells[node].value);
          state, goes := step.0, step.1;
          rest := rest[1..];
          if !goes {
            return;
          }
          up, sub := node, t.r;
          node := cells[node].right;
        }
      }
    }

    /** The leftmost node of the right subtree, with the path to it. */
    method FindSuccessor(node: Ref, ghost t: Tree, ghost c: Context)
      returns (succ: Ref, ghost path: Context, ghost s: Tree)
      requires t.Branch? && t.r.Branch? && Rep(cells, t, node, Owner(c)) && RepAbove(cells, c, node) && Separate(c, t)
      ensures LeftSpine(path) && s.Branch? && s.l.Leaf? && succ == s.n.id
      ensures succ in cells && cells[succ].left == NULL && Leftmost(Top, t.r) == Place(path, s)
      ensures var above := Append(path, InRight(t.l, t.n, c));
              && Rep(cells, s, succ, Owner(above)) && RepAbove(cells, above, succ)
              && Separate(above, s) && Plug(above, s) == Plug(c, t)
    {
      hide Height, Apart, Ids, Above, ApartAbove;
      GoRight(cells, c, t, node);
      succ := cells[node].right;
      path, s := Top, t.r;
      while cells[succ].left != NULL
        invariant LeftSpine(path) && s.Branch? && succ == s.n.id && succ in cells
        invariant Leftmost(Top, t.r) == Leftmost(path, s)
        invariant Rep(cells, s, succ, Owner(Append(path, InRight(t.l, t.n, c))))
        invariant RepAbove(cells, Append(path, InRight(t.l, t.n, c)), succ)
        invariant Separate(Append(path, InRight(t.l, t.n, c)), s)
        invariant Plug(Append(path, InRight(t.l, t.n, c)), s) == Plug(c, t)
        decreases s
      {
        GoLeft(cells, Append(path, InRight(t.l, t.n, c)), s, succ);
        succ := cells[succ].left;
        path, s := InLeft(s.n, s.r, path), s.l;
      }
    }

    /**
     * Putting `succ` in the place of `node`: it takes over the node's parent and children and
     * keeps its own value and height, they point to it, and no other cell changes.
     */
    method Substitute(node: Ref, succ: Ref, ghost c: Context)
      requires Ready(cells, node, succ, c)
      modifies `cells
      ensures SubstitutedCells(old(cells), cells, node, succ, c) && cells.Keys == old(cells).Keys
    {
      SubstitutionCells(cells, node, succ, c);
      hide Above, RepAbove, SubstitutedCells;
      cells := cells[succ := cells[succ].(left := cells[node].left)];
      cells := cells[cells[node].left := cells[cells[node].left].(parent := succ)];
      cells := cells[succ := cells[succ].(right := cells[node].right)];
      if cells[node].right != NULL {
        cells := cells[cells[node].right := cells[cells[node].right].(parent := succ)];
      }
      cells := cells[succ := cells[succ].(parent := cells[node].parent)];
      var parent := cells[node].parent;
      if cells[parent].left == node {
        cells := cells[parent := cells[parent].(left := succ)];
      } else {
        cells := cells[parent := cells[parent].(right := succ)];
      }
    }

    /** `remove` of a node with two children and a parent: its successor takes its place. */
    method RemoveInner(node: Ref, ghost t: Tree, ghost c: Context) returns (ghost result: Tree)
      requires t.Branch? && t.l.Branch? && t.r.Branch? && !c.Top?
      requires Rep(cells, t, node, Owner(c)) && RepAbove(cells, c, node) && Separate(c, t)
      modifies this
      ensures Rep(cells, result, root, NULL) && Apart(result) && cells.Keys == old(cells.Keys) - {node}
      ensures Ids(result) == (Above(c) + Ids(t)) - {node}
      ensures InOrder(result) == KeysLeft(c) + (InOrder(t.l) + InOrder(t.r)) + KeysRight(c)
      ensures result == AfterRemoval(c, t)
      ensures Balanced(Plug(c, t)) ==> (Balanced(result) <==> !RemovalMeetsBadStep(c, t))
    {
      hide Height, Apart, Ids, Above, ApartAbove, InOrder, KeysLeft, KeysRight, RebalanceUp, LeftSpine, Ready;
      hide SubstitutedCells, Balanced, RemovalMeetsBadStep;
      var succ;
      ghost var path, s;
      succ, path, s := FindSuccessor(node, t, c);
      ghost var start := cells;
      SuccessorPlace(start, node, t, c, path, s);
      ghost var u, b := Branch(t.l, s.n, s.r), c;
      if cells[succ].parent != node {
        var parent := cells[succ].parent;
        cells := cells[parent := cells[parent].(left := cells[succ].right)];
        if cells[succ].right != NULL {
          cells := cells[cells[succ].right := cells[cells[succ].right].(parent := cells[succ].parent)];
        }
        Detached(start, cells, Append(path, InRight(t.l, t.n, c)), s);
        DeepReady(cells, path, t.l, t.n, s.n, c, s.r, cells[succ].right);
        u, b := Branch(s.r, path.n, path.r), Append(path.up, InRight(t.l, s.n, c));
      } else {
        cells := cells[node := cells[node].(right := cells[succ].right)];
        NearReady(start, cells, node, t, s, c);
      }
      var newNode := if cells[succ].parent == node then succ else cells[succ].parent;
      ghost var unlinked := cells;
      Substitute(node, succ, c);
      ghost var replaced := cells;
      cells := cells - {node};
      if path.Top? {
        NearSubstituted(unlinked, replaced, t.l, t.n, s.n, s.r, c);
        NearKeys(t, s, c);
      } else {
        DeepSubstituted(unlinked, replaced, path, t.l, t.n, s.n, c, s.r, unlinked[succ].right);
        DeepKeys(path, t, s, c);
      }
      Rebalance(newNode, u, b);
      result := RebalanceUp(b, u);
      RebalanceIds(b, u);
      if Balanced(Plug(c, t)) { RemovalBalancesIff(c, t); }
    }

    /** `remove` of a node with at most one child: the child, if any, moves up. */
    method RemoveOuter(node: Ref, ghost t: Tree, ghost c: Context) returns (ghost result: Tree)
      requires t.Branch? && (t.l.Leaf? || t.r.Leaf?)
      requires Rep(cells, t, node, Owner(c)) && RepAbove(cells, c, node) && Separate(c, t)
      modifies this
      ensures Rep(cells, result, root, NULL) && Apart(result) && cells.Keys == old(cells.Keys) - {node}
      ensures Ids(result) == (Above(c) + Ids(t)) - {node}
      ensures InOrder(result) == KeysLeft(c) + (InOrder(t.l) + InOrder(t.r)) + KeysRight(c)
      ensures result == AfterRemoval(c, t)
      ensures Balanced(Plug(c, t)) ==> (Balanced(result) <==> !RemovalMeetsBadStep(c, t))
    {
      hide Height, Apart, Ids, Above, ApartAbove, InOrder, KeysLeft, KeysRight, RebalanceUp, Balanced;
      hide RemovalMeetsBadStep;
      if Balanced(Plug(c, t)) { RemovalBalancesIff(c, t); }
      ghost var only := if t.l.Branch? then t.l else t.r;
      ghost var start := cells;
      OuterFacts(start, t, c, node);
      var parent := cells[node].parent;
      var next := if cells[node].left != NULL then cells[node].left else cells[node].right;
      if next != NULL {
        cells := cells[next := cells[next].(parent := parent)];
      }
      if parent != NULL {
        if cells[parent].left == node {
          cells := cells[parent := cells[parent].(left := next)];
        } else {
          cells := cells[parent := cells[parent].(right := next)];
        }
      }
      cells := cells - {node};
      OuterUnlinked(start, t, c, node, next);
      if next == NULL && parent == NULL {
        root := NULL;
        result := Leaf;
        NothingLeft(t);
        return;
      }
      ghost var u, b := only, c;
      if next == NULL {
        ClimbInto(cells, c, only, next);
        u, b := Lifted(c, only), c.up;
      }
      OuterKeys(t, c);
      Rebalance(if next != NULL then next else parent, u, b);
      result := RebalanceUp(b, u);
      RebalanceIds(b, u);
    }

    /**
     * `remove` of a value.  For a value in a root with two children the source goes through a
     * null parent pointer, which is a result of its own here.
     */
    method Remove(value: int) returns (r: RemoveResult)
      requires Valid()
      modifies this
      ensures r == NullParent <==>
                old(shape).Branch? && old(shape).n.value == value && old(shape).l.Branch? && old(shape).r.Branch?
      ensures r == NotFound <==> value !in old(Keys())
      ensures r != Removed ==> shape == old(shape) && cells == old(cells) && Keys() == old(Keys())
      ensures Valid() && (r == Removed ==> Keys() == old(Keys()) - {value})
      // a balanced tree stays balanced exactly when the climb makes no bad step
      ensures r == Removed ==>
                var p := Locate(Top, old(shape), value);
                && p.t.Branch? && shape == AfterRemoval(p.c, p.t)
                && (old(Balanced(shape)) ==> (Balanced(shape) <==> !RemovalMeetsBadStep(p.c, p.t)))
    {
      hide Height, Apart, Ids, Above, ApartAbove, InOrder, KeysLeft, KeysRight, Ascending, Separate, AfterRemoval;
      hide RemovalMeetsBadStep, Balanced, Locate;
      var node;
      ghost var above, sub;
      node, above, sub := FindNode(value);
      AtRoot(shape, value);
      if node == NULL {
        return NotFound;
      }
      RemovedKeys(above, sub);
      PlugIds(above, sub);
      RepHeight(cells, sub.l, cells[node].left, node);
      RepHeight(cells, sub.r, cells[node].right, node);
      OwnerAbove(cells, above, node);
      ghost var result;
      if cells[node].left != NULL && cells[node].right != NULL {
        if cells[node].parent == NULL {
          return NullParent;
        }
        result := RemoveInner(node, sub, above);
      } else {
        result := RemoveOuter(node, sub, above);
      }
      shape := result;
      return Removed;
    }
  }

  /** In every balanced tree of three keys the middle one is at the root, above the other two. */
  lemma {:induction false} ThreeBalanced(t: Tree, a: int, b: int, c: int)
    requires Balanced(t) && Ascending(InOrder(t)) && a < b < c
    requires forall k :: k in InOrder(t) <==> k == a || k == b || k == c
    ensures t.Branch? && t.n.value == b && t.l.Branch? && t.r.Branch?
  {
    assert Ascending([a, b, c]);
    SameKeys(InOrder(t), [a, b, c]);
    ShortHeight(t);
    ShortHeight(t.l);
    ShortHeight(t.r);
    assert InOrder(t)[|InOrder(t.l)|] == t.n.value;
  }

  lemma {:induction false} ShortHeight(t: Tree)
    ensures |InOrder(t)| == 0 <==> t == Leaf
    ensures |InOrder(t)| == 1 ==> Height(t) == 1
    ensures |InOrder(t)| == 2 ==> Height(t) == 2
  {
    if t.Branch? {
      assert |InOrder(t)| == |InOrder(t.l)| + 1 + |InOrder(t.r)|;
      ShortHeight(t.l);
      ShortHeight(t.r);
    }
  }

  /** After three insertions the middle key cannot be removed. */
  method NullParentExample(low: int, middle: int, high: int) returns (r: RemoveResult)
    requires low < middle < high
    ensures r == NullParent
  {
    hide Height, InOrder, Balanced, Ascending, Locate, AfterRemoval, RemovalMeetsBadStep, Rep, Apart, Ids;
    var tree := new Avl();
    tree.Insert(low, 1);
    tree.Insert(middle, 2);
    tree.Insert(high, 3);
    assert forall k :: k in InOrder(tree.shape) <==> k in tree.Keys();
    ThreeBalanced(tree.shape, low, middle, high);
    r := tree.Remove(middle);
  }
}
