/**
 * The process tree under fork, exit and waitpid.  Processes are named by their pid and kept
 * in a store; `reaped` lists the pids that a waitpid has returned.
 */
module ProcessTree {
  import opened Basics

  const INIT := 1

  /** `parent` is zero for init, which has none. */
  datatype Process = Process(parent: nat, children: seq<nat>, zombie: bool)
  datatype Tree = Tree(processes: map<nat, Process>, counter: nat, reaped: seq<nat>)

  predicate Alive(t: Tree, p: nat)
  {
    p in t.processes && !t.processes[p].zombie
  }

  // ------------------------------------------------------------ invariant

  /** The pids given out so far are the processes; init is the only one without a parent. */
  ghost predicate PidsOk(t: Tree)
  {
    && Alive(t, INIT) && t.processes[INIT].parent == 0
    && (forall q :: q in t.processes <==> 1 <= q <= t.counter)
    && (forall q :: q in t.processes && q != INIT ==> 1 <= t.processes[q].parent < q)
  }

  /** A process in a children list is unreaped and its owner is its parent. */
  ghost predicate Owned(t: Tree, a: nat)
    requires a in t.processes
  {
    && NoDuplicates(t.processes[a].children)
    && (t.processes[a].zombie ==> t.processes[a].children == [])
    && forall q :: q in t.processes[a].children ==>
         q in t.processes && q != INIT && t.processes[q].parent == a && q !in t.reaped
  }

  ghost predicate Listed(t: Tree, q: nat)
    requires q in t.processes
  {
    var p := t.processes[q].parent;
    q in t.reaped || (p in t.processes && q in t.processes[p].children)
  }

  ghost predicate ReapedOk(t: Tree)
  {
    NoDuplicates(t.reaped) && forall q :: q in t.reaped ==> q in t.processes && q != INIT && t.processes[q].zombie
  }

  ghost predicate Inv(t: Tree)
  {
    && PidsOk(t) && ReapedOk(t)
    && (forall a :: a in t.processes ==> Owned(t, a))
    && (forall q :: q in t.processes && q != INIT ==> Listed(t, q))
  }

  /** Each process other than init is in exactly one children list, its parent's, or was reaped exactly once. */
  lemma {:induction false} ExactlyOnePlace(t: Tree, q: nat, a: nat)
    requires Inv(t) && q in t.processes && q != INIT && a in t.processes
    ensures q in t.processes[a].children <==> q !in t.reaped && t.processes[q].parent == a
    ensures multiset(t.processes[a].children)[q] <= 1 && multiset(t.reaped)[q] <= 1
    ensures q !in t.reaped ==> Alive(t, t.processes[q].parent)
  {
    assert Owned(t, a) && Listed(t, q);
    OnceIn(t.processes[a].children, q);
    OnceIn(t.reaped, q);
    if q !in t.reaped { assert Owned(t, t.processes[q].parent); }
  }

  lemma {:induction false} OnceIn(s: seq<nat>, q: nat)
    requires NoDuplicates(s)
    ensures multiset(s)[q] <= 1
  {
    if |s| > 0 {
      var n := |s| - 1;
      assert s == s[..n] + [s[n]];
      OnceIn(s[..n], q);
      if s[n] == q {
        assert q !in s[..n];
        assert q !in multiset(s[..n]);
      }
    }
  }

  /** The parents of a process, starting with it. */
  function Chain(t: Tree, p: nat): seq<nat>
    decreases p
  {
    if p in t.processes && t.processes[p].parent < p then
      [p] + (if t.processes[p].parent == 0 then [] else Chain(t, t.processes[p].parent)) else [p]
  }

  /** Parent chains have no repetition and end at init. */
  lemma {:induction false} ChainEndsAtInit(t: Tree, p: nat)
    requires PidsOk(t) && p in t.processes
    ensures |Chain(t, p)| > 0 && Chain(t, p)[|Chain(t, p)| - 1] == INIT
    ensures forall i, j :: 0 <= i < j < |Chain(t, p)| ==> Chain(t, p)[j] < Chain(t, p)[i] <= p
    ensures forall i :: 0 <= i < |Chain(t, p)| ==> Chain(t, p)[i] <= p
    decreases p
  {
    if p != INIT {
      var up := t.processes[p].parent;
      ChainEndsAtInit(t, up);
      var rest := Chain(t, up);
      assert Chain(t, p) == [p] + rest;
    } else {
      assert Chain(t, p) == [p];
    }
  }

  // ------------------------------------------------------------ steps

  function Forked(t: Tree, p: nat): Tree
    requires p in t.processes
  {
    var child := t.counter + 1;
    var parent := t.processes[p];
    t.(processes := t.processes[p := parent.(children := parent.children + [child])][child := Process(p, [], false)],
       counter := child)
  }

  /** One child has moved to the end of the reaper's list and knows its new parent; all else is as before. */
  ghost predicate MovedTo(t: Tree, r: Tree, reaper: nat, child: nat)
    requires reaper in t.processes && child in t.processes && reaper != child
  {
    && r.processes.Keys == t.processes.Keys && r.counter == t.counter && r.reaped == t.reaped
    && r.processes[child] == t.processes[child].(parent := reaper)
    && r.processes[reaper] == t.processes[reaper].(children := t.processes[reaper].children + [child])
    && forall q :: q in t.processes && q != child && q != reaper ==> r.processes[q] == t.processes[q]
  }

  function Exited(t: Tree, p: nat): Tree
    requires p in t.processes && INIT in t.processes
  {
    var orphans := t.processes[p].children;
    t.(processes := map q | q in t.processes ::
         if q == p then t.processes[q].(children := [], zombie := true)
         else if q == INIT then t.processes[q].(children := t.processes[q].children + orphans)
         else if q in orphans then t.processes[q].(parent := INIT)
         else t.processes[q])
  }

  /** A new process without children hangs last in the list of p; all else is as before. */
  ghost predicate HasForked(t: Tree, r: Tree, p: nat, child: nat)
    requires p in t.processes
  {
    && child == t.counter + 1 == r.counter && r.reaped == t.reaped
    && r.processes.Keys == t.processes.Keys + {child} && p != child
    && r.processes[child] == Process(p, [], false)
    && r.processes[p] == t.processes[p].(children := t.processes[p].children + [child])
    && forall q :: q in t.processes && q != p && q != child ==> r.processes[q] == t.processes[q]
  }

  /** p is a zombie without children, its children have moved to process 1; all else is as before. */
  ghost predicate HasExited(t: Tree, r: Tree, p: nat)
    requires p in t.processes && 1 in t.processes
  {
    var orphans := t.processes[p].children;
    && r.counter == t.counter && r.reaped == t.reaped && r.processes.Keys == t.processes.Keys
    && r.processes[p] == Process(t.processes[p].parent, [], true)
    && r.processes[1] == t.processes[1].(children := t.processes[1].children + orphans)
    && (forall q :: q in orphans && q in t.processes ==> r.processes[q] == t.processes[q].(parent := 1))
    && forall q :: q in t.processes && q != p && q != 1 && q !in orphans ==> r.processes[q] == t.processes[q]
  }

  /** q has left the list of p and is the last one reaped; all else is as before. */
  ghost predicate HasReaped(t: Tree, r: Tree, p: nat, q: nat)
    requires p in t.processes
  {
    && r.counter == t.counter && r.reaped == t.reaped + [q] && r.processes.Keys == t.processes.Keys
    && q in t.processes[p].children && q !in r.processes[p].children
    && (exists i :: 0 <= i < |t.processes[p].children| && t.processes[p].children[i] == q &&
          r.processes[p] ==
          t.processes[p].(children := t.processes[p].children[..i] + t.processes[p].children[i + 1..]))
    && forall a :: a in t.processes && a != p ==> r.processes[a] == t.processes[a]
  }

  lemma {:induction false} ForkMeans(t: Tree, p: nat)
    requires p in t.processes && t.counter + 1 !in t.processes
    ensures HasForked(t, Forked(t, p), p, t.counter + 1)
  {
    assert Forked(t, p).processes.Keys == t.processes.Keys + {t.counter + 1};
  }

  lemma {:induction false} ExitMeans(t: Tree, p: nat)
    requires Inv(t) && p in t.processes && p != INIT
    ensures INIT in t.processes && HasExited(t, Exited(t, p), p)
  {
    hide Inv;
    OrphansKnown(t, p);
    hide PidsOk;
    assert Exited(t, p).processes.Keys == t.processes.Keys;
  }

  lemma {:induction false} ReapMeans(t: Tree, p: nat, i: nat)
    requires Inv(t) && p in t.processes && i < |t.processes[p].children|
    ensures HasReaped(t, Reaped(t, p, i), p, t.processes[p].children[i])
  {
    hide Inv;
    ChildrenDistinct(t, p);
    var c := t.processes[p].children;
    assert Reaped(t, p, i).processes.Keys == t.processes.Keys;
    assert c[i] !in c[..i] + c[i + 1..];
    assert Without(c, i) == c[..i] + c[i + 1..];
  }

  lemma {:induction false} ChildrenDistinct(t: Tree, p: nat)
    requires Inv(t) && p in t.processes
    ensures NoDuplicates(t.processes[p].children)
  {
    assert Owned(t, p);
  }

  function Without(s: seq<nat>, i: nat): seq<nat>
    requires i < |s|
  {
    s[..i] + s[i + 1..]
  }

  function Reaped(t: Tree, p: nat, i: nat): Tree
    requires p in t.processes && i < |t.processes[p].children|
  {
    var q := t.processes[p].children[i];
    t.(processes := t.processes[p := t.processes[p].(children := Without(t.processes[p].children, i))],
       reaped := t.reaped + [q])
  }

  lemma {:induction false} ForkOwned(t: Tree, p: nat, a: nat)
    requires PidsOk(t) && ReapedOk(t) && p in t.processes && Alive(t, p) && a in Forked(t, p).processes
    requires a in t.processes ==> Owned(t, a)
    ensures Owned(Forked(t, p), a)
  {
    var r := Forked(t, p);
    assert t.counter + 1 !in t.processes;
    assert t.counter + 1 !in t.reaped;
    if a in t.processes {
      assert forall q :: q in r.processes[a].children ==>
             q in t.processes[a].children || (a == p && q == t.counter + 1);
    }
  }

  lemma {:induction false} ForkListed(t: Tree, p: nat, q: nat)
    requires PidsOk(t) && p in t.processes && q in Forked(t, p).processes
    requires q in t.processes ==> Listed(t, q)
    ensures Listed(Forked(t, p), q)
  {
    assert t.counter + 1 !in t.processes;
  }

  lemma {:induction false} ForkPids(t: Tree, p: nat)
    requires PidsOk(t) && ReapedOk(t) && p in t.processes
    ensures PidsOk(Forked(t, p)) && ReapedOk(Forked(t, p))
  {
    assert t.counter + 1 !in t.processes;
  }

  lemma {:induction false} InvFrom(t: Tree)
    requires PidsOk(t) && ReapedOk(t)
    requires (forall a :: a in t.processes ==> Owned(t, a))
    requires (forall q :: q in t.processes && q != INIT ==> Listed(t, q))
    ensures Inv(t)
  {
    hide PidsOk, ReapedOk, Owned, Listed;
  }

  lemma {:induction false} ForkKeepsInv(t: Tree, p: nat)
    requires Inv(t) && Alive(t, p)
    ensures Inv(Forked(t, p))
  {
    hide PidsOk, ReapedOk, Owned, Listed, Forked;
    var r := Forked(t, p);
    ForkPids(t, p);
    forall a | a in r.processes
      ensures Owned(r, a)
    {
      ForkOwned(t, p, a);
    }
    forall q | q in r.processes && q != INIT
      ensures Listed(r, q)
    {
      ForkListed(t, p, q);
    }
    InvFrom(r);
  }

  lemma {:induction false} ExitOwned(t: Tree, p: nat, a: nat)
    requires Alive(t, INIT) && p in t.processes && p != INIT && t.processes[p].parent != p && a in t.processes
    requires Owned(t, p) && Owned(t, a)
    ensures Owned(Exited(t, p), a)
  {
    var r := Exited(t, p);
    var orphans := t.processes[p].children;
    if a == INIT {
      var mine := t.processes[INIT].children;
      assert r.processes[INIT].children == mine + orphans;
      DisjointJoin(mine, orphans);
      hide NoDuplicates;
    }
  }

  lemma {:induction false} DisjointJoin(a: seq<nat>, b: seq<nat>)
    requires NoDuplicates(a) && NoDuplicates(b) && forall q :: q in a ==> q !in b
    ensures NoDuplicates(a + b)
  {
    forall i, j | 0 <= i < j < |a + b|
      ensures (a + b)[i] != (a + b)[j]
    {
      if i < |a| && j >= |a| {
        assert a[i] in a && b[j - |a|] in b;
      }
    }
  }

  lemma {:induction false} ExitListed(t: Tree, p: nat, q: nat)
    requires INIT in t.processes && p in t.processes && p != INIT && t.processes[p].parent != p && Owned(t, p)
    requires q in t.processes && q != INIT && Listed(t, q)
    ensures Listed(Exited(t, p), q)
  {
  }

  lemma {:induction false} ExitPids(t: Tree, p: nat)
    requires PidsOk(t) && ReapedOk(t) && p in t.processes && p != INIT && Owned(t, p)
    ensures PidsOk(Exited(t, p)) && ReapedOk(Exited(t, p))
  {
  }

  lemma {:induction false} ExitKeepsInv(t: Tree, p: nat)
    requires Inv(t) && Alive(t, p) && p != INIT
    ensures Inv(Exited(t, p))
  {
    assert Alive(t, INIT) && t.processes[p].parent != p;
    hide PidsOk, ReapedOk, Owned, Listed;
    var r := Exited(t, p);
    ExitPids(t, p);
    forall a | a in r.processes
      ensures Owned(r, a)
    {
      ExitOwned(t, p, a);
    }
    forall q | q in r.processes && q != INIT
      ensures Listed(r, q)
    {
      ExitListed(t, p, q);
    }
    InvFrom(r);
  }

  lemma {:induction false} WithoutMeans(s: seq<nat>, i: nat)
    requires NoDuplicates(s) && i < |s|
    ensures NoDuplicates(Without(s, i)) && forall q :: q in Without(s, i) <==> q in s && q != s[i]
  {
    forall q
      ensures q in Without(s, i) <==> q in s && q != s[i]
    {
      if q in s && q != s[i] {
        var j :| 0 <= j < |s| && s[j] == q;
        assert Without(s, i)[if j < i then j else j - 1] == q;
      }
    }
  }

  ghost predicate CanReap(t: Tree, p: nat, i: nat)
  {
    && Alive(t, p) && i < |t.processes[p].children|
    && var q := t.processes[p].children[i]; q in t.processes && t.processes[q].zombie
  }

  lemma {:induction false} WaitOwned(t: Tree, p: nat, i: nat, a: nat)
    requires CanReap(t, p, i) && a in t.processes && Owned(t, a) && Owned(t, p)
    ensures Owned(Reaped(t, p, i), a)
  {
    WithoutMeans(t.processes[p].children, i);
    hide Without, NoDuplicates;
  }

  lemma {:induction false} WaitListed(t: Tree, p: nat, i: nat, q: nat)
    requires CanReap(t, p, i) && q in t.processes && Listed(t, q) && Owned(t, p)
    ensures Listed(Reaped(t, p, i), q)
  {
    WithoutMeans(t.processes[p].children, i);
    hide Without, NoDuplicates;
  }

  lemma {:induction false} WaitPids(t: Tree, p: nat, i: nat)
    requires CanReap(t, p, i) && PidsOk(t) && ReapedOk(t) && Owned(t, p)
    ensures PidsOk(Reaped(t, p, i)) && ReapedOk(Reaped(t, p, i))
  {
    hide Without;
    var q := t.processes[p].children[i];
    assert q in t.processes[p].children;
    DisjointJoin(t.reaped, [q]);
  }

  lemma {:induction false} WaitKeepsInv(t: Tree, p: nat, i: nat)
    requires Inv(t) && CanReap(t, p, i)
    ensures Inv(Reaped(t, p, i))
  {
    hide PidsOk, ReapedOk, Owned, Listed, Without;
    var r := Reaped(t, p, i);
    WaitPids(t, p, i);
    forall a | a in r.processes
      ensures Owned(r, a)
    {
      WaitOwned(t, p, i, a);
    }
    forall q | q in r.processes && q != INIT
      ensures Listed(r, q)
    {
      WaitListed(t, p, i, q);
    }
    InvFrom(r);
  }

  // ------------------------------------------------------------ runs

  datatype Action = Fork(p: nat) | Exit(p: nat) | Wait(p: nat, i: nat)

  ghost predicate Enabled(t: Tree, a: Action)
  {
    match a
    case Fork(p) => Alive(t, p)
    case Exit(p) => Alive(t, p) && p != INIT && INIT in t.processes
    case Wait(p, i) => CanReap(t, p, i)
  }

  ghost function Next(t: Tree, a: Action): Tree
    requires Enabled(t, a)
  {
    match a
    case Fork(p) => Forked(t, p)
    case Exit(p) => Exited(t, p)
    case Wait(p, i) => Reaped(t, p, i)
  }

  function Boot(): Tree
  {
    Tree(map[INIT := Process(0, [], false)], INIT, [])
  }

  ghost predicate IsHistory(states: seq<Tree>, actions: seq<Action>)
  {
    && |states| == |actions| + 1 && states[0] == Boot()
    && forall i :: 0 <= i < |actions| ==> Enabled(states[i], actions[i]) && states[i + 1] == Next(states[i], actions[i])
  }

  /** The invariant holds throughout every run, and a pid that was reaped stays reaped. */
  lemma {:induction false} EveryHistory(states: seq<Tree>, actions: seq<Action>, n: nat)
    requires IsHistory(states, actions) && n < |states|
    ensures Inv(states[n])
    ensures n > 0 ==> states[n - 1].reaped <= states[n].reaped
  {
    if n > 0 {
      EveryHistory(states, actions, n - 1);
      var t := states[n - 1];
      assert Enabled(t, actions[n - 1]) && states[n - 1 + 1] == Next(t, actions[n - 1]);
      hide Inv, Forked, Exited;
      match actions[n - 1] {
        case Fork(p) => ForkKeepsInv(t, p);
        case Exit(p) => ExitKeepsInv(t, p);
        case Wait(p, i) => WaitKeepsInv(t, p, i);
      }
    }
  }

  // ------------------------------------------------------------ the table

  lemma {:induction false} PidUnused(t: Tree)
    requires Inv(t)
    ensures t.counter + 1 !in t.processes
  {
  }

  lemma {:induction false} ChildrenKnown(t: Tree, p: nat)
    requires Inv(t) && p in t.processes
    ensures forall q :: q in t.processes[p].children ==> q in t.processes && q !in t.reaped && q > 0
  {
    assert Owned(t, p);
  }

  lemma {:induction false} OrphansKnown(t: Tree, p: nat)
    requires Inv(t) && p in t.processes && p != INIT
    ensures PidsOk(t) && INIT in t.processes && INIT !in t.processes[p].children && p !in t.processes[p].children
    ensures forall q :: q in t.processes[p].children ==> q in t.processes && q !in t.reaped
  {
    assert Owned(t, p);
  }

  datatype WaitResult = Pid(pid: nat) | NoChild | Sleeps

  class ProcessTable {
    var tree: Tree

    constructor ()
      ensures tree == Boot() && Inv(tree)
    {
      tree := Boot();
    }

    method Fork(p: nat) returns (child: nat)
      requires Inv(tree) && Alive(tree, p)
      modifies this
      ensures Inv(tree) && tree == Forked(old(tree), p) && child !in old(tree).processes && Alive(tree, child)
      ensures HasForked(old(tree), tree, p, child)
    {
      hide Inv, HasForked;
      ForkKeepsInv(tree, p);
      PidUnused(tree);
      ForkMeans(tree, p);
      child := tree.counter + 1;
      var parent := tree.processes[p];
      tree := tree.(processes := tree.processes[child := Process(p, [], false)], counter := child);
      tree := tree.(processes := tree.processes[p := parent.(children := parent.children + [child])]);
      assert tree.processes == Forked(old(tree), p).processes;
      assert tree == Forked(old(tree), p);
    }

    /** The top of the parent chain. */
    method Reaper(p: nat) returns (r: nat)
      requires PidsOk(tree) && p in tree.processes
      ensures r == INIT
    {
      r := p;
      while tree.processes[r].parent != 0
        invariant r in tree.processes
        decreases r
      {
        r := tree.processes[r].parent;
      }
    }

    method Adopt(reaper: nat, child: nat)
      requires reaper in tree.processes && child in tree.processes && reaper != child
      modifies this
      ensures MovedTo(old(tree), tree, reaper, child)
    {
      tree := tree.(processes := tree.processes[child := tree.processes[child].(parent := reaper)]);
      var r := tree.processes[reaper];
      tree := tree.(processes := tree.processes[reaper := r.(children := r.children + [child])]);
    }

    /** Hands the children to init and becomes a zombie; init itself stops there for good. */
    method Exit(p: nat) returns (comesBack: bool)
      requires Inv(tree) && Alive(tree, p)
      modifies this
      ensures Inv(tree) && (comesBack <==> p != INIT)
      ensures tree == if p == INIT then old(tree) else Exited(old(tree), p)
      ensures p != 1 ==> 1 in old(tree).processes && HasExited(old(tree), tree, p)
    {
      hide Inv, PidsOk, Handing, HandedOver, MovedTo, HasExited;
      if p == INIT {
        return false;
      }
      ghost var t := tree;
      ExitKeepsInv(t, p);
      ExitMeans(t, p);
      OrphansKnown(t, p);
      HandNone(t);
      var reaper := Reaper(p);
      var orphans := tree.processes[p].children;
      var i := 0;
      while i < |orphans|
        invariant 0 <= i <= |orphans| && tree.counter == t.counter && tree.reaped == t.reaped
        invariant Handing(t, tree.processes, orphans[..i])
      {
        assert orphans[i] in orphans;
        HandingKeys(t, tree.processes, orphans[..i]);
        ghost var before := tree;
        Adopt(reaper, orphans[i]);
        HandOne(t, before, tree, orphans[..i], orphans[i]);
        assert orphans[..i + 1] == orphans[..i] + [orphans[i]];
        i := i + 1;
      }
      assert orphans[..i] == orphans;
      HandAll(t, tree, p);
      tree := tree.(processes := tree.processes[p := tree.processes[p].(children := [], zombie := true)]);
      return true;
    }

    /** Returns a zombie child, any (`pid` zero) or a given one; sleeps while there is none. */
    method WaitPid(p: nat, pid: nat) returns (r: WaitResult)
      requires Inv(tree) && Alive(tree, p)
      modifies this
      ensures Inv(tree)
      ensures r.NoChild? <==>
                (if pid == 0 then old(tree).processes[p].children == [] else pid !in old(tree).processes[p].children)
      ensures r.Pid? ==>
                exists i: nat :: CanReap(old(tree), p, i) &&
                  r.pid == old(tree).processes[p].children[i] && tree == Reaped(old(tree), p, i)
      ensures r.Pid? ==>
                && r.pid !in old(tree).reaped && r.pid in old(tree).processes
                && old(tree).processes[r.pid].zombie && (pid != 0 ==> r.pid == pid)
      ensures r.Pid? ==> HasReaped(old(tree), tree, p, r.pid)
      ensures !r.Pid? ==> tree == old(tree)
      ensures r.Sleeps? ==>
                forall q :: q in tree.processes[p].children && q in tree.processes && (pid == 0 || q == pid) ==>
                  !tree.processes[q].zombie
    {
      hide Inv, Reaped, HasReaped;
      var children := tree.processes[p].children;
      ChildrenKnown(tree, p);
      if pid != 0 {
        if pid !in children {
          return NoChild;
        }
      }
      if children == [] {
        return NoChild;
      }
      var i := 0;
      while i < |children|
        invariant 0 <= i <= |children|
        invariant forall j :: 0 <= j < i ==>
                  && children[j] in tree.processes
                  && (pid == 0 || children[j] == pid ==> !tree.processes[children[j]].zombie)
        invariant tree == old(tree)
      {
        var child := children[i];
        assert child in children;
        if tree.processes[child].zombie && (pid == 0 || child == pid) {
          WaitKeepsInv(tree, p, i);
          ReapMeans(tree, p, i);
          tree := Reaped(tree, p, i);
          return Pid(child);
        }
        i := i + 1;
      }
      return Sleeps;
    }
  }

  /** A process once the children in `done` have been handed to init. */
  function HandedOver(t: Tree, done: seq<nat>, q: nat): Process
    requires q in t.processes
  {
    if q == INIT then t.processes[q].(children := t.processes[q].children + done)
    else if q in done then t.processes[q].(parent := INIT)
    else t.processes[q]
  }

  ghost predicate Handing(t: Tree, processes: map<nat, Process>, done: seq<nat>)
  {
    processes.Keys == t.processes.Keys && forall q :: q in t.processes ==> processes[q] == HandedOver(t, done, q)
  }

  lemma {:induction false} HandingKeys(t: Tree, processes: map<nat, Process>, done: seq<nat>)
    requires Handing(t, processes, done)
    ensures forall q :: q in t.processes ==> q in processes
  {
    assert forall q :: q in t.processes ==> q in processes.Keys;
  }

  lemma {:induction false} HandNone(t: Tree)
    ensures Handing(t, t.processes, [])
  {
  }

  lemma {:induction false} HandAll(t: Tree, r: Tree, p: nat)
    requires p in t.processes && INIT in t.processes && p != INIT && p !in t.processes[p].children
    requires Handing(t, r.processes, t.processes[p].children) && r.counter == t.counter && r.reaped == t.reaped
    ensures p in r.processes
    ensures r.(processes := r.processes[p := r.processes[p].(children := [], zombie := true)]) == Exited(t, p)
  {
    var after := r.processes[p := r.processes[p].(children := [], zombie := true)];
    assert after.Keys == t.processes.Keys;
    assert after == Exited(t, p).processes;
  }

  /** Adoption by init moves one more child from the list of p to that of init. */
  lemma {:induction false} HandOne(t: Tree, before: Tree, after: Tree, done: seq<nat>, child: nat)
    requires Handing(t, before.processes, done) && INIT in t.processes && child in t.processes && child != INIT
    requires INIT in before.processes && child in before.processes && MovedTo(before, after, INIT, child)
    ensures Handing(t, after.processes, done + [child])
  {
    assert after.processes.Keys == t.processes.Keys;
    assert forall q :: q in t.processes ==> q in before.processes.Keys;
  }
}
