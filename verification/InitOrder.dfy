/**
 * The order in which init functions run: each object after its dependencies.  `Visit` is
 * the recursion of the loader with a bound on its depth, so that "the recursion never
 * ends" means that no bound is enough.
 */
module InitOrder {
  import opened Basics
  import opened LinkGraph

  datatype Outcome = Done(order: seq<nat>) | TooDeep

  /** Initialises v below the objects already `done`; an object counts as handled once it is done. */
  function Visit(g: Graph, v: nat, done: seq<nat>, depth: nat): Outcome
    decreases depth, 0
  {
    if depth == 0 then TooDeep
    else
      match VisitAll(g, Deps(g, v), done, depth - 1)
      case TooDeep => TooDeep
      case Done(d) => Done(d + [v])
  }

  function VisitAll(g: Graph, deps: seq<nat>, done: seq<nat>, depth: nat): Outcome
    decreases depth, 1 + |deps|
  {
    if |deps| == 0 then Done(done)
    else if deps[0] in done then VisitAll(g, deps[1..], done, depth)
    else
      match Visit(g, deps[0], done, depth)
      case TooDeep => TooDeep
      case Done(d) => VisitAll(g, deps[1..], d, depth)
  }

  /** Every object comes after everything it depends on. */
  ghost predicate Ordered(g: Graph, order: seq<nat>)
  {
    forall i :: 0 <= i < |order| ==> After(g, order, i)
  }

  ghost predicate After(g: Graph, order: seq<nat>, i: nat)
    requires i < |order|
  {
    forall w :: w in Deps(g, order[i]) ==> w in order[..i]
  }

  /** In an ordered list each path leads strictly towards the front. */
  lemma {:induction false} PathsLeadForward(g: Graph, order: seq<nat>, i: nat, v: nat, k: nat) returns (j: nat)
    requires Ordered(g, order) && i < |order| && Steps(g, order[i], v, k)
    ensures j <= i && order[j] == v && (k > 0 ==> j < i)
    decreases k
  {
    if k == 0 {
      j := i;
    } else {
      assert After(g, order, i);
      var w :| w in Deps(g, order[i]) && Steps(g, w, v, k - 1);
      var m :| 0 <= m < i && order[m] == w;
      j := PathsLeadForward(g, order, m, v, k - 1);
    }
  }

  /** So an ordered list holds no object of a cycle. */
  lemma {:induction false} OrderedHasNoCycle(g: Graph, order: seq<nat>, i: nat, k: nat)
    requires Ordered(g, order) && i < |order| && k > 0
    ensures !Steps(g, order[i], order[i], k)
    decreases i
  {
    if Steps(g, order[i], order[i], k) {
      var j := PathsLeadForward(g, order, i, order[i], k);
      OrderedHasNoCycle(g, order, j, k);
    }
  }

  /** v is reached from one of `deps`. */
  ghost predicate Below(g: Graph, deps: seq<nat>, v: nat)
  {
    exists w, k: nat :: w in deps && Steps(g, w, v, k)
  }

  ghost predicate Extends(g: Graph, deps: seq<nat>, done: seq<nat>, order: seq<nat>)
  {
    && done <= order && Ordered(g, order) && NoDuplicates(order)
    && (forall w :: w in deps ==> w in order)
    && (forall i :: |done| <= i < |order| ==> Below(g, deps, order[i]))
  }

  lemma {:induction false} VisitExtends(g: Graph, v: nat, done: seq<nat>, depth: nat)
    requires Ordered(g, done) && NoDuplicates(done) && v !in done && Visit(g, v, done, depth).Done?
    ensures Extends(g, [v], done, Visit(g, v, done, depth).order)
    decreases depth, 0
  {
    var d := VisitAll(g, Deps(g, v), done, depth - 1).order;
    VisitAllExtends(g, Deps(g, v), done, depth - 1);
    hide Visit, VisitAll;
    NotYetDone(g, v, done, d);
    AppendOrdered(g, v, d);
    var order := d + [v];
    forall i | |done| <= i < |order|
      ensures Below(g, [v], order[i])
    {
      if i == |d| {
        assert Steps(g, v, v, 0);
      } else {
        BelowDependency(g, v, d[i]);
      }
    }
  }

  lemma {:induction false} BelowDependency(g: Graph, v: nat, u: nat)
    requires Below(g, Deps(g, v), u)
    ensures Below(g, [v], u) && exists k: nat :: k > 0 && Steps(g, v, u, k)
  {
    var w, k: nat :| w in Deps(g, v) && Steps(g, w, u, k);
    OneStep(g, v, w);
    StepsJoin(g, v, w, u, 1, k);
    assert v in [v];
  }

  /** An object is not initialised while its dependencies are. */
  lemma {:induction false} NotYetDone(g: Graph, v: nat, done: seq<nat>, d: seq<nat>)
    requires v !in done && Extends(g, Deps(g, v), done, d)
    ensures v !in d
  {
    if v in d {
      var i :| 0 <= i < |d| && d[i] == v;
      assert i >= |done|;
      BelowDependency(g, v, d[i]);
      var k: nat :| k > 0 && Steps(g, v, v, k);
      OrderedHasNoCycle(g, d, i, k);
    }
  }

  lemma {:induction false} AppendOrdered(g: Graph, v: nat, d: seq<nat>)
    requires Ordered(g, d) && NoDuplicates(d) && v !in d && forall w :: w in Deps(g, v) ==> w in d
    ensures Ordered(g, d + [v]) && NoDuplicates(d + [v])
  {
    var order := d + [v];
    forall i | 0 <= i < |order|
      ensures After(g, order, i)
    {
      if i < |d| {
        assert After(g, d, i);
        assert order[..i] == d[..i];
      } else {
        assert order[..i] == d;
      }
    }
  }

  lemma {:induction false} VisitAllExtends(g: Graph, deps: seq<nat>, done: seq<nat>, depth: nat)
    requires Ordered(g, done) && NoDuplicates(done) && VisitAll(g, deps, done, depth).Done?
    ensures Extends(g, deps, done, VisitAll(g, deps, done, depth).order)
    decreases depth, 1 + |deps|
  {
    if |deps| > 0 {
      var d := if deps[0] in done then done else Visit(g, deps[0], done, depth).order;
      if deps[0] !in done { VisitExtends(g, deps[0], done, depth); }
      VisitAllExtends(g, deps[1..], d, depth);
      var order := VisitAll(g, deps[1..], d, depth).order;
      assert VisitAll(g, deps, done, depth).order == order;
      hide Visit, VisitAll;
      ExtendsMore(g, deps, done, d, order);
    }
  }

  lemma {:induction false} ExtendsMore(g: Graph, deps: seq<nat>, done: seq<nat>, d: seq<nat>, order: seq<nat>)
    requires |deps| > 0 && Extends(g, deps[1..], d, order)
    requires (deps[0] in done && d == done) || Extends(g, [deps[0]], done, d)
    ensures Extends(g, deps, done, order)
  {
    hide Ordered, Steps, NoDuplicates;
    forall i | |done| <= i < |order|
      ensures Below(g, deps, order[i])
    {
      if i < |d| {
        assert d[i] == order[i] && Below(g, [deps[0]], d[i]);
        var w, k: nat :| w in [deps[0]] && Steps(g, w, order[i], k);
        assert w in deps;
      } else {
        var w, k: nat :| w in deps[1..] && Steps(g, w, order[i], k);
        assert w in deps;
      }
    }
    forall w | w in deps
      ensures w in order
    {
      if w == deps[0] { assert w in d; } else { assert w in deps[1..]; }
    }
  }

  // ------------------------------------------------------------ when the recursion ends

  /** No object that `start` depends on, directly or not, depends on itself. */
  ghost predicate NoCycleBelow(g: Graph, start: nat)
  {
    forall u, j: nat, k: nat :: j > 0 && k > 0 && Steps(g, start, u, j) ==> !Steps(g, u, u, k)
  }

  /** The objects being initialised: distinct, below `start`, and each depends on v. */
  ghost predicate IsStack(g: Graph, start: nat, stack: seq<nat>, v: nat)
  {
    && NoDuplicates(stack)
    && forall i :: 0 <= i < |stack| ==> stack[i] < |g| && Leads(g, start, stack[i]) && Leads(g, stack[i], v)
  }

  ghost predicate Leads(g: Graph, u: nat, v: nat)
  {
    exists k: nat :: k > 0 && Steps(g, u, v, k)
  }

  lemma {:induction false} LeadsOn(g: Graph, u: nat, v: nat, w: nat)
    requires (u == v || Leads(g, u, v)) && w in Deps(g, v)
    ensures Leads(g, u, w)
  {
    OneStep(g, v, w);
    if u != v {
      var k: nat :| k > 0 && Steps(g, u, v, k);
      StepsJoin(g, u, v, w, k, 1);
    }
  }

  lemma {:induction false} NotOnStack(g: Graph, start: nat, stack: seq<nat>, v: nat)
    requires NoCycleBelow(g, start) && IsStack(g, start, stack, v)
    ensures v !in stack
  {
    hide Steps;
  }

  lemma {:induction false} VisitEnds(g: Graph, start: nat, stack: seq<nat>, v: nat, done: seq<nat>, depth: nat)
    requires WellFormed(g) && NoCycleBelow(g, start) && IsStack(g, start, stack, v) && Leads(g, start, v) && v < |g|
    requires depth >= |g| - |stack|
    ensures Visit(g, v, done, depth).Done?
    decreases |g| - |stack|, 0
  {
    hide Steps, NoCycleBelow, Leads;
    NotOnStack(g, start, stack, v);
    var deeper := stack + [v];
    DistinctBounded(deeper, |g|);
    forall w | w in Deps(g, v)
      ensures IsStack(g, start, deeper, w) && Leads(g, start, w) && w < |g|
    {
      DeeperStack(g, start, stack, v, w);
    }
    VisitAllEnds(g, start, deeper, Deps(g, v), done, depth - 1);
  }

  lemma {:induction false} DeeperStack(g: Graph, start: nat, stack: seq<nat>, v: nat, w: nat)
    requires WellFormed(g) && IsStack(g, start, stack, v)
    requires Leads(g, start, v) && v < |g| && v !in stack && w in Deps(g, v)
    ensures IsStack(g, start, stack + [v], w) && Leads(g, start, w) && w < |g|
  {
    hide Steps, Leads;
    var deeper := stack + [v];
    LeadsOn(g, start, v, w);
    forall i | 0 <= i < |deeper|
      ensures deeper[i] < |g| && Leads(g, start, deeper[i]) && Leads(g, deeper[i], w)
    {
      LeadsOn(g, deeper[i], v, w);
    }
  }

  lemma {:induction false} VisitAllEnds(g: Graph, start: nat, stack: seq<nat>, deps: seq<nat>, done: seq<nat>,
                                        depth: nat)
    requires WellFormed(g) && NoCycleBelow(g, start) && |stack| <= |g| && depth >= |g| - |stack|
    requires forall w :: w in deps ==> IsStack(g, start, stack, w) && Leads(g, start, w) && w < |g|
    ensures VisitAll(g, deps, done, depth).Done?
    decreases |g| - |stack|, 1 + |deps|
  {
    hide IsStack, NoCycleBelow, Leads;
    if |deps| > 0 {
      if deps[0] in done {
        VisitAllEnds(g, start, stack, deps[1..], done, depth);
      } else {
        VisitEnds(g, start, stack, deps[0], done, depth);
        VisitAllEnds(g, start, stack, deps[1..], Visit(g, deps[0], done, depth).order, depth);
      }
    }
  }

  /** The order of `call_init_functions`: what it initialises, and in which order. */
  lemma {:induction false} InitOrderExact(g: Graph, start: nat, depth: nat)
    requires VisitAll(g, Deps(g, start), [], depth).Done?
    ensures var order := VisitAll(g, Deps(g, start), [], depth).order;
            && NoDuplicates(order) && Ordered(g, order)
            && (forall v :: v in order <==> Leads(g, start, v))
  {
    VisitAllExtends(g, Deps(g, start), [], depth);
    var order := VisitAll(g, Deps(g, start), [], depth).order;
    hide *;
    forall v
      ensures v in order <==> Leads(g, start, v)
    {
      if v in order { InOrderIsBelow(g, start, order, v); }
      if Leads(g, start, v) { BelowIsInOrder(g, start, order, v); }
    }
    ExtendsMeans(g, start, order);
  }

  lemma {:induction false} ExtendsMeans(g: Graph, start: nat, order: seq<nat>)
    requires Extends(g, Deps(g, start), [], order)
    ensures NoDuplicates(order) && Ordered(g, order)
  {
  }

  lemma {:induction false} InOrderIsBelow(g: Graph, start: nat, order: seq<nat>, v: nat)
    requires Extends(g, Deps(g, start), [], order) && v in order
    ensures Leads(g, start, v)
  {
    hide Steps, Ordered;
    var i :| 0 <= i < |order| && order[i] == v;
    assert Below(g, Deps(g, start), order[i]);
    BelowDependency(g, start, v);
  }

  lemma {:induction false} FirstDependency(g: Graph, u: nat, v: nat, k: nat) returns (w: nat)
    requires k > 0 && Steps(g, u, v, k)
    ensures w in Deps(g, u) && Steps(g, w, v, k - 1)
  {
    w :| w in Deps(g, u) && Steps(g, w, v, k - 1);
  }

  lemma {:induction false} BelowIsInOrder(g: Graph, start: nat, order: seq<nat>, v: nat)
    requires Extends(g, Deps(g, start), [], order) && Leads(g, start, v)
    ensures v in order
  {
    hide Steps, Ordered, Below;
    var k: nat :| k > 0 && Steps(g, start, v, k);
    var w := FirstDependency(g, start, v, k);
    var i :| 0 <= i < |order| && order[i] == w;
    var j := PathsLeadForward(g, order, i, v, k - 1);
  }

  /**
   * The recursion ends if and only if no dependency depends on itself; then a depth of the
   * number of objects is enough.
   */
  lemma {:induction false} InitEndsIff(g: Graph, start: nat)
    requires WellFormed(g)
    ensures NoCycleBelow(g, start) ==> VisitAll(g, Deps(g, start), [], |g|).Done?
    ensures !NoCycleBelow(g, start) ==> forall depth: nat :: VisitAll(g, Deps(g, start), [], depth) == TooDeep
  {
    if NoCycleBelow(g, start) {
      forall w | w in Deps(g, start)
        ensures IsStack(g, start, [], w) && Leads(g, start, w) && w < |g|
      {
        LeadsOn(g, start, start, w);
      }
      VisitAllEnds(g, start, [], Deps(g, start), [], |g|);
    } else {
      forall depth: nat
        ensures VisitAll(g, Deps(g, start), [], depth) == TooDeep
      {
        if VisitAll(g, Deps(g, start), [], depth).Done? { DoneHasNoCycle(g, start, depth); }
      }
    }
  }

  lemma {:induction false} DoneHasNoCycle(g: Graph, start: nat, depth: nat)
    requires VisitAll(g, Deps(g, start), [], depth).Done?
    ensures NoCycleBelow(g, start)
  {
    InitOrderExact(g, start, depth);
    var order := VisitAll(g, Deps(g, start), [], depth).order;
    hide VisitAll, Steps, Ordered;
    forall u, j: nat, k: nat | j > 0 && k > 0 && Steps(g, start, u, j)
      ensures !Steps(g, u, u, k)
    {
      assert Leads(g, start, u);
      var i :| 0 <= i < |order| && order[i] == u;
      OrderedHasNoCycle(g, order, i, k);
    }
  }

  /** An object that depends on itself: initialising what depends on it never ends. */
  lemma {:induction false} SelfDependencyExample(plain: SharedObject)
    requires plain.dependencies == [1]
    ensures forall depth: nat :: VisitAll([plain, plain], Deps([plain, plain], 0), [], depth) == TooDeep
  {
    var g := [plain, plain];
    assert 1 in Deps(g, 0) && 1 in Deps(g, 1);
    OneStep(g, 0, 1);
    OneStep(g, 1, 1);
    InitEndsIff(g, 0);
  }
}
