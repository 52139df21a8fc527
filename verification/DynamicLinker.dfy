/**
 * The dynamic linker's walks over the loaded objects.  Both share one `handled` flag per
 * object, clear between calls.
 */
module DynamicLinker {
  import opened Basics
  import opened LinkGraph
  import opened BreadthFirst
  import opened InitOrder

  /** The flags of exactly the objects in `seen` are set. */
  ghost predicate FlagsAre(flags: seq<bool>, seen: set<nat>)
  {
    && (forall v :: v in seen ==> v < |flags|)
    && (forall v :: 0 <= v < |flags| ==> (flags[v] <==> v in seen))
  }

  ghost predicate AllClear(flags: seq<bool>)
  {
    FlagsAre(flags, {})
  }

  predicate Callable(f: nat)
  {
    f != 0 && f != WORD_RANGE - 1
  }

  /** The functions of a list that are really called. */
  function Calls(functions: seq<nat>): seq<nat>
  {
    if |functions| == 0 then []
    else Calls(functions[..|functions| - 1]) +
         if Callable(functions[|functions| - 1]) then [functions[|functions| - 1]] else []
  }

  /** What initialising one object calls: its init function, then its init array. */
  function InitCalls(so: SharedObject): seq<nat>
  {
    Calls([so.init]) + Calls(so.initArray)
  }

  function AllCalls(g: Graph, order: seq<nat>): seq<nat>
  {
    if |order| == 0 then []
    else
      var v := order[|order| - 1];
      AllCalls(g, order[..|order| - 1]) + if v < |g| then InitCalls(g[v]) else []
  }

  /** Called are, in order, the functions that are neither zero nor all ones. */
  lemma {:induction false} CallsMeans(a: seq<nat>, f: nat, b: seq<nat>)
    ensures Calls(a + [f] + b) == Calls(a) + (if f != 0 && f != 0xFFFF_FFFF then [f] else []) + Calls(b)
    ensures Calls([]) == []
    decreases |b|
  {
    var all := a + [f] + b;
    if |b| == 0 {
      assert all[..|all| - 1] == a;
    } else {
      var n := |b| - 1;
      assert all[..|all| - 1] == a + [f] + b[..n];
      CallsMeans(a, f, b[..n]);
    }
  }

  lemma {:induction false} NoCalls(g: Graph)
    ensures AllCalls(g, []) == [] && Calls([]) == []
  {
  }

  lemma {:induction false} OneMoreObject(g: Graph, order: seq<nat>, v: nat)
    ensures AllCalls(g, order + [v]) == AllCalls(g, order) + if v < |g| then InitCalls(g[v]) else []
  {
    var all := order + [v];
    assert all[..|all| - 1] == order;
  }

  lemma {:induction false} ObjectCalls(so: SharedObject)
    ensures InitCalls(so) == Calls([so.init] + so.initArray)
  {
    hide Calls;
    CallsMeans([], so.init, so.initArray);
    CallsMeans([], so.init, []);
    assert [] + [so.init] + so.initArray == [so.init] + so.initArray;
    assert [] + [so.init] + [] == [so.init];
  }

  /** One object after the other, each with its init function before its init array. */
  lemma {:induction false} AllCallsMeans(g: Graph, a: seq<nat>, v: nat, b: seq<nat>)
    requires v < |g|
    ensures AllCalls(g, a + [v] + b) == AllCalls(g, a) + Calls([g[v].init] + g[v].initArray) + AllCalls(g, b)
    ensures AllCalls(g, []) == []
    decreases |b|
  {
    hide *;
    NoCalls(g);
    if |b| == 0 {
      assert a + [v] + b == a + [v];
      OneMoreObject(g, a, v);
      ObjectCalls(g[v]);
    } else {
      var n := |b| - 1;
      AllCallsMeans(g, a, v, b[..n]);
      assert b == b[..n] + [b[n]] && a + [v] + b == (a + [v] + b[..n]) + [b[n]];
      OneMoreObject(g, a + [v] + b[..n], b[n]);
      OneMoreObject(g, b[..n], b[n]);
    }
  }

  class Linker {
    const objects: Graph
    var handled: seq<bool>
    var calls: seq<nat>

    ghost predicate Valid()
      reads this
    {
      WellFormed(objects) && |handled| == |objects|
    }

    constructor (objects: Graph)
      requires WellFormed(objects)
      ensures Valid() && AllClear(handled) && this.objects == objects && calls == []
    {
      this.objects := objects;
      handled := seq(|objects|, _ => false);
      calls := [];
    }

    method FindSymbol(name: string, v: nat) returns (address: nat)
      requires v < |objects|
      ensures address == Definition(objects, v, name)
      // the first symbol of that name that is defined, or is a function with a value, relative to the base
      ensures AddressIn(objects[v], name, address)
    {
      hide AddressIn;
      LookupMeans(objects[v], name, 0);
      var so := objects[v];
      var i := 0;
      while i < |so.symbols|
        invariant 0 <= i <= |so.symbols| && Lookup(so, name, 0) == Lookup(so, name, i)
      {
        var sym := so.symbols[i];
        if Exports(sym) && sym.name == name {
          return (so.base + sym.value) % WORD_RANGE;
        }
        i := i + 1;
      }
      return 0;
    }

    /** Queues the dependencies of an object whose flags are clear, and sets their flags. */
    method Enqueue(v: nat, queue: seq<nat>, ghost seen: set<nat>) returns (longer: seq<nat>)
      requires Valid() && v < |objects| && FlagsAre(handled, seen)
      modifies this`handled
      ensures Valid() && longer == queue + Unseen(Deps(objects, v), seen)
      ensures FlagsAre(handled, seen + Elements(Unseen(Deps(objects, v), seen)))
    {
      hide Unseen, Elements;
      var deps := objects[v].dependencies;
      longer := queue;
      ghost var now, added := seen, [];
      var i := 0;
      QueuedNone(deps, seen);
      while i < |deps|
        invariant 0 <= i <= |deps| && Valid() && FlagsAre(handled, now) && longer == queue + added
        invariant QueuedSoFar(deps, seen, i, added, now)
      {
        var dep := deps[i];
        DepsInRange(objects, v, dep);
        QueuedOne(deps, seen, i, added, now);
        if !handled[dep] {
          handled := handled[dep := true];
          longer := longer + [dep];
          added, now := added + [dep], now + {dep};
        }
        i := i + 1;
      }
      QueuedAll(deps, seen, added, now);
    }

    /**
     * Looks the name up breadth first.  `queue` is everything that was queued: the start
     * object first, then the dependencies of every object before the first definition, each
     * once.  The source's queue has one slot per loaded object.
     */
    method ResolveSymbol(name: string, start: nat) returns (symbol: nat, queue: seq<nat>)
      requires Valid() && start < |objects| && AllClear(handled)
      modifies this`handled
      ensures Valid() && AllClear(handled)
      ensures symbol == FirstDefined(objects, LevelOrder(objects, [start], {}), name)
      ensures Nearest(objects, start, name, symbol) && NearestAddress(objects, start, name, symbol)
      // no other than breadth first without any flags would come to first
      ensures forall n :: n > |objects| ==> symbol == FirstDefined(objects, Expanded(objects, [start], n), name)
      ensures |queue| > 0 && queue[0] == start && NoDuplicates(queue[1..]) && |queue| <= |objects| + 1
      ensures var order := LevelOrder(objects, [start], {});
              forall v :: v in queue[1..] <==> SomeDependsOn(objects, order[..Barren(objects, order, name)], v)
      // the queue is one slot too short exactly when every object is a dependency of an object
      // before the first definition
      ensures var order := LevelOrder(objects, [start], {});
              |queue| == |objects| + 1 <==>
              forall v :: 0 <= v < |objects| ==> SomeDependsOn(objects, order[..Barren(objects, order, name)], v)
    {
      hide Unseen, QueueOrder, LevelOrder, FirstDefined, Nearest, NearestAddress, Expanded, WellFormed, Walked;
      hide SomeDependsOn, Barren, FlagsAre, Queued, QueueOk, Elements, Definition, Deps, Left, AddressIn, NoDuplicates;
      QueueIsLevelOrder(objects, [start], {});
      BreadthFirstIsNearest(objects, start, name);
      NearestIsAddress(objects, start, name, FirstDefined(objects, LevelOrder(objects, [start], {}), name));
      forall n | n > |objects|
        ensures FirstDefined(objects, LevelOrder(objects, [start], {}), name)
             == FirstDefined(objects, Expanded(objects, [start], n), name)
      {
        FlagsOnlyEndTheWalk(objects, start, n, name);
      }
      ghost var seen, tail;
      symbol, queue, seen, tail := WorkOff(name, start);
      WalkEnds(objects, start, name, queue, tail, seen);
      QueuedIs(start, queue, seen);
      ClearFlags(queue, seen);
      DistinctBounded(queue[1..], |objects|);
      DistinctAll(queue[1..], |objects|);
    }

    /** The loop of `resolve_symbol`: `tail` objects were looked at, those in `seen` are flagged. */
    method WorkOff(name: string, start: nat)
      returns (symbol: nat, queue: seq<nat>, ghost seen: set<nat>, ghost tail: nat)
      requires Valid() && start < |objects| && AllClear(handled)
      modifies this`handled
      ensures Valid() && Queued(start, queue, seen) && tail <= |queue|
      ensures symbol == FirstDefined(objects, QueueOrder(objects, [start], {}), name)
      ensures Walked(objects, start, name, queue, tail, seen)
      ensures tail < |queue| ==> Definition(objects, queue[tail], name) != 0
    {
      hide Unseen, QueueOrder, LevelOrder, FirstDefined, Nearest, NearestAddress, Expanded, WellFormed, Walked;
      hide SomeDependsOn, Barren, FlagsAre, Queued, QueueOk, Elements, Definition, Deps, Left, AddressIn, NoDuplicates;
      queue, symbol := [start], 0;
      var next := 0;
      seen, tail := {}, 0;
      ghost var goal := FirstDefined(objects, QueueOrder(objects, [start], {}), name);
      QueueStarts(start);
      WalkStarts(objects, start, name);
      assert queue[0..] == [start];
      while next < |queue|
        invariant Valid() && 0 <= next <= |queue| && symbol == 0 && Queued(start, queue, seen)
        invariant FirstDefined(objects, QueueOrder(objects, queue[next..], seen), name) == goal
        invariant Walked(objects, start, name, queue, next, seen)
        decreases Left(|objects|, seen), |queue| - next
      {
        var v := queue[next];
        QueuedInRange(start, queue, seen, next);
        symbol := FindSymbol(name, v);
        TakeFront(objects, queue[next..], seen, name);
        if symbol != 0 {
          tail := next;
          return;
        }
        ghost var newer := Unseen(Deps(objects, v), seen);
        WalksOn(objects, start, name, queue, next, seen);
        LeftAfter(objects, v, seen);
        QueuedMore(start, queue, seen, v);
        var longer := Enqueue(v, queue, seen);
        assert queue[next..][1..] + newer == longer[next + 1..];
        QueuedNow(start, longer, seen + Elements(newer));
        queue := longer;
        seen := seen + Elements(newer);
        next := next + 1;
      }
      assert queue[next..] == [];
      NothingLeft(objects, seen, name);
      tail := next;
    }

    /** The queue holds the start and each flagged object once behind it. */
    ghost predicate Queued(start: nat, queue: seq<nat>, seen: set<nat>)
      reads this
    {
      FlagsAre(handled, seen) && QueueOk(start, queue, seen)
    }

    ghost predicate QueueOk(start: nat, queue: seq<nat>, seen: set<nat>)
    {
      && |queue| > 0 && queue[0] == start && seen == Elements(queue[1..]) && NoDuplicates(queue[1..])
      && forall i :: 0 <= i < |queue| ==> queue[i] < |objects|
    }

    lemma {:induction false} QueueStarts(start: nat)
      requires start < |objects| && AllClear(handled)
      ensures Queued(start, [start], {})
    {
      assert [start][1..] == [] && Elements([]) == {};
    }

    lemma {:induction false} QueuedInRange(start: nat, queue: seq<nat>, seen: set<nat>, i: nat)
      requires Queued(start, queue, seen) && i < |queue|
      ensures queue[i] < |objects| && FlagsAre(handled, seen)
    {
    }

    lemma {:induction false} QueuedIs(start: nat, queue: seq<nat>, seen: set<nat>)
      requires Queued(start, queue, seen)
      ensures FlagsAre(handled, seen) && |queue| > 0 && queue[0] == start
      ensures seen == Elements(queue[1..]) && NoDuplicates(queue[1..])
      ensures forall v :: v in seen <==> v in queue[1..]
      ensures forall i :: 0 <= i < |queue| ==> queue[i] < |objects|
      ensures forall i :: 0 <= i < |queue[1..]| ==> queue[1..][i] < |objects|
    {
    }

    lemma {:induction false} QueuedMore(start: nat, queue: seq<nat>, seen: set<nat>, v: nat)
      requires WellFormed(objects) && Queued(start, queue, seen) && v < |objects|
      ensures var newer := Unseen(Deps(objects, v), seen); QueueOk(start, queue + newer, seen + Elements(newer))
    {
      hide Unseen, WellFormed;
      var newer := Unseen(Deps(objects, v), seen);
      NewerInRange(objects, v, seen);
      QueueGrows(queue, newer, seen, |objects|);
    }

    lemma {:induction false} QueuedNow(start: nat, queue: seq<nat>, seen: set<nat>)
      requires FlagsAre(handled, seen) && QueueOk(start, queue, seen)
      ensures Queued(start, queue, seen)
    {
    }

    /** Clears the flags of everything queued. */
    method ClearFlags(queue: seq<nat>, ghost seen: set<nat>)
      requires Valid() && |queue| > 0 && FlagsAre(handled, seen) && seen == Elements(queue[1..])
      requires forall i :: 0 <= i < |queue| ==> queue[i] < |objects|
      modifies this`handled
      ensures Valid() && AllClear(handled)
    {
      var i := 0;
      while i < |queue|
        invariant 0 <= i <= |queue| && Valid()
        invariant forall v :: 0 <= v < |handled| ==> handled[v] ==> v in seen && v !in queue[..i]
      {
        handled := handled[queue[i] := false];
        i := i + 1;
      }
    }

    // ------------------------------------------------------------ initialisation

    method CallFunction(f: nat)
      modifies this`calls
      ensures calls == old(calls) + Calls([f])
      ensures calls == old(calls) + if f != 0 && f != 0xFFFF_FFFF then [f] else []
    {
      assert [f][..0] == [];
      if Callable(f) {
        calls := calls + [f];
      }
    }

    method CallFunctions(functions: seq<nat>)
      modifies this`calls
      ensures calls == old(calls) + Calls(functions)
    {
      var i := 0;
      while i < |functions|
        invariant 0 <= i <= |functions| && calls == old(calls) + Calls(functions[..i])
      {
        CallFunction(functions[i]);
        assert functions[..i + 1][..i] == functions[..i];
        i := i + 1;
      }
      assert functions[..i] == functions;
    }

    /** The objects of `done` are initialised: their flags are set and their functions were called. */
    ghost predicate Initialised(done: seq<nat>, before: seq<nat>)
      reads this
    {
      FlagsAre(handled, Elements(done)) && calls == before + AllCalls(objects, done)
    }

    /** `recursive_call_init_functions`; `depth` bounds the recursion that the order needs. */
    method InitialiseObject(v: nat, ghost done: seq<nat>, ghost before: seq<nat>, ghost depth: nat)
      requires Valid() && v < |objects| && Initialised(done, before) && Visit(objects, v, done, depth).Done?
      modifies this`handled, this`calls
      ensures Valid() && Initialised(Visit(objects, v, done, depth).order, before)
      decreases depth, 0
    {
      hide AllCalls, FlagsAre;
      ghost var d := VisitAll(objects, Deps(objects, v), done, depth - 1).order;
      InitialiseAll(v, done, before, depth - 1);
      CallFunction(objects[v].init);
      CallFunctions(objects[v].initArray);
      CallsGrow(objects, d, v);
      FlagSet(handled, d, v);
      handled := handled[v := true];
    }

    /** The loop over the dependencies of an object. */
    method InitialiseAll(v: nat, ghost done: seq<nat>, ghost before: seq<nat>, ghost depth: nat)
      requires Valid() && v < |objects| && Initialised(done, before)
      requires VisitAll(objects, Deps(objects, v), done, depth).Done?
      modifies this`handled, this`calls
      ensures Valid() && Initialised(VisitAll(objects, Deps(objects, v), done, depth).order, before)
      decreases depth, 1
    {
      hide Visit, AllCalls;
      var deps := objects[v].dependencies;
      ghost var now := done;
      var i := 0;
      assert deps[0..] == deps;
      while i < |deps|
        invariant 0 <= i <= |deps| && Valid() && Initialised(now, before)
        invariant VisitAll(objects, deps, done, depth) == VisitAll(objects, deps[i..], now, depth)
      {
        var dep := deps[i];
        DepsInRange(objects, v, dep);
        assert deps[i..][1..] == deps[i + 1..];
        if !handled[dep] {
          InitialiseObject(dep, now, before, depth);
          now := Visit(objects, dep, now, depth).order;
        }
        i := i + 1;
      }
    }

    /**
     * Initialises everything `start` depends on, each object once and after its own
     * dependencies, and leaves all flags clear.  Requires that no dependency of `start`
     * depends on itself; otherwise the recursion does not end.
     */
    method CallInitFunctions(start: nat) returns (ghost order: seq<nat>)
      requires Valid() && start < |objects| && AllClear(handled) && NoCycleBelow(objects, start)
      modifies this`handled, this`calls
      ensures Valid() && AllClear(handled)
      ensures NoDuplicates(order) && Ordered(objects, order) && forall v :: v in order <==> Leads(objects, start, v)
      ensures calls == old(calls) + Calls(objects[start].preinit) + AllCalls(objects, order)
    {
      hide NoCycleBelow, Ordered, Leads, VisitAll;
      InitEndsIff(objects, start);
      InitOrderExact(objects, start, |objects|);
      order := VisitAll(objects, Deps(objects, start), [], |objects|).order;
      CallFunctions(objects[start].preinit);
      assert AllCalls(objects, []) == [] && Elements([]) == {};
      InitialiseAll(start, [], calls, |objects|);
      ResetFlags();
    }

    /** Clears the flag of every loaded object. */
    method ResetFlags()
      requires Valid()
      modifies this`handled
      ensures Valid() && AllClear(handled)
    {
      var i := 0;
      while i < |objects|
        invariant 0 <= i <= |objects| && Valid() && forall v :: 0 <= v < i ==> !handled[v]
      {
        handled := handled[i := false];
        i := i + 1;
      }
    }
  }

  /**
   * Having checked the first `tail` objects of the queue: they do not define the name, and what
   * they depend on is queued.
   */
  ghost predicate Walked(g: Graph, start: nat, name: string, queue: seq<nat>, tail: nat, seen: set<nat>)
    requires WellFormed(g) && tail <= |queue|
  {
    && QueueOrder(g, [start], {}) == queue[..tail] + QueueOrder(g, queue[tail..], seen)
    && (forall u :: u in queue[..tail] ==> Definition(g, u, name) == 0)
    && (forall v :: v in seen <==> SomeDependsOn(g, queue[..tail], v))
  }

  lemma {:induction false} WalkStarts(g: Graph, start: nat, name: string)
    requires WellFormed(g)
    ensures Walked(g, start, name, [start], 0, {})
  {
    hide QueueOrder;
    assert [start][..0] == [] && [start][0..] == [start];
  }

  lemma {:induction false} WalksOn(g: Graph, start: nat, name: string, queue: seq<nat>, tail: nat, seen: set<nat>)
    requires WellFormed(g) && tail < |queue|
    requires Walked(g, start, name, queue, tail, seen) && Definition(g, queue[tail], name) == 0
    ensures var newer := Unseen(Deps(g, queue[tail]), seen);
            Walked(g, start, name, queue + newer, tail + 1, seen + Elements(newer))
  {
    hide QueueOrder, Unseen, Definition, SomeDependsOn;
    var u := queue[tail];
    var newer := Unseen(Deps(g, u), seen);
    QueueStep(g, queue[tail..], seen);
    assert (queue + newer)[..tail + 1] == queue[..tail] + [u];
    assert (queue + newer)[tail + 1..] == queue[tail..][1..] + newer;
    forall v
      ensures SomeDependsOn(g, queue[..tail] + [u], v) <==> SomeDependsOn(g, queue[..tail], v) || v in Deps(g, u)
    {
      OneMoreDepends(g, queue[..tail], u, v);
    }
  }

  lemma {:induction false} OneMoreDepends(g: Graph, list: seq<nat>, u: nat, v: nat)
    ensures SomeDependsOn(g, list + [u], v) <==> SomeDependsOn(g, list, v) || v in Deps(g, u)
  {
    assert u in list + [u];
  }

  lemma {:induction false} WalkEnds(g: Graph, start: nat, name: string, queue: seq<nat>, tail: nat, seen: set<nat>)
    requires WellFormed(g) && tail <= |queue| && Walked(g, start, name, queue, tail, seen)
    requires tail < |queue| ==> Definition(g, queue[tail], name) != 0
    ensures var order := LevelOrder(g, [start], {});
            forall v :: v in seen <==> SomeDependsOn(g, order[..Barren(g, order, name)], v)
  {
    hide QueueOrder, LevelOrder, Definition, Unseen, SomeDependsOn, Barren;
    QueueIsLevelOrder(g, [start], {});
    var order, rest := LevelOrder(g, [start], {}), QueueOrder(g, queue[tail..], seen);
    assert tail == |queue| ==> queue[tail..] == [];
    if tail < |queue| { QueueStep(g, queue[tail..], seen); } else { EmptyQueue(g, seen); }
    BarrenPrefix(g, queue[..tail], rest, name);
    assert order[..tail] == queue[..tail];
  }

  lemma {:induction false} EmptyQueue(g: Graph, seen: set<nat>)
    requires WellFormed(g)
    ensures QueueOrder(g, [], seen) == []
  {
  }

  /** Distinct objects are all the objects exactly when there are as many. */
  lemma {:induction false} DistinctAll(s: seq<nat>, n: nat)
    requires NoDuplicates(s) && forall i :: 0 <= i < |s| ==> s[i] < n
    ensures |s| == n <==> forall v :: 0 <= v < n ==> v in s
  {
    DistinctBounded(s, n);
    if forall v :: 0 <= v < n ==> v in s { CoveringIsLong(s, n); }
  }

  lemma {:induction false} CoveringIsLong(s: seq<nat>, n: nat)
    requires forall v :: 0 <= v < n ==> v in s
    ensures |s| >= n
  {
    if n > 0 {
      assert n - 1 in s;
      var i :| 0 <= i < |s| && s[i] == n - 1;
      var rest := s[..i] + s[i + 1..];
      forall v | 0 <= v < n - 1
        ensures v in rest
      {
        assert v in s;
        var j :| 0 <= j < |s| && s[j] == v;
        assert rest[if j < i then j else j - 1] == v;
      }
      CoveringIsLong(rest, n - 1);
    }
  }

  /** A single object that depends on itself needs two slots. */
  method OverrunExample() returns (slots: nat, used: nat)
    ensures slots == 1 && used == 2
  {
    var so := SharedObject(0, [], [], 0, [], [0]);
    var linker := new Linker([so]);
    var symbol, queue := linker.ResolveSymbol("f", 0);
    slots, used := |linker.objects|, |queue|;
    SelfQueued(so);
  }

  lemma {:induction false} SelfQueued(so: SharedObject)
    requires so.dependencies == [0] && so.symbols == []
    ensures WellFormed([so])
    ensures var order := LevelOrder([so], [0], {}); SomeDependsOn([so], order[..Barren([so], order, "f")], 0)
  {
    var g := [so];
    var next := NextLevel(g, [0], {});
    var order := LevelOrder(g, [0], {});
    if next != [] { NextInRange(g, [0], {}); LeftShrinks(|g|, {}, next); }
    assert order[0] == 0 && Definition(g, 0, "f") == 0;
    assert Barren(g, order, "f") >= 1;
    assert order[..Barren(g, order, "f")][0] == 0 && 0 in Deps(g, 0);
  }

  lemma {:induction false} CallsGrow(g: Graph, d: seq<nat>, v: nat)
    requires v < |g|
    ensures AllCalls(g, d + [v]) == AllCalls(g, d) + Calls([g[v].init]) + Calls(g[v].initArray)
  {
    var longer := d + [v];
    assert longer[..|longer| - 1] == d;
  }

  lemma {:induction false} FlagSet(flags: seq<bool>, d: seq<nat>, v: nat)
    requires FlagsAre(flags, Elements(d)) && v < |flags|
    ensures FlagsAre(flags[v := true], Elements(d + [v]))
  {
    assert Elements(d + [v]) == Elements(d) + {v};
  }

  lemma {:induction false} QueueGrows(queue: seq<nat>, newer: seq<nat>, seen: set<nat>, n: nat)
    requires |queue| > 0 && NoDuplicates(queue[1..]) && seen == Elements(queue[1..]) && NoDuplicates(newer)
    requires (forall i :: 0 <= i < |queue| ==> queue[i] < n) && (forall w :: w in newer ==> w < n && w !in seen)
    ensures var longer := queue + newer;
            && NoDuplicates(longer[1..]) && seen + Elements(newer) == Elements(longer[1..])
            && (forall i :: 0 <= i < |longer| ==> longer[i] < n)
  {
    var longer := queue + newer;
    assert longer[1..] == queue[1..] + newer;
    forall i, j | 0 <= i < j < |longer[1..]|
      ensures longer[1..][i] != longer[1..][j]
    {
      var m := |queue| - 1;
      if i < m && j >= m {
        assert longer[1..][i] == queue[1..][i] && longer[1..][i] in seen;
        assert longer[1..][j] == newer[j - m] && newer[j - m] in newer;
      }
    }
    forall i | 0 <= i < |longer|
      ensures longer[i] < n
    {
      assert i >= |queue| ==> newer[i - |queue|] in newer;
    }
  }

  /** The first i dependencies have been queued as `added`; what is seen is now `now`. */
  ghost predicate QueuedSoFar(deps: seq<nat>, seen: set<nat>, i: nat, added: seq<nat>, now: set<nat>)
  {
    i <= |deps| && now == seen + Elements(added) && Unseen(deps, seen) == added + Unseen(deps[i..], now)
  }

  lemma {:induction false} QueuedNone(deps: seq<nat>, seen: set<nat>)
    ensures QueuedSoFar(deps, seen, 0, [], seen)
  {
    assert deps[0..] == deps && seen + Elements([]) == seen;
  }

  lemma {:induction false} QueuedOne(deps: seq<nat>, seen: set<nat>, i: nat, added: seq<nat>, now: set<nat>)
    requires i < |deps| && QueuedSoFar(deps, seen, i, added, now)
    ensures deps[i] in now ==> QueuedSoFar(deps, seen, i + 1, added, now)
    ensures deps[i] !in now ==> QueuedSoFar(deps, seen, i + 1, added + [deps[i]], now + {deps[i]})
  {
    hide Unseen;
    UnseenOf(deps[i..], now);
    assert deps[i..][1..] == deps[i + 1..];
    if deps[i] !in now {
      assert now + {deps[i]} == seen + Elements(added + [deps[i]]);
    }
  }

  lemma {:induction false} QueuedAll(deps: seq<nat>, seen: set<nat>, added: seq<nat>, now: set<nat>)
    requires QueuedSoFar(deps, seen, |deps|, added, now)
    ensures added == Unseen(deps, seen) && now == seen + Elements(Unseen(deps, seen))
  {
    hide Unseen;
    UnseenOf(deps[|deps|..], now);
  }

  lemma {:induction false} UnseenOf(deps: seq<nat>, seen: set<nat>)
    ensures |deps| == 0 ==> Unseen(deps, seen) == []
    ensures |deps| > 0 && deps[0] in seen ==> Unseen(deps, seen) == Unseen(deps[1..], seen)
    ensures |deps| > 0 && deps[0] !in seen ==> Unseen(deps, seen) == [deps[0]] + Unseen(deps[1..], seen + {deps[0]})
  {
  }

  lemma {:induction false} NewerInRange(g: Graph, v: nat, seen: set<nat>)
    requires WellFormed(g) && v < |g|
    ensures forall w :: w in Unseen(Deps(g, v), seen) ==> w < |g| && w !in seen
  {
  }

  lemma {:induction false} LeftAfter(g: Graph, v: nat, seen: set<nat>)
    requires WellFormed(g) && v < |g|
    ensures var newer := Unseen(Deps(g, v), seen);
            if newer == [] then seen + Elements(newer) == seen else Left(|g|, seen + Elements(newer)) < Left(|g|, seen)
  {
    var newer := Unseen(Deps(g, v), seen);
    if newer != [] {
      NewerInRange(g, v, seen);
      assert newer[0] in newer;
      LeftShrinks(|g|, seen, newer);
    }
  }

  lemma {:induction false} TakeFront(g: Graph, pending: seq<nat>, seen: set<nat>, name: string)
    requires WellFormed(g) && |pending| > 0
    ensures var newer := Unseen(Deps(g, pending[0]), seen);
            FirstDefined(g, QueueOrder(g, pending, seen), name) ==
            if Definition(g, pending[0], name) != 0 then Definition(g, pending[0], name)
            else FirstDefined(g, QueueOrder(g, pending[1..] + newer, seen + Elements(newer)), name)
  {
    hide QueueOrder, Unseen, Definition;
    QueueStep(g, pending, seen);
    var newer := Unseen(Deps(g, pending[0]), seen);
    var rest := QueueOrder(g, pending[1..] + newer, seen + Elements(newer));
    assert ([pending[0]] + rest)[1..] == rest;
  }

  lemma {:induction false} NothingLeft(g: Graph, seen: set<nat>, name: string)
    requires WellFormed(g)
    ensures FirstDefined(g, QueueOrder(g, [], seen), name) == 0
  {
  }
}
