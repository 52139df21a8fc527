/**
 * The order in which `resolve_symbol` looks at objects.  The source works off a queue with
 * a flag on every object already queued; the reference goes level by level, and distances
 * say which objects a level holds.
 */
module BreadthFirst {
  import opened Basics
  import opened LinkGraph

  /** The dependencies not seen before, each once, in order. */
  function Unseen(deps: seq<nat>, seen: set<nat>): (r: seq<nat>)
    ensures forall v :: v in r <==> v in deps && v !in seen
    ensures NoDuplicates(r)
  {
    if |deps| == 0 then []
    else if deps[0] in seen then Unseen(deps[1..], seen)
    else [deps[0]] + Unseen(deps[1..], seen + {deps[0]})
  }

  function Elements(s: seq<nat>): set<nat> { set v | v in s }

  /** The newly seen dependencies of a whole level. */
  function NextLevel(g: Graph, level: seq<nat>, seen: set<nat>): (r: seq<nat>)
    ensures forall v :: v in r ==> v !in seen && exists u :: u in level && v in Deps(g, u)
    ensures forall u, v :: u in level && v in Deps(g, u) ==> v in seen || v in r
  {
    if |level| == 0 then []
    else
      var first := Unseen(Deps(g, level[0]), seen);
      first + NextLevel(g, level[1..], seen + Elements(first))
  }

  /** How many objects have not been seen. */
  function Left(n: nat, seen: set<nat>): nat
  {
    if n == 0 then 0 else Left(n - 1, seen) + if n - 1 in seen then 0 else 1
  }

  lemma {:induction false} LeftShrinks(n: nat, seen: set<nat>, more: seq<nat>)
    ensures Left(n, seen + Elements(more)) <= Left(n, seen)
    ensures |more| > 0 && more[0] < n && more[0] !in seen ==> Left(n, seen + Elements(more)) < Left(n, seen)
  {
    if n > 0 { LeftShrinks(n - 1, seen, more); }
  }

  lemma {:induction false} DepsInRange(g: Graph, u: nat, v: nat)
    requires WellFormed(g) && v in Deps(g, u)
    ensures v < |g|
  {
  }

  /** The order of the queue: take the front object, queue its unseen dependencies. */
  function QueueOrder(g: Graph, pending: seq<nat>, seen: set<nat>): seq<nat>
    requires WellFormed(g)
    decreases Left(|g|, seen), |pending|
  {
    if |pending| == 0 then []
    else
      var newer := Unseen(Deps(g, pending[0]), seen);
      if newer == [] then [pending[0]] + QueueOrder(g, pending[1..], seen)
      else
        DepsInRange(g, pending[0], newer[0]);
        LeftShrinks(|g|, seen, newer);
        [pending[0]] + QueueOrder(g, pending[1..] + newer, seen + Elements(newer))
  }

  /** The reference: level after level. */
  function LevelOrder(g: Graph, level: seq<nat>, seen: set<nat>): seq<nat>
    requires WellFormed(g)
    decreases Left(|g|, seen)
  {
    var next := NextLevel(g, level, seen);
    if next == [] then level
    else
      NextInRange(g, level, seen);
      LeftShrinks(|g|, seen, next);
      level + LevelOrder(g, next, seen + Elements(next))
  }

  lemma {:induction false} NextInRange(g: Graph, level: seq<nat>, seen: set<nat>)
    requires WellFormed(g)
    ensures forall v :: v in NextLevel(g, level, seen) ==> v < |g| && v !in seen
  {
    forall v | v in NextLevel(g, level, seen)
      ensures v < |g|
    {
      var u :| u in level && v in Deps(g, u);
      DepsInRange(g, u, v);
    }
  }

  lemma {:induction false} QueueStep(g: Graph, pending: seq<nat>, seen: set<nat>)
    requires WellFormed(g) && |pending| > 0
    ensures var newer := Unseen(Deps(g, pending[0]), seen);
            QueueOrder(g, pending, seen) == [pending[0]] + QueueOrder(g, pending[1..] + newer, seen + Elements(newer))
  {
    var newer := Unseen(Deps(g, pending[0]), seen);
    if newer == [] {
      assert pending[1..] + newer == pending[1..];
      assert seen + Elements(newer) == seen;
    }
  }

  lemma {:induction false} WorkOffOne(g: Graph, level: seq<nat>, behind: seq<nat>, seen: set<nat>)
    requires WellFormed(g) && |level| > 0
    ensures var first := Unseen(Deps(g, level[0]), seen);
            QueueOrder(g, level + behind, seen) ==
            [level[0]] + QueueOrder(g, level[1..] + (behind + first), seen + Elements(first))
  {
    hide QueueOrder;
    QueueStep(g, level + behind, seen);
    var first := Unseen(Deps(g, level[0]), seen);
    assert (level + behind)[1..] + first == level[1..] + (behind + first);
  }

  lemma {:induction false} NextLevelStep(g: Graph, level: seq<nat>, seen: set<nat>)
    requires |level| > 0
    ensures var first := Unseen(Deps(g, level[0]), seen);
            var rest := NextLevel(g, level[1..], seen + Elements(first));
            && NextLevel(g, level, seen) == first + rest
            && seen + Elements(first) + Elements(rest) == seen + Elements(first + rest)
  {
  }

  /** Working off a level queues exactly the next level behind what was already waiting. */
  lemma {:induction false} QueueWorksOff(g: Graph, level: seq<nat>, behind: seq<nat>, seen: set<nat>)
    requires WellFormed(g)
    ensures QueueOrder(g, level + behind, seen) ==
            level + QueueOrder(g, behind + NextLevel(g, level, seen), seen + Elements(NextLevel(g, level, seen)))
    decreases |level|
  {
    if |level| == 0 {
      var next := NextLevel(g, level, seen);
      assert level + behind == behind && behind + next == behind && seen + Elements(next) == seen;
    } else {
      hide QueueOrder, NextLevel, Unseen, Elements, WellFormed;
      var first := Unseen(Deps(g, level[0]), seen);
      var after := seen + Elements(first);
      var rest := NextLevel(g, level[1..], after);
      WorkOffOne(g, level, behind, seen);
      NextLevelStep(g, level, seen);
      QueueWorksOff(g, level[1..], behind + first, after);
      Regroup(behind, first, rest);
      var tail := QueueOrder(g, behind + (first + rest), after + Elements(rest));
      assert QueueOrder(g, level + behind, seen) == [level[0]] + (level[1..] + tail);
      Regroup([level[0]], level[1..], tail);
      assert [level[0]] + level[1..] == level;
    }
  }

  /** The queue visits objects level by level. */
  lemma {:induction false} QueueIsLevelOrder(g: Graph, level: seq<nat>, seen: set<nat>)
    requires WellFormed(g)
    ensures QueueOrder(g, level, seen) == LevelOrder(g, level, seen)
    decreases Left(|g|, seen)
  {
    var next := NextLevel(g, level, seen);
    QueueWorksOff(g, level, [], seen);
    assert level + [] == level && [] + next == next;
    if next == [] {
      assert QueueOrder(g, [], seen + Elements(next)) == [];
    } else {
      NextInRange(g, level, seen);
      LeftShrinks(|g|, seen, next);
      QueueIsLevelOrder(g, next, seen + Elements(next));
    }
  }

  // ------------------------------------------------------------ symbols

  predicate Exports(sym: Symbol)
  {
    sym.defined || (sym.isFunction && sym.value != 0)
  }

  /** The address of the first exported symbol of that name, zero when there is none. */
  function Lookup(so: SharedObject, name: string, i: nat): (r: nat)
    requires i <= |so.symbols|
    decreases |so.symbols| - i
  {
    if i == |so.symbols| then 0
    else if Exports(so.symbols[i]) && so.symbols[i].name == name then (so.base + so.symbols[i].value) % WORD_RANGE
    else Lookup(so, name, i + 1)
  }

  function Definition(g: Graph, v: nat, name: string): nat
  {
    if v < |g| then Lookup(g[v], name, 0) else 0
  }

  /** Symbol i has that name and is defined, or is a function with a value. */
  predicate Defines(so: SharedObject, i: nat, name: string)
  {
    && i < |so.symbols| && so.symbols[i].name == name
    && (so.symbols[i].defined || (so.symbols[i].isFunction && so.symbols[i].value != 0))
  }

  /** `address` is that of the first such symbol, or zero if there is none. */
  ghost predicate AddressIn(so: SharedObject, name: string, address: nat)
  {
    && ((forall i :: 0 <= i < |so.symbols| ==> !Defines(so, i, name)) ==> address == 0)
    && (forall i :: 0 <= i < |so.symbols| && Defines(so, i, name) && (forall j :: 0 <= j < i ==> !Defines(so, j, name))
          ==> address == (so.base + so.symbols[i].value) % 0x1_0000_0000)
  }

  lemma {:induction false} LookupMeans(so: SharedObject, name: string, i: nat)
    requires i <= |so.symbols| && forall j :: 0 <= j < i ==> !Defines(so, j, name)
    ensures AddressIn(so, name, Lookup(so, name, i))
    decreases |so.symbols| - i
  {
    if i < |so.symbols| && !Defines(so, i, name) { LookupMeans(so, name, i + 1); }
  }

  /** The definition in the first object of the list that has one. */
  function FirstDefined(g: Graph, order: seq<nat>, name: string): nat
  {
    if |order| == 0 then 0
    else if Definition(g, order[0], name) != 0 then Definition(g, order[0], name)
    else FirstDefined(g, order[1..], name)
  }

  /** How many objects at the front of the list do not define the name. */
  function Barren(g: Graph, order: seq<nat>, name: string): (n: nat)
    ensures n <= |order|
  {
    if |order| == 0 || Definition(g, order[0], name) != 0 then 0 else 1 + Barren(g, order[1..], name)
  }

  lemma {:induction false} BarrenPrefix(g: Graph, a: seq<nat>, b: seq<nat>, name: string)
    requires forall u :: u in a ==> Definition(g, u, name) == 0
    requires |b| > 0 ==> Definition(g, b[0], name) != 0
    ensures Barren(g, a + b, name) == |a|
  {
    if |a| == 0 { assert a + b == b; } else {
      assert (a + b)[1..] == a[1..] + b;
      BarrenPrefix(g, a[1..], b, name);
    }
  }

  /** Some object of the list has v among its dependencies. */
  ghost predicate SomeDependsOn(g: Graph, list: seq<nat>, v: nat)
  {
    exists u :: u in list && v in Deps(g, u)
  }

  lemma {:induction false} FirstDefinedJoin(g: Graph, a: seq<nat>, b: seq<nat>, name: string)
    ensures FirstDefined(g, a + b, name) ==
            if FirstDefined(g, a, name) != 0 then FirstDefined(g, a, name) else FirstDefined(g, b, name)
  {
    if |a| == 0 { assert a + b == b; } else {
      assert (a + b)[1..] == a[1..] + b;
      FirstDefinedJoin(g, a[1..], b, name);
    }
  }

  lemma {:induction false} FirstDefinedIn(g: Graph, order: seq<nat>, name: string)
    ensures FirstDefined(g, order, name) == 0 <==> forall v :: v in order ==> Definition(g, v, name) == 0
    ensures FirstDefined(g, order, name) != 0 ==>
              exists v :: v in order && Definition(g, v, name) == FirstDefined(g, order, name)
  {
    if |order| > 0 { FirstDefinedIn(g, order[1..], name); }
  }

  // ------------------------------------------------------------ distances

  /** The k-th level from `start`, with the levels before it in `earlier`. */
  ghost predicate IsLevel(g: Graph, start: nat, level: seq<nat>, seen: set<nat>, earlier: set<nat>, k: nat)
  {
    && (forall v :: v in level ==> Steps(g, start, v, k))
    && (forall u, v :: u in earlier && v in Deps(g, u) ==> v in seen)
    && (forall v :: v in seen || v == start ==> v in earlier || v in level)
    && (forall v, j: nat :: j < k && Steps(g, start, v, j) ==> v in earlier)
  }

  lemma {:induction false} LevelBefore(g: Graph, start: nat, level: seq<nat>, seen: set<nat>, earlier: set<nat>, k: nat,
                                       v: nat)
    requires IsLevel(g, start, level, seen, earlier, k) && Steps(g, start, v, k)
    ensures v in earlier || v in level
  {
    if k > 0 { var w := StepsLast(g, start, v, k); }
  }

  lemma {:induction false} NextDistance(g: Graph, start: nat, level: seq<nat>, seen: set<nat>, k: nat, v: nat)
    requires (forall u :: u in level ==> Steps(g, start, u, k)) && v in NextLevel(g, level, seen)
    ensures Steps(g, start, v, k + 1)
  {
    hide NextLevel, Steps;
    var u :| u in level && v in Deps(g, u);
    OneStep(g, u, v);
    StepsJoin(g, start, u, v, k, 1);
  }

  lemma {:induction false} LevelFollows(g: Graph, start: nat, level: seq<nat>, seen: set<nat>, earlier: set<nat>,
                                        k: nat)
    requires IsLevel(g, start, level, seen, earlier, k)
    ensures var next := NextLevel(g, level, seen);
            IsLevel(g, start, next, seen + Elements(next), earlier + Elements(level), k + 1)
  {
    hide NextLevel, Steps;
    var next := NextLevel(g, level, seen);
    forall v | v in next
      ensures Steps(g, start, v, k + 1)
    {
      NextDistance(g, start, level, seen, k, v);
    }
    forall v, j: nat | j < k + 1 && Steps(g, start, v, j)
      ensures v in earlier + Elements(level)
    {
      if j == k { LevelBefore(g, start, level, seen, earlier, k, v); }
    }
  }

  /** When a level has no successors everything reachable has been seen. */
  lemma {:induction false} LastLevel(g: Graph, start: nat, level: seq<nat>, seen: set<nat>, earlier: set<nat>, k: nat,
                                     v: nat, j: nat)
    requires IsLevel(g, start, level, seen, earlier, k) && NextLevel(g, level, seen) == [] && Steps(g, start, v, j)
    ensures v in earlier || v in level
    decreases j
  {
    if j > 0 {
      var w := StepsLast(g, start, v, j);
      LastLevel(g, start, level, seen, earlier, k, w, j - 1);
    }
  }

  /** r is the definition of an object at the least distance at which there is one, zero when there is none. */
  ghost predicate Nearest(g: Graph, start: nat, name: string, r: nat)
  {
    && (r == 0 ==> forall v :: Reachable(g, start, v) ==> Definition(g, v, name) == 0)
    && (r != 0 ==> exists v, d: nat :: NearestAt(g, start, name, r, v, d))
  }

  ghost predicate NearestAt(g: Graph, start: nat, name: string, r: nat, v: nat, d: nat)
  {
    && Steps(g, start, v, d) && Definition(g, v, name) == r
    && forall u, j: nat :: j < d && Steps(g, start, u, j) ==> Definition(g, u, name) == 0
  }

  lemma {:induction false} LevelsFindNearest(g: Graph, start: nat, level: seq<nat>, seen: set<nat>, earlier: set<nat>,
                                             k: nat, name: string)
    requires WellFormed(g) && IsLevel(g, start, level, seen, earlier, k)
    requires forall v :: v in earlier ==> Definition(g, v, name) == 0
    ensures Nearest(g, start, name, FirstDefined(g, LevelOrder(g, level, seen), name))
    decreases Left(|g|, seen)
  {
    hide Definition, Steps;
    var next := NextLevel(g, level, seen);
    FirstDefinedIn(g, level, name);
    if FirstDefined(g, level, name) != 0 {
      FoundInLevel(g, start, level, seen, earlier, k, name);
    } else if next == [] {
      forall v | Reachable(g, start, v)
        ensures Definition(g, v, name) == 0
      {
        var j: nat :| Steps(g, start, v, j);
        LastLevel(g, start, level, seen, earlier, k, v, j);
      }
    } else {
      NextInRange(g, level, seen);
      LeftShrinks(|g|, seen, next);
      LevelFollows(g, start, level, seen, earlier, k);
      LevelsFindNearest(g, start, next, seen + Elements(next), earlier + Elements(level), k + 1, name);
      FirstDefinedJoin(g, level, LevelOrder(g, next, seen + Elements(next)), name);
    }
  }

  lemma {:induction false} FoundInLevel(g: Graph, start: nat, level: seq<nat>, seen: set<nat>, earlier: set<nat>,
                                        k: nat, name: string)
    requires WellFormed(g) && IsLevel(g, start, level, seen, earlier, k) && FirstDefined(g, level, name) != 0
    requires forall v :: v in earlier ==> Definition(g, v, name) == 0
    ensures Nearest(g, start, name, FirstDefined(g, LevelOrder(g, level, seen), name))
  {
    hide Definition, Steps;
    var next := NextLevel(g, level, seen);
    var r := FirstDefined(g, level, name);
    if next != [] {
      NextInRange(g, level, seen);
      LeftShrinks(|g|, seen, next);
      FirstDefinedJoin(g, level, LevelOrder(g, next, seen + Elements(next)), name);
    }
    FirstDefinedIn(g, level, name);
    var v :| v in level && Definition(g, v, name) == r;
    assert NearestAt(g, start, name, r, v, k);
  }

  /**
   * `address` is what the symbol table of an object at the least distance gives where one gives
   * anything, and zero when none of the objects that can be reached does.
   */
  ghost predicate NearestAddress(g: Graph, start: nat, name: string, address: nat)
  {
    && (address == 0 ==> forall v :: Reachable(g, start, v) ==> GivesAddress(g, v, name, 0))
    && (address != 0 ==> exists v, d: nat :: NearestGives(g, start, name, address, v, d))
  }

  ghost predicate NearestGives(g: Graph, start: nat, name: string, address: nat, v: nat, d: nat)
  {
    && Steps(g, start, v, d) && GivesAddress(g, v, name, address)
    && forall u, j: nat :: j < d && Steps(g, start, u, j) ==> GivesAddress(g, u, name, 0)
  }

  ghost predicate GivesAddress(g: Graph, v: nat, name: string, address: nat)
  {
    v < |g| && AddressIn(g[v], name, address)
  }

  lemma {:induction false} DefinitionMeans(g: Graph, start: nat, v: nat, d: nat, name: string)
    requires WellFormed(g) && start < |g| && Steps(g, start, v, d)
    ensures GivesAddress(g, v, name, Definition(g, v, name))
  {
    hide WellFormed, Steps;
    StepsInRange(g, start, v, d);
    LookupMeans(g[v], name, 0);
  }

  lemma {:induction false} NearestIsAddress(g: Graph, start: nat, name: string, r: nat)
    requires WellFormed(g) && start < |g| && Nearest(g, start, name, r)
    ensures NearestAddress(g, start, name, r)
  {
    hide Definition, Steps, WellFormed, GivesAddress;
    if r == 0 {
      forall v | Reachable(g, start, v)
        ensures GivesAddress(g, v, name, 0)
      {
        var d: nat :| Steps(g, start, v, d);
        DefinitionMeans(g, start, v, d, name);
      }
    } else {
      var v, d: nat :| NearestAt(g, start, name, r, v, d);
      DefinitionMeans(g, start, v, d, name);
      forall u, j: nat | j < d && Steps(g, start, u, j)
        ensures GivesAddress(g, u, name, 0)
      {
        DefinitionMeans(g, start, u, j, name);
      }
      assert NearestGives(g, start, name, r, v, d);
    }
  }

  // ------------------------------------------------------------ without flags

  /** The dependencies of all objects of a level, one list after the other. */
  function AllDeps(g: Graph, level: seq<nat>): seq<nat>
  {
    if |level| == 0 then [] else Deps(g, level[0]) + AllDeps(g, level[1..])
  }

  /** Breadth first without remembering anything: n levels of dependencies. */
  function Expanded(g: Graph, level: seq<nat>, n: nat): seq<nat>
    decreases n
  {
    if n == 0 then [] else level + Expanded(g, AllDeps(g, level), n - 1)
  }

  lemma {:induction false} UnseenJoin(a: seq<nat>, b: seq<nat>, seen: set<nat>)
    ensures Unseen(a + b, seen) == Unseen(a, seen) + Unseen(b, seen + Elements(Unseen(a, seen)))
    decreases |a|
  {
    if |a| == 0 {
      assert a + b == b && seen + Elements([]) == seen;
    } else {
      assert (a + b)[1..] == a[1..] + b;
      if a[0] in seen {
        UnseenJoin(a[1..], b, seen);
      } else {
        var rest := Unseen(a[1..], seen + {a[0]});
        UnseenJoin(a[1..], b, seen + {a[0]});
        assert seen + {a[0]} + Elements(rest) == seen + Elements([a[0]] + rest);
      }
    }
  }

  lemma {:induction false} UnseenNone(deps: seq<nat>, seen: set<nat>)
    requires forall v :: v in deps ==> v in seen
    ensures Unseen(deps, seen) == []
  {
    if |deps| > 0 { UnseenNone(deps[1..], seen); }
  }

  /** Working through a level adds the unseen ones of all its dependencies. */
  lemma {:induction false} NextLevelIsUnseen(g: Graph, level: seq<nat>, seen: set<nat>)
    ensures NextLevel(g, level, seen) == Unseen(AllDeps(g, level), seen)
    decreases |level|
  {
    if |level| > 0 {
      var first := Unseen(Deps(g, level[0]), seen);
      NextLevelIsUnseen(g, level[1..], seen + Elements(first));
      UnseenJoin(Deps(g, level[0]), AllDeps(g, level[1..]), seen);
    }
  }

  /** Objects whose dependencies have been seen may be left out of a level. */
  lemma {:induction false} RepeatsAddNothing(g: Graph, level: seq<nat>, known: set<nat>, seen: set<nat>)
    requires forall u, v :: u in known && v in Deps(g, u) ==> v in seen
    ensures Unseen(AllDeps(g, Unseen(level, known)), seen) == Unseen(AllDeps(g, level), seen)
    decreases |level|
  {
    hide Deps;
    if |level| > 0 {
      var u := level[0];
      var first := Unseen(Deps(g, u), seen);
      UnseenJoin(Deps(g, u), AllDeps(g, level[1..]), seen);
      if u in known {
        UnseenNone(Deps(g, u), seen);
        assert seen + Elements(first) == seen;
        RepeatsAddNothing(g, level[1..], known, seen);
      } else {
        var rest := Unseen(level[1..], known + {u});
        RepeatsAddNothing(g, level[1..], known + {u}, seen + Elements(first));
        assert ([u] + rest)[1..] == rest;
        UnseenJoin(Deps(g, u), AllDeps(g, rest), seen);
      }
    }
  }

  /** Leaving out repeats, and objects that do not define the name, finds the same definition. */
  lemma {:induction false} RepeatsFindNothing(g: Graph, level: seq<nat>, known: set<nat>, name: string)
    requires forall v :: v in known ==> Definition(g, v, name) == 0
    ensures FirstDefined(g, Unseen(level, known), name) == FirstDefined(g, level, name)
    decreases |level|
  {
    hide Definition;
    if |level| > 0 {
      var u := level[0];
      if u in known {
        RepeatsFindNothing(g, level[1..], known, name);
      } else {
        var rest := Unseen(level[1..], known + {u});
        assert ([u] + rest)[1..] == rest;
        if Definition(g, u, name) == 0 { RepeatsFindNothing(g, level[1..], known + {u}, name); }
      }
    }
  }

  lemma {:induction false} NothingNew(g: Graph, level: seq<nat>, n: nat, known: set<nat>, name: string)
    requires forall v :: v in known ==> Definition(g, v, name) == 0
    requires forall u, v :: u in known && v in Deps(g, u) ==> v in known
    requires forall v :: v in level ==> v in known
    ensures FirstDefined(g, Expanded(g, level, n), name) == 0
    decreases n
  {
    hide Definition, Deps;
    if n > 0 {
      DepsOf(g, level, known);
      NothingNew(g, AllDeps(g, level), n - 1, known, name);
      FirstDefinedIn(g, level, name);
      FirstDefinedJoin(g, level, Expanded(g, AllDeps(g, level), n - 1), name);
    }
  }

  lemma {:induction false} DepsOf(g: Graph, level: seq<nat>, known: set<nat>)
    requires forall u, v :: u in level && v in Deps(g, u) ==> v in known
    ensures forall v :: v in AllDeps(g, level) ==> v in known
  {
    hide Deps;
    if |level| > 0 {
      assert level[0] in level;
      DepsOf(g, level[1..], known);
    }
  }

  /** The flags change nothing about which definition is found first, only that the walk ends. */
  lemma {:induction false} FlagsFindTheSame(g: Graph, level: seq<nat>, seen: set<nat>, known: set<nat>, n: nat,
                                            name: string)
    requires WellFormed(g) && n > Left(|g|, seen)
    requires forall v :: v in known ==> Definition(g, v, name) == 0
    requires forall u, v :: u in known && v in Deps(g, u) ==> v in seen
    requires forall v :: v in seen ==> v in known || v in Unseen(level, known)
    ensures FirstDefined(g, LevelOrder(g, Unseen(level, known), seen), name) ==
            FirstDefined(g, Expanded(g, level, n), name)
    decreases Left(|g|, seen)
  {
    hide Definition, Deps, WellFormed, Left, FirstDefined, Unseen;
    var now := Unseen(level, known);
    var next := NextLevel(g, now, seen);
    var more := Expanded(g, AllDeps(g, level), n - 1);
    RepeatsFindNothing(g, level, known, name);
    FirstDefinedJoin(g, level, more, name);
    FirstDefinedIn(g, now, name);
    NextLevelIsUnseen(g, now, seen);
    RepeatsAddNothing(g, level, known, seen);
    assert next == Unseen(AllDeps(g, level), seen);
    LevelSplits(g, now, seen, name);
    if FirstDefined(g, now, name) == 0 {
      if next == [] {
        NothingNew(g, level, n, known + Elements(now), name);
      } else {
        NextInRange(g, now, seen);
        assert next[0] in next;
        LeftShrinks(|g|, seen, next);
        FlagsFindTheSame(g, AllDeps(g, level), seen + Elements(next), seen, n - 1, name);
      }
    }
  }

  lemma {:induction false} LevelSplits(g: Graph, level: seq<nat>, seen: set<nat>, name: string)
    requires WellFormed(g)
    ensures var next, first := NextLevel(g, level, seen), FirstDefined(g, level, name);
            FirstDefined(g, LevelOrder(g, level, seen), name) ==
            if first != 0 || next == [] then first
            else FirstDefined(g, LevelOrder(g, next, seen + Elements(next)), name)
  {
    hide FirstDefined, NextLevel, Left;
    var next := NextLevel(g, level, seen);
    if next != [] {
      NextInRange(g, level, seen);
      LeftShrinks(|g|, seen, next);
      FirstDefinedJoin(g, level, LevelOrder(g, next, seen + Elements(next)), name);
    }
  }

  lemma {:induction false} LeftAll(n: nat)
    ensures Left(n, {}) == n
  {
    if n > 0 { LeftAll(n - 1); }
  }

  /** The symbol found is the first one that breadth first without flags comes to within one level per object. */
  lemma {:induction false} FlagsOnlyEndTheWalk(g: Graph, start: nat, n: nat, name: string)
    requires WellFormed(g) && n > |g|
    ensures FirstDefined(g, LevelOrder(g, [start], {}), name) == FirstDefined(g, Expanded(g, [start], n), name)
  {
    hide LevelOrder, Expanded, FirstDefined, WellFormed;
    LeftAll(|g|);
    assert Unseen([start], {}) == [start] by { assert [start][1..] == []; }
    FlagsFindTheSame(g, [start], {}, {}, n, name);
  }

  /** Breadth-first order finds a nearest definition, and none only when none is reachable. */
  lemma {:induction false} BreadthFirstIsNearest(g: Graph, start: nat, name: string)
    requires WellFormed(g)
    ensures Nearest(g, start, name, FirstDefined(g, LevelOrder(g, [start], {}), name))
  {
    hide Nearest, LevelOrder;
    assert IsLevel(g, start, [start], {}, {}, 0);
    LevelsFindNearest(g, start, [start], {}, {}, 0, name);
  }
}
