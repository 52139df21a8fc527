/**
 * Loaded shared objects, their symbols and their dependencies.  Objects are named by their
 * position in the list of loaded objects; dependency cycles are allowed.
 */
module LinkGraph {
  import opened Basics

  const WORD_RANGE := 0x1_0000_0000

  datatype Symbol = Symbol(name: string, defined: bool, isFunction: bool, value: nat)

  datatype SharedObject = SharedObject(
    base: nat,
    symbols: seq<Symbol>,
    preinit: seq<nat>,
    init: nat,            // zero when the object has none
    initArray: seq<nat>,
    dependencies: seq<nat>)

  type Graph = seq<SharedObject>

  predicate WellFormed(g: Graph)
  {
    forall v, i :: 0 <= v < |g| && 0 <= i < |g[v].dependencies| ==> g[v].dependencies[i] < |g|
  }

  function Deps(g: Graph, v: nat): seq<nat>
  {
    if v < |g| then g[v].dependencies else []
  }

  /** Some path of exactly k dependencies leads from u to v. */
  ghost predicate Steps(g: Graph, u: nat, v: nat, k: nat)
    decreases k
  {
    if k == 0 then u == v else exists w :: w in Deps(g, u) && Steps(g, w, v, k - 1)
  }

  ghost predicate Reachable(g: Graph, u: nat, v: nat)
  {
    exists k: nat :: Steps(g, u, v, k)
  }

  lemma {:induction false} StepsJoin(g: Graph, u: nat, v: nat, w: nat, j: nat, k: nat)
    requires Steps(g, u, v, j) && Steps(g, v, w, k)
    ensures Steps(g, u, w, j + k)
    decreases j
  {
    if j > 0 {
      var x :| x in Deps(g, u) && Steps(g, x, v, j - 1);
      StepsJoin(g, x, v, w, j - 1, k);
      assert j + k - 1 == j - 1 + k;
    }
  }

  lemma {:induction false} StepsInRange(g: Graph, u: nat, v: nat, k: nat)
    requires WellFormed(g) && u < |g| && Steps(g, u, v, k)
    ensures v < |g|
    decreases k
  {
    if k > 0 {
      var x :| x in Deps(g, u) && Steps(g, x, v, k - 1);
      StepsInRange(g, x, v, k - 1);
    }
  }

  /** The last dependency of a path. */
  lemma {:induction false} StepsLast(g: Graph, u: nat, v: nat, k: nat) returns (w: nat)
    requires k > 0 && Steps(g, u, v, k)
    ensures Steps(g, u, w, k - 1) && v in Deps(g, w)
    decreases k
  {
    var x :| x in Deps(g, u) && Steps(g, x, v, k - 1);
    if k == 1 {
      w := u;
    } else {
      w := StepsLast(g, x, v, k - 1);
    }
  }

  lemma {:induction false} OneStep(g: Graph, u: nat, v: nat)
    requires v in Deps(g, u)
    ensures Steps(g, u, v, 1)
  {
    assert Steps(g, v, v, 0);
  }

  /** Distinct objects are no more than there are. */
  lemma {:induction false} DistinctBounded(s: seq<nat>, n: nat)
    requires NoDuplicates(s) && forall i :: 0 <= i < |s| ==> s[i] < n
    ensures |s| <= n
    ensures |s| == n ==> forall v :: 0 <= v < n ==> v in s
    decreases n
  {
    var first := if |s| > 0 then s[0] else 0;
    if n > 0 {
      if n - 1 in s {
        var k :| 0 <= k < |s| && s[k] == n - 1;
        var rest := s[..k] + s[k + 1..];
        DistinctBounded(rest, n - 1);
        if |s| == n {
          forall v | 0 <= v < n
            ensures v in s
          {
            if v < n - 1 { assert v in rest; }
          }
        }
      } else {
        DistinctBounded(s, n - 1);
      }
    }
  }
}
