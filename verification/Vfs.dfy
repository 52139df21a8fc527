/**
 * Path lookup in the virtual file system, on a tree without soft links whose directories
 * have been read.  Nodes are named by their place in the order of creation, root first.
 */
module Vfs {
  import opened VfsPath

  const ROOT := 0

  datatype Node = Node(name: string, parent: nat, children: seq<nat>, directory: bool)
  type Tree = seq<Node>

  /** A usable entry name: not empty, without slash, and neither dot nor dot-dot. */
  predicate ProperName(name: string)
  {
    |name| > 0 && NoSlash(name) && name != "." && name != ".."
  }

  ghost predicate NodeOk(t: Tree, n: nat)
    requires n < |t|
  {
    && (forall i :: 0 <= i < |t[n].children| ==> n < t[n].children[i] < |t| && t[t[n].children[i]].parent == n)
    && (n != ROOT ==> ProperName(t[n].name) && t[n].parent < n && n in t[t[n].parent].children)
    && (t[n].children != [] ==> t[n].directory)
  }

  /** Siblings have different names. */
  ghost predicate DistinctNames(t: Tree, n: nat)
    requires n < |t| && forall i :: 0 <= i < |t[n].children| ==> t[n].children[i] < |t|
  {
    forall i, j :: 0 <= i < j < |t[n].children| ==> t[t[n].children[i]].name != t[t[n].children[j]].name
  }

  ghost predicate Valid(t: Tree)
  {
    && |t| > 0 && t[ROOT].directory && t[ROOT].parent == ROOT
    && (forall n :: 0 <= n < |t| ==> NodeOk(t, n))
    && (forall n :: 0 <= n < |t| ==> NodeOk(t, n) && DistinctNames(t, n))
  }

  datatype Result = Found(node: nat) | Missing | NotADirectory

  // ------------------------------------------------------------ the reference

  /** The first child of that name. */
  function Child(t: Tree, children: seq<nat>, name: string): (r: int)
    ensures r == -1 || (r in children && 0 <= r < |t| && t[r].name == name)
  {
    if |children| == 0 then -1
    else if children[0] < |t| && t[children[0]].name == name then children[0]
    else Child(t, children[1..], name)
  }

  function Up(t: Tree, cur: nat): nat
    requires cur < |t|
  {
    if cur == ROOT then cur else t[cur].parent
  }

  /** One component, in a directory. */
  function Enter(t: Tree, cur: nat, component: string): Result
    requires cur < |t|
  {
    if component == "." then Found(cur)
    else if component == ".." then Found(Up(t, cur))
    else if Child(t, t[cur].children, component) == -1 then Missing
    else Found(Child(t, t[cur].children, component))
  }

  /** Component by component; a slash after a node asks for a directory. */
  function Resolve(t: Tree, cur: nat, components: seq<string>, slash: bool): Result
    requires Valid(t) && cur < |t|
    decreases |components|
  {
    if |components| == 0 then
      if slash && !t[cur].directory then Missing else Found(cur)
    else if !t[cur].directory then Missing
    else
      match Enter(t, cur, components[0])
      case Found(next) => EnterInside(t, cur, components[0]); Resolve(t, next, components[1..], slash)
      case stop => stop
  }

  lemma {:induction false} EnterInside(t: Tree, cur: nat, component: string)
    requires Valid(t) && cur < |t|
    ensures Enter(t, cur, component).Found? ==> Enter(t, cur, component).node < |t|
    ensures Enter(t, cur, component) != NotADirectory
  {
    assert NodeOk(t, cur);
  }

  /** One component leads from directory a to b: to itself, to the parent, or to the child of that name. */
  predicate OneStep(t: Tree, a: nat, component: string, b: nat)
  {
    && a < |t| && b < |t| && t[a].directory
    && (component == "." ==> b == a)
    && (component == ".." ==> b == if a == 0 then 0 else t[a].parent)
    && (component != "." && component != ".." ==> b in t[a].children && t[b].name == component)
  }

  /** The components lead from a to b, one after the other. */
  ghost predicate LeadsTo(t: Tree, a: nat, components: seq<string>, b: nat)
    decreases |components|
  {
    if |components| == 0 then a == b
    else exists next :: OneStep(t, a, components[0], next) && LeadsTo(t, next, components[1..], b)
  }

  lemma {:induction false} EnterIsStep(t: Tree, a: nat, component: string, b: nat)
    requires Valid(t) && a < |t| && t[a].directory
    ensures Enter(t, a, component) == Found(b) <==> OneStep(t, a, component, b)
  {
    assert NodeOk(t, a) && DistinctNames(t, a);
    if b in t[a].children && t[b].name == component { ChildByName(t, t[a].children, b); }
  }

  /** The lookup finds exactly the node the components lead to; behind a slash it has to be a directory. */
  lemma {:induction false} ResolveIffLeads(t: Tree, cur: nat, components: seq<string>, slash: bool, n: nat)
    requires Valid(t) && cur < |t|
    ensures Resolve(t, cur, components, slash) == Found(n) <==>
            n < |t| && LeadsTo(t, cur, components, n) && (slash ==> t[n].directory)
    decreases |components|
  {
    hide Valid, Enter;
    if |components| > 0 && t[cur].directory {
      var c, rest := components[0], components[1..];
      EnterInside(t, cur, c);
      if Enter(t, cur, c).Found? {
        var next := Enter(t, cur, c).node;
        EnterIsStep(t, cur, c, next);
        ResolveIffLeads(t, next, rest, slash, n);
      }
      forall next | OneStep(t, cur, c, next)
        ensures Enter(t, cur, c) == Found(next)
      {
        EnterIsStep(t, cur, c, next);
      }
    }
  }

  // ------------------------------------------------------------ the source's walk

  predicate StartsWith(path: string, entry: string)
  {
    |entry| <= |path| && path[..|entry|] == entry && (|path| == |entry| || path[|entry|] == '/')
  }

  /** Comparing a prefix and looking at the next character picks out the first component. */
  lemma {:induction false} StartsWithMeans(path: string, entry: string)
    requires NoSlash(entry)
    ensures StartsWith(path, entry) <==> FirstComponent(path) == entry
    decreases |path|
  {
    if |entry| == 0 {
    } else if |path| == 0 || path[0] == '/' {
      assert entry[0] in entry;
    } else if path[0] != entry[0] {
      assert FirstComponent(path)[0] == path[0];
    } else {
      StartsWithMeans(path[1..], entry[1..]);
      assert entry == [entry[0]] + entry[1..];
      assert StartsWith(path, entry) <==> StartsWith(path[1..], entry[1..]) by {
        if |entry| <= |path| {
          assert path[..|entry|] == [path[0]] + path[1..][..|entry| - 1];
        }
      }
    }
  }

  function Match(t: Tree, children: seq<nat>, path: string): (r: int)
    ensures r == -1 || (r in children && 0 <= r < |t| && StartsWith(path, t[r].name))
  {
    if |children| == 0 then -1
    else if children[0] < |t| && StartsWith(path, t[children[0]].name) then children[0]
    else Match(t, children[1..], path)
  }

  lemma {:induction false} MatchIsChild(t: Tree, children: seq<nat>, path: string)
    requires forall i :: 0 <= i < |children| ==> children[i] < |t| && NoSlash(t[children[i]].name)
    ensures Match(t, children, path) == Child(t, children, FirstComponent(path))
  {
    if |children| > 0 {
      assert children[0] < |t|;
      StartsWithMeans(path, t[children[0]].name);
      MatchIsChild(t, children[1..], path);
    }
  }

  /** The loop of `find_by_path` on the rest of a path. */
  function Walk(t: Tree, cur: nat, path: string): Result
    requires Valid(t) && cur < |t|
    decreases |path|
  {
    if |path| == 0 then Found(cur)
    else if path[0] == '/' then
      if !t[cur].directory then Missing else Walk(t, cur, path[1..])
    else if StartsWith(path, ".") then Walk(t, cur, path[1..])
    else if StartsWith(path, "..") then UpInside(t, cur); Walk(t, Up(t, cur), path[2..])
    else if !t[cur].directory then NotADirectory
    else
      var next := Match(t, t[cur].children, path);
      if next == -1 then Missing
      else
        MatchLonger(t, cur, path);
        Walk(t, next, path[|t[next].name|..])
  }

  lemma {:induction false} UpInside(t: Tree, cur: nat)
    requires Valid(t) && cur < |t|
    ensures Up(t, cur) < |t|
  {
    assert NodeOk(t, cur);
  }

  lemma {:induction false} MatchLonger(t: Tree, cur: nat, path: string)
    requires Valid(t) && cur < |t|
    ensures var next := Match(t, t[cur].children, path); next != -1 ==> 0 < |t[next].name| <= |path|
  {
    var next := Match(t, t[cur].children, path);
    assert NodeOk(t, cur);
    if next != -1 {
      assert NodeOk(t, next);
    }
  }

  lemma {:induction false} ChildrenProper(t: Tree, cur: nat)
    requires Valid(t) && cur < |t|
    ensures forall i :: 0 <= i < |t[cur].children| ==> t[cur].children[i] < |t| && NoSlash(t[t[cur].children[i]].name)
  {
    assert NodeOk(t, cur);
    forall i | 0 <= i < |t[cur].children|
      ensures t[cur].children[i] < |t| && NoSlash(t[t[cur].children[i]].name)
    {
      assert NodeOk(t, t[cur].children[i]);
    }
  }

  /** At a name, the walk enters the first component and goes on behind it. */
  lemma {:induction false} WalkEnters(t: Tree, cur: nat, path: string)
    requires Valid(t) && cur < |t| && t[cur].directory && |path| > 0 && path[0] != '/'
    ensures var c := FirstComponent(path);
            && 0 < |c|
            && Walk(t, cur, path) ==
               match Enter(t, cur, c) {
                 case Found(next) => (EnterInside(t, cur, c); Walk(t, next, path[|c|..]))
                 case stop => stop
               }
  {
    var c := FirstComponent(path);
    StartsWithMeans(path, ".");
    StartsWithMeans(path, "..");
    ChildrenProper(t, cur);
    MatchIsChild(t, t[cur].children, path);
    EnterInside(t, cur, c);
  }

  /** The walk is the component walk, and never looks for an entry in a file. */
  lemma {:induction false} WalkIsResolve(t: Tree, cur: nat, path: string)
    requires Valid(t) && cur < |t| && (|path| == 0 || path[0] == '/')
    ensures Walk(t, cur, path) == Resolve(t, cur, Components(path), EndsWithSlash(path))
    ensures Walk(t, cur, path) != NotADirectory
    decreases |path|
  {
    if |path| > 0 {
      var rest := path[1..];
      if !t[cur].directory {
        OnlySlashes(path);
      } else if |rest| == 0 {
        assert Walk(t, cur, rest) == Found(cur);
      } else if rest[0] == '/' {
        WalkIsResolve(t, cur, rest);
      } else {
        var c := FirstComponent(rest);
        WalkEnters(t, cur, rest);
        EnterInside(t, cur, c);
        if Enter(t, cur, c).Found? {
          WalkIsResolve(t, Enter(t, cur, c).node, rest[|c|..]);
          assert Components(path) == [c] + Components(rest[|c|..]);
          assert EndsWithSlash(rest[|c|..]) == EndsWithSlash(path) by { SlashAtEnd(path, rest, c); }
        }
      }
    }
  }

  lemma {:induction false} OnlySlashes(path: string)
    requires |path| > 0
    ensures Components(path) == [] ==> EndsWithSlash(path)
  {
    if path[0] == '/' && |path| > 1 { OnlySlashes(path[1..]); }
  }

  lemma {:induction false} SlashAtEnd(path: string, rest: string, c: string)
    requires |path| > 0 && rest == path[1..] && |rest| > 0 && c == FirstComponent(rest) && |c| > 0
    ensures EndsWithSlash(rest[|c|..]) == EndsWithSlash(path)
  {
    if |c| == |rest| {
      assert path[|path| - 1] == c[|c| - 1] && c[|c| - 1] in c;
    } else {
      assert rest[|c|..][|rest| - |c| - 1] == path[|path| - 1];
    }
  }

  // ------------------------------------------------------------ full paths

  function FullName(t: Tree, n: nat): string
    requires Valid(t) && n < |t|
    decreases n
  {
    if n == ROOT then "" else ProperNode(t, n); FullName(t, t[n].parent) + "/" + t[n].name
  }

  lemma {:induction false} ProperNode(t: Tree, n: nat)
    requires Valid(t) && n < |t| && n != ROOT
    ensures t[n].parent < n && ProperName(t[n].name) && n in t[t[n].parent].children
  {
    assert NodeOk(t, n);
  }

  function FullPath(t: Tree, n: nat): string
    requires Valid(t) && n < |t|
  {
    if n == ROOT then "/" else FullName(t, n)
  }

  /** The names from below the root down to n. */
  function Names(t: Tree, n: nat): seq<string>
    requires Valid(t) && n < |t|
    decreases n
  {
    if n == ROOT then [] else ProperNode(t, n); Names(t, t[n].parent) + [t[n].name]
  }

  lemma {:induction false} ComponentsAppend(path: string, name: string)
    requires NoSlash(name) && |name| > 0
    ensures Components(path + "/" + name) == Components(path) + [name]
    decreases |path|
  {
    var whole := path + "/" + name;
    if |path| == 0 {
      assert whole[1..] == name;
      WholeComponent(name);
    } else if path[0] == '/' {
      assert whole[1..] == path[1..] + "/" + name;
      ComponentsAppend(path[1..], name);
    } else {
      var c := FirstComponent(path);
      FirstOfLonger(path, "/" + name);
      assert path + ("/" + name) == whole;
      assert whole[|c|..] == path[|c|..] + "/" + name;
      ComponentsAppend(path[|c|..], name);
    }
  }

  lemma {:induction false} WholeComponent(name: string)
    requires NoSlash(name) && |name| > 0
    ensures FirstComponent(name) == name && Components(name) == [name]
  {
    StartsWithMeans(name, name);
    assert name[|name|..] == "";
    assert name[0] in name;
  }

  lemma {:induction false} FirstOfLonger(path: string, more: string)
    requires |more| > 0 && more[0] == '/'
    ensures FirstComponent(path + more) == FirstComponent(path)
  {
    if |path| == 0 {
      assert path + more == more;
    } else if path[0] != '/' {
      assert (path + more)[1..] == path[1..] + more;
      FirstOfLonger(path[1..], more);
    }
  }

  lemma {:induction false} FullNameComponents(t: Tree, n: nat)
    requires Valid(t) && n < |t|
    ensures Components(FullName(t, n)) == Names(t, n)
    ensures n != ROOT ==> |FullName(t, n)| > 0 && FullName(t, n)[0] == '/' && !EndsWithSlash(FullName(t, n))
    decreases n
  {
    if n != ROOT {
      ProperNode(t, n);
      var up := t[n].parent;
      FullNameComponents(t, up);
      ComponentsAppend(FullName(t, up), t[n].name);
      var all := FullName(t, n);
      assert all[|all| - 1] == t[n].name[|t[n].name| - 1] && t[n].name[|t[n].name| - 1] in t[n].name;
      if up == ROOT { assert all[0] == '/'; } else { assert all[0] == FullName(t, up)[0]; }
    }
  }

  lemma {:induction false} JoinedMore(names: seq<string>, name: string)
    ensures Joined(names + [name]) == Joined(names) + "/" + name
  {
    if |names| == 0 {
      assert names + [name] == [name] && [name][1..] == [];
    } else {
      assert (names + [name])[1..] == names[1..] + [name];
      JoinedMore(names[1..], name);
    }
  }

  /** A full name is the names from the root down, each behind a slash. */
  lemma {:induction false} FullNameJoined(t: Tree, n: nat)
    requires Valid(t) && n < |t|
    ensures FullName(t, n) == Joined(Names(t, n))
    decreases n
  {
    if n != ROOT {
      ProperNode(t, n);
      FullNameJoined(t, t[n].parent);
      JoinedMore(Names(t, t[n].parent), t[n].name);
    }
  }

  /** Going down by names ends where one more name leads on. */
  lemma {:induction false} ResolveAppend(t: Tree, cur: nat, components: seq<string>, last: string)
    requires Valid(t) && cur < |t|
    ensures Resolve(t, cur, components + [last], false) ==
            match Resolve(t, cur, components, false) {
              case Found(n) => (ResolveInside(t, cur, components, false); Resolve(t, n, [last], false))
              case stop => stop }
    decreases |components|
  {
    if |components| == 0 {
      assert components + [last] == [last];
    } else {
      assert (components + [last])[1..] == components[1..] + [last];
      EnterInside(t, cur, components[0]);
      if t[cur].directory && Enter(t, cur, components[0]).Found? {
        ResolveAppend(t, Enter(t, cur, components[0]).node, components[1..], last);
      }
    }
  }

  lemma {:induction false} ResolveInside(t: Tree, cur: nat, components: seq<string>, slash: bool)
    requires Valid(t) && cur < |t|
    ensures Resolve(t, cur, components, slash).Found? ==> Resolve(t, cur, components, slash).node < |t|
    decreases |components|
  {
    if |components| > 0 {
      EnterInside(t, cur, components[0]);
      if t[cur].directory && Enter(t, cur, components[0]).Found? {
        ResolveInside(t, Enter(t, cur, components[0]).node, components[1..], slash);
      }
    }
  }

  lemma {:induction false} ChildByName(t: Tree, children: seq<nat>, n: nat)
    requires n in children && n < |t| && forall i :: 0 <= i < |children| ==> children[i] < |t|
    requires forall i, j :: 0 <= i < j < |children| ==> t[children[i]].name != t[children[j]].name
    ensures Child(t, children, t[n].name) == n
  {
    if children[0] != n {
      var j :| 0 <= j < |children| && children[j] == n;
      assert t[children[0]].name != t[children[j]].name;
      ChildByName(t, children[1..], n);
    }
  }

  lemma {:induction false} NamesLeadTo(t: Tree, n: nat)
    requires Valid(t) && n < |t|
    ensures Resolve(t, ROOT, Names(t, n), false) == Found(n)
    decreases n
  {
    if n != ROOT {
      ProperNode(t, n);
      var up := t[n].parent;
      NamesLeadTo(t, up);
      ResolveAppend(t, ROOT, Names(t, up), t[n].name);
      assert NodeOk(t, up) && DistinctNames(t, up);
      ChildByName(t, t[up].children, n);
      LastName(t, up, n);
    }
  }

  lemma {:induction false} LastName(t: Tree, up: nat, n: nat)
    requires Valid(t) && up < |t| && n < |t| && n != ROOT
    requires t[n].parent == up && Child(t, t[up].children, t[n].name) == n
    ensures Resolve(t, up, [t[n].name], false) == Found(n)
  {
    ProperNode(t, n);
    assert NodeOk(t, up);
    EnterInside(t, up, t[n].name);
    assert Enter(t, up, t[n].name) == Found(n);
    assert [t[n].name][1..] == [];
    assert Resolve(t, n, [], false) == Found(n);
  }

  function Prepare(path: string, cwd: string): string
  {
    if |path| == 0 then "/" else if path[0] != '/' then cwd + path else path
  }

  /** Looking up the full path of a node finds that node, whatever the working directory. */
  lemma {:induction false} FullPathLeadsBack(t: Tree, n: nat, cwd: string)
    requires Valid(t) && n < |t|
    ensures Walk(t, ROOT, Collapse(Prepare(FullPath(t, n), cwd))) == Found(n)
  {
    var path := FullPath(t, n);
    FullNameComponents(t, n);
    assert Prepare(path, cwd) == path;
    CollapseHead(path);
    CollapseKeepsComponents(path);
    WalkIsResolve(t, ROOT, Collapse(path));
    if n == ROOT {
      assert Components("/") == [] by { assert "/"[1..] == ""; }
    } else {
      NamesLeadTo(t, n);
    }
  }

  // ------------------------------------------------------------ the file system

  class VirtualFileSystem {
    const tree: Tree

    constructor (tree: Tree)
      requires Valid(tree)
      ensures this.tree == tree
    {
      this.tree := tree;
    }

    method FindChild(cur: nat, path: string) returns (found: int)
      requires Valid(tree) && cur < |tree|
      ensures found == Match(tree, tree[cur].children, path)
    {
      var children := tree[cur].children;
      assert NodeOk(tree, cur);
      var i := 0;
      assert children[0..] == children;
      while i < |children|
        invariant 0 <= i <= |children|
        invariant Match(tree, children, path) == Match(tree, children[i..], path)
      {
        var node := children[i];
        assert children[i..][1..] == children[i + 1..];
        if StartsWith(path, tree[node].name) {
          return node;
        }
        i := i + 1;
      }
      return -1;
    }

    method FindByPath(given: string, cwd: string) returns (r: Result)
      requires Valid(tree) && |cwd| > 0 && cwd[0] == '/'
      ensures r == Walk(tree, ROOT, Collapse(Prepare(given, cwd)))
      ensures r == Resolve(tree, ROOT, Components(Prepare(given, cwd)), EndsWithSlash(Prepare(given, cwd)))
      ensures r != NotADirectory
      // exactly the node that the names between the slashes lead to, from the root
      ensures var path := if given == "" then "/" else if given[0] == '/' then given else cwd + given;
              forall n: nat :: r == Found(n) <==>
                && n < |tree| && LeadsTo(tree, 0, Components(path), n)
                && (path[|path| - 1] == '/' ==> tree[n].directory)
    {
      hide Valid, LeadsTo, Resolve;
      RootInside(tree);
      ghost var names, slash := Components(Prepare(given, cwd)), EndsWithSlash(Prepare(given, cwd));
      forall n: nat
        ensures Resolve(tree, ROOT, names, slash) == Found(n) <==>
                n < |tree| && LeadsTo(tree, ROOT, names, n) && (slash ==> tree[n].directory)
      {
        ResolveIffLeads(tree, ROOT, names, slash, n);
      }
      var path := Prepare(given, cwd);
      CollapseHead(path);
      CollapseKeepsComponents(path);
      WalkIsResolve(tree, ROOT, Collapse(path));
      path := NormalizePath(path);
      ghost var goal := Walk(tree, ROOT, path);
      var cur: nat := ROOT;
      while |path| > 0
        invariant cur < |tree| && Walk(tree, cur, path) == goal
        decreases |path|
      {
        if path[0] == '/' {
          if !tree[cur].directory {
            return Missing;
          }
          path := path[1..];
        } else if StartsWith(path, ".") {
          path := path[1..];
        } else if StartsWith(path, "..") {
          UpInside(tree, cur);
          path := path[2..];
          if cur != ROOT {
            cur := tree[cur].parent;
          }
        } else if !tree[cur].directory {
          return NotADirectory;
        } else {
          var next := FindChild(cur, path);
          if next == -1 {
            return Missing;
          }
          MatchLonger(tree, cur, path);
          path := path[|tree[next].name|..];
          cur := next;
        }
      }
      return Found(cur);
    }

    /** Collects the chain of parents on a stack, then writes it out from the top. */
    method GetFullPath(n: nat) returns (path: string)
      requires Valid(tree) && n < |tree|
      ensures path == FullPath(tree, n)
      ensures path == if n == 0 then "/" else Joined(Names(tree, n))
    {
      FullNameJoined(tree, n);
      hide Valid, FullName, Names, NodeOk;
      var stack: seq<nat>, current: nat := [n], n;
      while current != ROOT
        invariant current < |tree| && |stack| > 0 && stack[0] == current
        invariant forall i :: 0 <= i < |stack| ==> stack[i] < |tree|
        invariant forall i :: 0 <= i < |stack| - 1 ==> Follows(tree, stack[i], stack[i + 1])
        invariant stack[|stack| - 1] == n
        decreases current
      {
        ProperNode(tree, current);
        current := tree[current].parent;
        stack := [current] + stack;
      }
      path := "";
      RootName(tree);
      var i := 0;
      while i < |stack|
        invariant 0 <= i <= |stack|
        invariant path == if i == 0 then "" else FullName(tree, stack[i - 1])
      {
        if i > 0 {
          assert Follows(tree, stack[i - 1], stack[i]);
          NameBelow(tree, stack[i - 1], stack[i]);
        }
        if stack[i] != ROOT {
          path := path + "/" + tree[stack[i]].name;
        }
        i := i + 1;
      }
      FullNameComponents(tree, n);
      if |path| == 0 {
        path := "/";
      }
    }
  }

  predicate Follows(t: Tree, a: nat, b: nat)
  {
    b < |t| && b != ROOT && t[b].parent == a
  }

  lemma {:induction false} NameBelow(t: Tree, a: nat, b: nat)
    requires Valid(t) && Follows(t, a, b)
    ensures a < |t| && FullName(t, b) == FullName(t, a) + "/" + t[b].name
  {
    ProperNode(t, b);
  }

  lemma {:induction false} RootName(t: Tree)
    requires Valid(t)
    ensures ROOT < |t| && FullName(t, ROOT) == ""
  {
  }

  lemma {:induction false} RootInside(t: Tree)
    requires Valid(t)
    ensures ROOT < |t|
  {
  }
}
