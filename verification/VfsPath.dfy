/**
 * Paths of the virtual file system: their components, and collapsing runs of slashes.
 */
module VfsPath {
  predicate NoSlash(s: string) { '/' !in s }

  /** Characters up to the first slash. */
  function FirstComponent(path: string): (c: string)
    ensures |c| <= |path| && c == path[..|c|] && NoSlash(c)
    ensures |c| < |path| ==> path[|c|] == '/'
  {
    if |path| == 0 || path[0] == '/' then "" else [path[0]] + FirstComponent(path[1..])
  }

  /** The names between slashes. */
  function Components(path: string): seq<string>
    decreases |path|
  {
    if |path| == 0 then []
    else if path[0] == '/' then Components(path[1..])
    else
      var c := FirstComponent(path);
      [c] + Components(path[|c|..])
  }

  predicate EndsWithSlash(path: string) { |path| > 0 && path[|path| - 1] == '/' }

  // ------------------------------------------------------------ normalisation

  ghost predicate SingleSlashes(path: string)
  {
    forall i :: 0 <= i < |path| - 1 ==> !SlashPair(path, i)
  }

  predicate SlashPair(path: string, i: nat)
    requires i + 1 < |path|
  {
    path[i] == '/' && path[i + 1] == '/'
  }

  /** The path with every run of slashes made one. */
  function Collapse(path: string): string
  {
    if |path| < 2 then path
    else if SlashPair(path, 0) then Collapse(path[1..])
    else [path[0]] + Collapse(path[1..])
  }

  lemma {:induction false} CollapseHead(path: string)
    ensures |Collapse(path)| > 0 <==> |path| > 0
    ensures |path| > 0 ==> Collapse(path)[0] == path[0]
    ensures EndsWithSlash(Collapse(path)) == EndsWithSlash(path)
  {
    if |path| >= 2 { CollapseHead(path[1..]); }
  }

  /** A collapsed path has no adjacent slashes; one without them collapses to itself. */
  lemma {:induction false} CollapseIsSingle(path: string)
    ensures SingleSlashes(Collapse(path))
  {
    if |path| >= 2 {
      CollapseIsSingle(path[1..]);
      CollapseHead(path[1..]);
      if !SlashPair(path, 0) {
        var rest := Collapse(path[1..]);
        var all := [path[0]] + rest;
        forall i | 0 <= i < |all| - 1
          ensures !SlashPair(all, i)
        {
          if i > 0 { assert SlashPair(all, i) == SlashPair(rest, i - 1); }
        }
      }
    }
  }

  lemma {:induction false} SingleCollapses(path: string)
    requires SingleSlashes(path)
    ensures Collapse(path) == path
  {
    if |path| >= 2 {
      var rest := path[1..];
      forall i | 0 <= i < |rest| - 1
        ensures !SlashPair(rest, i)
      {
        assert SlashPair(rest, i) == SlashPair(path, i + 1);
      }
      SingleCollapses(rest);
      assert !SlashPair(path, 0);
    }
  }

  /** Collapsing keeps the components. */
  lemma {:induction false} CollapseKeepsComponents(path: string)
    ensures Components(Collapse(path)) == Components(path)
    decreases |path|
  {
    if |path| >= 2 {
      CollapseHead(path[1..]);
      if path[0] == '/' {
        CollapseKeepsComponents(path[1..]);
        if !SlashPair(path, 0) {
          assert ([path[0]] + Collapse(path[1..]))[1..] == Collapse(path[1..]);
        }
      } else {
        var c := FirstComponent(path);
        CollapseComponent(path);
        CollapseKeepsComponents(path[|c|..]);
      }
    }
  }

  /** The first component of a path is not affected. */
  lemma {:induction false} CollapseComponent(path: string)
    ensures var c := FirstComponent(path);
            && FirstComponent(Collapse(path)) == c && |c| <= |Collapse(path)|
            && Collapse(path)[|c|..] == Collapse(path[|c|..])
    decreases |path|
  {
    if |path| > 0 && path[0] != '/' {
      if |path| >= 2 {
        CollapseComponent(path[1..]);
        var c := FirstComponent(path[1..]);
        assert FirstComponent(path) == [path[0]] + c;
        var rest := Collapse(path[1..]);
        assert Collapse(path) == [path[0]] + rest;
        assert ([path[0]] + rest)[1..] == rest;
        assert path[|c| + 1..] == path[1..][|c|..];
        assert ([path[0]] + rest)[|c| + 1..] == rest[|c|..];
      } else {
        assert path[1..] == "";
      }
    } else {
      CollapseHead(path);
      assert path[0..] == path && Collapse(path)[0..] == Collapse(path);
    }
  }

  /** Names with a slash before each. */
  function Joined(names: seq<string>): string
  {
    if |names| == 0 then "" else "/" + names[0] + Joined(names[1..])
  }

  /** The components are not empty and have no slash. */
  lemma {:induction false} ComponentsProper(path: string)
    ensures forall i :: 0 <= i < |Components(path)| ==> Components(path)[i] != "" && NoSlash(Components(path)[i])
    decreases |path|
  {
    if |path| > 0 {
      if path[0] == '/' {
        ComponentsProper(path[1..]);
      } else {
        ComponentsProper(path[|FirstComponent(path)|..]);
      }
    }
  }

  /** A path from the root is its components joined, once runs of slashes are collapsed. */
  lemma {:induction false} JoinedComponents(path: string)
    requires |path| > 0 && path[0] == '/'
    ensures Collapse(path) == Joined(Components(path)) + if EndsWithSlash(path) then "/" else ""
    decreases |path|
  {
    hide Collapse, Components, Joined, FirstComponent;
    var rest := path[1..];
    CollapseSlash(path);
    if |rest| > 0 {
      if rest[0] == '/' {
        JoinedComponents(rest);
      } else {
        var c := FirstComponent(rest);
        var tail := rest[|c|..];
        CollapseFirst(rest);
        FirstAndRest(rest);
        JoinedFirst(c, Components(tail));
        if |tail| > 0 {
          JoinedComponents(tail);
          assert path[|path| - 1] == tail[|tail| - 1];
          assert "/" + (c + Collapse(tail)) ==
                 ("/" + c + Joined(Components(tail))) + if EndsWithSlash(path) then "/" else "";
        } else {
          assert rest == c && path[|path| - 1] in c;
          NothingJoined(tail);
        }
      }
    }
  }

  lemma {:induction false} CollapseSlash(path: string)
    requires |path| > 0 && path[0] == '/'
    ensures Components(path) == Components(path[1..])
    ensures |path| == 1 ==> Collapse(path) == "/" && Components(path) == [] && Joined(Components(path)) == ""
    ensures |path| > 1 && path[1] == '/' ==> Collapse(path) == Collapse(path[1..])
    ensures |path| > 1 && path[1] != '/' ==> Collapse(path) == "/" + Collapse(path[1..])
  {
  }

  lemma {:induction false} FirstAndRest(path: string)
    requires |path| > 0 && path[0] != '/'
    ensures var c := FirstComponent(path); |c| > 0 && Components(path) == [c] + Components(path[|c|..])
  {
  }

  lemma {:induction false} JoinedFirst(name: string, names: seq<string>)
    ensures Joined([name] + names) == "/" + name + Joined(names)
  {
    assert ([name] + names)[1..] == names;
  }

  lemma {:induction false} NothingJoined(path: string)
    requires |path| == 0
    ensures Components(path) == [] && Joined(Components(path)) == "" && Collapse(path) == ""
  {
  }

  lemma {:induction false} CollapseFirst(path: string)
    ensures var c := FirstComponent(path); Collapse(path) == c + Collapse(path[|c|..])
  {
    hide Collapse;
    CollapseComponent(path);
    var c, all := FirstComponent(path), Collapse(path);
    assert all == all[..|c|] + all[|c|..];
  }

  /** Dropping one of two adjacent slashes does not show after collapsing. */
  lemma {:induction false} DropSlash(a: string, b: string)
    ensures Collapse(a + "//" + b) == Collapse(a + "/" + b)
  {
    var two, one := a + "//" + b, a + "/" + b;
    if |a| == 0 {
      assert two[1..] == one;
    } else {
      assert two[1..] == a[1..] + "//" + b && one[1..] == a[1..] + "/" + b;
      DropSlash(a[1..], b);
      assert two[0] == one[0] && two[1] == one[1];
    }
  }

  lemma {:induction false} EraseRun(path: string, i: nat, j: nat)
    requires i <= j < |path| && forall k :: i <= k <= j ==> path[k] == '/'
    ensures Collapse(path[..i] + path[j..]) == Collapse(path)
    decreases j - i
  {
    hide Collapse;
    if i == j {
      assert path[..i] + path[j..] == path;
    } else {
      var less := path[..i] + path[i + 1..];
      assert path == path[..i] + "//" + path[i + 2..] && less == path[..i] + "/" + path[i + 2..];
      DropSlash(path[..i], path[i + 2..]);
      EraseRun(less, i, j - 1);
      assert less[..i] + less[j - 1..] == path[..i] + path[j..];
    }
  }

  /** `normalize_path`: erases all but one slash of each run, in place. */
  method NormalizePath(original: string) returns (path: string)
    requires |original| > 0 && original[0] == '/'
    ensures path == Collapse(original) && SingleSlashes(path)
    ensures Components(path) == Components(original)
  {
    hide Collapse, Components;
    path := original;
    var index: nat := 0;
    while index < |path|
      invariant 0 <= index <= |path| && Collapse(path) == Collapse(original)
      invariant forall i :: 0 <= i < index && i + 1 < |path| ==> !SlashPair(path, i)
      decreases |path| - index
    {
      index := NextSlash(path, index);
      if index == |path| {
        break;
      }
      var last := LastSlash(path, index);
      EraseRun(path, index, last);
      path := Erased(path, index, last);
      index := index + 1;
    }
    SingleCollapses(path);
    CollapseIsSingle(original);
    CollapseKeepsComponents(original);
  }

  method NextSlash(path: string, from: nat) returns (index: nat)
    requires from <= |path| && forall i :: 0 <= i < from && i + 1 < |path| ==> !SlashPair(path, i)
    ensures from <= index <= |path| && (index < |path| ==> path[index] == '/')
    ensures forall i :: 0 <= i < index && i + 1 < |path| ==> !SlashPair(path, i)
  {
    index := from;
    while index < |path| && path[index] != '/'
      invariant from <= index <= |path| && forall i :: 0 <= i < index && i + 1 < |path| ==> !SlashPair(path, i)
    {
      index := index + 1;
    }
  }

  method LastSlash(path: string, index: nat) returns (last: nat)
    requires index < |path| && path[index] == '/'
    ensures index <= last < |path| && forall k :: index <= k <= last ==> path[k] == '/'
    ensures last + 1 < |path| ==> path[last + 1] != '/'
  {
    last := index;
    while last + 1 < |path| && path[last + 1] == '/'
      invariant index <= last < |path| && forall k :: index <= k <= last ==> path[k] == '/'
    {
      last := last + 1;
    }
  }

  /** Removes characters i to j; with j the last slash of a run no pair is left up to i. */
  function Erased(path: string, i: nat, j: nat): (r: string)
    requires i <= j < |path| && path[j] == '/' && (j + 1 < |path| ==> path[j + 1] != '/')
    requires forall k :: 0 <= k < i && k + 1 < |path| ==> !SlashPair(path, k)
    requires path[i] == '/'
    ensures |r| == |path| - (j - i) && i < |r|
    ensures r == path[..i] + path[j..]
    ensures forall k :: 0 <= k < i + 1 && k + 1 < |r| ==> !SlashPair(r, k)
  {
    var r := path[..i] + path[j..];
    assert forall k :: 0 <= k < i + 1 && k + 1 < |r| ==> !SlashPair(r, k) by {
      forall k | 0 <= k < i + 1 && k + 1 < |r|
        ensures !SlashPair(r, k)
      {
        if k < i { assert !SlashPair(path, k); }
      }
    }
    r
  }
}
