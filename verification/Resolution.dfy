/** What a path means, through symlinks, and that the resolver with its stack finds it. */
module Resolution {
  import opened Strings
  import opened FsTree
  import L = SymlinkTargets

  datatype Resolved<N> =
    | Reached(node: N)
    | Missing(at: N, rest: seq<string>)
    | EscapesRoot
    | SymlinkLoop

  datatype PathParts = PathParts(absolute: bool, mustBeDir: bool, parts: seq<string>)

  /** A trailing slash asks for a directory: it becomes a final `.`, which makes a symlink be followed. */
  function SplitPath(path: string): (p: PathParts)
    ensures p.parts != []
  {
    var mustBeDir := EndsWithSlash(path);
    var absolute := StartsWith(path, "/");
    var parts := Split(RStrip(if absolute then "." + path else path));
    PathParts(absolute, mustBeDir, if mustBeDir then parts + ["."] else parts)
  }

  ghost predicate IsAt<N>(t: Tree<N>, root: N, n: N) {
    Wf(t, root, {}) && n in t && Attached(t, root, n)
  }

  /** Where the target of a symlink is read from. */
  ghost function LinkBase<N>(t: Tree<N>, root: N, link: N): (b: N)
    requires IsAt(t, root, link) && link != root && t[link].kind.Symlink?
    ensures IsAt(t, root, b)
  {
    OneUp(t, root, link);
    if SplitPath(t[link].kind.target).absolute then root else t[link].parent.value
  }

  ghost function ParentOf<N>(t: Tree<N>, root: N, n: N): (p: N)
    requires IsAt(t, root, n) && n != root
    ensures IsAt(t, root, p)
  {
    OneUp(t, root, n);
    t[n].parent.value
  }

  ghost function Child<N>(t: Tree<N>, root: N, n: N, name: string): (c: N)
    requires IsAt(t, root, n) && name in t[n].children
    ensures IsAt(t, root, c) && c != root && t[c].parent == Some(n) && t[c].name == name
  {
    assert ChildAt(t, n, name);
    assert UpAt(t, t[n].children[name]);
    t[n].children[name]
  }

  // ------------------------------------------------------- the resolver's stack

  ghost function SymlinkPaths<N>(t: Tree<N>, root: N): set<string>
    requires Wf(t, root, {})
  {
    set n | n in t && Attached(t, root, n) && t[n].kind.Symlink? :: PathOf(t, root, n)
  }

  /** The loop of `attempt_lookup`, with the pending parts in reading order and the
      paths of the symlinks that were expanded already. */
  ghost function Lookup<N>(t: Tree<N>, root: N, cur: N, parts: seq<string>, seen: set<string>): Resolved<N>
    requires IsAt(t, root, cur)
    decreases SymlinkPaths(t, root) - seen, |parts|
  {
    if parts == [] then Reached(cur)
    else if parts[0] == "." then Lookup(t, root, cur, parts[1..], seen)
    else if parts[0] == ".." then
      if cur == root then EscapesRoot else Lookup(t, root, ParentOf(t, root, cur), parts[1..], seen)
    else if parts[0] !in t[cur].children then Missing(cur, parts)
    else
      var c := Child(t, root, cur, parts[0]);
      if t[c].kind.Symlink? && parts[1..] != [] then
        var path := PathOf(t, root, c);
        if path in seen then SymlinkLoop
        else
          assert path in SymlinkPaths(t, root);
          Lookup(t, root, LinkBase(t, root, c), SplitPath(t[c].kind.target).parts + parts[1..], seen + {path})
      else Lookup(t, root, c, parts[1..], seen)
  }

  /** The final `.` of a path that must be a directory does not count as missing. */
  ghost function WithoutSentinel<N>(r: Resolved<N>, mustBeDir: bool): Resolved<N> {
    if r.Missing? && mustBeDir && r.rest != [] then Missing(r.at, r.rest[..|r.rest| - 1]) else r
  }

  ghost function LookupPath<N>(t: Tree<N>, root: N, from: N, path: string): Resolved<N>
    requires IsAt(t, root, from)
  {
    RootAttached(t, root);
    var p := SplitPath(path);
    WithoutSentinel(Lookup(t, root, if p.absolute then root else from, p.parts, {}), p.mustBeDir)
  }

  lemma RootAttached<N>(t: Tree<N>, root: N)
    requires Wf(t, root, {})
    ensures IsAt(t, root, root)
  {
  }

  // ------------------------------------------------- the meaning, by recursion

  /** What a path means: a symlink is replaced by what its target means, and the rest of
      the path is resolved from there.  `follow` says whether a symlink at the very end
      counts as its target.  None stands for a resolution that takes more than `fuel` steps;
      an infinite one is None for any fuel. */
  ghost function Meaning<N>(t: Tree<N>, root: N, cur: N, parts: seq<string>, follow: bool,
                            fuel: nat): (r: Option<Resolved<N>>)
    requires IsAt(t, root, cur)
    ensures r.Some? && r.value.Reached? ==> IsAt(t, root, r.value.node)
    decreases fuel
  {
    if fuel == 0 then None
    else if parts == [] then Some(Reached(cur))
    else if parts[0] == "." then Meaning(t, root, cur, parts[1..], follow, fuel - 1)
    else if parts[0] == ".." then
      if cur == root then Some(EscapesRoot) else Meaning(t, root, ParentOf(t, root, cur), parts[1..], follow, fuel - 1)
    else if parts[0] !in t[cur].children then Some(Missing(cur, parts))
    else
      var c := Child(t, root, cur, parts[0]);
      if t[c].kind.Symlink? && (parts[1..] != [] || follow) then
        var target := Meaning(t, root, LinkBase(t, root, c), SplitPath(t[c].kind.target).parts, true, fuel - 1);
        if target == None then None
        else if target.value.Reached? then Meaning(t, root, target.value.node, parts[1..], follow, fuel - 1)
        else if target.value.Missing? then Some(Missing(target.value.at, target.value.rest + parts[1..]))
        else target
      else Meaning(t, root, c, parts[1..], follow, fuel - 1)
  }

  lemma {:induction false} MoreFuel<N>(t: Tree<N>, root: N, cur: N, parts: seq<string>, follow: bool, fuel: nat,
                                       more: nat)
    requires IsAt(t, root, cur) && fuel <= more && Meaning(t, root, cur, parts, follow, fuel).Some?
    ensures Meaning(t, root, cur, parts, follow, more) == Meaning(t, root, cur, parts, follow, fuel)
    decreases fuel
  {
    if parts == [] {
    } else if parts[0] == "." {
      MoreFuel(t, root, cur, parts[1..], follow, fuel - 1, more - 1);
    } else if parts[0] == ".." {
      if cur != root {
        MoreFuel(t, root, ParentOf(t, root, cur), parts[1..], follow, fuel - 1, more - 1);
      }
    } else if parts[0] in t[cur].children {
      var c := Child(t, root, cur, parts[0]);
      if t[c].kind.Symlink? && (parts[1..] != [] || follow) {
        var base, target := LinkBase(t, root, c), SplitPath(t[c].kind.target).parts;
        MoreFuel(t, root, base, target, true, fuel - 1, more - 1);
        var r := Meaning(t, root, base, target, true, fuel - 1);
        if r.value.Reached? {
          MoreFuel(t, root, r.value.node, parts[1..], follow, fuel - 1, more - 1);
        }
      } else {
        MoreFuel(t, root, c, parts[1..], follow, fuel - 1, more - 1);
      }
    }
  }

  /** The stack and the recursion take the same way: resolving `parts` with `later` still
      pending comes to what `parts` mean, and goes on with `later` from there. */
  lemma {:induction false} StackFollowsMeaning<N>(
      t: Tree<N>, root: N, cur: N, parts: seq<string>, later: seq<string>, seen: set<string>)
    returns (fuel: nat, r: Resolved<N>, seen': set<string>)
    requires IsAt(t, root, cur)
    requires Lookup(t, root, cur, parts + later, seen) != SymlinkLoop
    ensures Meaning(t, root, cur, parts, later != [], fuel) == Some(r)
    ensures seen <= seen' && !r.SymlinkLoop?
    ensures r.Reached? ==> IsAt(t, root, r.node)
    ensures r.Reached? ==> Lookup(t, root, cur, parts + later, seen) == Lookup(t, root, r.node, later, seen')
    ensures r.Missing? ==> Lookup(t, root, cur, parts + later, seen) == Missing(r.at, r.rest + later)
    ensures r.EscapesRoot? ==> Lookup(t, root, cur, parts + later, seen) == EscapesRoot
    decreases SymlinkPaths(t, root) - seen, |parts|
  {
    if parts == [] {
      assert parts + later == later;
      fuel, r, seen' := 1, Reached(cur), seen;
      return;
    }
    var rest := parts[1..];
    assert (parts + later)[0] == parts[0] && (parts + later)[1..] == rest + later;
    if parts[0] == "." {
      fuel, r, seen' := StackFollowsMeaning(t, root, cur, rest, later, seen);
      fuel := fuel + 1;
    } else if parts[0] == ".." {
      if cur == root {
        fuel, r, seen' := 1, EscapesRoot, seen;
      } else {
        fuel, r, seen' := StackFollowsMeaning(t, root, ParentOf(t, root, cur), rest, later, seen);
        fuel := fuel + 1;
      }
    } else if parts[0] !in t[cur].children {
      fuel, r, seen' := 1, Missing(cur, parts), seen;
    } else {
      var c := Child(t, root, cur, parts[0]);
      if t[c].kind.Symlink? && rest + later != [] {
        fuel, r, seen' := ThroughSymlink(t, root, cur, parts, later, seen);
      } else {
        fuel, r, seen' := StackFollowsMeaning(t, root, c, rest, later, seen);
        fuel := fuel + 1;
      }
    }
  }

  lemma {:induction false} ThroughSymlink<N>(
      t: Tree<N>, root: N, cur: N, parts: seq<string>, later: seq<string>, seen: set<string>)
    returns (fuel: nat, r: Resolved<N>, seen': set<string>)
    requires IsAt(t, root, cur) && parts != [] && parts[0] !in {".", ".."} && parts[0] in t[cur].children
    requires t[Child(t, root, cur, parts[0])].kind.Symlink? && parts[1..] + later != []
    requires Lookup(t, root, cur, parts + later, seen) != SymlinkLoop
    ensures Meaning(t, root, cur, parts, later != [], fuel) == Some(r)
    ensures seen <= seen' && !r.SymlinkLoop?
    ensures r.Reached? ==> IsAt(t, root, r.node)
    ensures r.Reached? ==> Lookup(t, root, cur, parts + later, seen) == Lookup(t, root, r.node, later, seen')
    ensures r.Missing? ==> Lookup(t, root, cur, parts + later, seen) == Missing(r.at, r.rest + later)
    ensures r.EscapesRoot? ==> Lookup(t, root, cur, parts + later, seen) == EscapesRoot
    decreases SymlinkPaths(t, root) - seen, |parts|, 0
  {
    hide SplitPath, PathOf, Attached;
    var rest := parts[1..];
    assert (parts + later)[0] == parts[0] && (parts + later)[1..] == rest + later;
    var c := Child(t, root, cur, parts[0]);
    var base, target, path := LinkBase(t, root, c), SplitPath(t[c].kind.target).parts, PathOf(t, root, c);
    assert path in SymlinkPaths(t, root) && path !in seen;
    var fuel1, r1, seen1 := StackFollowsMeaning(t, root, base, target, rest + later, seen + {path});
    if r1.Reached? {
      assert path in seen1;
      var fuel2;
      fuel2, r, seen' := StackFollowsMeaning(t, root, r1.node, rest, later, seen1);
      fuel := if fuel1 < fuel2 then fuel2 + 1 else fuel1 + 1;
      MeaningThrough(t, root, cur, parts, later != [], r1, r, fuel1, fuel2, fuel);
    } else {
      fuel, seen' := fuel1 + 1, seen;
      if r1.Missing? {
        assert r1.rest + (rest + later) == (r1.rest + rest) + later;
        r := Missing(r1.at, r1.rest + rest);
      } else {
        r := r1;
      }
    }
  }

  lemma MeaningThrough<N>(t: Tree<N>, root: N, cur: N, parts: seq<string>, follow: bool, r1: Resolved<N>,
                          r: Resolved<N>,
                          fuel1: nat, fuel2: nat, fuel: nat)
    requires IsAt(t, root, cur) && parts != [] && parts[0] !in {".", ".."} && parts[0] in t[cur].children
    requires var c := Child(t, root, cur, parts[0]);
      && t[c].kind.Symlink? && (parts[1..] != [] || follow)
      && Meaning(t, root, LinkBase(t, root, c), SplitPath(t[c].kind.target).parts, true, fuel1) == Some(r1)
    requires r1.Reached? && IsAt(t, root, r1.node)
    requires Meaning(t, root, r1.node, parts[1..], follow, fuel2) == Some(r)
    requires fuel1 < fuel && fuel2 < fuel
    ensures Meaning(t, root, cur, parts, follow, fuel) == Some(r)
  {
    var c := Child(t, root, cur, parts[0]);
    MoreFuel(t, root, LinkBase(t, root, c), SplitPath(t[c].kind.target).parts, true, fuel1, fuel - 1);
    MoreFuel(t, root, r1.node, parts[1..], follow, fuel2, fuel - 1);
  }

  /** Whatever the resolver returns, other than its loop error, is what the path means. */
  lemma LookupIsMeaning<N>(t: Tree<N>, root: N, cur: N, parts: seq<string>)
    requires IsAt(t, root, cur) && Lookup(t, root, cur, parts, {}) != SymlinkLoop
    ensures exists fuel: nat :: Meaning(t, root, cur, parts, false, fuel) == Some(Lookup(t, root, cur, parts, {}))
  {
    assert parts + [] == parts;
    var fuel, r, seen' := StackFollowsMeaning(t, root, cur, parts, [], {});
    if r.Missing? {
      assert r.rest + [] == r.rest;
    }
    assert Meaning(t, root, cur, parts, false, fuel) == Some(Lookup(t, root, cur, parts, {}));
  }

  /** A path without a meaning, because its symlinks lead on forever, is reported as a loop. */
  lemma EndlessIsLoop<N>(t: Tree<N>, root: N, cur: N, parts: seq<string>)
    requires IsAt(t, root, cur)
    requires forall fuel: nat :: Meaning(t, root, cur, parts, false, fuel) == None
    ensures Lookup(t, root, cur, parts, {}) == SymlinkLoop
  {
    if Lookup(t, root, cur, parts, {}) != SymlinkLoop {
      LookupIsMeaning(t, root, cur, parts);
    }
  }

  // --------------------------------------------------------- when it is a loop

  /** The symlinks that resolution expands in its first steps, if nothing stops it. */
  ghost function Trail<N>(t: Tree<N>, root: N, cur: N, parts: seq<string>, steps: nat): (r: seq<N>)
    requires IsAt(t, root, cur)
    ensures OnTree(t, root, r)
    decreases steps
  {
    if steps == 0 || parts == [] then []
    else if parts[0] == "." then Trail(t, root, cur, parts[1..], steps - 1)
    else if parts[0] == ".." then
      if cur == root then [] else Trail(t, root, ParentOf(t, root, cur), parts[1..], steps - 1)
    else if parts[0] !in t[cur].children then []
    else
      var c := Child(t, root, cur, parts[0]);
      if t[c].kind.Symlink? && parts[1..] != [] then
        [c] + Trail(t, root, LinkBase(t, root, c), SplitPath(t[c].kind.target).parts + parts[1..], steps - 1)
      else Trail(t, root, c, parts[1..], steps - 1)
  }

  ghost predicate OnTree<N>(t: Tree<N>, root: N, trail: seq<N>) {
    forall i :: 0 <= i < |trail| ==> IsAt(t, root, trail[i])
  }

  /** No two symlinks of the trail have the same path, and none has one of the given paths. */
  ghost predicate AllNew<N>(t: Tree<N>, root: N, trail: seq<N>, seen: set<string>)
    requires OnTree(t, root, trail)
  {
    trail == [] ||
    var path := (assert IsAt(t, root, trail[0]); PathOf(t, root, trail[0]));
    path !in seen && AllNew(t, root, trail[1..], seen + {path})
  }

  lemma {:induction false} AllNewAt<N>(t: Tree<N>, root: N, trail: seq<N>, seen: set<string>, j: nat)
    requires OnTree(t, root, trail) && AllNew(t, root, trail, seen) && j < |trail|
    ensures IsAt(t, root, trail[j]) && PathOf(t, root, trail[j]) !in seen
  {
    if j > 0 {
      AllNewAt(t, root, trail[1..], seen + {PathOf(t, root, trail[0])}, j - 1);
    }
  }

  lemma {:induction false} AllNewDistinct<N>(t: Tree<N>, root: N, trail: seq<N>, seen: set<string>, i: nat, j: nat)
    requires OnTree(t, root, trail) && AllNew(t, root, trail, seen) && i < j < |trail|
    ensures trail[i] != trail[j]
  {
    if i == 0 {
      AllNewAt(t, root, trail[1..], seen + {PathOf(t, root, trail[0])}, j - 1);
    } else {
      AllNewDistinct(t, root, trail[1..], seen + {PathOf(t, root, trail[0])}, i - 1, j - 1);
    }
  }

  /** If a path repeats, there are two places in the trail with it, or it was seen before. */
  lemma {:induction false} RepeatAt<N>(t: Tree<N>, root: N, trail: seq<N>, seen: set<string>) returns (i: int, j: nat)
    requires OnTree(t, root, trail) && !AllNew(t, root, trail, seen)
    ensures -1 <= i < j < |trail| && IsAt(t, root, trail[j])
    ensures i == -1 ==> PathOf(t, root, trail[j]) in seen
    ensures i >= 0 ==> IsAt(t, root, trail[i]) && PathOf(t, root, trail[i]) == PathOf(t, root, trail[j])
  {
    var path := PathOf(t, root, trail[0]);
    if path in seen {
      i, j := -1, 0;
    } else {
      i, j := RepeatAt(t, root, trail[1..], seen + {path});
      if i == -1 && PathOf(t, root, trail[1..][j]) in seen {
        j := j + 1;
      } else {
        i, j := i + 1, j + 1;
      }
    }
  }

  /** Without a loop error, no part of the trail repeats a path. */
  lemma {:induction false} NoLoopMeansAllNew<N>(
      t: Tree<N>, root: N, cur: N, parts: seq<string>, seen: set<string>, steps: nat)
    requires IsAt(t, root, cur) && Lookup(t, root, cur, parts, seen) != SymlinkLoop
    ensures AllNew(t, root, Trail(t, root, cur, parts, steps), seen)
    decreases steps
  {
    if steps == 0 || parts == [] {
    } else if parts[0] == "." {
      NoLoopMeansAllNew(t, root, cur, parts[1..], seen, steps - 1);
    } else if parts[0] == ".." {
      if cur != root {
        NoLoopMeansAllNew(t, root, ParentOf(t, root, cur), parts[1..], seen, steps - 1);
      }
    } else if parts[0] in t[cur].children {
      var c := Child(t, root, cur, parts[0]);
      if t[c].kind.Symlink? && parts[1..] != [] {
        var base, next := LinkBase(t, root, c), SplitPath(t[c].kind.target).parts + parts[1..];
        NoLoopMeansAllNew(t, root, base, next, seen + {PathOf(t, root, c)}, steps - 1);
        assert Trail(t, root, cur, parts, steps)[1..] == Trail(t, root, base, next, steps - 1);
      } else {
        NoLoopMeansAllNew(t, root, c, parts[1..], seen, steps - 1);
      }
    }
  }

  /** With a loop error, the trail has repeated a path. */
  lemma {:induction false} LoopMeansRepeat<N>(t: Tree<N>, root: N, cur: N, parts: seq<string>, seen: set<string>)
    returns (steps: nat)
    requires IsAt(t, root, cur) && Lookup(t, root, cur, parts, seen) == SymlinkLoop
    ensures !AllNew(t, root, Trail(t, root, cur, parts, steps), seen)
    decreases SymlinkPaths(t, root) - seen, |parts|
  {
    if parts[0] == "." {
      steps := LoopMeansRepeat(t, root, cur, parts[1..], seen);
      steps := steps + 1;
    } else if parts[0] == ".." {
      steps := LoopMeansRepeat(t, root, ParentOf(t, root, cur), parts[1..], seen);
      steps := steps + 1;
    } else {
      var c := Child(t, root, cur, parts[0]);
      if t[c].kind.Symlink? && parts[1..] != [] {
        var base, next := LinkBase(t, root, c), SplitPath(t[c].kind.target).parts + parts[1..];
        var path := PathOf(t, root, c);
        if path in seen {
          steps := 1;
          assert Trail(t, root, cur, parts, 1)[0] == c;
        } else {
          assert path in SymlinkPaths(t, root);
          steps := LoopMeansRepeat(t, root, base, next, seen + {path});
          steps := steps + 1;
          assert Trail(t, root, cur, parts, steps)[1..] == Trail(t, root, base, next, steps - 1);
        }
      } else {
        steps := LoopMeansRepeat(t, root, c, parts[1..], seen);
        steps := steps + 1;
      }
    }
  }

  /** The loop error is raised exactly when some symlink is traversed twice. */
  lemma LoopIffTraversedTwice<N>(t: Tree<N>, root: N, cur: N, parts: seq<string>)
    requires IsAt(t, root, cur) && NamesValid(t, root)
    ensures Lookup(t, root, cur, parts, {}) == SymlinkLoop <==>
      exists steps: nat, i: nat, j: nat ::
        i < j < |Trail(t, root, cur, parts, steps)| &&
        Trail(t, root, cur, parts, steps)[i] == Trail(t, root, cur, parts, steps)[j]
  {
    if Lookup(t, root, cur, parts, {}) == SymlinkLoop {
      var steps := LoopMeansRepeat(t, root, cur, parts, {});
      var trail := Trail(t, root, cur, parts, steps);
      var i, j := RepeatAt(t, root, trail, {});
      PathsAreDistinct(t, root, trail[i], trail[j]);
      assert i < j < |Trail(t, root, cur, parts, steps)|
        && Trail(t, root, cur, parts, steps)[i] == Trail(t, root, cur, parts, steps)[j];
    } else {
      forall steps: nat, i: nat, j: nat | i < j < |Trail(t, root, cur, parts, steps)|
        ensures Trail(t, root, cur, parts, steps)[i] != Trail(t, root, cur, parts, steps)[j]
      {
        NoLoopMeansAllNew(t, root, cur, parts, {}, steps);
        AllNewDistinct(t, root, Trail(t, root, cur, parts, steps), {}, i, j);
      }
    }
  }

  // ------------------------------------------------- paths lead to their nodes

  /** A path string is the join of the names from the root. */
  lemma {:induction false} PathIsJoin<N>(t: Tree<N>, root: N, n: N)
    requires IsAt(t, root, n) && NamesValid(t, root)
    ensures PathOf(t, root, n) == Join(["."] + NamesOf(t, root, n))
    ensures AllValid(NamesOf(t, root, n))
    decreases t[n].rank
  {
    if n == root {
      assert ["."] + [] == ["."];
    } else {
      var p := ParentOf(t, root, n);
      assert UpAt(t, n);
      PathIsJoin(t, root, p);
      var above := ["."] + NamesOf(t, root, p);
      assert ["."] + NamesOf(t, root, n) == above + [t[n].name];
      JoinConcat(above, [t[n].name]);
      AboveJoinable(NamesOf(t, root, p));
      JoinEnds(above);
      assert t[n].name[0] in t[n].name;
    }
  }

  lemma AboveJoinable(names: seq<string>)
    requires AllValid(names)
    ensures AllSegments(["."] + names)
  {
    assert SlashFree(".");
  }

  lemma SplitOwnPath<N>(t: Tree<N>, root: N, n: N)
    requires IsAt(t, root, n) && NamesValid(t, root)
    ensures SplitPath(PathOf(t, root, n)) == PathParts(false, false, ["."] + NamesOf(t, root, n))
  {
    PathIsJoin(t, root, n);
    AboveJoinable(NamesOf(t, root, n));
    var parts := ["."] + NamesOf(t, root, n);
    JoinEnds(parts);
    SplitJoin(parts);
  }

  /** Names lead the resolver down to the node they belong to: directories are no symlinks. */
  lemma {:induction false} DownTo<N>(t: Tree<N>, root: N, n: N, later: seq<string>, seen: set<string>)
    requires IsAt(t, root, n) && NamesValid(t, root)
    requires later == [] || !t[n].kind.Symlink?
    ensures Lookup(t, root, root, NamesOf(t, root, n) + later, seen) == Lookup(t, root, n, later, seen)
    decreases t[n].rank
  {
    if n == root {
      assert [] + later == later;
    } else {
      var p, name := ParentOf(t, root, n), t[n].name;
      assert UpAt(t, n) && MirrorAt(t, n);
      assert DirAt(t, p);
      DownTo(t, root, p, [name] + later, seen);
      assert NamesOf(t, root, n) + later == NamesOf(t, root, p) + ([name] + later);
      assert ([name] + later)[1..] == later;
      assert ValidName(name);
    }
  }

  /** Looking up an attached node's own path from the root gives that very node. */
  lemma OwnPathLeadsHome<N>(t: Tree<N>, root: N, n: N)
    requires IsAt(t, root, n) && NamesValid(t, root)
    ensures IsAt(t, root, root) && LookupPath(t, root, root, PathOf(t, root, n)) == Reached(n)
  {
    SplitOwnPath(t, root, n);
    DownTo(t, root, n, [], {});
    assert NamesOf(t, root, n) + [] == NamesOf(t, root, n);
    assert (["."] + NamesOf(t, root, n))[1..] == NamesOf(t, root, n);
  }

  lemma PathsAreDistinct<N>(t: Tree<N>, root: N, a: N, b: N)
    requires IsAt(t, root, a) && IsAt(t, root, b) && NamesValid(t, root)
    requires PathOf(t, root, a) == PathOf(t, root, b)
    ensures a == b
  {
    OwnPathLeadsHome(t, root, a);
    OwnPathLeadsHome(t, root, b);
  }

  // ------------------------------------------------------ what symlinks lead to

  /** The parts of a path that is joined from segments. */
  lemma SplitJoined(segs: seq<string>)
    requires segs != [] && AllSegments(segs)
    ensures SplitPath(Join(segs)) == PathParts(false, false, segs)
    ensures SplitPath(Join(segs) + "/") == PathParts(false, true, segs + ["."])
    ensures SplitPath("/" + Join(segs)) == PathParts(true, false, ["."] + segs)
  {
    JoinEnds(segs);
    SplitJoin(segs);
    assert (Join(segs) + "/")[..|Join(segs)|] == Join(segs);
    assert Join(segs) + "/" != "" && EndsWithSlash(Join(segs) + "/");
    var dotted := "." + ("/" + Join(segs));
    assert dotted == "." + "/" + Join(segs);
    SplitConcat(".", Join(segs));
    SplitSlashFree(".");
    assert !EndsWithSlash(dotted) && !EndsWithSlash("/" + Join(segs));
  }

  /** Names lead the resolver down from any directory, not only from the root. */
  lemma {:induction false} DownFrom<N>(t: Tree<N>, root: N, a: N, n: N, later: seq<string>, seen: set<string>)
    requires IsAt(t, root, n) && IsAt(t, root, a) && NamesValid(t, root) && Below(t, n, a)
    requires later == [] || !t[n].kind.Symlink?
    ensures Lookup(t, root, a, NamesFrom(t, a, n) + later, seen) == Lookup(t, root, n, later, seen)
    decreases t[n].rank
  {
    if n == a {
      assert [] + later == later;
    } else {
      assert UpAt(t, n) && MirrorAt(t, n);
      if n == root {
        BelowRank(t, n, a);
      }
      var p, name := ParentOf(t, root, n), t[n].name;
      assert DirAt(t, p);
      DownFrom(t, root, a, p, [name] + later, seen);
      assert NamesFrom(t, a, n) + later == NamesFrom(t, a, p) + ([name] + later);
      assert ([name] + later)[1..] == later;
      assert ValidName(name);
    }
  }

  /** A node whose names begin with those of another is inside of that one. */
  lemma {:induction false} NamesLeadInside<N>(t: Tree<N>, root: N, a: N, n: N)
    requires IsAt(t, root, a) && IsAt(t, root, n) && NamesOf(t, root, a) <= NamesOf(t, root, n)
    ensures Below(t, n, a) && NamesOf(t, root, n) == NamesOf(t, root, a) + NamesFrom(t, a, n)
    decreases t[n].rank
  {
    assert UpAt(t, n);
    if NamesOf(t, root, a) == NamesOf(t, root, n) {
      NamesAreDistinct(t, root, a, n);
    } else {
      var p := ParentOf(t, root, n);
      assert NamesOf(t, root, n)[..|NamesOf(t, root, n)| - 1] == NamesOf(t, root, p);
      NamesLeadInside(t, root, a, p);
    }
    NamesSplit(t, root, a, n);
  }

  lemma {:induction false} NamesAreDistinct<N>(t: Tree<N>, root: N, a: N, b: N)
    requires IsAt(t, root, a) && IsAt(t, root, b) && NamesOf(t, root, a) == NamesOf(t, root, b)
    ensures a == b
    decreases t[a].rank
  {
    assert UpAt(t, a) && UpAt(t, b) && MirrorAt(t, a) && MirrorAt(t, b);
    if a != root && b != root {
      var p, q := ParentOf(t, root, a), ParentOf(t, root, b);
      assert NamesOf(t, root, a)[..|NamesOf(t, root, a)| - 1] == NamesOf(t, root, p);
      assert NamesOf(t, root, b)[..|NamesOf(t, root, b)| - 1] == NamesOf(t, root, q);
      NamesAreDistinct(t, root, p, q);
    }
  }

  /** An attached node with these names on the way from the root. */
  ghost predicate Place<N>(t: Tree<N>, root: N, n: N, names: seq<string>) {
    IsAt(t, root, n) && NamesOf(t, root, n) == names
  }

  /** Read off from a directory's names, the segments pass by nothing but nodes that are no symlinks, and
      do not leave the root directory. */
  ghost predicate Walkable<N>(t: Tree<N>, root: N, base: seq<string>, segs: seq<string>)
    decreases segs
  {
    segs == [] ||
    (if segs[0] == "." then Walkable(t, root, base, segs[1..])
     else if segs[0] == ".." then base != [] && Walkable(t, root, L.DropLast(base), segs[1..])
     else
       && segs[0] != ""
       && (exists n :: n in t && Place(t, root, n, base + [segs[0]]) && !t[n].kind.Symlink?)
       && Walkable(t, root, base + [segs[0]], segs[1..]))
  }

  /** The resolver then goes where the segments lead lexically, and on from there. */
  lemma {:induction false} WalkLeads<N>(t: Tree<N>, root: N, cur: N, segs: seq<string>, later: seq<string>,
                                        seen: set<string>)
    returns (d: N)
    requires IsAt(t, root, cur) && Walkable(t, root, NamesOf(t, root, cur), segs)
    ensures Place(t, root, d, L.Resolve(NamesOf(t, root, cur), segs))
    ensures Lookup(t, root, cur, segs + later, seen) == Lookup(t, root, d, later, seen)
    decreases segs
  {
    if segs == [] {
      assert segs + later == later;
      d := cur;
    } else {
      var rest, here := segs[1..], NamesOf(t, root, cur);
      assert (segs + later)[0] == segs[0] && (segs + later)[1..] == rest + later;
      assert UpAt(t, cur);
      if segs[0] == "." {
        d := WalkLeads(t, root, cur, rest, later, seen);
      } else if segs[0] == ".." {
        assert here[..|here| - 1] == NamesOf(t, root, ParentOf(t, root, cur));
        d := WalkLeads(t, root, ParentOf(t, root, cur), rest, later, seen);
      } else {
        var n :| n in t && Place(t, root, n, here + [segs[0]]) && !t[n].kind.Symlink?;
        EntryAt(t, root, cur, n, segs[0]);
        d := WalkLeads(t, root, n, rest, later, seen);
      }
    }
  }

  lemma EntryAt<N>(t: Tree<N>, root: N, cur: N, n: N, name: string)
    requires IsAt(t, root, cur) && Place(t, root, n, NamesOf(t, root, cur) + [name])
    ensures name in t[cur].children && Child(t, root, cur, name) == n
  {
    assert UpAt(t, n) && MirrorAt(t, n);
    var p := ParentOf(t, root, n);
    assert NamesOf(t, root, n)[..|NamesOf(t, root, n)| - 1] == NamesOf(t, root, p) == NamesOf(t, root, cur);
    NamesAreDistinct(t, root, p, cur);
  }

  /** What a symlink's target has to look like: segments that are not empty, from the root or not. */
  ghost predicate TargetOf(target: string, absolute: bool, segs: seq<string>) {
    AllSegments(segs) && if absolute then target == "/" + Join(segs) else segs != [] && target == Join(segs)
  }

  /** The parts that the resolver reads off from such a target mean the same as its segments. */
  lemma TargetParts(target: string, absolute: bool, segs: seq<string>)
    requires TargetOf(target, absolute, segs)
    ensures SplitPath(target).absolute == absolute
    ensures SplitPath(target).parts ==
      if !absolute then segs else if segs == [] then [".", "."] else ["."] + segs
    ensures forall dir :: L.PointsTo(dir, target) == L.Resolve(if absolute then [] else dir, segs)
  {
    if segs == [] {
      assert target == "/" + "" == "/";
      RootParts();
    } else {
      SplitJoined(segs);
      JoinEnds(segs);
      SplitJoin(segs);
      hide Join, SplitPath, L.Resolve;
      if absolute {
        AbsoluteSegments(Join(segs));
        forall dir ensures L.PointsTo(dir, target) == L.Resolve([], segs) {
          LeadingEmpty(segs);
        }
      }
    }
  }

  lemma RootParts()
    ensures SplitPath("/") == PathParts(true, true, [".", "."])
    ensures forall dir :: L.PointsTo(dir, "/") == L.Resolve([], [])
  {
    assert RStrip("./") == "." by {
      assert "./"[..1] == ".";
    }
    SplitSlashFree(".");
    assert "." + "/" == "./" && EndsWithSlash("/");
    assert Split("/") == [""] + Split("") == ["", ""];
    assert ["", ""][1..] == [""] && [""][1..] == [];
  }

  lemma AbsoluteSegments(s: string)
    ensures Split("/" + s) == [""] + Split(s)
  {
    assert ("/" + s)[1..] == s;
  }

  lemma LeadingEmpty(segs: seq<string>)
    ensures L.Resolve([], [""] + segs) == L.Resolve([], segs)
  {
    assert ([""] + segs)[1..] == segs;
  }

  /** Without symlinks on the way, a path means what it says lexically, read off from the directory that
      the lookup starts in or from the root directory. */
  lemma PathWithoutLinks<N>(t: Tree<N>, root: N, from: N, path: string, absolute: bool, segs: seq<string>, d: N)
    requires IsAt(t, root, from) && IsAt(t, root, root) && TargetOf(path, absolute, segs)
    requires var base := if absolute then [] else NamesOf(t, root, from);
      Walkable(t, root, base, segs) && Place(t, root, d, L.Resolve(base, segs))
    ensures LookupPath(t, root, from, path) == Reached(d)
  {
    var start := if absolute then root else from;
    var parts := SplitPath(path).parts;
    TargetParts(path, absolute, segs);
    var e := WalkLeads(t, root, start, segs, [], {});
    NamesAreDistinct(t, root, d, e);
    assert parts + [] == parts && segs + [] == segs;
    LeadingDots(t, root, start, absolute, segs, parts, [], {});
  }

  lemma SplitSlashed(segs: seq<string>, slash: bool)
    requires segs != [] && AllSegments(segs)
    ensures SplitPath(Join(segs) + (if slash then "/" else "")) ==
      PathParts(false, slash, if slash then segs + ["."] else segs)
  {
    SplitJoined(segs);
    assert Join(segs) + "" == Join(segs);
  }

  /** Where names lead down to a directory that lacks the next one, that and all that follows is missing,
      whether the path ends in a slash or not. */
  lemma PathMissing<N>(t: Tree<N>, root: N, from: N, names: seq<string>, more: seq<string>, slash: bool, d: N)
    requires IsAt(t, root, from) && AllValid(names) && AllValid(more) && more != []
    requires Walkable(t, root, NamesOf(t, root, from), names) && Place(t, root, d, NamesOf(t, root, from) + names)
    requires more[0] !in t[d].children
    ensures LookupPath(t, root, from, Join(names + more) + (if slash then "/" else "")) == Missing(d, more)
  {
    var segs, path := names + more, Join(names + more) + (if slash then "/" else "");
    var later := if slash then more + ["."] else more;
    hide Walkable, Lookup, SplitPath, Join;
    RootAttached(t, root);
    SplitSlashed(segs, slash);
    assert if slash then segs + ["."] == names + later else segs == names + later;
    L.ResolveNames(NamesOf(t, root, from), names);
    var e := WalkLeads(t, root, from, names, later, {});
    NamesAreDistinct(t, root, d, e);
    NextIsMissing(t, root, d, later);
  }

  lemma NextIsMissing<N>(t: Tree<N>, root: N, d: N, parts: seq<string>)
    requires IsAt(t, root, d) && parts != [] && ValidName(parts[0]) && parts[0] !in t[d].children
    ensures forall seen :: Lookup(t, root, d, parts, seen) == Missing(d, parts)
  {
  }

  /** A doubled slash asks for an entry with an empty name, which only a directory made in the same way has. */
  lemma DoubledSlash<N>(t: Tree<N>, root: N, from: N, names: seq<string>, more: seq<string>, d: N)
    requires IsAt(t, root, from) && AllValid(names) && AllValid(more) && names != [] && more != []
    requires Walkable(t, root, NamesOf(t, root, from), names) && Place(t, root, d, NamesOf(t, root, from) + names)
    requires "" !in t[d].children
    ensures LookupPath(t, root, from, Join(names) + "//" + Join(more)) == Missing(d, [""] + more)
  {
    var later := [""] + more;
    hide Walkable, Lookup;
    RootAttached(t, root);
    SplitDoubled(names, more);
    L.ResolveNames(NamesOf(t, root, from), names);
    var e := WalkLeads(t, root, from, names, later, {});
    NamesAreDistinct(t, root, d, e);
    EmptyIsMissing(t, root, d, later);
  }

  lemma SplitDoubled(names: seq<string>, more: seq<string>)
    requires AllSegments(names) && AllSegments(more) && names != [] && more != []
    ensures SplitPath(Join(names) + "//" + Join(more)) == PathParts(false, false, names + ([""] + more))
  {
    JoinEnds(names);
    JoinEnds(more);
    SplitJoin(names);
    SplitJoin(more);
    hide Join;
    DoubledParts(Join(names), Join(more));
  }

  lemma DoubledParts(a: string, b: string)
    requires a != "" && a[0] != '/' && b != "" && !EndsWithSlash(b)
    ensures SplitPath(a + "//" + b) == PathParts(false, false, Split(a) + ([""] + Split(b)))
  {
    var path := a + "//" + b;
    assert path[|path| - 1] == b[|b| - 1] && path[0] == a[0];
    assert path == a + "/" + ("" + "/" + b);
    SplitConcat(a, "" + "/" + b);
    SplitConcat("", b);
    hide Split;
  }

  lemma EmptyIsMissing<N>(t: Tree<N>, root: N, d: N, parts: seq<string>)
    requires IsAt(t, root, d) && parts != [] && parts[0] == "" && parts[0] !in t[d].children
    ensures forall seen :: Lookup(t, root, d, parts, seen) == Missing(d, parts)
  {
  }

  /** A path that goes up from the root directory is refused, other than by an operating system. */
  lemma PathAboveRoot<N>(t: Tree<N>, root: N, from: N, path: string, absolute: bool, segs: seq<string>,
                         more: seq<string>)
    requires IsAt(t, root, from) && IsAt(t, root, root) && TargetOf(path, absolute, segs + [".."] + more)
    requires var base := if absolute then [] else NamesOf(t, root, from);
      Walkable(t, root, base, segs) && L.Resolve(base, segs) == []
    ensures LookupPath(t, root, from, path) == EscapesRoot
  {
    var start := if absolute then root else from;
    var parts, later := SplitPath(path).parts, [".."] + more;
    hide TargetOf, Walkable, SplitPath, Lookup;
    assert segs + [".."] + more == segs + later;
    TargetParts(path, absolute, segs + later);
    var e := WalkLeads(t, root, start, segs, later, {});
    NamesAreDistinct(t, root, root, e);
    assert parts + [] == parts && (segs + later) + [] == segs + later;
    LeadingDots(t, root, start, absolute, segs + later, parts, [], {});
    UpFromRoot(t, root, more);
    LookupOfPath(t, root, from, path);
  }

  lemma UpFromRoot<N>(t: Tree<N>, root: N, more: seq<string>)
    requires IsAt(t, root, root)
    ensures Lookup(t, root, root, [".."] + more, {}) == EscapesRoot
  {
  }

  lemma LookupOfPath<N>(t: Tree<N>, root: N, from: N, path: string)
    requires IsAt(t, root, from) && IsAt(t, root, root)
    ensures var p := SplitPath(path);
      LookupPath(t, root, from, path) ==
      WithoutSentinel(Lookup(t, root, if p.absolute then root else from, p.parts, {}), p.mustBeDir)
  {
  }

  /** At a symlink with more to come, the resolver goes on from where the target leads. */
  lemma AtLink<N>(t: Tree<N>, root: N, link: N, absolute: bool, segs: seq<string>, d: N, later: seq<string>)
    requires IsAt(t, root, link) && NamesValid(t, root) && link != root && t[link].kind.Symlink?
    requires TargetOf(t[link].kind.target, absolute, segs) && later != []
    requires Walkable(t, root, if absolute then [] else L.LinkDir(NamesOf(t, root, link)), segs)
    requires Place(t, root, d, L.PointsTo(L.LinkDir(NamesOf(t, root, link)), t[link].kind.target))
    ensures IsAt(t, root, root)
    ensures exists seen :: Lookup(t, root, root, NamesOf(t, root, link) + later, {}) == Lookup(t, root, d, later, seen)
  {
    var p, name, target := ParentOf(t, root, link), t[link].name, t[link].kind.target;
    assert UpAt(t, link) && MirrorAt(t, link) && DirAt(t, p) && ValidName(name);
    assert NamesOf(t, root, link)[..|NamesOf(t, root, link)| - 1] == NamesOf(t, root, p);
    assert NamesOf(t, root, link) + later == NamesOf(t, root, p) + ([name] + later);
    DownTo(t, root, p, [name] + later, {});
    assert ([name] + later)[1..] == later;
    TargetParts(target, absolute, segs);
    var base, parts, seen := LinkBase(t, root, link), SplitPath(target).parts, {PathOf(t, root, link)};
    assert Child(t, root, p, name) == link && {} + seen == seen;
    assert Lookup(t, root, p, [name] + later, {}) == Lookup(t, root, base, parts + later, seen);
    LeadingDots(t, root, base, absolute, segs, parts, later, seen);
    var e := WalkLeads(t, root, base, segs, later, seen);
    NamesAreDistinct(t, root, d, e);
  }

  lemma LeadingDots<N>(t: Tree<N>, root: N, base: N, absolute: bool, segs: seq<string>, parts: seq<string>,
                       later: seq<string>, seen: set<string>)
    requires IsAt(t, root, base)
    requires parts == if !absolute then segs else if segs == [] then [".", "."] else ["."] + segs
    ensures Lookup(t, root, base, parts + later, seen) == Lookup(t, root, base, segs + later, seen)
  {
    hide Lookup;
    if absolute {
      LookupDot(t, root, base, segs + later, seen);
      if segs == [] {
        assert parts + later == ["."] + (["."] + later) && segs + later == later;
        LookupDot(t, root, base, ["."] + later, seen);
      } else {
        assert parts + later == ["."] + (segs + later);
      }
    }
  }

  lemma LookupDot<N>(t: Tree<N>, root: N, base: N, parts: seq<string>, seen: set<string>)
    requires IsAt(t, root, base)
    ensures Lookup(t, root, base, ["."] + parts, seen) == Lookup(t, root, base, parts, seen)
  {
    assert (["."] + parts)[1..] == parts;
  }

  /** A path through a symlink leads to what is inside of the directory that the target means, read
      lexically: from the root directory, or from the directory that the symlink is in. */
  lemma PathThroughLink<N>(t: Tree<N>, root: N, link: N, absolute: bool, segs: seq<string>, d: N, x: N)
    requires IsAt(t, root, link) && NamesValid(t, root) && link != root && t[link].kind.Symlink?
    requires TargetOf(t[link].kind.target, absolute, segs)
    requires Walkable(t, root, if absolute then [] else L.LinkDir(NamesOf(t, root, link)), segs)
    requires Place(t, root, d, L.PointsTo(L.LinkDir(NamesOf(t, root, link)), t[link].kind.target))
    requires x in t && Below(t, x, d)
    ensures IsAt(t, root, root)
    ensures LookupPath(t, root, root, PathOf(t, root, link) + "/" + Join(NamesFrom(t, d, x))) == Reached(x)
  {
    hide Walkable, TargetOf, SplitPath, PathOf, Join, Lookup, NamesFrom;
    var ns, rel := NamesOf(t, root, link), NamesFrom(t, d, x);
    var later := if rel == [] then ["."] else rel;
    InsideIsReached(t, root, d, x);
    SplitFurther(t, root, link, rel);
    AtLink(t, root, link, absolute, segs, d, later);
    LookupDot(t, root, root, ns + later, {});
    assert ["."] + ns + later == ["."] + (ns + later);
  }

  lemma InsideIsReached<N>(t: Tree<N>, root: N, d: N, x: N)
    requires IsAt(t, root, d) && NamesValid(t, root) && x in t && Below(t, x, d)
    ensures var rel := NamesFrom(t, d, x);
      var later := if rel == [] then ["."] else rel;
      AllValid(rel) && forall seen :: Lookup(t, root, d, later, seen) == Reached(x)
  {
    var rel := NamesFrom(t, d, x);
    NamesSplit(t, root, d, x);
    PathIsJoin(t, root, x);
    assert forall i :: 0 <= i < |rel| ==> rel[i] == NamesOf(t, root, x)[|NamesOf(t, root, d)| + i];
    var later := if rel == [] then ["."] else rel;
    forall seen ensures Lookup(t, root, d, later, seen) == Reached(x) {
      assert rel + [] == rel;
      DownFrom(t, root, d, x, [], seen);
      assert ["."][1..] == [];
    }
  }

  /** The parts of a node's path with more names behind it; the empty string asks for a directory. */
  lemma SplitFurther<N>(t: Tree<N>, root: N, n: N, rel: seq<string>)
    requires IsAt(t, root, n) && NamesValid(t, root) && AllValid(rel)
    ensures var p := SplitPath(PathOf(t, root, n) + "/" + Join(rel));
      && !p.absolute && (p.mustBeDir <==> rel == [])
      && p.parts == ["."] + NamesOf(t, root, n) + (if rel == [] then ["."] else rel)
  {
    var dotted := ["."] + NamesOf(t, root, n);
    PathIsJoin(t, root, n);
    AboveJoinable(NamesOf(t, root, n));
    if rel == [] {
      SplitJoined(dotted);
      assert PathOf(t, root, n) + "/" + "" == Join(dotted) + "/";
    } else {
      JoinConcat(dotted, rel);
      SplitJoined(dotted + rel);
    }
  }

  // ------------------------------------------------ what rewritten symlinks lead to

  lemma {:induction false} AncestorPlace<N>(t: Tree<N>, root: N, d: N, k: nat) returns (a: N)
    requires IsAt(t, root, d) && k <= |NamesOf(t, root, d)|
    ensures a in t && Place(t, root, a, NamesOf(t, root, d)[..k]) && (a == d || t[a].kind.Directory?)
    decreases t[d].rank
  {
    assert UpAt(t, d) && MirrorAt(t, d);
    if k == |NamesOf(t, root, d)| {
      a := d;
      assert NamesOf(t, root, d)[..k] == NamesOf(t, root, d);
    } else {
      var p := ParentOf(t, root, d);
      assert NamesOf(t, root, d)[..|NamesOf(t, root, d)| - 1] == NamesOf(t, root, p);
      assert NamesOf(t, root, d)[..k] == NamesOf(t, root, p)[..k];
      assert DirAt(t, p);
      a := AncestorPlace(t, root, p, k);
    }
  }

  lemma {:induction false} WalkableNames<N>(t: Tree<N>, root: N, d: N, base: seq<string>, names: seq<string>)
    requires Place(t, root, d, base + names) && NamesValid(t, root) && !t[d].kind.Symlink?
    ensures Walkable(t, root, base, names)
    decreases names
  {
    if names != [] {
      PathIsJoin(t, root, d);
      assert (base + names)[|base|] == names[0];
      var n := AncestorPlace(t, root, d, |base| + 1);
      assert (base + names)[..|base| + 1] == base + [names[0]];
      assert (base + [names[0]]) + names[1..] == base + names;
      WalkableNames(t, root, d, base + [names[0]], names[1..]);
    }
  }

  lemma {:induction false} WalkableUps<N>(t: Tree<N>, root: N, base: seq<string>, k: nat, segs: seq<string>)
    requires k <= |base| && Walkable(t, root, base[..|base| - k], segs)
    ensures Walkable(t, root, base, L.Ups(k) + segs)
    decreases k
  {
    if k == 0 {
      assert base[..|base| - 0] == base && L.Ups(0) + segs == segs;
    } else {
      assert (L.Ups(k) + segs)[1..] == L.Ups(k - 1) + segs;
      assert L.DropLast(base)[..|base| - k] == base[..|base| - k];
      WalkableUps(t, root, L.DropLast(base), k - 1, segs);
    }
  }

  /** Once a symlink has been rewritten as Debian Policy asks for it, paths through it lead to what is
      inside of the directory that the original target meant. */
  lemma PathThroughRewrittenLink<N>(t: Tree<N>, root: N, link: N, original: string, d: N, x: N)
    requires IsAt(t, root, link) && NamesValid(t, root) && link != root
    requires t[link].kind == Symlink(L.PolicyTarget(Join(NamesOf(t, root, link)), original))
    requires Place(t, root, d, L.PointsTo(L.LinkDir(NamesOf(t, root, link)), original)) && !t[d].kind.Symlink?
    requires !(NamesOf(t, root, link) <= NamesOf(t, root, d))
    requires x in t && Below(t, x, d)
    ensures IsAt(t, root, root)
    ensures LookupPath(t, root, root, PathOf(t, root, link) + "/" + Join(NamesFrom(t, d, x))) == Reached(x)
  {
    var ns, names := NamesOf(t, root, link), NamesOf(t, root, d);
    PathIsJoin(t, root, link);
    PathIsJoin(t, root, d);
    L.MeaningKept(ns, original);
    L.TargetSegmentsMeaning(ns, original);
    L.SplitJoinNames(ns);
    L.SplitJoinNames(names);
    if names == [] || ns[0] != names[0] {
      L.AbsoluteForm(ns, names);
      assert [] + names == names;
      WalkableNames(t, root, d, [], names);
      PathThroughLink(t, root, link, true, names, d, x);
    } else {
      L.RelativeFormIsJoin(ns, names);
      L.RelativeSegmentsJoinable(ns, names);
      RelativeWalkable(t, root, ns, d);
      PathThroughLink(t, root, link, false, L.RelativeSegments(ns, names), d, x);
    }
  }

  lemma DotWalkable<N>(t: Tree<N>, root: N, base: seq<string>)
    ensures Walkable(t, root, base, ["."])
  {
  }

  /** The relative form in terms of what the two paths share. */
  lemma CommonParts(ns: seq<string>, names: seq<string>)
    requires ns != [] && !(ns <= names)
    ensures var c, dir := L.Common(ns, names), L.LinkDir(ns);
      && c <= |dir| && c <= |names| && names == names[..c] + names[c..] && dir[..|dir| - (|dir| - c)] == names[..c]
      && L.RelativeSegments(ns, names) == if names == dir then ["."] else L.Ups(|dir| - c) + names[c..]
  {
    var c := L.Common(ns, names);
    assert ns[..c] == names[..c];
    assert c < |ns| && L.LinkDir(ns)[..c] == ns[..c];
  }

  lemma RelativeWalkable<N>(t: Tree<N>, root: N, ns: seq<string>, d: N)
    requires IsAt(t, root, d) && NamesValid(t, root) && !t[d].kind.Symlink?
    requires ns != [] && !(ns <= NamesOf(t, root, d))
    ensures L.Common(ns, NamesOf(t, root, d)) < |ns|
    ensures Walkable(t, root, L.LinkDir(ns), L.RelativeSegments(ns, NamesOf(t, root, d)))
  {
    var names := NamesOf(t, root, d);
    CommonParts(ns, names);
    DotWalkable(t, root, L.LinkDir(ns));
    var c, dir := L.Common(ns, names), L.LinkDir(ns);
    assert Place(t, root, d, names[..c] + names[c..]);
    hide *;
    WalkableNames(t, root, d, names[..c], names[c..]);
    WalkableUps(t, root, dir, |dir| - c, names[c..]);
  }

  // ------------------------------------------- creating what a path is missing

  /** Nothing that was in the tree has moved, been renamed or been removed. */
  ghost predicate Grown<N>(t: Tree<N>, u: Tree<N>) {
    forall x {:trigger GrownAt(t, u, x)} :: x in t ==> GrownAt(t, u, x)
  }

  ghost predicate GrownAt<N>(t: Tree<N>, u: Tree<N>, x: N)
    requires x in t
  {
    && x in u && u[x].name == t[x].name && u[x].parent == t[x].parent && u[x].kind == t[x].kind
    && forall k :: k in t[x].children ==> k in u[x].children && u[x].children[k] == t[x].children[k]
  }

  lemma GrownTransitive<N>(a: Tree<N>, b: Tree<N>, c: Tree<N>)
    requires Grown(a, b) && Grown(b, c)
    ensures Grown(a, c)
  {
    forall x | x in a ensures GrownAt(a, c, x) {
      assert GrownAt(a, b, x) && GrownAt(b, c, x);
    }
  }

  /** In a tree that has grown, everything is attached and named as before. */
  lemma GrownKeepsPlaces<N>(t: Tree<N>, u: Tree<N>, root: N, x: N)
    requires IsAt(t, root, x) && Grown(t, u) && Wf(u, root, {})
    ensures IsAt(u, root, x) && NamesOf(u, root, x) == NamesOf(t, root, x) && PathOf(u, root, x) == PathOf(t, root, x)
  {
    forall y | y in t ensures y in u && u[y].parent == t[y].parent && u[y].name == t[y].name {
      assert GrownAt(t, u, y);
    }
    NamesFrame(t, u, root, x, {});
    ChainFrame(t, u, root, x, {});
  }

  /** A creation that replaces nothing adds one entry to one directory. */
  lemma CreatedShape<N>(t: Tree<N>, root: N, n: N, p: N, name: string, kind: Kind)
    requires Wf(t, root, {}) && MayCreate(t, root, n, p) && name !in t[p].children
    ensures var u := Created(t, root, n, p, name, kind);
      && Wf(u, root, {}) && Grown(t, u) && IsAt(u, root, n)
      && u.Keys == t.Keys + {n} && u[n].children == map[] && u[n].kind == kind && u[n].parent == Some(p)
      && name in u[p].children && u[p].children[name] == n
      && u[p].children.Keys == t[p].children.Keys + {name}
      && forall x :: x in t && x != p ==> u[x].children == t[x].children
  {
    var f := Fresh(t, n, name, kind);
    MayMoveFresh(t, root, n, p, name, kind);
    MovedKeeps(f, root, n, p);
    HungUpKeeps(f, root, n, p);
    var h, u := HungUp(f, root, n, p), Created(t, root, n, p, name, kind);
    assert Unlinked(f, root, n) == f;
    assert h[p].children == t[p].children;
    assert u == Linked(h, p, n);
    forall x | x in t ensures GrownAt(t, u, x) && (x != p ==> u[x].children == t[x].children) {
      assert x != n;
    }
    assert UpAt(u, n);
    ChainFrame(t, u, root, p, {});
  }

  /** The step that the resolver takes from a child that exists. */
  ghost function AfterChild<N>(t: Tree<N>, root: N, cur: N, parts: seq<string>,
                               seen: set<string>): (N, seq<string>, set<string>)
    requires IsAt(t, root, cur) && parts != [] && parts[0] in t[cur].children
  {
    var c := Child(t, root, cur, parts[0]);
    if t[c].kind.Symlink? && parts[1..] != [] then
      (LinkBase(t, root, c), SplitPath(t[c].kind.target).parts + parts[1..], seen + {PathOf(t, root, c)})
    else (c, parts[1..], seen)
  }

  /** What is missing starts with a name that the directory reached so far does not have. */
  lemma {:induction false} MissingStart<N>(t: Tree<N>, root: N, cur: N, parts: seq<string>, seen: set<string>)
    requires IsAt(t, root, cur) && Lookup(t, root, cur, parts, seen).Missing?
    ensures var r := Lookup(t, root, cur, parts, seen);
      && IsAt(t, root, r.at) && r.rest != [] && r.rest[0] !in {".", ".."} && r.rest[0] !in t[r.at].children
      && r.rest[|r.rest| - 1] == parts[|parts| - 1]
    decreases SymlinkPaths(t, root) - seen, |parts|
  {
    if parts[0] == "." {
      MissingStart(t, root, cur, parts[1..], seen);
    } else if parts[0] == ".." {
      MissingStart(t, root, ParentOf(t, root, cur), parts[1..], seen);
    } else if parts[0] in t[cur].children {
      MissingStartPast(t, root, cur, parts, seen);
    }
  }

  lemma {:induction false} MissingStartPast<N>(t: Tree<N>, root: N, cur: N, parts: seq<string>, seen: set<string>)
    requires IsAt(t, root, cur) && Lookup(t, root, cur, parts, seen).Missing?
    requires parts != [] && parts[0] !in {".", ".."} && parts[0] in t[cur].children
    ensures var r := Lookup(t, root, cur, parts, seen);
      && IsAt(t, root, r.at) && r.rest != [] && r.rest[0] !in {".", ".."} && r.rest[0] !in t[r.at].children
      && r.rest[|r.rest| - 1] == parts[|parts| - 1]
    decreases SymlinkPaths(t, root) - seen, |parts|, 0
  {
    var c := Child(t, root, cur, parts[0]);
    var (next, pending, seen') := AfterChild(t, root, cur, parts, seen);
    if seen' != seen {
      assert PathOf(t, root, c) in SymlinkPaths(t, root);
    }
    MissingStart(t, root, next, pending, seen');
  }

  lemma {:induction false} MissingSlashFree<N>(t: Tree<N>, root: N, cur: N, parts: seq<string>, seen: set<string>)
    requires IsAt(t, root, cur) && Lookup(t, root, cur, parts, seen).Missing? && AllSlashFree(parts)
    ensures AllSlashFree(Lookup(t, root, cur, parts, seen).rest)
    decreases SymlinkPaths(t, root) - seen, |parts|
  {
    if parts[0] == "." {
      MissingSlashFree(t, root, cur, parts[1..], seen);
    } else if parts[0] == ".." {
      MissingSlashFree(t, root, ParentOf(t, root, cur), parts[1..], seen);
    } else if parts[0] in t[cur].children {
      var c := Child(t, root, cur, parts[0]);
      var (next, pending, seen') := AfterChild(t, root, cur, parts, seen);
      if t[c].kind.Symlink? && parts[1..] != [] {
        TargetPartsSlashFree(t[c].kind.target);
        assert PathOf(t, root, c) in SymlinkPaths(t, root);
      }
      MissingSlashFree(t, root, next, pending, seen');
    }
  }

  lemma TargetPartsSlashFree(target: string)
    ensures AllSlashFree(SplitPath(target).parts)
  {
    assert SlashFree(".");
  }

  /** The directory made for the first missing part is where the resolver goes on. */
  lemma {:induction false} LookupAfterCreate<N>(
      t: Tree<N>, u: Tree<N>, root: N, n: N, at: N, cur: N, parts: seq<string>, seen: set<string>, name: string,
        more: seq<string>)
    returns (seen': set<string>)
    requires IsAt(t, root, cur) && MayCreate(t, root, n, at) && name !in t[at].children && name !in {".", ".."}
    requires u == Created(t, root, n, at, name, Directory)
    requires Lookup(t, root, cur, parts, seen) == Missing(at, [name] + more)
    ensures IsAt(u, root, cur) && IsAt(u, root, n)
    ensures Lookup(u, root, cur, parts, seen) == Lookup(u, root, n, more, seen')
    decreases SymlinkPaths(t, root) - seen, |parts|
  {
    CreatedShape(t, root, n, at, name, Directory);
    GrownKeepsPlaces(t, u, root, cur);
    assert GrownAt(t, u, cur);
    if parts[0] == "." {
      seen' := LookupAfterCreate(t, u, root, n, at, cur, parts[1..], seen, name, more);
    } else if parts[0] == ".." {
      seen' := LookupAfterCreate(t, u, root, n, at, ParentOf(t, root, cur), parts[1..], seen, name, more);
    } else if parts[0] !in t[cur].children {
      assert parts == [name] + more && parts[1..] == more;
      seen' := seen;
    } else {
      var c := Child(t, root, cur, parts[0]);
      GrownKeepsPlaces(t, u, root, c);
      assert GrownAt(t, u, c);
      if t[c].kind.Symlink? && parts[1..] != [] {
        var path := PathOf(t, root, c);
        assert path in SymlinkPaths(t, root);
        var base, next := LinkBase(t, root, c), SplitPath(t[c].kind.target).parts + parts[1..];
        seen' := LookupAfterCreate(t, u, root, n, at, base, next, seen + {path}, name, more);
      } else {
        seen' := LookupAfterCreate(t, u, root, n, at, c, parts[1..], seen, name, more);
      }
    }
  }
}
