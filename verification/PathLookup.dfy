/** The loops that look up and create paths in the virtual file system.  They work on
    the objects of the tree; what they compute is said by the functions of Resolution,
    which work on snapshots.  The getter of a path may fill caches on the way, and
    nothing else changes in a lookup.  Creating what is missing only ever adds nodes. */
module PathLookup {
  import opened Strings
  import opened FsTree
  import opened VirtualFs
  import opened Resolution

  datatype LookupError =
    | Detached | OutsideOfRoot | TraversedTwice | InTheWay | PartNotAllowed | Refused(error: FsError)

  /** The nodes make up the tree t; only caches may still change. */
  ghost predicate Shows(t: Tree<FSPath>, S: set<FSPath>, root: FSPath)
    reads S
  {
    Snap(S) == t && OneRoot(S, root) && CachesOk(S, {})
  }

  /** The top of the tree that a node is in. */
  method RootOf(path: FSPath, ghost t: Tree<FSPath>, ghost S: set<FSPath>, ghost root: FSPath) returns (top: FSPath)
    requires IsAt(t, root, path) && Shows(t, S, root)
    ensures top == root
  {
    top := path;
    assert UpAt(t, top);
    while top.parentDir != null
      invariant top in S && Attached(t, root, top) && UpAt(t, top)
      decreases top.rank
    {
      assert t[top] == top.View();
      OneUp(t, root, top);
      top := top.parentDir;
      assert UpAt(t, top);
    }
    assert t[top] == top.View();
  }

  /** What the outcome of a resolution is for the caller: a node and what is missing from there. */
  ghost predicate Answers(o: Resolved<FSPath>, r: Result<(FSPath, seq<string>), LookupError>) {
    match o
    case Reached(n) => r == Success((n, []))
    case Missing(at, rest) => r == Success((at, rest))
    case EscapesRoot => r == Failure(OutsideOfRoot)
    case SymlinkLoop => r == Failure(TraversedTwice)
  }

  /** The parts of a symlink's target go on top of what is pending. */
  method ExpandSymlink(link: FSPath, pending: seq<string>, ghost t: Tree<FSPath>, ghost S: set<FSPath>,
                       ghost root: FSPath)
    returns (base: FSPath, stack: seq<string>)
    requires IsAt(t, root, link) && Shows(t, S, root) && link != root && link.kind.Symlink?
    ensures t[link].kind == link.kind && base == LinkBase(t, root, link)
    ensures base == if StartsWith(link.kind.target, "/") then root else link.parentDir
    ensures Reverse(stack) == SplitPath(link.kind.target).parts + Reverse(pending)
  {
    var target := SplitPath(link.kind.target);
    assert t[link] == link.View();
    if target.absolute {
      base := RootOf(link, t, S, root);
    } else {
      OneUp(t, root, link);
      base := link.parentDir;
    }
    ReversePush(pending, target.parts);
    stack := pending + Reverse(target.parts);
  }

  /** The `parent_dir` getter of an attached node. */
  method ParentDirOf(n: FSPath, ghost t: Tree<FSPath>, ghost S: set<FSPath>, ghost root: FSPath) returns (p: FSPath?)
    requires IsAt(t, root, n) && Shows(t, S, root)
    ensures n == root ==> p == null
    ensures n != root ==> p == ParentOf(t, root, n)
  {
    assert t[n] == n.View();
    if n != root {
      OneUp(t, root, n);
    }
    p := n.parentDir;
  }

  /** The `[]` lookup of a child. */
  method Get(dir: FSPath, name: string, ghost t: Tree<FSPath>, ghost S: set<FSPath>, ghost root: FSPath)
    returns (c: FSPath?)
    requires IsAt(t, root, dir) && Shows(t, S, root)
    ensures c == null <==> name !in t[dir].children
    ensures c != null ==> c == Child(t, root, dir, name)
  {
    assert t[dir] == dir.View();
    if name in dir.children {
      assert Child(t, root, dir, name) == dir.children[name];
      c := dir.children[name];
    } else {
      c := null;
    }
  }

  /** The resolver enters a child: a symlink with parts pending is expanded, but only once. */
  method Enter(child: FSPath, pending: seq<string>, expansions: set<string>,
               ghost t: Tree<FSPath>, ghost S: set<FSPath>, ghost root: FSPath)
    returns (next: FSPath, stack: seq<string>, expanded: set<string>, loop: bool)
    requires IsAt(t, root, child) && Shows(t, S, root) && child != root
    modifies S`pathCache, S`parentPathCache
    ensures Shows(t, S, root)
    ensures !t[child].kind.Symlink? || pending == [] ==>
      !loop && next == child && stack == pending && expanded == expansions
    ensures t[child].kind.Symlink? && pending != [] ==>
      && loop == (PathOf(t, root, child) in expansions) && expanded == expansions + {PathOf(t, root, child)}
      && next == LinkBase(t, root, child)
      && Reverse(stack) == SplitPath(t[child].kind.target).parts + Reverse(pending)
  {
    assert t[child] == child.View();
    next, stack, expanded, loop := child, pending, expansions, false;
    if child.kind.Symlink? && pending != [] {
      var childPath := child.Path(S, root, {});
      loop := childPath.value in expansions;
      expanded := expansions + {childPath.value};
      next, stack := ExpandSymlink(child, pending, t, S, root);
    }
  }

  /** `attempt_lookup`: the pending parts are a stack with its top at the end.  The getter of
      the path may fill caches, but nothing else changes. */
  method AttemptLookup(self: FSPath, path: string, ghost S: set<FSPath>, ghost root: FSPath)
    returns (r: Result<(FSPath, seq<string>), LookupError>)
    requires Ready(S, root, {}) && self in S
    modifies S`pathCache, S`parentPathCache
    ensures Snap(S) == old(Snap(S)) && Ready(S, root, {})
    ensures if !Attached(Snap(S), root, self) then r == Failure(Detached)
      else Answers(LookupPath(Snap(S), root, self, path), r)
  {
    if self.IsDetached(S, root) {
      return Failure(Detached);
    }
    ghost var t := Snap(S);
    RootAttached(t, root);
    var p := SplitPath(path);
    var from := self;
    if p.absolute {
      from := RootOf(self, t, S, root);
    }
    r := WorkOff(from, p, t, S, root);
  }

  /** The loop of `attempt_lookup`. */
  method WorkOff(from: FSPath, p: PathParts, ghost t: Tree<FSPath>, ghost S: set<FSPath>, ghost root: FSPath)
    returns (r: Result<(FSPath, seq<string>), LookupError>)
    requires IsAt(t, root, from) && Shows(t, S, root)
    modifies S`pathCache, S`parentPathCache
    ensures Shows(t, S, root)
    ensures Answers(WithoutSentinel(Lookup(t, root, from, p.parts, {}), p.mustBeDir), r)
  {
    var current: FSPath, pending: seq<string>, expansions: set<string> := from, Reverse(p.parts), {};
    assert Reverse(pending) == p.parts;
    while pending != []
      invariant Shows(t, S, root) && IsAt(t, root, current)
      invariant Lookup(t, root, current, Reverse(pending), expansions) == Lookup(t, root, from, p.parts, {})
      decreases SymlinkPaths(t, root) - expansions, |pending|
    {
      var done;
      current, pending, expansions, done := Advance(current, pending, expansions, p.mustBeDir, t, S, root);
      if done.Some? {
        return done.value;
      }
    }
    assert Reverse(pending) == [];
    r := Success((current, []));
  }

  /** One turn of the loop: either the answer, or a next state with the same answer. */
  method Advance(current: FSPath, pending: seq<string>, expansions: set<string>, mustBeDir: bool,
                 ghost t: Tree<FSPath>, ghost S: set<FSPath>, ghost root: FSPath)
    returns (next: FSPath, stack: seq<string>, expanded: set<string>,
             done: Option<Result<(FSPath, seq<string>), LookupError>>)
    requires IsAt(t, root, current) && Shows(t, S, root) && pending != []
    modifies S`pathCache, S`parentPathCache
    ensures Shows(t, S, root)
    ensures done.Some? ==>
      Answers(WithoutSentinel(Lookup(t, root, current, Reverse(pending), expansions), mustBeDir), done.value)
    ensures done == None ==> IsAt(t, root, next)
    ensures done == None ==>
      Lookup(t, root, next, Reverse(stack), expanded) == Lookup(t, root, current, Reverse(pending), expansions)
    ensures done == None ==>
      (SymlinkPaths(t, root) - expanded < SymlinkPaths(t, root) - expansions
       || (expanded == expansions && |stack| < |pending|))
  {
    var dirPart, rest := pending[|pending| - 1], pending[..|pending| - 1];
    ReverseTop(pending);
    assert Reverse(pending)[1..] == Reverse(rest);
    next, stack, expanded, done := current, rest, expansions, None;
    if dirPart == "." {
    } else if dirPart == ".." {
      var above := ParentDirOf(current, t, S, root);
      if above == null {
        done := Some(Failure(OutsideOfRoot));
      } else {
        next := above;
      }
    } else {
      var child := Get(current, dirPart, t, S, root);
      if child == null {
        var missing := Reverse(rest + [dirPart]);
        assert missing == Reverse(pending);
        done := Some(Success((current, if mustBeDir then missing[..|missing| - 1] else missing)));
      } else {
        var loop;
        next, stack, expanded, loop := Enter(child, rest, expansions, t, S, root);
        if loop {
          done := Some(Failure(TraversedTwice));
        }
      }
    }
  }

  /** `lookup`: only a path that is there completely is an answer. */
  method LookupNode(self: FSPath, path: string, ghost S: set<FSPath>, ghost root: FSPath)
    returns (r: Result<Option<FSPath>, LookupError>)
    requires Ready(S, root, {}) && self in S
    modifies S`pathCache, S`parentPathCache
    ensures Snap(S) == old(Snap(S)) && Ready(S, root, {})
    ensures !Attached(Snap(S), root, self) ==> r == Failure(Detached)
    ensures Attached(Snap(S), root, self) ==>
      match LookupPath(Snap(S), root, self, path)
      case Reached(n) => r == Success(Some(n))
      case Missing(_, _) => r == Success(None)
      case EscapesRoot => r == Failure(OutsideOfRoot)
      case SymlinkLoop => r == Failure(TraversedTwice)
  {
    if Attached(Snap(S), root, self) {
      SomethingIsMissing(Snap(S), root, self, path);
    }
    var found := AttemptLookup(self, path, S, root);
    if found.Failure? {
      return Failure(found.error);
    }
    r := Success(if found.value.1 != [] then None else Some(found.value.0));
  }

  // ------------------------------------------------------------------ mkdirs

  /** Names that can be made into directories; the others are met by an assertion in the code. */
  predicate Creatable(names: seq<string>) {
    forall i :: 0 <= i < |names| ==> names[i] != "." && names[i] != ".."
  }

  ghost predicate OnWay(t: Tree<FSPath>, root: FSPath, from: FSPath, names: seq<string>, x: FSPath)
    requires IsAt(t, root, from) && IsAt(t, root, x)
  {
    NamesOf(t, root, from) < NamesOf(t, root, x) <= NamesOf(t, root, from) + names
  }

  /** No symlink is found under any of the names, read off from a directory. */
  ghost predicate NoLinksOn(t: Tree<FSPath>, root: FSPath, from: FSPath, names: seq<string>)
    requires IsAt(t, root, from)
  {
    forall x | x in t && IsAt(t, root, x) :: OnWay(t, root, from, names, x) ==> !t[x].kind.Symlink?
  }

  /** `mkdirs`: what the path is missing is created, and nothing else changes.  A later lookup
      of the same path, through whatever symlinks it goes, then reaches the new directory; without
      symlinks it is the one with the names of the path. */
  method Mkdirs(self: FSPath, path: string, ghost S: set<FSPath>, ghost root: FSPath)
    returns (r: Result<FSPath, LookupError>, ghost S': set<FSPath>)
    requires Ready(S, root, {}) && self in S
    modifies S
    ensures S <= S' && fresh(S' - S) && Ready(S', root, {})
    ensures Grown(old(Snap(S)), Snap(S'))
    ensures !old(Attached(Snap(S), root, self)) ==> r == Failure(Detached) && S' == S && Snap(S') == old(Snap(S))
    ensures old(Attached(Snap(S), root, self)) ==>
      var t := old(Snap(S));
      match LookupPath(t, root, self, if EndsWithSlash(path) then path else path + "/")
      case EscapesRoot => r == Failure(OutsideOfRoot) && S' == S && Snap(S') == t
      case SymlinkLoop => r == Failure(TraversedTwice) && S' == S && Snap(S') == t
      case Reached(n) =>
        && r == (if n.kind.Directory? then Success(n) else Failure(InTheWay)) && S' == S && Snap(S') == t
      case Missing(at, rest) =>
        if !at.kind.Directory? then r == Failure(InTheWay) && S' == S && Snap(S') == t
        else if !root.readWrite then r == Failure(Refused(ReadOnly)) && S' == S && Snap(S') == t
        else if !Creatable(rest) then r == Failure(PartNotAllowed)
        else r.Success?
    ensures r.Success? ==> r.value.kind.Directory? && IsAt(Snap(S'), root, r.value)
    ensures r.Success? ==> old(Attached(Snap(S), root, self)) && IsAt(Snap(S'), root, self)
    ensures r.Success? ==>
      LookupPath(Snap(S'), root, self, if EndsWithSlash(path) then path else path + "/") == Reached(r.value)
    ensures r.Success? ==> forall names {:trigger Join(names)} ::
      names != [] && AllValid(names) && path == Join(names) && old(NoLinksOn(Snap(S), root, self, names)) ==>
        Place(Snap(S'), root, r.value, NamesOf(Snap(S'), root, self) + names)
  {
    ghost var t := Snap(S);
    S' := S;
    var dirPath := if EndsWithSlash(path) then path else path + "/";
    var found := AttemptLookup(self, dirPath, S, root);
    if found.Failure? {
      return Failure(found.error), S;
    }
    var (current, missing) := found.value;
    if !current.kind.Directory? {
      return Failure(InTheWay), S;
    }
    if missing == [] {
      MissingHasName(t, root, self, dirPath);
      NamesMade(t, t, root, self, path, current);
      return Success(current), S;
    }
    RootAttached(t, root);
    ghost var p := SplitPath(dirPath);
    ghost var from := if p.absolute then root else self;
    PendingAfterMissing(t, root, self, dirPath, current, missing);
    r, S' := CreateMissing(from, p.parts, current, missing, t, S, root);
    if r.Success? {
      GrownKeepsPlaces(t, Snap(S'), root, self);
      NamesMade(t, Snap(S'), root, self, path, r.value);
    }
  }

  /** In a tree that has grown by directories, the names of a path without symlinks are those of its node. */
  lemma NamesMade(t: Tree<FSPath>, u: Tree<FSPath>, root: FSPath, self: FSPath, path: string, made: FSPath)
    requires IsAt(t, root, self) && IsAt(u, root, self) && Grown(t, u)
    requires forall x :: x in u && x !in t ==> u[x].kind.Directory?
    requires LookupPath(u, root, self, if EndsWithSlash(path) then path else path + "/") == Reached(made)
    ensures forall names {:trigger Join(names)} ::
      names != [] && AllValid(names) && path == Join(names) && NoLinksOn(t, root, self, names) ==>
        Place(u, root, made, NamesOf(u, root, self) + names)
  {
    forall names {:trigger Join(names)} |
      names != [] && AllValid(names) && path == Join(names) && NoLinksOn(t, root, self, names)
      ensures Place(u, root, made, NamesOf(u, root, self) + names)
    {
      SplitJoined(names);
      JoinEnds(names);
      StillNoLinks(t, u, root, self, names);
      AlongNames(u, root, self, names, {}, made);
    }
  }

  lemma StillNoLinks(t: Tree<FSPath>, u: Tree<FSPath>, root: FSPath, self: FSPath, names: seq<string>)
    requires IsAt(t, root, self) && IsAt(u, root, self) && Grown(t, u) && NoLinksOn(t, root, self, names)
    requires forall x :: x in u && x !in t ==> u[x].kind.Directory?
    ensures NoLinksOn(u, root, self, names)
  {
    GrownKeepsPlaces(t, u, root, self);
    forall x | x in u && IsAt(u, root, x) && OnWay(u, root, self, names, x)
      ensures !u[x].kind.Symlink?
    {
      if x in t {
        assert GrownAt(t, u, x);
        forall y | y in t ensures y in u && u[y].parent == t[y].parent && u[y].name == t[y].name {
          assert GrownAt(t, u, y);
        }
        ChainFrame(t, u, root, x, {});
        GrownKeepsPlaces(t, u, root, x);
        assert OnWay(t, root, self, names, x);
      }
    }
  }

  /** Without symlinks the resolver follows the names. */
  lemma {:induction false} AlongNames(u: Tree<FSPath>, root: FSPath, cur: FSPath, names: seq<string>, seen: set<string>,
                                      made: FSPath)
    requires IsAt(u, root, cur) && AllValid(names) && NoLinksOn(u, root, cur, names)
    requires Lookup(u, root, cur, names + ["."], seen) == Reached(made)
    ensures Place(u, root, made, NamesOf(u, root, cur) + names)
    decreases names
  {
    if names == [] {
      assert [] + ["."] == ["."] && ["."][1..] == [];
      assert Lookup(u, root, cur, ["."], seen) == Lookup(u, root, cur, [], seen);
      assert NamesOf(u, root, cur) + names == NamesOf(u, root, cur);
    } else {
      assert (names + ["."])[0] == names[0] && (names + ["."])[1..] == names[1..] + ["."];
      assert ValidName(names[0]);
      var c := Child(u, root, cur, names[0]);
      assert UpAt(u, c);
      var here, there := NamesOf(u, root, cur), NamesOf(u, root, c);
      assert there == here + [names[0]] && there + names[1..] == here + names;
      assert OnWay(u, root, cur, names, c) && !u[c].kind.Symlink?;
      forall x | x in u && IsAt(u, root, x) && OnWay(u, root, c, names[1..], x) ensures !u[x].kind.Symlink? {
        assert OnWay(u, root, cur, names, x);
      }
      AlongNames(u, root, c, names[1..], seen, made);
    }
  }

  /** What the caller sees as missing is what is pending, without the final `.`. */
  lemma PendingAfterMissing(t: Tree<FSPath>, root: FSPath, self: FSPath, path: string, at: FSPath, missing: seq<string>)
    requires IsAt(t, root, self) && EndsWithSlash(path) && LookupPath(t, root, self, path) == Missing(at, missing)
    ensures IsAt(t, root, root) && IsAt(t, root, at)
    ensures var p := SplitPath(path);
      Lookup(t, root, if p.absolute then root else self, p.parts, {}) == Missing(at, missing + ["."])
    ensures missing != [] && missing[0] !in t[at].children && missing[0] !in {".", ".."} && AllSlashFree(missing)
  {
    RootAttached(t, root);
    var p := SplitPath(path);
    PendingEndsInDot(t, root, if p.absolute then root else self, p.parts, at, missing);
  }

  lemma PendingEndsInDot(t: Tree<FSPath>, root: FSPath, from: FSPath, parts: seq<string>, at: FSPath,
                         missing: seq<string>)
    requires IsAt(t, root, from) && |parts| > 0 && parts[|parts| - 1] == "." && AllSlashFree(parts)
    requires WithoutSentinel(Lookup(t, root, from, parts, {}), true) == Missing(at, missing)
    ensures Lookup(t, root, from, parts, {}) == Missing(at, missing + ["."]) && IsAt(t, root, at)
    ensures missing != [] && missing[0] !in t[at].children && missing[0] !in {".", ".."} && AllSlashFree(missing)
  {
    hide Lookup;
    MissingStart(t, root, from, parts, {});
    MissingSlashFree(t, root, from, parts, {});
    var raw := Lookup(t, root, from, parts, {}).rest;
    assert missing == raw[..|raw| - 1];
  }

  /** A missing path has a missing part, sentinel or not. */
  lemma SomethingIsMissing(t: Tree<FSPath>, root: FSPath, self: FSPath, path: string)
    requires IsAt(t, root, self)
    ensures LookupPath(t, root, self, path).Missing? ==> LookupPath(t, root, self, path).rest != []
  {
    if EndsWithSlash(path) {
      MissingHasName(t, root, self, path);
    } else if LookupPath(t, root, self, path).Missing? {
      RootAttached(t, root);
      var p := SplitPath(path);
      MissingStart(t, root, if p.absolute then root else self, p.parts, {});
    }
  }

  lemma MissingHasName(t: Tree<FSPath>, root: FSPath, self: FSPath, path: string)
    requires IsAt(t, root, self) && EndsWithSlash(path)
    ensures LookupPath(t, root, self, path).Missing? ==> LookupPath(t, root, self, path).rest != []
    ensures LookupPath(t, root, self, path).Reached? ==>
      IsAt(t, root, LookupPath(t, root, self, path).node)
  {
    var o := LookupPath(t, root, self, path);
    if o.Missing? {
      PendingAfterMissing(t, root, self, path, o.at, o.rest);
    } else if o.Reached? {
      RootAttached(t, root);
      var p := SplitPath(path);
      ReachedIsAt(t, root, if p.absolute then root else self, p.parts, {});
    }
  }

  lemma {:induction false} ReachedIsAt(t: Tree<FSPath>, root: FSPath, cur: FSPath, parts: seq<string>,
                                       seen: set<string>)
    requires IsAt(t, root, cur) && Lookup(t, root, cur, parts, seen).Reached?
    ensures IsAt(t, root, Lookup(t, root, cur, parts, seen).node)
  {
    assert parts + [] == parts;
    var fuel, r, seen' := StackFollowsMeaning(t, root, cur, parts, [], seen);
  }

  /** One directory for each missing name, each in the one before. */
  method CreateMissing(ghost from: FSPath, ghost parts: seq<string>, at: FSPath, missing: seq<string>,
                       ghost t: Tree<FSPath>, ghost S: set<FSPath>, ghost root: FSPath)
    returns (r: Result<FSPath, LookupError>, ghost S': set<FSPath>)
    requires Ready(S, root, {}) && t == Snap(S) && IsAt(t, root, from) && IsAt(t, root, at) && t[at].kind.Directory?
    requires Lookup(t, root, from, parts, {}) == Missing(at, missing + ["."])
    requires missing != [] && missing[0] !in t[at].children && missing[0] !in {".", ".."} && AllSlashFree(missing)
    modifies S
    ensures S <= S' && fresh(S' - S) && Ready(S', root, {}) && Grown(t, Snap(S'))
    ensures forall x :: x in S' && x !in S ==> x.kind.Directory?
    ensures r == Failure(Refused(ReadOnly)) || r == Failure(PartNotAllowed) || r.Success?
    ensures r == Failure(Refused(ReadOnly)) ==> S' == S && Snap(S') == t
    ensures r == Failure(Refused(ReadOnly)) <==> !root.readWrite
    ensures r.Success? <==> root.readWrite && Creatable(missing)
    ensures r.Success? ==> r.value.kind.Directory? && IsAt(Snap(S'), root, r.value) && IsAt(Snap(S'), root, from)
    ensures r.Success? ==> Lookup(Snap(S'), root, from, parts, {}) == Reached(r.value)
  {
    S' := S;
    var current, rest := at, missing;
    ghost var seen: set<string> := {};
    while rest != [] && Allowed(rest[0])
      invariant |rest| < |missing| ==> root.readWrite
      invariant |rest| == |missing| ==> S' == S && Snap(S') == t && rest == missing
      invariant root.readWrite == old(root.readWrite) && S <= S' && fresh(S' - S)
      invariant forall x :: x in S' && x !in S ==> x.kind.Directory?
      invariant Ready(S', root, {}) && Grown(t, Snap(S'))
      invariant |rest| <= |missing| && Creatable(rest) == Creatable(missing) && AllSlashFree(rest)
      invariant Underway(Snap(S'), root, from, parts, current, rest, seen)
    {
      var name := rest[0];
      RestParts(rest);
      r, seen, S' := CreateOne(from, parts, current, name, rest[1..], seen, t, S', root);
      if r.Failure? {
        return;
      }
      current, rest := r.value, rest[1..];
    }
    if rest != [] {
      return Failure(PartNotAllowed), S';
    }
    UnderwayEnd(Snap(S'), root, from, parts, current, seen);
    r := Success(current);
  }

  lemma RestParts(rest: seq<string>)
    requires rest != [] && Allowed(rest[0]) && AllSlashFree(rest)
    ensures rest == [rest[0]] + rest[1..] && SlashFree(rest[0]) && AllSlashFree(rest[1..])
    ensures Creatable(rest[1..]) == Creatable(rest)
  {
    if Creatable(rest[1..]) {
      forall i | 0 <= i < |rest| ensures rest[i] != "." && rest[i] != ".." {
        assert i > 0 ==> rest[i] == rest[1..][i - 1];
      }
    }
  }

  predicate Allowed(part: string) {
    part != "." && part != ".."
  }

  lemma UnderwayEnd(t: Tree<FSPath>, root: FSPath, from: FSPath, parts: seq<string>, cur: FSPath, seen: set<string>)
    requires Underway(t, root, from, parts, cur, [], seen)
    ensures Lookup(t, root, from, parts, {}) == Reached(cur)
  {
    assert [] + ["."] == ["."] && ["."][1..] == [];
    assert Lookup(t, root, cur, ["."], seen) == Lookup(t, root, cur, [], seen);
  }

  /** The resolver has come as far as `cur`, with `rest` still to be found. */
  ghost predicate Underway(u: Tree<FSPath>, root: FSPath, from: FSPath, parts: seq<string>, cur: FSPath,
                           rest: seq<string>, seen: set<string>)
  {
    && IsAt(u, root, from) && IsAt(u, root, cur) && u[cur].kind.Directory?
    && (rest != [] ==> rest[0] !in u[cur].children)
    && Lookup(u, root, from, parts, {}) == Lookup(u, root, cur, rest + ["."], seen)
  }

  method CreateOne(ghost from: FSPath, ghost parts: seq<string>, dir: FSPath, name: string, ghost more: seq<string>,
                   ghost seen: set<string>, ghost base: Tree<FSPath>, ghost S: set<FSPath>, ghost root: FSPath)
    returns (r: Result<FSPath, LookupError>, ghost seen': set<string>, ghost S': set<FSPath>)
    requires Ready(S, root, {}) && Underway(Snap(S), root, from, parts, dir, [name] + more, seen)
    requires name != "." && name != ".." && SlashFree(name) && Grown(base, Snap(S))
    modifies S
    ensures root.readWrite == old(root.readWrite)
    ensures r == Failure(Refused(ReadOnly)) <==> !root.readWrite
    ensures r.Failure? ==> r == Failure(Refused(ReadOnly)) && S' == S && Snap(S) == old(Snap(S))
    ensures r.Success? ==> fresh(r.value) && S' == S + {r.value} && r.value.kind.Directory?
    ensures Ready(S', root, {}) && Grown(base, Snap(S'))
    ensures r.Success? ==> Underway(Snap(S'), root, from, parts, r.value, more, seen')
  {
    ghost var t := Snap(S);
    assert t[dir] == dir.View();
    var made := dir.Mkdir(name, S, root);
    if made.Failure? {
      return Failure(Refused(made.error)), seen, S;
    }
    r, S' := Success(made.value), S + {made.value};
    CreatedShape(t, root, made.value, dir, name, Directory);
    assert Snap(S')[made.value] == made.value.View();
    GrownTransitive(base, t, Snap(S'));
    assert [name] + more + ["."] == [name] + (more + ["."]);
    assert ([name] + (more + ["."]))[1..] == more + ["."];
    seen' := LookupAfterCreate(t, Snap(S'), root, made.value, dir, from, parts, {}, name, more + ["."]);
  }
}
