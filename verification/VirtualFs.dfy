/** The mutable virtual file system: nodes with child tables, parent references
    and a lazily validated path cache.  Every method is tied to the step of
    FsTree that it performs on the snapshot of all nodes.  The fields are written in
    small methods that write one field each and say what becomes of the snapshot and
    of the caches. */
module VirtualFs {
  import opened Strings
  import opened FsTree

  datatype FsError =
    | ReadOnly | NotADirectory | RootCannotMove | RootCannotBeDeleted
    | InvalidName | AlreadyExists | NotEmpty | PathIsDetached

  datatype Outcome = Done | Failed(error: FsError)

  ghost function ParentOption(p: FSPath?): Option<FSPath> {
    if p == null then None else Some(p)
  }

  ghost function Snap(S: set<FSPath>): (t: Tree<FSPath>)
    reads S
    ensures t.Keys == S
    ensures forall n :: n in S ==> t[n] == n.View()
  {
    map n | n in S :: n.View()
  }

  /** A cached path is the join of the cached parent path and the name.  Nodes without a
      parent may have been renamed since, and nodes in the middle of a move too. */
  ghost predicate CachesOk(S: set<FSPath>, loose: set<FSPath>)
    reads S
  {
    forall n {:trigger n.CacheOk()} {:trigger n.HasCache()} :: n in S ==>
      n.HasCache() && (n !in loose && n.parentDir != null ==> n.CacheOk())
  }

  ghost predicate OneRoot(S: set<FSPath>, root: FSPath) {
    root in S && forall n :: n in S ==> (n.isRoot <==> n == root)
  }

  /** The class invariant, over all nodes at once. */
  ghost predicate Ready(S: set<FSPath>, root: FSPath, loose: set<FSPath>)
    reads S
  {
    Wf(Snap(S), root, loose) && OneRoot(S, root) && CachesOk(S, loose)
  }

  /** Nodes in the middle of a move are not above a parent if they are not above the child. */
  lemma LooseNotAbove(t: Tree<FSPath>, u: Tree<FSPath>, n: FSPath, p: FSPath, loose: set<FSPath>)
    requires UpOk(t) && UpOk(u) && SameLinks(t, u, {}) && n in t && p in t && t[n].parent == Some(p)
    requires forall m :: m in loose ==> !Below(t, n, m)
    ensures forall m :: m in loose ==> !Below(u, p, m)
  {
    forall m | m in loose ensures !Below(u, p, m) {
      BelowFrame(t, u, p, m, {});
    }
  }

  lemma ConflictAt(t: Tree<FSPath>, root: FSPath, n: FSPath, p: FSPath)
    requires Wf(t, root, {n}) && n in t && p in t && n != p && n != root && t[n].parent == Some(p) && !Below(t, p, n)
    requires t[n].name in t[p].children && (t[p].children[t[n].name] == n ==> !Attached(t, root, n))
    ensures var c := t[p].children[t[n].name];
      c in t && c != root && (Attached(t, root, c) ==> Attached(t, root, p) && !Below(t, c, n))
  {
    var c := t[p].children[t[n].name];
    if c != n {
      assert ChildAt(t, p, t[n].name) && UpAt(t, c);
    }
  }

  /** Before a new entry replaces what has its name. */
  lemma ClearedForNew(t: Tree<FSPath>, root: FSPath, p: FSPath, name: string)
    requires Wf(t, root, {}) && p in t
    ensures var c := Cleared(t, root, p, name);
      && Wf(c, root, {}) && SameNodes(t, c) && Attached(c, root, p) == Attached(t, root, p)
      && (Attached(t, root, p) ==> name !in c[p].children) && (!Attached(t, root, p) ==> c == t)
    ensures name in t[p].children ==> var n := t[p].children[name];
      n in t && n != root && Attached(t, root, n) == Attached(t, root, p)
  {
    if name in t[p].children {
      var n := t[p].children[name];
      assert ChildAt(t, p, name) && UpAt(t, n);
      if Attached(t, root, n) {
        DetachedKeeps(t, root, n, {});
        if Below(t, p, n) {
          BelowRank(t, p, n);
        }
        DetachedElsewhere(t, root, n, p);
      }
    }
  }

  class FSPath {
    const isRoot: bool
    const kind: Kind
    var basename: string
    var parentDir: FSPath?
    var children: map<string, FSPath>
    var pathCache: Option<string>
    var parentPathCache: Option<string>
    var lastKnownParentPath: Option<string>
    var readWrite: bool
    ghost var rank: nat

    ghost function View(): Node<FSPath>
      reads this
    {
      Node(basename, ParentOption(parentDir), children, kind, rank)
    }

    ghost predicate HasCache()
      reads this
    {
      parentPathCache.Some? ==> pathCache.Some?
    }

    ghost predicate CacheOk()
      reads this
    {
      parentPathCache.Some? ==> pathCache == Some(PathJoin(parentPathCache.value, basename))
    }

    constructor Root()
      ensures isRoot && kind == Directory && readWrite
      ensures View() == Node(".", None, map[], Directory, 0)
      ensures Ready({this}, this, {})
    {
      isRoot, kind, basename, parentDir, children := true, Directory, ".", null, map[];
      pathCache, parentPathCache, lastKnownParentPath, readWrite, rank := None, None, None, true, 0;
    }

    /** A node that is not in any directory yet. */
    constructor Orphan(name: string, nodeKind: Kind)
      ensures !isRoot && HasCache() && parentDir == null
      ensures kind == nodeKind && View() == Node(name, None, map[], nodeKind, 0)
    {
      isRoot, kind, basename, parentDir, children := false, nodeKind, name, null, map[];
      pathCache, parentPathCache, lastKnownParentPath, readWrite, rank := None, None, None, true, 0;
    }

    predicate IsDetached(ghost S: set<FSPath>, ghost root: FSPath)
      requires this in S && UpOk(Snap(S)) && OneRoot(S, root)
      reads S
      ensures IsDetached(S, root) == !Attached(Snap(S), root, this)
      decreases rank
    {
      assert UpAt(Snap(S), this);
      if isRoot then false
      else if parentDir == null then true
      else parentDir.IsDetached(S, root)
    }

    /** A detached node can always be changed, an attached one if the root directory allows it. */
    predicate IsReadWrite(ghost S: set<FSPath>, ghost root: FSPath)
      requires this in S && UpOk(Snap(S)) && OneRoot(S, root)
      reads S
      ensures IsReadWrite(S, root) == (!Attached(Snap(S), root, this) || root.readWrite)
      decreases rank
    {
      assert UpAt(Snap(S), this);
      if isRoot then readWrite
      else if IsDetached(S, root) then true
      else parentDir.IsReadWrite(S, root)
    }

    /** The path getter: the cached path is used if it was made for the parent's current path. */
    method Path(ghost S: set<FSPath>, ghost root: FSPath, ghost loose: set<FSPath>) returns (r: Result<string, FsError>)
      requires this in S && UpOk(Snap(S)) && RootOk(Snap(S), root) && OneRoot(S, root) && CachesOk(S, loose)
      requires forall m :: m in loose ==> !Below(Snap(S), this, m)
      modifies S`pathCache, S`parentPathCache
      ensures Snap(S) == old(Snap(S)) && CachesOk(S, loose)
      ensures Attached(Snap(S), root, this) ==> r == Success(PathOf(Snap(S), root, this))
      ensures !Attached(Snap(S), root, this) && lastKnownParentPath == None ==> r == Failure(PathIsDetached)
      ensures !Attached(Snap(S), root, this) && lastKnownParentPath.Some? && old(parentPathCache) == None ==>
        r == Success(PathJoin(lastKnownParentPath.value, basename))
      decreases rank
    {
      if isRoot {
        return Success(basename);
      }
      assert UpAt(Snap(S), this);
      assert Below(Snap(S), this, this);
      var parentPath: Option<string>;
      if IsDetached(S, root) {
        parentPath := lastKnownParentPath;
      } else {
        var p := parentDir.Path(S, root, loose);
        parentPath := Some(p.value);
      }
      r := CachedPath(parentPath, S, loose);
    }

    /** The rest of the getter, once the parent's path is known. */
    method CachedPath(parentPath: Option<string>, ghost S: set<FSPath>, ghost loose: set<FSPath>)
      returns (r: Result<string, FsError>)
      requires this in S && this !in loose && CachesOk(S, loose)
      modifies this`pathCache, this`parentPathCache
      ensures Snap(S) == old(Snap(S)) && CachesOk(S, loose)
      ensures parentPath == None ==> r == Failure(PathIsDetached)
      ensures parentPath.Some? && (parentDir != null || old(parentPathCache) == None) ==>
        r == Success(PathJoin(parentPath.value, basename))
    {
      assert HasCache() && (parentDir != null ==> CacheOk());
      if parentPathCache.Some? && parentPathCache == parentPath {
        return Success(pathCache.value);
      }
      if parentPath == None {
        return Failure(PathIsDetached);
      }
      parentPathCache := parentPath;
      var ret := PathJoin(parentPath.value, basename);
      pathCache := Some(ret);
      r := Success(ret);
      forall n | n in S ensures n.HasCache() && (n !in loose && n.parentDir != null ==> n.CacheOk()) {
        assert n != this ==> n.HasCache() == old(n.HasCache());
      }
    }

    // Assignments to single fields, with what they mean for the snapshot and for the caches.

    method PutChildren(c: map<string, FSPath>, ghost S: set<FSPath>, ghost loose: set<FSPath>)
      requires this in S && CachesOk(S, loose)
      modifies this`children
      ensures Snap(S) == WithChildren(old(Snap(S)), this, c) && CachesOk(S, loose)
    {
      children := c;
      forall n | n in S ensures n.HasCache() && (n !in loose && n.parentDir != null ==> n.CacheOk()) {
        assert old(n.HasCache()) && (n !in loose && n.parentDir != null ==> old(n.CacheOk()));
      }
    }

    method PutParent(p: FSPath?, ghost S: set<FSPath>, ghost loose: set<FSPath>)
      requires this in S && CachesOk(S, loose)
      modifies this`parentDir
      ensures parentDir == p && CachesOk(S, loose + {this})
      ensures var t := old(Snap(S)); Snap(S) == t[this := t[this].(parent := ParentOption(p))]
    {
      assert HasCache();
      parentDir := p;
      forall n | n in S ensures n.HasCache() && (n !in loose + {this} && n.parentDir != null ==> n.CacheOk()) {
        assert old(n.HasCache()) && (n !in loose && n != this && n.parentDir != null ==> old(n.CacheOk()));
      }
    }

    method PutLastKnown(p: Option<string>, ghost S: set<FSPath>, ghost loose: set<FSPath>)
      requires this in S && CachesOk(S, loose)
      modifies this`lastKnownParentPath
      ensures lastKnownParentPath == p && Snap(S) == old(Snap(S)) && CachesOk(S, loose)
    {
      lastKnownParentPath := p;
      forall n | n in S ensures n.HasCache() && (n !in loose && n.parentDir != null ==> n.CacheOk()) {
        assert old(n.HasCache()) && (n !in loose && n.parentDir != null ==> old(n.CacheOk()));
      }
    }

    method DropParentCache(ghost S: set<FSPath>, ghost loose: set<FSPath>)
      requires this in S && CachesOk(S, loose + {this})
      modifies this`parentPathCache
      ensures Snap(S) == old(Snap(S)) && CachesOk(S, loose)
    {
      parentPathCache := None;
      forall n | n in S ensures n.HasCache() && (n !in loose && n.parentDir != null ==> n.CacheOk()) {
        assert old(n.HasCache()) && (n !in loose + {this} && n.parentDir != null ==> old(n.CacheOk()));
      }
    }

    ghost method RaiseRanks(up: nat, t: Tree<FSPath>, S: set<FSPath>, loose: set<FSPath>)
      requires this in S && UpOk(Snap(S)) && t == Snap(S) && CachesOk(S, loose)
      modifies S`rank
      ensures Snap(S) == Reranked(t, this, up) && CachesOk(S, loose)
    {
      forall x | x in S && Below(t, x, this) {
        x.rank := x.rank + up;
      }
      forall n | n in S ensures n.HasCache() && (n !in loose && n.parentDir != null ==> n.CacheOk()) {
        assert old(n.HasCache()) && (n !in loose && n.parentDir != null ==> old(n.CacheOk()));
      }
    }

    /** The child has been given this parent and is not entered yet, unless it is detached. */
    ghost predicate Expects(child: FSPath, S: set<FSPath>, root: FSPath)
      reads S
    {
      && Wf(Snap(S), root, {child}) && OneRoot(S, root) && CachesOk(S, {child})
      && this in S && child in S && child != this && child != root
      && child.parentDir == this && !Below(Snap(S), this, child)
      && (child.basename in children && children[child.basename] == child ==> !Attached(Snap(S), root, child))
    }

    /** What has the name is unlinked, unless it is detached already. */
    method AddChild(child: FSPath, ghost S: set<FSPath>, ghost root: FSPath) returns (r: Outcome)
      requires Expects(child, S, root)
      modifies S
      ensures r ==
        if old(Attached(Snap(S), root, this)) && !root.readWrite then Failed(ReadOnly)
        else if !kind.Directory? then Failed(NotADirectory) else Done
      ensures r.Failed? ==> Snap(S) == old(Snap(S))
      ensures r.Done? ==> Snap(S) == Linked(Cleared(old(Snap(S)), root, this, old(child.basename)), this, child)
      ensures CachesOk(S, {child}) && OneRoot(S, root)
      ensures forall n :: n in S ==> n.readWrite == old(n.readWrite)
      decreases 2
    {
      if !IsReadWrite(S, root) {
        return Failed(ReadOnly);
      }
      if !kind.Directory? {
        return Failed(NotADirectory);
      }
      ghost var t := Snap(S);
      if child.basename in children {
        var conflict := children[child.basename];
        ConflictAt(t, root, child, this);
        var _ := conflict.Unlink(true, S, root, {child});
      }
      assert Snap(S) == Cleared(t, root, this, child.basename);
      PutChildren(children[child.basename := child], S, {child});
      r := Done;
    }

    method Unlink(recursive: bool, ghost S: set<FSPath>, ghost root: FSPath, ghost loose: set<FSPath>)
      returns (r: Outcome)
      requires Ready(S, root, loose) && this in S
      requires Attached(Snap(S), root, this) ==> forall m :: m in loose ==> !Below(Snap(S), this, m)
      modifies S
      ensures Ready(S, root, loose)
      ensures forall n :: n in S ==> n.readWrite == old(n.readWrite)
      ensures r == if isRoot then Failed(RootCannotBeDeleted)
        else if !old(Attached(Snap(S), root, this)) then Done
        else if !recursive && old(children) != map[] then Failed(NotEmpty)
        else if !root.readWrite then Failed(ReadOnly) else Done
      ensures r.Failed? || !old(Attached(Snap(S), root, this)) ==> Snap(S) == old(Snap(S))
      ensures r.Done? && old(Attached(Snap(S), root, this)) ==> Snap(S) == Detached(old(Snap(S)), root, this)
      decreases 1
    {
      if isRoot {
        return Failed(RootCannotBeDeleted);
      }
      if IsDetached(S, root) {
        return Done;
      }
      if !recursive && children != map[] {
        return Failed(NotEmpty);
      }
      assert Below(Snap(S), this, this);
      r := SetParent(null, S, root, loose);
    }

    /** The `parent_dir` setter: the only place where the tree changes shape. */
    method SetParent(newParent: FSPath?, ghost S: set<FSPath>, ghost root: FSPath, ghost loose: set<FSPath>)
      returns (r: Outcome)
      requires Ready(S, root, loose) && this in S && this !in loose
      requires Attached(Snap(S), root, this) ==> forall m :: m in loose ==> !Below(Snap(S), this, m)
      requires newParent != null ==> newParent in S && loose == {}
      requires newParent != null && this != root ==> !Below(Snap(S), newParent, this)
      modifies S
      ensures OneRoot(S, root) && CachesOk(S, loose)
      ensures Ready(S, root, loose) <==>
        if this == root || r.Failed? then true
        else if newParent == null then old(Settled(Snap(S), root, this))
        else old(CleanMove(Snap(S), root, this, newParent))
      ensures forall n :: n in S ==> n.readWrite == old(n.readWrite)
      ensures this == root ==> r == if newParent == null then Done else Failed(RootCannotMove)
      ensures this != root && !old(IsReadWrite(S, root)) ==> r == Failed(ReadOnly)
      ensures this != root && old(IsReadWrite(S, root)) && newParent != null && !newParent.kind.Directory? ==>
        r == Failed(NotADirectory)
      ensures this != root && old(IsReadWrite(S, root)) && newParent != null && newParent.kind.Directory? ==>
        r == if old(newParent.IsReadWrite(S, root)) then Done else Failed(ReadOnly)
      ensures this != root && old(IsReadWrite(S, root)) && newParent == null ==> r == Done
      ensures this == root || r.Failed? ==> Snap(S) == old(Snap(S))
      ensures this != root && r.Done? && newParent == null ==>
        && Snap(S) == Detached(old(Snap(S)), root, this)
        && (old(Attached(Snap(S), root, this)) ==> lastKnownParentPath == Some(ParentPath(old(Snap(S)), root, this)))
      ensures this != root && r.Done? && newParent != null ==>
        MayHang(old(Snap(S)), root, this, newParent) && Snap(S) == Moved(old(Snap(S)), root, this, newParent)
      decreases if newParent == null then 0 else 3, 1
    {
      if isRoot {
        return if newParent == null then Done else Failed(RootCannotMove);
      }
      if !IsReadWrite(S, root) {
        return Failed(ReadOnly);
      }
      if newParent != null {
        if !newParent.kind.Directory? {
          return Failed(NotADirectory);
        }
        if !newParent.IsReadWrite(S, root) {
          return Failed(ReadOnly);
        }
      }
      if newParent != null {
        MovedKeepsIff(Snap(S), root, this, newParent);
        r := MoveInto(newParent, S, root);
      } else {
        DetachedKeepsIff(Snap(S), root, this, loose);
        DropOut(S, root, loose);
        r := Done;
      }
    }

    /** The setter after its checks, for a new parent. */
    method MoveInto(newParent: FSPath, ghost S: set<FSPath>, ghost root: FSPath) returns (r: Outcome)
      requires Ready(S, root, {}) && this in S && MayHang(Snap(S), root, this, newParent)
      requires Attached(Snap(S), root, newParent) ==> root.readWrite
      modifies S
      ensures r == Done && OneRoot(S, root) && CachesOk(S, {})
      ensures forall n :: n in S ==> n.readWrite == old(n.readWrite)
      ensures Snap(S) == Moved(old(Snap(S)), root, this, newParent)
      decreases 3, 0
    {
      assert newParent in S && newParent != this && this != root && newParent.kind.Directory?;
      hide Wf, Below, Attached, HungUp, Cleared, Linked, CachesOk, UpOk;
      HangUp(newParent, S, root);
      assert {} + {this} == {this};
      r := newParent.AddChild(this, S, root);
      DropParentCache(S, {});
    }

    /** The node is taken from its old parent and refers to the new one, which does not know it yet. */
    method HangUp(newParent: FSPath, ghost S: set<FSPath>, ghost root: FSPath)
      requires Ready(S, root, {}) && this in S && MayHang(Snap(S), root, this, newParent)
      modifies S`children, this`lastKnownParentPath, this`parentDir, S`rank
      ensures Snap(S) == HungUp(old(Snap(S)), root, this, newParent)
      ensures newParent.Expects(this, S, root)
      ensures Attached(Snap(S), root, newParent) == old(Attached(Snap(S), root, newParent))
    {
      HungUpKeeps(Snap(S), root, this, newParent);
      ListedInMove(Snap(S), root, this, newParent);
      UnlinkedKeeps(Snap(S), root, this, {});
      var _ := LeaveParent(S, root, {});
      Hang(newParent, S);
    }

    /** The parent reference is set; the ranks of everything inside the node move along. */
    method Hang(newParent: FSPath, ghost S: set<FSPath>)
      requires this in S && newParent in S && UpOk(Snap(S)) && CachesOk(S, {})
      modifies this`parentDir, S`rank
      ensures Snap(S) == Hung(old(Snap(S)), this, newParent)
      ensures parentDir == newParent && CachesOk(S, {this})
    {
      hide Reranked;
      ghost var t := Snap(S);
      RaiseRanks(t[newParent].rank + 1, t, S, {});
      PutParent(newParent, S, {});
    }

    /** The setter after its checks, for no parent at all. */
    method DropOut(ghost S: set<FSPath>, ghost root: FSPath, ghost loose: set<FSPath>)
      requires Ready(S, root, loose) && this in S && this !in loose && this != root
      requires Attached(Snap(S), root, this) ==> forall m :: m in loose ==> !Below(Snap(S), this, m)
      modifies S
      ensures OneRoot(S, root) && CachesOk(S, loose)
      ensures forall n :: n in S ==> n.readWrite == old(n.readWrite)
      ensures Snap(S) == Detached(old(Snap(S)), root, this)
      ensures old(Attached(Snap(S), root, this)) ==>
        lastKnownParentPath == Some(ParentPath(old(Snap(S)), root, this))
      decreases 0, 0
    {
      ghost var t := Snap(S);
      LeaveAndRemember(S, root, loose);
      PutParent(null, S, loose);
      DropParentCache(S, loose);
    }

    method LeaveAndRemember(ghost S: set<FSPath>, ghost root: FSPath, ghost loose: set<FSPath>)
      requires Ready(S, root, loose) && this in S && this !in loose && this != root
      requires Attached(Snap(S), root, this) ==> forall m :: m in loose ==> !Below(Snap(S), this, m)
      modifies S`children, S`pathCache, S`parentPathCache, this`lastKnownParentPath
      ensures Snap(S) == Unlinked(old(Snap(S)), root, this) && CachesOk(S, loose)
      ensures old(Attached(Snap(S), root, this)) ==>
        lastKnownParentPath == Some(ParentPath(old(Snap(S)), root, this))
    {
      ghost var t := Snap(S);
      UnlinkedKeeps(t, root, this, loose);
      var priorParent := LeaveParent(S, root, loose);
      RememberPlace(priorParent, t, S, root, loose);
    }

    /** Where the node was is remembered for messages. */
    method RememberPlace(priorParent: FSPath?, ghost t: Tree<FSPath>, ghost S: set<FSPath>, ghost root: FSPath,
                         ghost loose: set<FSPath>)
      requires this in S && this != root && Wf(t, root, loose) && this in t
      requires Wf(Snap(S), root, loose + {this}) && SameLinks(t, Snap(S), {}) && OneRoot(S, root) && CachesOk(S, loose)
      requires priorParent == if Attached(t, root, this) then parentDir else null
      requires Attached(t, root, this) ==> forall m :: m in loose ==> !Below(t, this, m)
      modifies S`pathCache, S`parentPathCache, this`lastKnownParentPath
      ensures Snap(S) == old(Snap(S)) && CachesOk(S, loose)
      ensures Attached(t, root, this) ==> lastKnownParentPath == Some(ParentPath(t, root, this))
    {
      if priorParent != null {
        assert UpAt(t, this);
        ChainFrame(t, Snap(S), root, priorParent, {});
        LooseNotAbove(t, Snap(S), this, priorParent, loose);
        if !priorParent.IsDetached(S, root) {
          var p := priorParent.Path(S, root, loose);
          PutLastKnown(Some(p.value), S, loose);
        }
      }
    }

    /** The node is taken out of its parent's table, if it is attached. */
    method LeaveParent(ghost S: set<FSPath>, ghost root: FSPath, ghost loose: set<FSPath>)
      returns (priorParent: FSPath?)
      requires Ready(S, root, loose) && this in S && this !in loose && this != root
      modifies S`children, this`lastKnownParentPath
      ensures Snap(S) == Unlinked(old(Snap(S)), root, this) && CachesOk(S, loose)
      ensures lastKnownParentPath == None
      ensures priorParent == if old(Attached(Snap(S), root, this)) then parentDir else null
    {
      ghost var t := Snap(S);
      assert UpAt(t, this);
      priorParent := null;
      if !IsDetached(S, root) {
        priorParent := parentDir;
        priorParent.PutChildren(priorParent.children - {basename}, S, loose);
      }
      PutLastKnown(None, S, loose);
    }

    // ------------------------------------------------------------- operations

    /** Whether a new entry may be made here. */
    ghost predicate Writable(S: set<FSPath>, root: FSPath)
      requires this in S && UpOk(Snap(S))
      reads S, root
    {
      Attached(Snap(S), root, this) ==> root.readWrite
    }

    /** The constructor of a node with a parent. */
    method NewChild(name: string, nodeKind: Kind, ghost S: set<FSPath>, ghost root: FSPath) returns (child: FSPath)
      requires Ready(S, root, {}) && this in S && kind.Directory? && Writable(S, root)
      modifies S
      ensures fresh(child) && OneRoot(S + {child}, root) && CachesOk(S + {child}, {})
      ensures forall n :: n in S ==> n.readWrite == old(n.readWrite)
      ensures MayAdd(old(Snap(S)), child, this)
      ensures Snap(S + {child}) == Created(old(Snap(S)), root, child, this, name, nodeKind)
      ensures Ready(S + {child}, root, {}) <==> old(Attached(Snap(S), root, this)) || name !in old(children)
    {
      ghost var t := Snap(S);
      child := new FSPath.Orphan(name, nodeKind);
      ghost var S' := S + {child};
      assert Snap(S') == Fresh(t, child, name, nodeKind);
      MayHangFresh(t, root, child, this, name, nodeKind);
      CreatedKeepsIff(t, root, child, this, name, nodeKind);
      forall n | n in S' ensures n.HasCache() && (n.parentDir != null ==> n.CacheOk()) {
        assert n in S ==> old(n.HasCache()) && (n.parentDir != null ==> old(n.CacheOk()));
      }
      var _ := child.SetParent(this, S', root, {});
    }

    /** The names that mkdir, add_symlink and insert_file_from_fs_path refuse; the empty name is not among them. */
    static predicate RefusedName(name: string) {
      '/' in name || name == "." || name == ".."
    }

    /** The checks that all creating operations start with. */
    static function CreationError(name: string, dir: Kind, readWrite: bool): Option<FsError> {
      if RefusedName(name) then Some(InvalidName)
      else if !dir.Directory? then Some(NotADirectory)
      else if !readWrite then Some(ReadOnly)
      else None
    }

    method Mkdir(name: string, ghost S: set<FSPath>, ghost root: FSPath) returns (r: Result<FSPath, FsError>)
      requires Ready(S, root, {}) && this in S
      modifies S
      ensures r.Failure? ==> Snap(S) == old(Snap(S)) && Ready(S, root, {})
      ensures forall n :: n in S ==> n.readWrite == old(n.readWrite)
      ensures r == Failure(InvalidName) <==> name != "" && !ValidName(name)
      ensures var e := CreationError(name, kind, old(Writable(S, root)));
        if e.Some? then r == Failure(e.value)
        else if name in old(children) then r == Failure(AlreadyExists)
        else r.Success?
      ensures r.Success? <==>
        (name == "" || ValidName(name)) && kind.Directory? && old(Writable(S, root)) && name !in old(children)
      ensures r.Success? ==> fresh(r.value) && Ready(S + {r.value}, root, {})
      ensures r.Success? ==> (
        && MayAdd(old(Snap(S)), r.value, this)
        && Snap(S + {r.value}) == Created(old(Snap(S)), root, r.value, this, name, Directory))
    {
      if RefusedName(name) {
        return Failure(InvalidName);
      }
      if !kind.Directory? {
        return Failure(NotADirectory);
      }
      if !IsReadWrite(S, root) {
        return Failure(ReadOnly);
      }
      if name in children {
        return Failure(AlreadyExists);
      }
      var child := NewChild(name, Directory, S, root);
      r := Success(child);
    }

    /** Creation of a symlink replaces a file, a symlink or an empty directory of the same name.  In a
        detached directory it overwrites whatever has the name, which is not told. */
    method AddSymlink(name: string, target: string, ghost S: set<FSPath>, ghost root: FSPath)
      returns (r: Result<FSPath, FsError>)
      requires Ready(S, root, {}) && this in S
      modifies S
      ensures r.Failure? ==> Snap(S) == old(Snap(S)) && Ready(S, root, {})
      ensures r == Failure(InvalidName) <==> name != "" && !ValidName(name)
      ensures var e := CreationError(name, kind, old(Writable(S, root)));
        if e.Some? then r == Failure(e.value)
        else if old(name in children && children[name] in S && Attached(Snap(S), root, this)) &&
                old(children[name].children) != map[] then r == Failure(NotEmpty)
        else r.Success?
      ensures r.Success? ==> fresh(r.value)
      ensures r.Success? ==>
        (Ready(S + {r.value}, root, {}) <==> old(Attached(Snap(S), root, this)) || name !in old(children))
      ensures r.Success? ==> (
        && var t := Cleared(old(Snap(S)), root, this, name);
        && Wf(t, root, {}) && MayAdd(t, r.value, this)
        && Snap(S + {r.value}) == Created(t, root, r.value, this, name, Symlink(target)))
    {
      if RefusedName(name) {
        return Failure(InvalidName);
      }
      if !kind.Directory? {
        return Failure(NotADirectory);
      }
      if !IsReadWrite(S, root) {
        return Failure(ReadOnly);
      }
      ghost var t := Snap(S);
      ClearedForNew(t, root, this, name);
      if name in children {
        var gone := children[name].Unlink(false, S, root, {});
        if gone.Failed? {
          return Failure(gone.error);
        }
      }
      assert Snap(S) == Cleared(t, root, this, name);
      var child := NewChild(name, Symlink(target), S, root);
      r := Success(child);
    }

    /** Insertion of a file: unlike the symlink it replaces a directory with all its contents. */
    method InsertFile(name: string, fsPath: string, existOk: bool, ghost S: set<FSPath>, ghost root: FSPath)
      returns (r: Result<FSPath, FsError>)
      requires Ready(S, root, {}) && this in S
      modifies S
      ensures r.Failure? ==> Snap(S) == old(Snap(S)) && Ready(S, root, {})
      ensures r == Failure(InvalidName) <==> name != "" && !ValidName(name)
      ensures var e := CreationError(name, kind, old(Writable(S, root)));
        if e.Some? then r == Failure(e.value)
        else if name in old(children) && !existOk then r == Failure(AlreadyExists)
        else r.Success?
      ensures r.Success? <==>
        && (name == "" || ValidName(name)) && kind.Directory? && old(Writable(S, root))
        && (existOk || name !in old(children))
      ensures r.Success? ==> fresh(r.value)
      ensures r.Success? ==>
        (Ready(S + {r.value}, root, {}) <==> old(Attached(Snap(S), root, this)) || name !in old(children))
      ensures r.Success? ==> (
        && MayAdd(old(Snap(S)), r.value, this)
        && Snap(S + {r.value}) == Created(old(Snap(S)), root, r.value, this, name, File(fsPath)))
    {
      if RefusedName(name) {
        return Failure(InvalidName);
      }
      if !kind.Directory? {
        return Failure(NotADirectory);
      }
      if !IsReadWrite(S, root) {
        return Failure(ReadOnly);
      }
      if name in children && !existOk {
        return Failure(AlreadyExists);
      }
      var child := NewChild(name, File(fsPath), S, root);
      r := Success(child);
    }

    /** The name setter.  A detached node is renamed without telling the directory it is in, so the
        invariant is kept exactly if the node is attached, is in no directory or keeps its name.  The
        root directory is renamed as well, and then no longer has the name of one. */
    method SetName(newName: string, ghost S: set<FSPath>, ghost root: FSPath) returns (r: Outcome)
      requires Ready(S, root, {}) && this in S
      modifies S
      ensures r == if old(Attached(Snap(S), root, this)) && !root.readWrite then Failed(ReadOnly) else Done
      ensures r.Failed? ==> Snap(S) == old(Snap(S))
      ensures r.Done? && this != root && old(Attached(Snap(S), root, this)) ==>
        Snap(S) == Renamed(old(Snap(S)), root, this, newName)
      ensures r.Done? && (this == root || !old(Attached(Snap(S), root, this))) ==>
        Snap(S) == WithName(old(Snap(S)), this, newName)
      ensures Ready(S, root, {}) <==>
        if r.Failed? || newName == old(basename) then true
        else if this == root then false
        else old(Settled(Snap(S), root, this))
    {
      ghost var t := Snap(S);
      if !IsReadWrite(S, root) {
        return Failed(ReadOnly);
      }
      if newName == basename {
        assert t == WithName(t, this, newName);
        return Done;
      }
      if IsDetached(S, root) {
        RenameDetached(newName, S, root);
        return Done;
      }
      if isRoot {
        // The parent setter does nothing for it.
        basename := newName;
        assert Snap(S) == WithName(t, this, newName);
        return Done;
      }
      MayMoveBack(t, root, this, newName);
      var parent := parentDir;
      var _ := SetParent(null, S, root, {});
      PutName(newName, S);
      var _ := SetParent(parent, S, root, {});
      r := Done;
    }

    method PutName(newName: string, ghost S: set<FSPath>)
      requires this in S && CachesOk(S, {}) && parentDir == null
      modifies this`basename
      ensures Snap(S) == WithName(old(Snap(S)), this, newName) && CachesOk(S, {})
    {
      assert HasCache();
      basename := newName;
      forall n | n in S ensures n.HasCache() && (n.parentDir != null ==> n.CacheOk()) {
        assert n != this ==> old(n.HasCache()) && (n.parentDir != null ==> old(n.CacheOk()));
      }
    }

    method RenameDetached(newName: string, ghost S: set<FSPath>, ghost root: FSPath)
      requires Ready(S, root, {}) && this in S && this != root && newName != basename
      modifies this`basename
      ensures Snap(S) == WithName(old(Snap(S)), this, newName)
      ensures Ready(S, root, {}) <==> parentDir == null
    {
      ghost var t := Snap(S);
      if parentDir == null {
        WithNameKeeps(t, root, this, newName);
        PutName(newName, S);
      } else {
        RenamingInsideDetached(t, root, this, newName);
        basename := newName;
        assert Snap(S) == WithName(t, this, newName);
      }
    }

    /** `rmdir --ignore-fail-on-non-empty --parents`.  A detached directory stays in the one it is in. */
    method PruneIfEmptyDir(ghost S: set<FSPath>, ghost root: FSPath) returns (r: Outcome)
      requires Ready(S, root, {}) && this in S
      modifies S
      ensures Ready(S, root, {})
      ensures forall n :: n in S ==> n.readWrite == old(n.readWrite)
      ensures r == if this == root then Done else if !old(Writable(S, root)) then Failed(ReadOnly)
        else if !kind.Directory? then Failed(NotADirectory)
        else if old(children) == map[] && old(parentDir) == null then Failed(PathIsDetached) else Done
      ensures Snap(S) ==
        if r.Done? && old(Attached(Snap(S), root, this)) then Pruned(old(Snap(S)), root, this) else old(Snap(S))
      decreases rank
    {
      if isRoot {
        return Done;
      }
      if !IsReadWrite(S, root) {
        return Failed(ReadOnly);
      }
      if !kind.Directory? {
        return Failed(NotADirectory);
      }
      if children != map[] {
        return Done;
      }
      if parentDir == null {
        return Failed(PathIsDetached);
      }
      ghost var t := Snap(S);
      DirAbove(t, this);
      if Attached(t, root, this) {
        OneUp(t, root, this);
        DetachedElsewhere(t, root, this, parentDir);
      } else {
        assert UpAt(t, this) && MirrorAt(t, this);
      }
      var parent := parentDir;
      var _ := Unlink(false, S, root, {});
      assert Snap(S)[parent] == parent.View();
      r := parent.PruneIfEmptyDir(S, root);
    }
  }
}
