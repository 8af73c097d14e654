/** What each step does to the tree of all nodes, attached or not, and what it keeps. */
module FsTree {
  import opened Strings

  datatype Kind = Directory | File(fsPath: string) | Symlink(target: string)

  /** The fields of a node.  The rank only serves to say that parent links are acyclic. */
  datatype Node<N> = Node(name: string, parent: Option<N>, children: map<string, N>, kind: Kind, rank: nat)

  type Tree<N> = map<N, Node<N>>

  // ------------------------------------------------------------ well-formedness

  ghost predicate UpAt<N>(t: Tree<N>, n: N)
    requires n in t
  {
    t[n].parent.Some? ==> t[n].parent.value in t && t[t[n].parent.value].rank < t[n].rank
  }

  ghost predicate ChildAt<N>(t: Tree<N>, n: N, k: string)
    requires n in t && k in t[n].children
  {
    var c := t[n].children[k];
    c in t && t[c].parent == Some(n) && t[c].name == k
  }

  ghost predicate MirrorAt<N>(t: Tree<N>, n: N)
    requires n in t
  {
    t[n].parent.Some? && t[n].parent.value in t ==>
      var p := t[n].parent.value;
      t[n].name in t[p].children && t[p].children[t[n].name] == n
  }

  /** Every parent link leads to a node of smaller rank, so following them always ends. */
  ghost predicate UpOk<N>(t: Tree<N>) {
    forall n {:trigger UpAt(t, n)} :: n in t ==> UpAt(t, n)
  }

  /** A child is stored under its own name and points back, except for nodes that are just being moved. */
  ghost predicate DownOk<N>(t: Tree<N>, loose: set<N>) {
    forall n, k {:trigger ChildAt(t, n, k)} :: n in t && k in t[n].children ==>
      t[n].children[k] in t && (t[n].children[k] !in loose ==> ChildAt(t, n, k))
  }

  /** A node with a parent is found there, except for nodes that are just being moved. */
  ghost predicate MirrorOk<N>(t: Tree<N>, loose: set<N>) {
    forall n {:trigger MirrorAt(t, n)} :: n in t && n !in loose ==> MirrorAt(t, n)
  }

  ghost predicate DirAt<N>(t: Tree<N>, n: N)
    requires n in t
  {
    t[n].children != map[] ==> t[n].kind.Directory?
  }

  ghost predicate DirsOk<N>(t: Tree<N>) {
    forall n {:trigger DirAt(t, n)} :: n in t ==> DirAt(t, n)
  }

  ghost predicate RootOk<N>(t: Tree<N>, root: N) {
    root in t && t[root].parent == None && t[root].kind.Directory? && t[root].name == "."
  }

  ghost predicate Wf<N>(t: Tree<N>, root: N, loose: set<N>) {
    UpOk(t) && DownOk(t, loose) && MirrorOk(t, loose) && DirsOk(t) && RootOk(t, root)
  }

  /** Names that path strings can tell apart; the root directory is called `.`. */
  ghost predicate NamesValid<N>(t: Tree<N>, root: N) {
    forall n :: n in t && n != root ==> ValidName(t[n].name)
  }

  // --------------------------------------------------------------- observations

  /** Whether following parent links from n ends in the root directory. */
  ghost predicate Attached<N>(t: Tree<N>, root: N, n: N)
    requires UpOk(t) && n in t
    decreases t[n].rank
  {
    assert UpAt(t, n);
    n == root || (t[n].parent.Some? && Attached(t, root, t[n].parent.value))
  }

  /** Whether n is `top` or somewhere inside it. */
  ghost predicate Below<N>(t: Tree<N>, n: N, top: N)
    requires UpOk(t) && n in t
    decreases t[n].rank
  {
    assert UpAt(t, n);
    n == top || (t[n].parent.Some? && Below(t, t[n].parent.value, top))
  }

  /** The path of an attached node: its names from the root, joined. */
  ghost function PathOf<N>(t: Tree<N>, root: N, n: N): string
    requires UpOk(t) && n in t && Attached(t, root, n)
    decreases t[n].rank
  {
    assert UpAt(t, n);
    if n == root then t[n].name
    else PathJoin(PathOf(t, root, t[n].parent.value), t[n].name)
  }

  ghost function ParentPath<N>(t: Tree<N>, root: N, n: N): string
    requires UpOk(t) && n in t && n != root && Attached(t, root, n)
  {
    assert UpAt(t, n);
    PathOf(t, root, t[n].parent.value)
  }

  // ---------------------------------------------------------------------- steps

  ghost function WithChildren<N>(t: Tree<N>, p: N, children: map<string, N>): Tree<N>
    requires p in t
  {
    t[p := t[p].(children := children)]
  }

  /** An attached node is taken out of its parent's table. */
  ghost function Unlinked<N>(t: Tree<N>, root: N, n: N): Tree<N>
    requires UpOk(t) && n in t
  {
    assert UpAt(t, n);
    if Attached(t, root, n) && t[n].parent.Some? then
      var p := t[n].parent.value;
      WithChildren(t, p, t[p].children - {t[n].name})
    else t
  }

  ghost function Detached<N>(t: Tree<N>, root: N, n: N): Tree<N>
    requires UpOk(t) && n in t
  {
    var u := Unlinked(t, root, n);
    u[n := u[n].(parent := None)]
  }

  /** The ranks of n and of all that is inside it are raised. */
  ghost function Reranked<N>(t: Tree<N>, n: N, up: nat): Tree<N>
    requires UpOk(t)
  {
    map x | x in t :: if Below(t, x, n) then t[x].(rank := t[x].rank + up) else t[x]
  }

  /** Node n, with all that is inside it, gets p as its parent. */
  ghost function Hung<N>(t: Tree<N>, n: N, p: N): Tree<N>
    requires UpOk(t) && n in t && p in t
  {
    var u := Reranked(t, n, t[p].rank + 1);
    u[n := u[n].(parent := Some(p))]
  }

  /** An entry of p that is already stored under the name is detached, if it is not so already. */
  ghost function Cleared<N>(t: Tree<N>, root: N, p: N, name: string): Tree<N>
    requires UpOk(t) && p in t
  {
    if name in t[p].children && t[p].children[name] in t && Attached(t, root, t[p].children[name]) then
      Detached(t, root, t[p].children[name])
    else t
  }

  ghost function Linked<N>(t: Tree<N>, p: N, n: N): Tree<N>
    requires p in t && n in t
  {
    WithChildren(t, p, t[p].children[t[n].name := n])
  }

  /** What a move of n into directory p asks for: that p is not inside of n. */
  ghost predicate MayHang<N>(t: Tree<N>, root: N, n: N, p: N)
    requires UpOk(t)
  {
    n in t && p in t && n != root && t[p].kind.Directory? && !Below(t, p, n)
  }

  /** A node is attached, or in no directory at all. */
  ghost predicate Settled<N>(t: Tree<N>, root: N, n: N)
    requires UpOk(t) && n in t
  {
    Attached(t, root, n) || t[n].parent == None
  }

  /** A move within the tree that hangs from the root directory, or into it. */
  ghost predicate MayMove<N>(t: Tree<N>, root: N, n: N, p: N)
    requires UpOk(t)
  {
    MayHang(t, root, n, p) && Attached(t, root, p) && Settled(t, root, n)
  }

  ghost function WithName<N>(t: Tree<N>, n: N, name: string): Tree<N>
    requires n in t
  {
    t[n := t[n].(name := name)]
  }

  /** A new node, not in any directory yet. */
  ghost function Fresh<N>(t: Tree<N>, n: N, name: string, kind: Kind): Tree<N> {
    t[n := Node(name, None, map[], kind, 0)]
  }

  // --------------------------------------------------------- frames along chains

  /** Two trees agree on how nodes hang together, except for the nodes in `changed`. */
  ghost predicate SameLinks<N>(t: Tree<N>, u: Tree<N>, changed: set<N>) {
    forall x :: x in t && x !in changed ==> x in u && u[x].parent == t[x].parent && u[x].name == t[x].name
  }

  /** Nothing above n has changed, so neither has its path. */
  lemma {:induction false} ChainFrame<N>(t: Tree<N>, u: Tree<N>, root: N, n: N, changed: set<N>)
    requires UpOk(t) && UpOk(u) && n in t && SameLinks(t, u, changed)
    requires forall m :: m in changed ==> !Below(t, n, m)
    ensures n in u && Attached(u, root, n) == Attached(t, root, n)
    ensures Attached(t, root, n) ==> PathOf(u, root, n) == PathOf(t, root, n)
    decreases t[n].rank
  {
    assert Below(t, n, n);
    assert n !in changed;
    assert UpAt(t, n) && UpAt(u, n);
    if n != root && t[n].parent.Some? {
      ChainFrame(t, u, root, t[n].parent.value, changed);
    }
  }

  lemma {:induction false} BelowFrame<N>(t: Tree<N>, u: Tree<N>, n: N, top: N, changed: set<N>)
    requires UpOk(t) && UpOk(u) && n in t && SameLinks(t, u, changed)
    requires forall m :: m in changed ==> !Below(t, n, m)
    ensures n in u && Below(u, n, top) == Below(t, n, top)
    decreases t[n].rank
  {
    assert Below(t, n, n);
    assert n !in changed;
    assert UpAt(t, n) && UpAt(u, n);
    if n != top && t[n].parent.Some? {
      BelowFrame(t, u, t[n].parent.value, top, changed);
    }
  }

  lemma {:induction false} BelowRank<N>(t: Tree<N>, n: N, top: N)
    requires UpOk(t) && n in t && Below(t, n, top)
    ensures top in t && t[top].rank <= t[n].rank
    ensures n != top ==> t[top].rank < t[n].rank
    decreases t[n].rank
  {
    assert UpAt(t, n);
    if n != top {
      BelowRank(t, t[n].parent.value, top);
    }
  }

  lemma {:induction false} BelowTransitive<N>(t: Tree<N>, a: N, b: N, c: N)
    requires UpOk(t) && a in t && b in t && Below(t, a, b) && Below(t, b, c)
    ensures Below(t, a, c)
    decreases t[a].rank
  {
    assert UpAt(t, a);
    if a != b {
      BelowTransitive(t, t[a].parent.value, b, c);
    }
  }

  /** What is inside an attached node is attached, and the other way round. */
  lemma {:induction false} AttachedBelow<N>(t: Tree<N>, root: N, n: N, top: N)
    requires UpOk(t) && n in t && Below(t, n, top) && RootOk(t, root)
    ensures top in t && (top != root ==> Attached(t, root, n) == Attached(t, root, top))
    ensures Attached(t, root, top) ==> Attached(t, root, n)
    decreases t[n].rank
  {
    assert UpAt(t, n);
    if n != top {
      assert n != root;
      AttachedBelow(t, root, t[n].parent.value, top);
    }
  }

  // ------------------------------------------------------- the steps keep the tree

  /** The same nodes with the same names and kinds. */
  ghost predicate SameNodes<N>(t: Tree<N>, u: Tree<N>) {
    t.Keys == u.Keys && forall x :: x in t ==> u[x].name == t[x].name && u[x].kind == t[x].kind
  }

  /** No directory lists n. */
  ghost predicate Unlisted<N>(t: Tree<N>, n: N) {
    forall q, k :: q in t && k in t[q].children ==> t[q].children[k] != n
  }

  /** A node may be taken out if it is attached or hangs nowhere. */
  ghost predicate MayDetach<N>(t: Tree<N>, root: N, n: N)
    requires UpOk(t)
  {
    n in t && n != root && Settled(t, root, n)
  }

  lemma UnlinkedKeeps<N>(t: Tree<N>, root: N, n: N, loose: set<N>)
    requires Wf(t, root, loose) && n !in loose && n in t && n != root
    ensures Wf(Unlinked(t, root, n), root, loose + {n})
    ensures SameNodes(t, Unlinked(t, root, n)) && SameLinks(t, Unlinked(t, root, n), {})
    ensures Settled(t, root, n) ==> Unlisted(Unlinked(t, root, n), n)
  {
    var u := Unlinked(t, root, n);
    assert UpAt(t, n) && MirrorAt(t, n);
    forall x | x in u ensures UpAt(u, x) && DirAt(u, x) && (x !in loose + {n} ==> MirrorAt(u, x)) {
      assert UpAt(t, x) && DirAt(t, x);
      if x !in loose {
        assert MirrorAt(t, x);
      }
    }
    forall x, k | x in u && k in u[x].children
      ensures u[x].children[k] in u && (u[x].children[k] !in loose ==> ChildAt(u, x, k))
      ensures Settled(t, root, n) ==> u[x].children[k] != n
    {
      assert u[x].children[k] !in loose ==> ChildAt(t, x, k);
    }
  }

  /** Detaching keeps the tree, also while another node is being moved. */
  lemma DetachedKeeps<N>(t: Tree<N>, root: N, n: N, loose: set<N>)
    requires Wf(t, root, loose) && n !in loose && MayDetach(t, root, n)
    ensures Wf(Detached(t, root, n), root, loose)
    ensures SameNodes(t, Detached(t, root, n)) && SameLinks(t, Detached(t, root, n), {n})
    ensures Unlisted(Detached(t, root, n), n)
    ensures !Attached(Detached(t, root, n), root, n)
  {
    UnlinkedKeeps(t, root, n, loose);
    var u, d := Unlinked(t, root, n), Detached(t, root, n);
    forall x | x in d ensures UpAt(d, x) && DirAt(d, x) && (x !in loose ==> MirrorAt(d, x)) {
      assert UpAt(u, x) && DirAt(u, x);
      if x !in loose + {n} {
        assert MirrorAt(u, x);
      }
    }
    forall x, k | x in d && k in d[x].children
      ensures d[x].children[k] in d && (d[x].children[k] !in loose ==> ChildAt(d, x, k))
    {
      assert d[x].children[k] !in loose + {n} ==> ChildAt(u, x, k);
    }
    assert UpAt(d, n);
  }

  /** Dropping the parent of a detached node leaves it in the directory that it is in: the tree is
      then well formed if and only if it is in none. */
  lemma DetachedKeepsIff<N>(t: Tree<N>, root: N, n: N, loose: set<N>)
    requires Wf(t, root, loose) && n !in loose && n in t && n != root
    ensures Wf(Detached(t, root, n), root, loose) <==> Settled(t, root, n)
    ensures UpOk(Detached(t, root, n)) && RootOk(Detached(t, root, n), root)
  {
    var d := Detached(t, root, n);
    if Settled(t, root, n) {
      DetachedKeeps(t, root, n, loose);
    } else {
      assert UpAt(t, n) && MirrorAt(t, n);
      assert !ChildAt(d, t[n].parent.value, t[n].name);
      forall x | x in d ensures UpAt(d, x) {
        assert UpAt(t, x);
      }
    }
  }

  lemma HungIsAcyclic<N>(t: Tree<N>, n: N, p: N)
    requires UpOk(t) && n in t && p in t && !Below(t, p, n)
    ensures UpOk(Hung(t, n, p))
  {
    var h := Hung(t, n, p);
    forall x | x in h ensures UpAt(h, x) {
      assert UpAt(t, x);
      if x != n && t[x].parent.Some? {
        assert Below(t, x, n) == Below(t, t[x].parent.value, n);
      }
    }
  }

  lemma HungKeepsEntries<N>(t: Tree<N>, n: N, p: N, loose: set<N>)
    requires UpOk(t) && DownOk(t, loose + {n}) && DirsOk(t) && MirrorOk(t, loose + {n}) && n in t && p in t
    requires t[p].kind.Directory? && !Below(t, p, n)
    ensures DownOk(Hung(t, n, p), loose + {n}) && DirsOk(Hung(t, n, p)) && MirrorOk(Hung(t, n, p), loose + {n})
  {
    var h := Hung(t, n, p);
    forall x | x in h ensures DirAt(h, x) && (x !in loose + {n} ==> MirrorAt(h, x)) {
      assert DirAt(t, x);
      if x !in loose + {n} {
        assert MirrorAt(t, x);
      }
    }
    forall x, k | x in h && k in h[x].children
      ensures h[x].children[k] in h && (h[x].children[k] !in loose + {n} ==> ChildAt(h, x, k))
    {
      assert h[x].children[k] !in loose + {n} ==> ChildAt(t, x, k);
    }
  }

  lemma HungKeeps<N>(t: Tree<N>, root: N, n: N, p: N, loose: set<N>)
    requires Wf(t, root, loose + {n}) && n in t && n != root && p in t
    requires t[p].kind.Directory? && !Below(t, p, n)
    ensures Wf(Hung(t, n, p), root, loose + {n})
    ensures SameNodes(t, Hung(t, n, p)) && SameLinks(t, Hung(t, n, p), {n})
    ensures Hung(t, n, p)[n].parent == Some(p)
    ensures forall x :: x in t ==> Hung(t, n, p)[x].children == t[x].children
  {
    hide Hung, Below;
    HungIsAcyclic(t, n, p);
    HungKeepsEntries(t, n, p, loose);
    HungElsewhere(t, n, p);
  }

  lemma HungElsewhere<N>(t: Tree<N>, n: N, p: N)
    requires UpOk(t) && n in t && p in t
    ensures SameNodes(t, Hung(t, n, p)) && SameLinks(t, Hung(t, n, p), {n})
    ensures Hung(t, n, p)[n].parent == Some(p)
    ensures forall x :: x in t ==> Hung(t, n, p)[x].children == t[x].children
  {
    hide Below;
  }

  /** The parent of a node is a directory. */
  lemma DirAbove<N>(t: Tree<N>, n: N)
    requires UpOk(t) && MirrorOk(t, {}) && DirsOk(t) && n in t && t[n].parent.Some?
    ensures t[n].parent.value in t && t[t[n].parent.value].kind.Directory?
  {
    assert UpAt(t, n) && MirrorAt(t, n);
    assert DirAt(t, t[n].parent.value);
  }

  /** No directory but p lists n, and p only where n is entered. */
  ghost predicate OnlyIn<N>(t: Tree<N>, n: N, p: N)
    requires n in t
  {
    forall q, k :: q in t && k in t[q].children && t[q].children[k] == n ==> q == p && k == t[n].name
  }

  ghost predicate Free<N>(t: Tree<N>, n: N, p: N)
    requires n in t && p in t
  {
    t[n].name in t[p].children ==> t[p].children[t[n].name] == n
  }

  /** The end of a move: whatever has the name is overwritten. */
  lemma LinkedKeepsIff<N>(t: Tree<N>, root: N, n: N, p: N)
    requires Wf(t, root, {n}) && n in t && p in t && p != n && t[n].parent == Some(p) && t[p].kind.Directory?
    ensures Wf(Linked(t, p, n), root, {}) <==> OnlyIn(t, n, p) && Free(t, n, p)
    ensures SameNodes(t, Linked(t, p, n)) && SameLinks(t, Linked(t, p, n), {})
    ensures UpOk(Linked(t, p, n)) && RootOk(Linked(t, p, n), root)
  {
    var l, name := Linked(t, p, n), t[n].name;
    forall x | x in l ensures UpAt(l, x) && DirAt(l, x) && (Free(t, n, p) ==> MirrorAt(l, x)) {
      assert UpAt(t, x) && DirAt(t, x);
      if x != n {
        assert MirrorAt(t, x);
      }
    }
    forall x, k | x in l && k in l[x].children
      ensures l[x].children[k] in l && (l[x].children[k] != n ==> ChildAt(l, x, k))
      ensures OnlyIn(t, n, p) ==> ChildAt(l, x, k)
    {
      if k in t[x].children {
        assert t[x].children[k] != n ==> ChildAt(t, x, k);
      }
    }
    if q, k :| q in t && k in t[q].children && t[q].children[k] == n && (q != p || k != name) {
      assert !ChildAt(l, q, k);
    } else if !Free(t, n, p) {
      assert ChildAt(t, p, name) && !MirrorAt(l, t[p].children[name]);
    }
  }

  lemma LinkedKeeps<N>(t: Tree<N>, root: N, n: N, p: N)
    requires Wf(t, root, {n}) && n in t && p in t && p != n && t[n].parent == Some(p)
    requires t[p].kind.Directory? && Unlisted(t, n) && t[n].name !in t[p].children
    ensures Wf(Linked(t, p, n), root, {})
    ensures SameNodes(t, Linked(t, p, n)) && SameLinks(t, Linked(t, p, n), {})
  {
    LinkedKeepsIff(t, root, n, p);
  }

  /** The state in which a move has set the parent but not yet told it. */
  ghost function HungUp<N>(t: Tree<N>, root: N, n: N, p: N): Tree<N>
    requires Wf(t, root, {}) && MayHang(t, root, n, p)
  {
    UnlinkedKeeps(t, root, n, {});
    Hung(Unlinked(t, root, n), n, p)
  }

  /** A node that was detached is still in the directory that it was in. */
  ghost predicate StillIn<N>(t: Tree<N>, h: Tree<N>, root: N, n: N)
    requires UpOk(t) && n in t
  {
    if Settled(t, root, n) then Unlisted(h, n)
    else
      && t[n].parent.value in h && t[n].name in h[t[n].parent.value].children
      && h[t[n].parent.value].children[t[n].name] == n
      && forall q, k :: q in h && k in h[q].children && h[q].children[k] == n ==>
           q == t[n].parent.value && k == t[n].name
  }

  lemma HungUpKeeps<N>(t: Tree<N>, root: N, n: N, p: N)
    requires Wf(t, root, {}) && MayHang(t, root, n, p)
    ensures var h := HungUp(t, root, n, p);
      && Wf(h, root, {n}) && SameNodes(t, h) && SameLinks(t, h, {n}) && StillIn(t, h, root, n)
      && h[n].parent == Some(p) && !Below(h, p, n) && Attached(h, root, p) == Attached(t, root, p)
      && Attached(h, root, n) == Attached(t, root, p)
      && (Attached(t, root, p) ==> PathOf(h, root, p) == PathOf(t, root, p))
  {
    var u := Unlinked(t, root, n);
    UnlinkedKeeps(t, root, n, {});
    BelowFrame(t, u, p, n, {});
    HungKeeps(u, root, n, p, {});
    assert {} + {n} == {n};
    ChainFrame(t, HungUp(t, root, n, p), root, p, {n});
    BelowFrame(t, HungUp(t, root, n, p), p, n, {n});
    HungUpStillIn(t, root, n, p);
  }

  lemma HungUpStillIn<N>(t: Tree<N>, root: N, n: N, p: N)
    requires Wf(t, root, {}) && MayHang(t, root, n, p)
    ensures StillIn(t, HungUp(t, root, n, p), root, n)
    ensures var h := HungUp(t, root, n, p);
      UpOk(h) ==> UpAt(h, n) && Attached(h, root, n) == Attached(h, root, p)
  {
    UnlinkedKeeps(t, root, n, {});
    var u, h := Unlinked(t, root, n), HungUp(t, root, n, p);
    assert forall x :: x in u ==> x in h && h[x].children == u[x].children;
    if !Settled(t, root, n) {
      assert u == t;
      assert UpAt(t, n) && MirrorAt(t, n);
      forall q, k | q in h && k in h[q].children && h[q].children[k] == n
        ensures q == t[n].parent.value && k == t[n].name
      {
        assert ChildAt(t, q, k);
      }
    }
    if UpOk(h) {
      assert UpAt(h, n);
    }
  }

  ghost function Moved<N>(t: Tree<N>, root: N, n: N, p: N): Tree<N>
    requires Wf(t, root, {}) && MayHang(t, root, n, p)
  {
    HungUpKeeps(t, root, n, p);
    Linked(Cleared(HungUp(t, root, n, p), root, p, t[n].name), p, n)
  }

  lemma ClearedKeeps<N>(t: Tree<N>, root: N, n: N, p: N, name: string)
    requires Wf(t, root, {n}) && n in t && p in t && n != root && p != n
    requires name in t[p].children && t[p].children[name] == n ==> !Attached(t, root, n)
    ensures var c := Cleared(t, root, p, name);
      && Wf(c, root, {n}) && SameNodes(t, c)
      && c[n].parent == t[n].parent
      && (forall q :: q in t && q != p ==> c[q].children == t[q].children)
      && (if name in t[p].children && t[p].children[name] != n && Attached(t, root, p)
          then SameLinks(t, c, {t[p].children[name]}) && c[p].children == t[p].children - {name}
          else c == t)
  {
    if name in t[p].children && t[p].children[name] != n {
      var prior := t[p].children[name];
      assert ChildAt(t, p, name);
      assert UpAt(t, prior);
      if Attached(t, root, prior) {
        DetachedKeeps(t, root, prior, {n});
      }
    }
  }

  /** Exactly when a move leaves the tree well formed: a detached node that is in a directory
      would stay there, and an entry of a detached directory would not be told that it is replaced. */
  ghost predicate CleanMove<N>(t: Tree<N>, root: N, n: N, p: N)
    requires UpOk(t) && n in t && p in t
  {
    && (Settled(t, root, n) || t[n].parent == Some(p))
    && (Attached(t, root, p) || Free(t, n, p))
  }

  /** A move puts the node where it was asked to go, and keeps the tree well formed if and only if
      it is a clean one. */
  lemma MovedKeepsIff<N>(t: Tree<N>, root: N, n: N, p: N)
    requires Wf(t, root, {}) && MayHang(t, root, n, p)
    ensures Wf(Moved(t, root, n, p), root, {}) <==> CleanMove(t, root, n, p)
    ensures SameNodes(t, Moved(t, root, n, p)) && UpOk(Moved(t, root, n, p)) && RootOk(Moved(t, root, n, p), root)
    ensures Moved(t, root, n, p)[n].parent == Some(p)
  {
    hide HungUp, Cleared, Linked;
    var h := HungUp(t, root, n, p);
    HungUpKeeps(t, root, n, p);
    ListedInMove(t, root, n, p);
    ClearedKeeps(h, root, n, p, t[n].name);
    OnlyInCleared(t, h, root, n, p);
    LinkedKeepsIff(Cleared(h, root, p, t[n].name), root, n, p);
  }

  /** While a move is under way, what p lists under the name has not changed, unless it was n. */
  lemma ListedInMove<N>(t: Tree<N>, root: N, n: N, p: N)
    requires Wf(t, root, {}) && MayHang(t, root, n, p)
    ensures var h, name := HungUp(t, root, n, p), t[n].name;
      && p in h && n in h && h[n].name == name && (Free(h, n, p) <==> Free(t, n, p))
      && (name in h[p].children && h[p].children[name] == n ==>
            !Attached(t, root, p) && !Settled(t, root, n) && t[n].parent == Some(p))
  {
    HungUpKeeps(t, root, n, p);
    assert UpAt(t, n) && MirrorAt(t, n);
    assert HungUp(t, root, n, p)[p].children == Unlinked(t, root, n)[p].children;
  }

  lemma OnlyInCleared<N>(t: Tree<N>, h: Tree<N>, root: N, n: N, p: N)
    requires UpOk(t) && n in t && p in t && n in h && p in h && n != p && Wf(h, root, {n}) && SameNodes(t, h)
    requires StillIn(t, h, root, n) && Attached(h, root, p) == Attached(t, root, p)
    requires Free(h, n, p) <==> Free(t, n, p)
    requires var c, name := Cleared(h, root, p, t[n].name), t[n].name;
      && c.Keys == h.Keys && c[n].name == name && (forall q :: q in h && q != p ==> c[q].children == h[q].children)
      && (if name in h[p].children && h[p].children[name] != n && Attached(h, root, p)
          then c[p].children == h[p].children - {name} else c == h)
    ensures var c := Cleared(h, root, p, t[n].name);
      OnlyIn(c, n, p) && Free(c, n, p) <==> CleanMove(t, root, n, p)
  {
    hide Cleared, Attached;
    var c := Cleared(h, root, p, t[n].name);
    if !Settled(t, root, n) && t[n].parent.value != p {
      assert c[t[n].parent.value].children == h[t[n].parent.value].children;
    }
  }

  /** A move keeps the tree well formed and puts the node where it was asked to go. */
  lemma MovedKeeps<N>(t: Tree<N>, root: N, n: N, p: N)
    requires Wf(t, root, {}) && MayMove(t, root, n, p)
    ensures Wf(Moved(t, root, n, p), root, {})
    ensures SameNodes(t, Moved(t, root, n, p))
    ensures Moved(t, root, n, p)[n].parent == Some(p)
  {
    MovedKeepsIff(t, root, n, p);
  }

  // ------------------------------------------------- creation, renaming, pruning

  lemma FreshKeeps<N>(t: Tree<N>, root: N, n: N, name: string, kind: Kind)
    requires Wf(t, root, {}) && n !in t
    ensures Wf(Fresh(t, n, name, kind), root, {})
    ensures SameLinks(t, Fresh(t, n, name, kind), {})
  {
    var u := Fresh(t, n, name, kind);
    forall x | x in u ensures UpAt(u, x) && DirAt(u, x) && MirrorAt(u, x) {
      if x != n {
        assert UpAt(t, x) && DirAt(t, x) && MirrorAt(t, x);
      }
    }
    forall x, k | x in u && k in u[x].children ensures ChildAt(u, x, k) {
      assert ChildAt(t, x, k);
    }
  }

  /** A new node in an attached directory: what every constructor with a parent does. */
  ghost predicate MayCreate<N>(t: Tree<N>, root: N, n: N, p: N)
    requires UpOk(t)
  {
    n !in t && p in t && t[p].kind.Directory? && Attached(t, root, p)
  }

  /** A new node in any directory, attached or not. */
  ghost predicate MayAdd<N>(t: Tree<N>, n: N, p: N) {
    n !in t && p in t && t[p].kind.Directory?
  }

  lemma MayHangFresh<N>(t: Tree<N>, root: N, n: N, p: N, name: string, kind: Kind)
    requires Wf(t, root, {}) && MayAdd(t, n, p)
    ensures Wf(Fresh(t, n, name, kind), root, {}) && MayHang(Fresh(t, n, name, kind), root, n, p)
    ensures Settled(Fresh(t, n, name, kind), root, n)
    ensures Attached(Fresh(t, n, name, kind), root, p) == Attached(t, root, p)
  {
    var u := Fresh(t, n, name, kind);
    FreshKeeps(t, root, n, name, kind);
    ChainFrame(t, u, root, p, {});
    BelowFrame(t, u, p, n, {});
    NotBelowStranger(t, p, n);
  }

  lemma MayMoveFresh<N>(t: Tree<N>, root: N, n: N, p: N, name: string, kind: Kind)
    requires Wf(t, root, {}) && MayCreate(t, root, n, p)
    ensures Wf(Fresh(t, n, name, kind), root, {}) && MayMove(Fresh(t, n, name, kind), root, n, p)
  {
    MayHangFresh(t, root, n, p, name, kind);
  }

  lemma {:induction false} NotBelowStranger<N>(t: Tree<N>, n: N, top: N)
    requires UpOk(t) && n in t && top !in t
    ensures !Below(t, n, top)
    decreases t[n].rank
  {
    assert UpAt(t, n);
    if t[n].parent.Some? {
      NotBelowStranger(t, t[n].parent.value, top);
    }
  }

  ghost function Created<N>(t: Tree<N>, root: N, n: N, p: N, name: string, kind: Kind): Tree<N>
    requires Wf(t, root, {}) && MayAdd(t, n, p)
  {
    MayHangFresh(t, root, n, p, name, kind);
    Moved(Fresh(t, n, name, kind), root, n, p)
  }

  /** Creation in a detached directory does not tell an entry that it is replaced. */
  lemma CreatedKeepsIff<N>(t: Tree<N>, root: N, n: N, p: N, name: string, kind: Kind)
    requires Wf(t, root, {}) && MayAdd(t, n, p)
    ensures Wf(Created(t, root, n, p, name, kind), root, {}) <==> Attached(t, root, p) || name !in t[p].children
  {
    MayHangFresh(t, root, n, p, name, kind);
    MovedKeepsIff(Fresh(t, n, name, kind), root, n, p);
    if name in t[p].children {
      assert ChildAt(t, p, name);
    }
  }

  lemma WithNameKeeps<N>(t: Tree<N>, root: N, n: N, name: string)
    requires Wf(t, root, {}) && n in t && n != root && t[n].parent == None
    ensures Wf(WithName(t, n, name), root, {})
    ensures SameLinks(t, WithName(t, n, name), {n})
  {
    var u := WithName(t, n, name);
    forall x | x in u ensures UpAt(u, x) && DirAt(u, x) && MirrorAt(u, x) {
      assert UpAt(t, x) && DirAt(t, x) && MirrorAt(t, x);
    }
    forall x, k | x in u && k in u[x].children ensures ChildAt(u, x, k) {
      assert ChildAt(t, x, k);
    }
  }

  /** The state in which a rename has taken the node out and changed its name. */
  ghost function RenamedOut<N>(t: Tree<N>, root: N, n: N, name: string): Tree<N>
    requires Wf(t, root, {}) && MayDetach(t, root, n)
  {
    WithName(Detached(t, root, n), n, name)
  }

  lemma MayMoveBack<N>(t: Tree<N>, root: N, n: N, name: string)
    requires Wf(t, root, {}) && n in t && n != root && Attached(t, root, n)
    ensures t[n].parent.Some? && t[n].parent.value in t && Attached(t, root, t[n].parent.value)
    ensures Wf(RenamedOut(t, root, n, name), root, {})
    ensures MayMove(RenamedOut(t, root, n, name), root, n, t[n].parent.value)
  {
    assert UpAt(t, n) && MirrorAt(t, n);
    var p := t[n].parent.value;
    var d, u := Detached(t, root, n), RenamedOut(t, root, n, name);
    DetachedKeeps(t, root, n, {});
    WithNameKeeps(d, root, n, name);
    assert DirAt(t, p);
    if Below(t, p, n) {
      BelowRank(t, p, n);
    }
    ChainFrame(t, u, root, p, {n});
    BelowFrame(t, u, p, n, {n});
  }

  /** The effect of the name setter on an attached node. */
  ghost function Renamed<N>(t: Tree<N>, root: N, n: N, name: string): Tree<N>
    requires Wf(t, root, {}) && n in t && n != root && Attached(t, root, n)
  {
    if name == t[n].name then t
    else
      MayMoveBack(t, root, n, name);
      Moved(RenamedOut(t, root, n, name), root, n, t[n].parent.value)
  }

  lemma RenamedKeeps<N>(t: Tree<N>, root: N, n: N, name: string)
    requires Wf(t, root, {}) && n in t && n != root && Attached(t, root, n)
    ensures Wf(Renamed(t, root, n, name), root, {})
    ensures Renamed(t, root, n, name).Keys == t.Keys && Renamed(t, root, n, name)[n].name == name
    ensures forall x :: x in t && x != n ==> Renamed(t, root, n, name)[x].name == t[x].name
  {
    if name != t[n].name {
      MayMoveBack(t, root, n, name);
      DetachedKeeps(t, root, n, {});
      MovedKeeps(RenamedOut(t, root, n, name), root, n, t[n].parent.value);
    }
  }

  /** Renaming a detached node that still has a parent leaves it in the parent's table under
      its old name: the tree is then well formed if and only if the name did not change. */
  lemma RenamingInsideDetached<N>(t: Tree<N>, root: N, n: N, name: string)
    requires Wf(t, root, {}) && n in t && n != root && t[n].parent.Some?
    ensures Wf(WithName(t, n, name), root, {}) <==> name == t[n].name
  {
    var u := WithName(t, n, name);
    assert UpAt(t, n);
    if name == t[n].name {
      assert u == t;
    } else if name in t[t[n].parent.value].children {
      assert ChildAt(t, t[n].parent.value, name);
      assert !MirrorAt(u, n);
    } else {
      assert t[n].parent.value != n;
      assert !MirrorAt(u, n);
    }
  }

  /** A directory cannot be moved into itself: whatever ranks one gives the nodes, parent
      links of the result are acyclic only if the new parent is outside of the moved node. */
  lemma {:induction false} MovingBelowItself<N>(t: Tree<N>, n: N, p: N, u: Tree<N>, x: N)
    requires UpOk(t) && n in t && p in t && Below(t, p, n) && u.Keys == t.Keys
    requires u[n].parent == Some(p) && forall y :: y in t && y != n ==> u[y].parent == t[y].parent
    requires x in t && Below(t, p, x) && Below(t, x, n)
    requires UpOk(u)
    ensures u[n].rank <= u[x].rank
    decreases t[x].rank
  {
    if x != n {
      assert UpAt(t, x) && UpAt(u, x);
      BelowParent(t, p, x);
      MovingBelowItself(t, n, p, u, t[x].parent.value);
    }
  }

  lemma {:induction false} BelowParent<N>(t: Tree<N>, n: N, top: N)
    requires UpOk(t) && n in t && top in t && Below(t, n, top) && t[top].parent.Some?
    ensures Below(t, n, t[top].parent.value)
    decreases t[n].rank
  {
    assert UpAt(t, n) && UpAt(t, top);
    if n != top {
      BelowParent(t, t[n].parent.value, top);
    }
  }

  lemma MovingBelowItselfIsCyclic<N>(t: Tree<N>, n: N, p: N, u: Tree<N>)
    requires UpOk(t) && n in t && p in t && Below(t, p, n) && u.Keys == t.Keys
    requires u[n].parent == Some(p) && forall y :: y in t && y != n ==> u[y].parent == t[y].parent
    ensures !UpOk(u)
  {
    if UpOk(u) {
      assert UpAt(u, n);
      MovingBelowItself(t, n, p, u, p);
    }
  }

  // ------------------------------------------------------------ where nodes are

  /** The names on the way from the root directory to an attached node. */
  ghost function NamesOf<N>(t: Tree<N>, root: N, n: N): seq<string>
    requires UpOk(t) && n in t && Attached(t, root, n)
    decreases t[n].rank
  {
    assert UpAt(t, n);
    if n == root then [] else NamesOf(t, root, t[n].parent.value) + [t[n].name]
  }

  /** The names on the way from `top` to a node inside it. */
  ghost function NamesFrom<N>(t: Tree<N>, top: N, n: N): seq<string>
    requires UpOk(t) && n in t && Below(t, n, top)
    decreases t[n].rank
  {
    assert UpAt(t, n);
    if n == top then [] else NamesFrom(t, top, t[n].parent.value) + [t[n].name]
  }

  lemma {:induction false} NamesSplit<N>(t: Tree<N>, root: N, top: N, n: N)
    requires UpOk(t) && RootOk(t, root) && n in t && top in t && Below(t, n, top) && Attached(t, root, top)
    ensures Attached(t, root, n) && NamesOf(t, root, n) == NamesOf(t, root, top) + NamesFrom(t, top, n)
    decreases t[n].rank
  {
    assert UpAt(t, n);
    AttachedBelow(t, root, n, top);
    if n != top {
      assert n != root;
      NamesSplit(t, root, top, t[n].parent.value);
    }
  }

  lemma {:induction false} NamesFrame<N>(t: Tree<N>, u: Tree<N>, root: N, n: N, changed: set<N>)
    requires UpOk(t) && UpOk(u) && n in t && SameLinks(t, u, changed) && Attached(t, root, n)
    requires forall m :: m in changed ==> !Below(t, n, m)
    ensures n in u && Attached(u, root, n) && NamesOf(u, root, n) == NamesOf(t, root, n)
    decreases t[n].rank
  {
    assert Below(t, n, n);
    assert UpAt(t, n) && UpAt(u, n);
    if n != root {
      NamesFrame(t, u, root, t[n].parent.value, changed);
    }
  }

  /** Inside a node, only changes to nodes strictly below it matter. */
  lemma {:induction false} NamesFromFrame<N>(t: Tree<N>, u: Tree<N>, top: N, n: N, changed: set<N>)
    requires UpOk(t) && UpOk(u) && n in t && SameLinks(t, u, changed) && Below(t, n, top)
    requires top in u && forall m :: m in changed && m != top ==> !Below(t, n, m)
    ensures n in u && Below(u, n, top) && NamesFrom(u, top, n) == NamesFrom(t, top, n)
    decreases t[n].rank
  {
    assert Below(t, n, n);
    assert UpAt(t, n);
    if n != top {
      assert UpAt(u, n);
      NamesFromFrame(t, u, top, t[n].parent.value, changed);
    }
  }

  /** Of two nodes above the same node, one is above the other. */
  lemma {:induction false} AncestorsLineUp<N>(t: Tree<N>, x: N, a: N, b: N)
    requires UpOk(t) && x in t && a in t && b in t && Below(t, x, a) && Below(t, x, b)
    ensures Below(t, a, b) || Below(t, b, a)
    decreases t[x].rank
  {
    assert UpAt(t, x);
    if x != a && x != b {
      AncestorsLineUp(t, t[x].parent.value, a, b);
    }
  }

  /** The entry that a move of n into p replaces: whatever else has the name there. */
  ghost function Replaced<N>(t: Tree<N>, n: N, p: N): set<N>
    requires n in t && p in t
  {
    if t[n].name in t[p].children && t[p].children[t[n].name] != n then {t[p].children[t[n].name]} else {}
  }

  ghost predicate BelowAny<N>(t: Tree<N>, x: N, tops: set<N>)
    requires UpOk(t) && x in t
  {
    exists m :: m in tops && Below(t, x, m)
  }

  ghost predicate ReplacedAt<N>(t: Tree<N>, h: Tree<N>, root: N, n: N, p: N, m: N) {
    m in t && m in h && m != root && m != n && t[m].parent == Some(p) && h[m].parent == Some(p)
  }

  /** While a move is under way, p lists under the name just what is to be replaced. */
  lemma ListedDuringMove<N>(t: Tree<N>, root: N, n: N, p: N)
    requires Wf(t, root, {}) && MayMove(t, root, n, p)
    ensures var h, name := HungUp(t, root, n, p), t[n].name;
      && p in h && (name in h[p].children <==> name in t[p].children && t[p].children[name] != n)
      && (name in h[p].children ==> h[p].children[name] == t[p].children[name])
  {
    UnlinkedKeeps(t, root, n, {});
    HungUpKeeps(t, root, n, p);
    assert UpAt(t, n) && MirrorAt(t, n);
    if t[n].name in t[p].children {
      assert ChildAt(t, p, t[n].name);
    }
    assert HungUp(t, root, n, p)[p].children == Unlinked(t, root, n)[p].children;
  }

  lemma ReplacedIsOut<N>(t: Tree<N>, h: Tree<N>, root: N, n: N, p: N)
    requires Wf(t, root, {}) && Wf(h, root, {n}) && n in t && p in t && p in h && n in h && SameNodes(t, h)
    requires p != n && Unlisted(h, n) && t[n].name in h[p].children && Attached(h, root, p)
      && t[n].name in t[p].children
    requires h[p].children[t[n].name] == t[p].children[t[n].name]
    ensures var m := h[p].children[t[n].name];
      && ReplacedAt(t, h, root, n, p, m)
      && var c := Cleared(h, root, p, t[n].name); UpOk(c) && m in c && c[m].parent == None
  {
    assert ChildAt(h, p, t[n].name) && ChildAt(t, p, t[n].name);
    var m := h[p].children[t[n].name];
    assert UpAt(h, m);
    DetachedKeeps(h, root, m, {n});
  }

  /** The state just before the moved node is entered in its new parent's table. */
  lemma BeforeLinking<N>(t: Tree<N>, root: N, n: N, p: N)
    requires Wf(t, root, {}) && MayMove(t, root, n, p)
    ensures var h, u := HungUp(t, root, n, p), Moved(t, root, n, p);
      && UpOk(h) && UpOk(u) && SameLinks(t, h, {n}) && SameLinks(h, u, Replaced(t, n, p))
      && h[n].parent == Some(p) && h.Keys == t.Keys && u.Keys == t.Keys
      && (forall m :: m in Replaced(t, n, p) ==> ReplacedAt(t, h, root, n, p, m) && !Attached(u, root, m))
  {
    HungUpKeeps(t, root, n, p);
    var h, u := HungUp(t, root, n, p), Moved(t, root, n, p);
    var name := t[n].name;
    ClearedKeeps(h, root, n, p, name);
    var c := Cleared(h, root, p, name);
    LinkedKeeps(c, root, n, p);
    ListedDuringMove(t, root, n, p);
    if name in h[p].children {
      ReplacedIsOut(t, h, root, n, p);
    }
  }

  /** Everything inside a moved node is found below its new place. */
  lemma MovedInside<N>(t: Tree<N>, root: N, n: N, p: N, x: N)
    requires Wf(t, root, {}) && MayMove(t, root, n, p) && x in t && Below(t, x, n)
    ensures Wf(Moved(t, root, n, p), root, {})
    ensures var u := Moved(t, root, n, p);
      x in u && Attached(u, root, x)
      && NamesOf(u, root, x) == NamesOf(t, root, p) + [t[n].name] + NamesFrom(t, n, x)
  {
    MovedKeeps(t, root, n, p);
    BeforeLinking(t, root, n, p);
    HungUpKeeps(t, root, n, p);
    var h, u := HungUp(t, root, n, p), Moved(t, root, n, p);
    NamesFrame(t, h, root, p, {n});
    NamesFromFrame(t, h, n, x, {n});
    assert UpAt(h, n);
    forall m | m in Replaced(t, n, p) ensures !Below(h, n, m) && !Below(h, x, m) {
      assert UpAt(h, m);
      if Below(h, p, m) {
        BelowRank(h, p, m);
      }
      if Below(h, x, m) {
        assert Below(h, m, n) == Below(h, p, n);
        AncestorsLineUp(h, x, n, m);
      }
    }
    NamesFrame(h, u, root, n, Replaced(t, n, p));
    NamesFromFrame(h, u, n, x, Replaced(t, n, p));
    NamesSplit(u, root, n, x);
  }

  /** Everything that is neither moved nor replaced stays where it was. */
  lemma MovedOutside<N>(t: Tree<N>, root: N, n: N, p: N, x: N)
    requires Wf(t, root, {}) && MayMove(t, root, n, p) && x in t
    requires !Below(t, x, n) && !BelowAny(t, x, Replaced(t, n, p))
    ensures Wf(Moved(t, root, n, p), root, {})
    ensures var u := Moved(t, root, n, p);
      x in u && Attached(u, root, x) == Attached(t, root, x)
      && (Attached(t, root, x) ==> NamesOf(u, root, x) == NamesOf(t, root, x))
  {
    MovedKeeps(t, root, n, p);
    BeforeLinking(t, root, n, p);
    var h, u := HungUp(t, root, n, p), Moved(t, root, n, p);
    forall m | m in Replaced(t, n, p) ensures !Below(h, x, m) {
      BelowFrame(t, h, x, m, {n});
    }
    ChainFrame(t, h, root, x, {n});
    ChainFrame(h, u, root, x, Replaced(t, n, p));
    if Attached(t, root, x) {
      NamesFrame(t, h, root, x, {n});
      NamesFrame(h, u, root, x, Replaced(t, n, p));
    }
  }

  /** What had the name before is no longer part of the tree, unless it is inside the moved node. */
  lemma MovedAway<N>(t: Tree<N>, root: N, n: N, p: N, x: N)
    requires Wf(t, root, {}) && MayMove(t, root, n, p) && x in t
    requires !Below(t, x, n) && BelowAny(t, x, Replaced(t, n, p))
    ensures Wf(Moved(t, root, n, p), root, {})
    ensures x in Moved(t, root, n, p) && !Attached(Moved(t, root, n, p), root, x)
  {
    MovedKeeps(t, root, n, p);
    BeforeLinking(t, root, n, p);
    var h, u := HungUp(t, root, n, p), Moved(t, root, n, p);
    var m :| m in Replaced(t, n, p) && Below(t, x, m);
    BelowFrame(t, h, x, m, {n});
    BelowStays(h, u, x, m, root);
    AttachedBelow(u, root, x, m);
  }

  lemma {:induction false} BelowStays<N>(t: Tree<N>, u: Tree<N>, x: N, top: N, root: N)
    requires UpOk(t) && UpOk(u) && x in t && top in t && top in u && Below(t, x, top) && SameLinks(t, u, {top})
    ensures x in u && Below(u, x, top)
    decreases t[x].rank
  {
    assert UpAt(t, x);
    if x != top {
      assert UpAt(u, x);
      BelowStays(t, u, t[x].parent.value, top, root);
    }
  }

  // ------------------------------------------------------------------- renaming in place

  /** What else has the new name in the directory of the node. */
  ghost function Displaced<N>(t: Tree<N>, n: N, name: string): set<N>
    requires n in t && t[n].parent.Some? && t[n].parent.value in t
  {
    var p := t[n].parent.value;
    if name in t[p].children && t[p].children[name] != n then {t[p].children[name]} else {}
  }

  /** The state between taking the node out and putting it back: all but its place and name is as before. */
  lemma RenamedOutIs<N>(t: Tree<N>, root: N, n: N, name: string, x: N)
    requires Wf(t, root, {}) && n in t && n != root && Attached(t, root, n) && x in t && name != t[n].name
    ensures t[n].parent.Some? && t[n].parent.value in t && Attached(t, root, t[n].parent.value)
    ensures var w, p := RenamedOut(t, root, n, name), t[n].parent.value;
      && Wf(w, root, {}) && MayMove(w, root, n, p) && w[n].name == name && w.Keys == t.Keys
      && Replaced(w, n, p) == Displaced(t, n, name)
      && Below(w, x, n) == Below(t, x, n)
      && (Below(t, x, n) ==> NamesFrom(w, n, x) == NamesFrom(t, n, x))
      && (!Below(t, x, n) ==> Attached(w, root, x) == Attached(t, root, x))
      && (!Below(t, x, n) ==> forall m :: m != n ==> Below(w, x, m) == Below(t, x, m))
      && (!Below(t, x, n) && Attached(t, root, x) ==> NamesOf(w, root, x) == NamesOf(t, root, x))
  {
    MayMoveBack(t, root, n, name);
    DetachedKeeps(t, root, n, {});
    var w, p := RenamedOut(t, root, n, name), t[n].parent.value;
    assert SameLinks(t, w, {n});
    assert UpAt(t, n) && MirrorAt(t, n);
    assert w[p].children == t[p].children - {t[n].name};
    if name in t[p].children {
      assert ChildAt(t, p, name);
    }
    if Below(t, x, n) {
      NamesFromFrame(t, w, n, x, {n});
    } else {
      forall m ensures Below(w, x, m) == Below(t, x, m) {
        BelowFrame(t, w, x, m, {n});
      }
      ChainFrame(t, w, root, x, {n});
      if Attached(t, root, x) {
        NamesFrame(t, w, root, x, {n});
      }
    }
  }

  /** A renamed node stays in its directory under the new name, with all that is in it. */
  lemma RenamedInside<N>(t: Tree<N>, root: N, n: N, name: string, x: N)
    requires Wf(t, root, {}) && n in t && n != root && Attached(t, root, n) && x in t && Below(t, x, n)
    ensures t[n].parent.Some? && t[n].parent.value in t && Attached(t, root, t[n].parent.value)
    ensures var u := Renamed(t, root, n, name);
      && Wf(u, root, {}) && x in u && Attached(u, root, x) && u[n].parent == t[n].parent
      && NamesOf(u, root, x) == NamesOf(t, root, t[n].parent.value) + [name] + NamesFrom(t, n, x)
  {
    OneUp(t, root, n);
    RenamedKeeps(t, root, n, name);
    var p := t[n].parent.value;
    if name == t[n].name {
      NamesSplit(t, root, n, x);
    } else {
      var w := RenamedOut(t, root, n, name);
      RenamedOutIs(t, root, n, name, x);
      RenamedOutIs(t, root, n, name, p);
      MovedInside(w, root, n, p, x);
      MovedKeeps(w, root, n, p);
    }
  }

  /** Everything else keeps its place, other than what had the name before. */
  lemma RenamedOutside<N>(t: Tree<N>, root: N, n: N, name: string, x: N)
    requires Wf(t, root, {}) && n in t && n != root && Attached(t, root, n) && x in t && !Below(t, x, n)
    ensures t[n].parent.Some? && t[n].parent.value in t
    ensures var u := Renamed(t, root, n, name);
      && Wf(u, root, {}) && x in u
      && (BelowAny(t, x, Displaced(t, n, name)) ==> !Attached(u, root, x))
      && (!BelowAny(t, x, Displaced(t, n, name)) ==>
            && Attached(u, root, x) == Attached(t, root, x)
            && (Attached(t, root, x) ==> NamesOf(u, root, x) == NamesOf(t, root, x)))
  {
    OneUp(t, root, n);
    RenamedKeeps(t, root, n, name);
    if name == t[n].name {
      assert MirrorAt(t, n);
    } else {
      var w, p := RenamedOut(t, root, n, name), t[n].parent.value;
      RenamedOutIs(t, root, n, name, x);
      if BelowAny(t, x, Displaced(t, n, name)) {
        MovedAway(w, root, n, p, x);
      } else {
        MovedOutside(w, root, n, p, x);
      }
    }
  }

  // -------------------------------------------------------------------- pruning

  lemma OneUp<N>(t: Tree<N>, root: N, n: N)
    requires UpOk(t) && n in t && n != root && Attached(t, root, n)
    ensures t[n].parent.Some? && t[n].parent.value in t && t[t[n].parent.value].rank < t[n].rank
    ensures Attached(t, root, t[n].parent.value) && !Below(t, t[n].parent.value, n)
  {
    assert UpAt(t, n);
    if Below(t, t[n].parent.value, n) {
      BelowRank(t, t[n].parent.value, n);
    }
  }

  /** Removal of an empty directory and of the parents that become empty by it. */
  ghost function Pruned<N>(t: Tree<N>, root: N, n: N): Tree<N>
    requires Wf(t, root, {}) && n in t && Attached(t, root, n)
    decreases t[n].rank
  {
    if n == root || t[n].children != map[] then t
    else
      OneUp(t, root, n);
      DetachedKeeps(t, root, n, {});
      var p := t[n].parent.value;
      DetachedElsewhere(t, root, n, p);
      assert UpAt(t, n);
      Pruned(Detached(t, root, n), root, p)
  }

  /** Detaching a node leaves everything that is not inside it where it is. */
  lemma DetachedElsewhere<N>(t: Tree<N>, root: N, n: N, x: N)
    requires Wf(t, root, {}) && MayDetach(t, root, n) && x in t && !Below(t, x, n)
    ensures var d := Detached(t, root, n);
      && UpOk(d) && x in d && Attached(d, root, x) == Attached(t, root, x)
      && (Attached(t, root, x) ==> NamesOf(d, root, x) == NamesOf(t, root, x))
      && d[x].rank == t[x].rank
  {
    DetachedKeeps(t, root, n, {});
    ChainFrame(t, Detached(t, root, n), root, x, {n});
    if Attached(t, root, x) {
      NamesFrame(t, Detached(t, root, n), root, x, {n});
    }
  }

  /** Pruning keeps the tree, and every node that the pruned directory is not inside of. */
  lemma {:induction false} PrunedKeeps<N>(t: Tree<N>, root: N, n: N, x: N)
    requires Wf(t, root, {}) && n in t && Attached(t, root, n)
    ensures Wf(Pruned(t, root, n), root, {}) && SameNodes(t, Pruned(t, root, n))
    ensures x in t && Attached(t, root, x) && !Below(t, n, x) ==>
      Attached(Pruned(t, root, n), root, x) && NamesOf(Pruned(t, root, n), root, x) == NamesOf(t, root, x)
    decreases t[n].rank
  {
    if n != root && t[n].children == map[] {
      OneUp(t, root, n);
      DetachedKeeps(t, root, n, {});
      var p := t[n].parent.value;
      DetachedElsewhere(t, root, n, p);
      assert UpAt(t, n);
      var d := Detached(t, root, n);
      if x in t && Attached(t, root, x) && !Below(t, n, x) {
        EmptyHasNothingBelow(t, root, n, x);
        DetachedElsewhere(t, root, n, x);
        BelowFrame(t, d, p, x, {n});
      }
      PrunedKeeps(d, root, p, x);
    }
  }

  lemma {:induction false} EmptyHasNothingBelow<N>(t: Tree<N>, root: N, n: N, x: N)
    requires Wf(t, root, {}) && n in t && x in t && t[n].children == map[] && x != n
    ensures !Below(t, x, n)
    decreases t[x].rank
  {
    assert UpAt(t, x) && MirrorAt(t, x);
    if t[x].parent.Some? && t[x].parent.value != n {
      EmptyHasNothingBelow(t, root, n, t[x].parent.value);
    }
  }

  /** After pruning, no empty directory is left where the pruning went. */
  lemma {:induction false} PrunedLeavesNoEmptyParent<N>(t: Tree<N>, root: N, n: N, x: N)
    requires Wf(t, root, {}) && n in t && Attached(t, root, n)
    requires x in t && Below(t, n, x) && x != root
    ensures var u := Pruned(t, root, n);
      UpOk(u) && x in u && (Attached(u, root, x) ==> u[x].children != map[])
    decreases t[n].rank
  {
    PrunedKeeps(t, root, n, n);
    assert UpAt(t, n) && MirrorAt(t, n);
    if n != root && t[n].children == map[] {
      OneUp(t, root, n);
      DetachedKeeps(t, root, n, {});
      var p := t[n].parent.value;
      var d := Detached(t, root, n);
      DetachedElsewhere(t, root, n, p);
      if x == n {
        PrunedStaysOut(d, root, p, n);
      } else {
        BelowFrame(t, d, p, x, {n});
        PrunedLeavesNoEmptyParent(d, root, p, x);
      }
    } else if x != n && t[n].parent.Some? {
      NonEmptyAbove(t, root, n, x);
    }
  }

  lemma {:induction false} NonEmptyAbove<N>(t: Tree<N>, root: N, n: N, x: N)
    requires Wf(t, root, {}) && n in t && x in t && Below(t, n, x) && n != x
    ensures t[x].children != map[]
    decreases t[n].rank
  {
    assert UpAt(t, n) && MirrorAt(t, n);
    if t[n].parent.value != x {
      NonEmptyAbove(t, root, t[n].parent.value, x);
    }
  }

  lemma {:induction false} PrunedStaysOut<N>(t: Tree<N>, root: N, n: N, x: N)
    requires Wf(t, root, {}) && n in t && Attached(t, root, n)
    requires x in t && !Attached(t, root, x) && x != root
    ensures Wf(Pruned(t, root, n), root, {}) && x in Pruned(t, root, n) && !Attached(Pruned(t, root, n), root, x)
    decreases t[n].rank
  {
    PrunedKeeps(t, root, n, n);
    if n != root && t[n].children == map[] {
      OneUp(t, root, n);
      DetachedKeeps(t, root, n, {});
      var p := t[n].parent.value;
      DetachedElsewhere(t, root, n, p);
      if Below(t, x, n) {
        AttachedBelow(t, root, x, n);
      }
      DetachedElsewhere(t, root, n, x);
      assert UpAt(t, n);
      PrunedStaysOut(Detached(t, root, n), root, p, x);
    }
  }

  // ------------------------------------------------------------------- whole runs

  datatype Step<N> =
    | Create(id: N, dir: N, name: string, kind: Kind)
    | Move(n: N, to: N)
    | Rename(n: N, name: string)
    | Remove(n: N)
    | Prune(n: N)

  /** The steps that the code accepts and that keep the tree: on attached nodes all that do not move a
      directory into itself, and in detached directories those that replace nothing. */
  ghost predicate MayStep<N>(t: Tree<N>, root: N, s: Step<N>)
    requires UpOk(t)
  {
    match s
    case Create(id, dir, name, _) => MayAdd(t, id, dir) && (Attached(t, root, dir) || name !in t[dir].children)
    case Move(n, to) => MayHang(t, root, n, to) && CleanMove(t, root, n, to)
    case Rename(n, _) => MayDetach(t, root, n)
    case Remove(n) => MayDetach(t, root, n)
    case Prune(n) => n in t && Attached(t, root, n)
  }

  predicate NamedWell<N>(s: Step<N>) {
    s.Create? || s.Rename? ==> ValidName(s.name)
  }

  ghost function Apply<N>(t: Tree<N>, root: N, s: Step<N>): Tree<N>
    requires Wf(t, root, {}) && MayStep(t, root, s)
  {
    match s
    case Create(id, dir, name, kind) => Created(t, root, id, dir, name, kind)
    case Move(n, to) => Moved(t, root, n, to)
    case Rename(n, name) => if Attached(t, root, n) then Renamed(t, root, n, name) else WithName(t, n, name)
    case Remove(n) => Detached(t, root, n)
    case Prune(n) => Pruned(t, root, n)
  }

  lemma ApplyKeeps<N>(t: Tree<N>, root: N, s: Step<N>)
    requires Wf(t, root, {}) && MayStep(t, root, s)
    ensures Wf(Apply(t, root, s), root, {}) && t.Keys <= Apply(t, root, s).Keys
    ensures NamesValid(t, root) && NamedWell(s) ==> NamesValid(Apply(t, root, s), root)
  {
    match s
    case Create(id, dir, name, kind) =>
      CreatedKeepsIff(t, root, id, dir, name, kind);
      MayHangFresh(t, root, id, dir, name, kind);
      MovedKeepsIff(Fresh(t, id, name, kind), root, id, dir);
    case Move(n, to) => MovedKeepsIff(t, root, n, to);
    case Rename(n, name) =>
      if Attached(t, root, n) {
        RenamedKeeps(t, root, n, name);
      } else {
        WithNameKeeps(t, root, n, name);
      }
    case Remove(n) => DetachedKeeps(t, root, n, {});
    case Prune(n) => PrunedKeeps(t, root, n, n);
  }

  /** Other steps are passed over. */
  ghost function Run<N>(t: Tree<N>, root: N, steps: seq<Step<N>>): Tree<N>
    requires Wf(t, root, {})
    decreases steps
  {
    if steps == [] then t
    else if MayStep(t, root, steps[0]) then
      ApplyKeeps(t, root, steps[0]);
      Run(Apply(t, root, steps[0]), root, steps[1..])
    else Run(t, root, steps[1..])
  }

  /** Every run of creations, moves, renames, removals and prunes keeps the tree well formed, whatever
      names are given, and keeps names valid if only valid ones are given. */
  lemma {:induction false} RunKeeps<N>(t: Tree<N>, root: N, steps: seq<Step<N>>)
    requires Wf(t, root, {})
    ensures Wf(Run(t, root, steps), root, {}) && t.Keys <= Run(t, root, steps).Keys
    ensures NamesValid(t, root) && (forall s :: s in steps ==> NamedWell(s)) ==> NamesValid(Run(t, root, steps), root)
    decreases steps
  {
    hide NamesValid, MayStep, Apply, NamedWell;
    if steps != [] {
      assert steps == [steps[0]] + steps[1..];
      if MayStep(t, root, steps[0]) {
        ApplyKeeps(t, root, steps[0]);
        RunKeeps(Apply(t, root, steps[0]), root, steps[1..]);
      } else {
        RunKeeps(t, root, steps[1..]);
      }
    }
  }
}
