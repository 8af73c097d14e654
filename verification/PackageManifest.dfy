/** The manifest of a package tree: one member for each path, symlinks last. */
module PackageManifest {
  import opened Strings
  import opened FsTree
  import opened VirtualFs
  import opened Traversal
  import opened Manifest
  import R = Resolution
  import L = SymlinkTargets

  /** What a path carries besides its place in the tree; `fsPath` is that of a reference path. */
  datatype Meta = Meta(mode: nat, owner: string, uid: int, group: string, gid: int, mtime: real,
                       fsPath: Option<string>, mayReplaceInline: bool)

  function TarPath(path: string, kind: Kind): string {
    if kind.Directory? then path + "/" else path
  }

  /** A file is always backed; anything else is if it has a reference path that is. */
  function BackingPath(kind: Kind, meta: Meta): Option<string> {
    if kind.File? then Some(kind.fsPath) else meta.fsPath
  }

  function Clamped(mtime: real, clamp: int): real {
    if mtime > clamp as real then clamp as real else mtime
  }

  /** `TarMember.virtual_path` */
  function VirtualPath(path: string, pathType: PathType, mtime: real, mode: nat, linkTarget: string, meta: Meta):
    Result<TarMember, ManifestError>
  {
    if !CanBeVirtual(pathType) then Failure(CannotBeVirtual)
    else if pathType == SymlinkType && linkTarget == "" then Failure(NoLinkTarget)
    else if pathType != SymlinkType && linkTarget != "" then Failure(LinkTargetNotAllowed)
    else Success(TarMember(path, pathType, None, mode, meta.owner, meta.uid, meta.group, meta.gid, mtime, linkTarget,
      true, false))
  }

  /** `TarMember.from_file` */
  function FromFile(path: string, fsPath: string, pathType: PathType, mtime: real, maySteal: bool, meta: Meta):
    Result<TarMember, ManifestError>
  {
    if maySteal && !Contains(fsPath, SCRATCH_DIR) then Failure(AssertionFailed)
    else Success(TarMember(path, pathType, Some(fsPath), meta.mode, meta.owner, meta.uid, meta.group, meta.gid, mtime,
      "", false, maySteal))
  }

  /** `_path_to_tar_member` */
  function MemberOf(path: string, kind: Kind, meta: Meta, clamp: int): Result<TarMember, ManifestError> {
    var backing := BackingPath(kind, meta);
    var mtime := if backing == None then clamp as real else Clamped(meta.mtime, clamp);
    if kind.Symlink? then
      if !StartsWith(path, "./") then Failure(BadLinkPath)
      else VirtualPath(path, SymlinkType, mtime, SYMLINK_MODE, L.PolicyTarget(path[2..], kind.target), meta)
    else if backing == None then VirtualPath(TarPath(path, kind), DirectoryType, mtime, meta.mode, "", meta)
    else FromFile(TarPath(path, kind), backing.value,
                  if kind.Directory? then DirectoryType else FileType, Clamped(mtime, clamp),
                  kind.File? && meta.mayReplaceInline, meta)
  }

  ghost predicate Described<N>(t: Tree<N>, meta: map<N, Meta>) {
    forall n :: n in t ==> n in meta
  }

  ghost function NodeMember<N>(t: Tree<N>, root: N, meta: map<N, Meta>, clamp: int,
                               n: N): Result<TarMember, ManifestError>
    requires R.IsAt(t, root, n) && n in meta
  {
    MemberOf(PathOf(t, root, n), t[n].kind, meta[n], clamp)
  }

  ghost predicate AllAt<N>(t: Tree<N>, root: N, nodes: seq<N>) {
    forall i :: 0 <= i < |nodes| ==> R.IsAt(t, root, nodes[i])
  }

  /** The members for the given nodes, in their order. */
  ghost function Members<N>(t: Tree<N>, root: N, meta: map<N, Meta>, clamp: int,
                            nodes: seq<N>): Result<seq<TarMember>, ManifestError>
    requires AllAt(t, root, nodes) && Described(t, meta)
  {
    if nodes == [] then Success([])
    else
      assert R.IsAt(t, root, nodes[0]);
      var m :- NodeMember(t, root, meta, clamp, nodes[0]);
      var rest :- Members(t, root, meta, clamp, nodes[1..]);
      Success([m] + rest)
  }

  ghost function Select<N>(t: Tree<N>, nodes: seq<N>, symlinks: bool): seq<N> {
    if nodes == [] then []
    else if nodes[0] in t && t[nodes[0]].kind.Symlink? == symlinks then [nodes[0]] + Select(t, nodes[1..], symlinks)
    else Select(t, nodes[1..], symlinks)
  }

  lemma {:induction false} Selected<N>(t: Tree<N>, nodes: seq<N>, symlinks: bool, x: N)
    ensures x in Select(t, nodes, symlinks) <==> x in nodes && x in t && t[x].kind.Symlink? == symlinks
  {
    if nodes != [] {
      Selected(t, nodes[1..], symlinks, x);
      assert nodes == [nodes[0]] + nodes[1..];
    }
  }

  /** The order of the manifest: everything but symlinks in the order of the traversal, then the symlinks. */
  ghost function ManifestOrder<N>(t: Tree<N>, root: N): seq<N>
    requires Wf(t, root, {})
  {
    Select(t, Preorder(t, root), false) + Select(t, Preorder(t, root), true)
  }

  lemma InManifest<N>(t: Tree<N>, root: N, x: N)
    requires Wf(t, root, {})
    ensures x in ManifestOrder(t, root) <==> R.IsAt(t, root, x)
  {
    Selected(t, Preorder(t, root), false, x);
    Selected(t, Preorder(t, root), true, x);
    PreorderIsInside(t, root, x);
    if x in t {
      AttachedIsBelowRoot(t, root, x);
    }
  }

  lemma {:induction false} AttachedIsBelowRoot<N>(t: Tree<N>, root: N, x: N)
    requires UpOk(t) && x in t
    ensures Attached(t, root, x) == Below(t, x, root)
    decreases t[x].rank
  {
    assert UpAt(t, x);
    if t[x].parent.Some? {
      AttachedIsBelowRoot(t, root, t[x].parent.value);
    }
  }

  lemma {:induction false} SelectOnce<N>(t: Tree<N>, nodes: seq<N>, symlinks: bool)
    requires NoDuplicates(nodes)
    ensures NoDuplicates(Select(t, nodes, symlinks))
  {
    if nodes != [] {
      SelectOnce(t, nodes[1..], symlinks);
      Selected(t, nodes[1..], symlinks, nodes[0]);
      if Select(t, nodes, symlinks) != Select(t, nodes[1..], symlinks) {
        NoDuplicatesConcat([nodes[0]], Select(t, nodes[1..], symlinks));
      }
    }
  }

  /** Every node of the tree is listed exactly once, the root directory first. */
  lemma ManifestListsEachOnce<N>(t: Tree<N>, root: N)
    requires Wf(t, root, {})
    ensures NoDuplicates(ManifestOrder(t, root))
    ensures ManifestOrder(t, root) != [] && ManifestOrder(t, root)[0] == root
    ensures AllAt(t, root, ManifestOrder(t, root))
  {
    var pre := Preorder(t, root);
    PreorderOnce(t, root);
    SelectOnce(t, pre, false);
    SelectOnce(t, pre, true);
    var others, links := Select(t, pre, false), Select(t, pre, true);
    forall x | x in others ensures x !in links {
      Selected(t, pre, false, x);
      Selected(t, pre, true, x);
    }
    NoDuplicatesConcat(others, links);
    assert pre[0] == root;
    assert Select(t, pre, false)[0] == root;
    var all := ManifestOrder(t, root);
    forall i | 0 <= i < |all| ensures R.IsAt(t, root, all[i]) {
      InManifest(t, root, all[i]);
    }
  }

  lemma {:induction false} SelectAscends<N>(t: Tree<N>, nodes: seq<N>, symlinks: bool, i: nat, j: nat)
    returns (a: nat, b: nat)
    requires i < j < |Select(t, nodes, symlinks)|
    ensures a < b < |nodes| && nodes[a] == Select(t, nodes, symlinks)[i] && nodes[b] == Select(t, nodes, symlinks)[j]
    decreases |nodes|
  {
    var rest := Select(t, nodes[1..], symlinks);
    if Select(t, nodes, symlinks) == rest {
      a, b := SelectAscends(t, nodes[1..], symlinks, i, j);
      a, b := a + 1, b + 1;
    } else if i > 0 {
      a, b := SelectAscends(t, nodes[1..], symlinks, i - 1, j - 1);
      a, b := a + 1, b + 1;
    } else {
      var s := Select(t, nodes, symlinks);
      assert s[j] == rest[j - 1] && rest[j - 1] in rest;
      Selected(t, nodes[1..], symlinks, s[j]);
      var k :| 0 <= k < |nodes[1..]| && nodes[1..][k] == s[j];
      a, b := 0, k + 1;
    }
  }

  /** Symlinks come after everything else; apart from that the order is that of the traversal. */
  lemma ManifestKeepsTraversal<N>(t: Tree<N>, root: N, i: nat, j: nat)
    requires Wf(t, root, {}) && i < j < |ManifestOrder(t, root)|
    ensures AllAt(t, root, ManifestOrder(t, root))
    ensures var order, pre := ManifestOrder(t, root), Preorder(t, root);
      && (assert R.IsAt(t, root, order[i]) && R.IsAt(t, root, order[j]);
          t[order[i]].kind.Symlink? ==> t[order[j]].kind.Symlink?)
      && (t[order[i]].kind.Symlink? == t[order[j]].kind.Symlink? ==>
            Precedes(pre, order[i], order[j]))
  {
    ManifestListsEachOnce(t, root);
    var pre := Preorder(t, root);
    var others, links := Select(t, pre, false), Select(t, pre, true);
    var order := others + links;
    assert R.IsAt(t, root, order[i]) && R.IsAt(t, root, order[j]);
    assert if i < |others| then order[i] in others else order[i] in links;
    assert if j < |others| then order[j] in others else order[j] in links;
    Selected(t, pre, i >= |others|, order[i]);
    Selected(t, pre, j >= |others|, order[j]);
    if j < |others| {
      var a, b := SelectAscends(t, pre, false, i, j);
      assert Precedes(pre, order[i], order[j]);
    } else if i >= |others| {
      var a, b := SelectAscends(t, pre, true, i - |others|, j - |others|);
      assert links[i - |others|] == order[i] && links[j - |others|] == order[j];
      assert Precedes(pre, order[i], order[j]);
    } else {
      assert !t[order[i]].kind.Symlink? && t[order[j]].kind.Symlink?;
    }
  }

  /** Moving the symlinks to the end keeps parents first: only directories are parents. */
  lemma {:induction false} SelectAfterParents<N>(t: Tree<N>, nodes: seq<N>, seen: set<N>, dirs: set<N>, symlinks: bool)
    requires UpOk(t) && MirrorOk(t, {}) && DirsOk(t) && AfterParents(t, nodes, seen)
    requires forall x :: x in seen && x in t && !t[x].kind.Symlink? ==> x in dirs
    requires symlinks ==> forall x :: x in nodes && x in t && !t[x].kind.Symlink? ==> x in dirs
    ensures AfterParents(t, Select(t, nodes, symlinks), dirs)
  {
    if nodes != [] {
      var n := nodes[0];
      DirAbove(t, n);
      assert n in nodes;
      SelectAfterParents(t, nodes[1..], seen + {n}, if symlinks then dirs else dirs + {n}, symlinks);
      if t[n].kind.Symlink? && !symlinks {
        SelectAfterParents(t, nodes[1..], seen + {n}, dirs, symlinks);
      } else if t[n].kind.Symlink? {
        AfterParentsMore(t, Select(t, nodes[1..], symlinks), dirs, dirs + {n});
      }
    }
  }

  lemma ManifestAfterParents<N>(t: Tree<N>, root: N)
    requires Wf(t, root, {})
    ensures ManifestOrder(t, root) != [] && AfterParents(t, ManifestOrder(t, root)[1..], {root})
  {
    var pre := Preorder(t, root);
    ParentsFirst(t, root);
    var dirs, links := Select(t, pre[1..], false), Select(t, pre[1..], true);
    assert Select(t, pre, false) == [root] + dirs && Select(t, pre, true) == links;
    RestAfterParents(t, root, pre[1..]);
    assert ManifestOrder(t, root) == [root] + (dirs + links);
    assert ([root] + (dirs + links))[1..] == dirs + links;
  }

  lemma RestAfterParents<N>(t: Tree<N>, root: N, rest: seq<N>)
    requires Wf(t, root, {}) && AfterParents(t, rest, {root})
    ensures AfterParents(t, Select(t, rest, false) + Select(t, rest, true), {root})
  {
    var dirs := Select(t, rest, false);
    SelectAfterParents(t, rest, {root}, {root}, false);
    var known := {root} + set x | x in dirs;
    forall x | x in rest && x in t && !t[x].kind.Symlink? ensures x in known {
      Selected(t, rest, false, x);
    }
    SelectAfterParents(t, rest, {root}, known, true);
    AfterParentsConcat(t, dirs, Select(t, rest, true), {root}, known);
  }

  // ----------------------------------------------------- what the members say

  lemma RStripPath<N>(t: Tree<N>, root: N, n: N)
    requires R.IsAt(t, root, n) && NamesValid(t, root)
    ensures RStrip(PathOf(t, root, n)) == PathOf(t, root, n) == RStrip(PathOf(t, root, n) + "/")
  {
    R.PathIsJoin(t, root, n);
    R.AboveJoinable(NamesOf(t, root, n));
    JoinEnds(["."] + NamesOf(t, root, n));
    L.StripOne(PathOf(t, root, n));
  }

  lemma DirnameOfPath<N>(t: Tree<N>, root: N, n: N)
    requires R.IsAt(t, root, n) && NamesValid(t, root) && n != root
    ensures Dirname(PathOf(t, root, n)) == PathOf(t, root, R.ParentOf(t, root, n))
    ensures PathOf(t, root, n) != "." && StartsWith(PathOf(t, root, n), "./")
    ensures PathOf(t, root, n)[2..] == Join(NamesOf(t, root, n)) && NamesOf(t, root, n) != []
  {
    var p := R.ParentOf(t, root, n);
    assert UpAt(t, n);
    R.PathIsJoin(t, root, p);
    R.PathIsJoin(t, root, n);
    R.AboveJoinable(NamesOf(t, root, p));
    var above := ["."] + NamesOf(t, root, p);
    assert ["."] + NamesOf(t, root, n) == above + [t[n].name];
    DirnameOfJoin(above, t[n].name);
    assert (["."] + NamesOf(t, root, n))[1..] == NamesOf(t, root, n);
  }

  lemma MemberSays<N>(t: Tree<N>, root: N, meta: map<N, Meta>, clamp: int, n: N)
    requires R.IsAt(t, root, n) && NamesValid(t, root) && n in meta && NodeMember(t, root, meta, clamp, n).Success?
    ensures var m := NodeMember(t, root, meta, clamp, n).value;
      && Consistent(m) && RStrip(m.memberPath) == PathOf(t, root, n)
      && (m.pathType == DirectoryType <==> t[n].kind.Directory?) && (m.pathType == SymlinkType <==> t[n].kind.Symlink?)
      && DirnameOf(m.memberPath) == (if n == root then "." else PathOf(t, root, R.ParentOf(t, root, n)))
      && (n == root ==> m.memberPath == "./")
  {
    RStripPath(t, root, n);
    if n != root {
      DirnameOfPath(t, root, n);
    }
  }

  /** A file is backed, and anything but a symlink with a reference path that is. */
  ghost predicate Backed(kind: Kind, meta: Meta) {
    kind.File? || meta.fsPath.Some?
  }

  /** All that a member says of its node.  The target of a symlink is rewritten: it points to what the
      original points to, if the symlink is not a prefix of that. */
  lemma MemberFields<N>(t: Tree<N>, root: N, meta: map<N, Meta>, clamp: int, n: N)
    requires R.IsAt(t, root, n) && NamesValid(t, root) && n in meta && NodeMember(t, root, meta, clamp, n).Success?
    ensures var m, kind := NodeMember(t, root, meta, clamp, n).value, t[n].kind;
      && m.memberPath == Join(["."] + NamesOf(t, root, n)) + (if kind.Directory? then "/" else "")
      && (m.pathType == DirectoryType <==> kind.Directory?) && (m.pathType == SymlinkType <==> kind.Symlink?)
      && m.mode == (if kind.Symlink? then 0x1FF else meta[n].mode)
      && m.owner == meta[n].owner && m.uid == meta[n].uid && m.group == meta[n].group && m.gid == meta[n].gid
      && m.fsPath == (match kind case Directory => meta[n].fsPath case File(p) => Some(p) case Symlink(_) => None)
      && (m.isVirtual <==> m.fsPath == None) && (m.maySteal <==> kind.File? && meta[n].mayReplaceInline)
      && m.mtime <= clamp as real
      && (Backed(kind, meta[n]) && meta[n].mtime <= clamp as real ==> m.mtime == meta[n].mtime)
      && (!Backed(kind, meta[n]) || meta[n].mtime > clamp as real ==> m.mtime == clamp as real)
      && (!kind.Symlink? ==> m.linkTarget == "")
    ensures t[n].kind.Symlink? ==> n != root && NamesOf(t, root, n) != []
    ensures t[n].kind.Symlink? ==>
      var m, ns := NodeMember(t, root, meta, clamp, n).value, NamesOf(t, root, n);
      var names := L.PointsTo(L.LinkDir(ns), t[n].kind.target);
      && (L.PointsTo(L.LinkDir(ns), m.linkTarget) == names <==> !(ns <= names))
      && (!(ns <= names) ==> (!StartsWith(m.linkTarget, "/") <==> names != [] && names[0] == ns[0]))
  {
    R.PathIsJoin(t, root, n);
    if n != root {
      DirnameOfPath(t, root, n);
      if t[n].kind.Symlink? {
        var ns, target := NamesOf(t, root, n), t[n].kind.target;
        L.MeaningKept(ns, target);
        if !(ns <= L.PointsTo(L.LinkDir(ns), target)) {
          L.RelativeIffSameTopLevel(ns, target);
        }
      }
    }
  }

  /** The tree as it is packed, with the target that the member of a symlink has. */
  ghost function Packed<N>(t: Tree<N>, link: N, m: TarMember): Tree<N>
    requires link in t
  {
    t[link := t[link].(kind := Symlink(m.linkTarget))]
  }

  lemma PackedKeeps<N>(t: Tree<N>, root: N, link: N, m: TarMember, x: N)
    requires R.IsAt(t, root, link) && t[link].kind.Symlink? && x in t
    ensures var u := Packed(t, link, m);
      && Wf(u, root, {}) && (NamesValid(t, root) ==> NamesValid(u, root))
      && Attached(u, root, x) == Attached(t, root, x)
      && (Attached(t, root, x) ==>
            NamesOf(u, root, x) == NamesOf(t, root, x) && PathOf(u, root, x) == PathOf(t, root, x))
      && (forall d :: d in t && Below(t, x, d) ==> Below(u, x, d) && NamesFrom(u, d, x) == NamesFrom(t, d, x))
  {
    var u := Packed(t, link, m);
    forall y | y in u ensures UpAt(u, y) && DirAt(u, y) && MirrorAt(u, y) {
      assert UpAt(t, y) && DirAt(t, y) && MirrorAt(t, y);
    }
    forall y, k | y in u && k in u[y].children ensures ChildAt(u, y, k) {
      assert ChildAt(t, y, k);
    }
    ChainFrame(t, u, root, x, {});
    if Attached(t, root, x) {
      NamesFrame(t, u, root, x, {});
    }
    forall d | d in t && Below(t, x, d) ensures Below(u, x, d) && NamesFrom(u, d, x) == NamesFrom(t, d, x) {
      NamesFromFrame(t, u, d, x, {});
    }
  }

  /** A packed symlink leads to what is inside of the directory that it has meant in the package tree. */
  lemma PackedLinkLeads<N>(t: Tree<N>, root: N, meta: map<N, Meta>, clamp: int, link: N, d: N, x: N)
    requires R.IsAt(t, root, link) && NamesValid(t, root) && link in meta && t[link].kind.Symlink? && link != root
    requires NodeMember(t, root, meta, clamp, link).Success?
    requires NamesOf(t, root, link) != [] && d in t && !t[d].kind.Symlink?
    requires R.Place(t, root, d, L.PointsTo(L.LinkDir(NamesOf(t, root, link)), t[link].kind.target))
    requires !(NamesOf(t, root, link) <= NamesOf(t, root, d)) && x in t && Below(t, x, d)
    ensures var u := Packed(t, link, NodeMember(t, root, meta, clamp, link).value);
      && R.IsAt(u, root, root)
      && R.LookupPath(u, root, root, PathOf(t, root, link) + "/" + Join(NamesFrom(t, d, x))) == R.Reached(x)
  {
    var m := NodeMember(t, root, meta, clamp, link).value;
    var u := Packed(t, link, m);
    PackedKeeps(t, root, link, m, link);
    PackedKeeps(t, root, link, m, d);
    PackedKeeps(t, root, link, m, x);
    DirnameOfPath(t, root, link);
    R.PathThroughRewrittenLink(u, root, link, t[link].kind.target, d, x);
  }

  /** The manifest of a node exists unless it is a symlink to itself or a file that may be
      taken over but is not in the scratch directory. */
  lemma MemberExists<N>(t: Tree<N>, root: N, meta: map<N, Meta>, clamp: int, n: N)
    requires R.IsAt(t, root, n) && NamesValid(t, root) && n in meta
    ensures NodeMember(t, root, meta, clamp, n).Failure? <==>
      || (t[n].kind.Symlink? && n != root && NamesOf(t, root, n) != []
          && L.PointsTo(L.LinkDir(NamesOf(t, root, n)), t[n].kind.target) == NamesOf(t, root, n))
      || (t[n].kind.File? && meta[n].mayReplaceInline && !Contains(t[n].kind.fsPath, SCRATCH_DIR))
  {
    if n != root {
      DirnameOfPath(t, root, n);
      R.PathIsJoin(t, root, n);
      if t[n].kind.Symlink? {
        L.EmptyIffToItself(NamesOf(t, root, n), t[n].kind.target);
      }
    }
  }

  lemma {:induction false} MembersInOrder<N>(
      t: Tree<N>, root: N, meta: map<N, Meta>, clamp: int, nodes: seq<N>, seen: set<N>, dirs: set<string>)
    requires Wf(t, root, {}) && NamesValid(t, root) && Described(t, meta) && AllAt(t, root, nodes)
    requires root !in nodes && AfterParents(t, nodes, seen)
    requires forall x :: x in seen && R.IsAt(t, root, x) && t[x].kind.Directory? ==> PathOf(t, root, x) in dirs
    requires Members(t, root, meta, clamp, nodes).Success?
    ensures InOrder(Members(t, root, meta, clamp, nodes).value, dirs)
  {
    if nodes != [] {
      var n := nodes[0];
      assert R.IsAt(t, root, n) && n in nodes;
      MemberSays(t, root, meta, clamp, n);
      DirAbove(t, n);
      var m := NodeMember(t, root, meta, clamp, n).value;
      forall x | x in seen + {n} && R.IsAt(t, root, x) && t[x].kind.Directory?
        ensures PathOf(t, root, x) in dirs + AddsDir(m)
      {
      }
      MembersInOrder(t, root, meta, clamp, nodes[1..], seen + {n}, dirs + AddsDir(m));
      assert Members(t, root, meta, clamp, nodes).value[1..] == Members(t, root, meta, clamp, nodes[1..]).value;
    }
  }

  lemma {:induction false} MembersReadBack<N>(t: Tree<N>, root: N, meta: map<N, Meta>, clamp: int,
                                              nodes: seq<N>, data: seq<Dict>)
    requires AllAt(t, root, nodes) && NamesValid(t, root) && Described(t, meta)
      && Members(t, root, meta, clamp, nodes).Success?
    requires var ms := Members(t, root, meta, clamp, nodes).value;
      |data| == |ms| && forall i :: 0 <= i < |ms| ==> ToManifest(ms[i]) == Success(data[i])
    ensures FromDicts(data) == Members(t, root, meta, clamp, nodes)
  {
    var ms := Members(t, root, meta, clamp, nodes).value;
    if nodes != [] {
      assert R.IsAt(t, root, nodes[0]);
      MemberSays(t, root, meta, clamp, nodes[0]);
      RoundTrip(ms[0]);
      assert ms[1..] == Members(t, root, meta, clamp, nodes[1..]).value;
      MembersReadBack(t, root, meta, clamp, nodes[1..], data[1..]);
    }
  }

  /** The manifest of any tree passes the checks of the reader: the root directory first, and
      every path after the directory it is in. */
  lemma ManifestIsAccepted<N>(t: Tree<N>, root: N, meta: map<N, Meta>, clamp: int)
    requires Wf(t, root, {}) && NamesValid(t, root) && Described(t, meta)
    ensures AllAt(t, root, ManifestOrder(t, root))
    ensures var ms := Members(t, root, meta, clamp, ManifestOrder(t, root));
      ms.Success? ==> WellOrdered(ms.value)
  {
    ManifestListsEachOnce(t, root);
    ManifestAfterParents(t, root);
    var nodes := ManifestOrder(t, root);
    var ms := Members(t, root, meta, clamp, nodes);
    if ms.Success? {
      assert R.IsAt(t, root, nodes[0]);
      MemberSays(t, root, meta, clamp, root);
      var m := NodeMember(t, root, meta, clamp, root).value;
      R.PathIsJoin(t, root, root);
      assert AddsDir(m) == {PathOf(t, root, root)};
      MembersInOrder(t, root, meta, clamp, nodes[1..], {root}, {"."} + AddsDir(m));
      assert ms.value[1..] == Members(t, root, meta, clamp, nodes[1..]).value;
    }
  }

  // ----------------------------------------------------------- the generator

  lemma {:induction false} MembersConcat<N>(t: Tree<N>, root: N, meta: map<N, Meta>, clamp: int, a: seq<N>, b: seq<N>)
    requires AllAt(t, root, a) && AllAt(t, root, b) && Described(t, meta)
    ensures AllAt(t, root, a + b)
    ensures var ma, mb, mab :=
      Members(t, root, meta, clamp, a), Members(t, root, meta, clamp, b), Members(t, root, meta, clamp, a + b);
      if ma.Success? && mb.Success? then mab == Success(ma.value + mb.value) else mab.Failure?
  {
    if a == [] {
      assert a + b == b;
      var mb := Members(t, root, meta, clamp, b);
      assert mb.Success? ==> [] + mb.value == mb.value;
    } else {
      assert R.IsAt(t, root, a[0]);
      assert (a + b)[0] == a[0] && (a + b)[1..] == a[1..] + b;
      MembersConcat(t, root, meta, clamp, a[1..], b);
      var m, ma, mb := NodeMember(t, root, meta, clamp, a[0]), Members(t, root, meta, clamp, a[1..]),
        Members(t, root, meta, clamp, b);
      if m.Success? && ma.Success? && mb.Success? {
        assert [m.value] + (ma.value + mb.value) == ([m.value] + ma.value) + mb.value;
      }
    }
  }

  /** One member for each node, in the same order; none at all if some node has none. */
  lemma {:induction false} MembersAt<N>(t: Tree<N>, root: N, meta: map<N, Meta>, clamp: int, nodes: seq<N>, i: nat)
    requires AllAt(t, root, nodes) && Described(t, meta) && i < |nodes|
    ensures R.IsAt(t, root, nodes[i])
    ensures var ms, m := Members(t, root, meta, clamp, nodes), NodeMember(t, root, meta, clamp, nodes[i]);
      && (ms.Success? ==> |ms.value| == |nodes| && m == Success(ms.value[i]))
      && (m.Failure? ==> ms.Failure?)
  {
    assert R.IsAt(t, root, nodes[0]);
    if i > 0 {
      MembersAt(t, root, meta, clamp, nodes[1..], i - 1);
    } else if |nodes| > 1 {
      MembersAt(t, root, meta, clamp, nodes[1..], 0);
    }
  }

  lemma {:induction false} SelectConcat<N>(t: Tree<N>, a: seq<N>, b: seq<N>, symlinks: bool)
    ensures Select(t, a + b, symlinks) == Select(t, a, symlinks) + Select(t, b, symlinks)
  {
    if a == [] {
      assert a + b == b;
    } else {
      assert (a + b)[1..] == a[1..] + b;
      SelectConcat(t, a[1..], b, symlinks);
    }
  }

  lemma SelectAt<N>(t: Tree<N>, root: N, nodes: seq<N>, symlinks: bool)
    requires AllAt(t, root, nodes)
    ensures AllAt(t, root, Select(t, nodes, symlinks))
  {
    var s := Select(t, nodes, symlinks);
    forall i | 0 <= i < |s| ensures R.IsAt(t, root, s[i]) {
      Selected(t, nodes, symlinks, s[i]);
    }
  }

  lemma MemberOfOne<N>(t: Tree<N>, root: N, meta: map<N, Meta>, clamp: int, n: N)
    requires R.IsAt(t, root, n) && Described(t, meta)
    ensures AllAt(t, root, [n])
    ensures Members(t, root, meta, clamp, [n]) ==
      match NodeMember(t, root, meta, clamp, n) case Success(m) => Success([m]) case Failure(e) => Failure(e)
  {
    assert [n][1..] == [];
    var m := NodeMember(t, root, meta, clamp, n);
    if m.Success? {
      assert [m.value] + [] == [m.value];
    }
  }

  /** The members for a part of the traversal, symlinks apart. */
  ghost predicate SortedInto<N>(t: Tree<N>, root: N, meta: map<N, Meta>, clamp: int, nodes: seq<N>,
                             others: seq<TarMember>, links: seq<TarMember>)
    requires AllAt(t, root, nodes) && Described(t, meta)
  {
    SelectAt(t, root, nodes, false);
    SelectAt(t, root, nodes, true);
    && Members(t, root, meta, clamp, Select(t, nodes, false)) == Success(others)
    && Members(t, root, meta, clamp, Select(t, nodes, true)) == Success(links)
  }

  lemma SortOneMore<N>(t: Tree<N>, root: N, meta: map<N, Meta>, clamp: int, nodes: seq<N>, n: N,
                       others: seq<TarMember>, links: seq<TarMember>)
    requires AllAt(t, root, nodes) && R.IsAt(t, root, n) && Described(t, meta)
      && SortedInto(t, root, meta, clamp, nodes, others, links)
    requires NodeMember(t, root, meta, clamp, n).Success?
    ensures AllAt(t, root, nodes + [n])
    ensures var m := NodeMember(t, root, meta, clamp, n).value;
      SortedInto(t, root, meta, clamp, nodes + [n],
              if t[n].kind.Symlink? then others else others + [m], if t[n].kind.Symlink? then links + [m] else links)
  {
    var symlink := t[n].kind.Symlink?;
    SelectConcat(t, nodes, [n], symlink);
    SelectConcat(t, nodes, [n], !symlink);
    assert [n][1..] == [] && Select(t, [n], symlink) == [n] && Select(t, [n], !symlink) == [];
    SelectAt(t, root, nodes, symlink);
    MemberOfOne(t, root, meta, clamp, n);
    MembersConcat(t, root, meta, clamp, Select(t, nodes, symlink), [n]);
    assert Select(t, nodes, !symlink) + [] == Select(t, nodes, !symlink);
  }

  /** One path without a member means that there is no manifest. */
  lemma NoMemberNoManifest<N>(t: Tree<N>, root: N, meta: map<N, Meta>, clamp: int, n: N)
    requires Wf(t, root, {}) && Described(t, meta) && R.IsAt(t, root, n) && NodeMember(t, root, meta, clamp, n).Failure?
    ensures AllAt(t, root, ManifestOrder(t, root)) && Members(t, root, meta, clamp, ManifestOrder(t, root)).Failure?
  {
    ManifestListsEachOnce(t, root);
    InManifest(t, root, n);
    var nodes := ManifestOrder(t, root);
    var i :| 0 <= i < |nodes| && nodes[i] == n;
    assert nodes == nodes[..i] + ([n] + nodes[i + 1..]);
    MemberOfOne(t, root, meta, clamp, n);
    MembersConcat(t, root, meta, clamp, [n], nodes[i + 1..]);
    MembersConcat(t, root, meta, clamp, nodes[..i], [n] + nodes[i + 1..]);
  }

  lemma ManifestFromParts<N>(t: Tree<N>, root: N, meta: map<N, Meta>, clamp: int, others: seq<TarMember>,
                             links: seq<TarMember>)
    requires Wf(t, root, {}) && Described(t, meta) && AllAt(t, root, Preorder(t, root))
    requires SortedInto(t, root, meta, clamp, Preorder(t, root), others, links)
    ensures AllAt(t, root, ManifestOrder(t, root))
    ensures Members(t, root, meta, clamp, ManifestOrder(t, root)) == Success(others + links)
  {
    var nodes := Preorder(t, root);
    SelectAt(t, root, nodes, false);
    SelectAt(t, root, nodes, true);
    MembersConcat(t, root, meta, clamp, Select(t, nodes, false), Select(t, nodes, true));
  }

  lemma TraversalAt<N>(t: Tree<N>, root: N)
    requires Wf(t, root, {})
    ensures AllAt(t, root, Preorder(t, root))
  {
    var pre := Preorder(t, root);
    forall i | 0 <= i < |pre| ensures R.IsAt(t, root, pre[i]) {
      PreorderIsInside(t, root, pre[i]);
      AttachedIsBelowRoot(t, root, pre[i]);
    }
  }

  /** `_generate_intermediate_manifest`: members in the order of the traversal, the symlinks held
      back to the end. */
  method GenerateIntermediateManifest(root: FSPath, meta: map<FSPath, Meta>, clamp: int, ghost S: set<FSPath>)
    returns (r: Result<seq<TarMember>, ManifestError>)
    requires Ready(S, root, {}) && Described(Snap(S), meta)
    modifies S`pathCache, S`parentPathCache
    ensures Snap(S) == old(Snap(S)) && Ready(S, root, {})
    ensures AllAt(Snap(S), root, ManifestOrder(Snap(S), root))
    ensures var ms := Members(Snap(S), root, meta, clamp, ManifestOrder(Snap(S), root));
      if ms.Success? then r == ms else r.Failure?
  {
    ghost var t := Snap(S);
    ManifestListsEachOnce(t, root);
    TraversalAt(t, root);
    var nodes := AllPaths(root, t, S, root);
    var others, symlinks, failed := HoldSymlinksBack(nodes, meta, clamp, t, S, root);
    if failed.Some? {
      return Failure(failed.value);
    }
    ManifestFromParts(t, root, meta, clamp, others, symlinks);
    r := Success(others + symlinks);
  }

  lemma NothingSortedYet(t: Tree<FSPath>, root: FSPath, meta: map<FSPath, Meta>, clamp: int)
    requires Described(t, meta)
    ensures SortedInto(t, root, meta, clamp, [], [], [])
  {
  }

  method HoldSymlinksBack(nodes: seq<FSPath>, meta: map<FSPath, Meta>, clamp: int,
                          ghost t: Tree<FSPath>, ghost S: set<FSPath>, ghost root: FSPath)
    returns (others: seq<TarMember>, symlinks: seq<TarMember>, failed: Option<ManifestError>)
    requires Wf(t, root, {}) && Snap(S) == t && OneRoot(S, root) && CachesOk(S, {}) && Described(t, meta)
    requires AllAt(t, root, nodes)
    modifies S`pathCache, S`parentPathCache
    ensures Snap(S) == t && CachesOk(S, {})
    ensures failed == None ==> SortedInto(t, root, meta, clamp, nodes, others, symlinks)
    ensures failed.Some? ==>
      AllAt(t, root, ManifestOrder(t, root)) && Members(t, root, meta, clamp, ManifestOrder(t, root)).Failure?
  {
    hide Members, ManifestOrder, CachesOk, SortedInto, Described, Wf, OneRoot;
    others, symlinks, failed := [], [], None;
    NothingSortedYet(t, root, meta, clamp);
    for i := 0 to |nodes|
      invariant Snap(S) == t && CachesOk(S, {}) && failed == None
      invariant AllAt(t, root, nodes[..i]) && SortedInto(t, root, meta, clamp, nodes[..i], others, symlinks)
    {
      assert R.IsAt(t, root, nodes[i]) && nodes[..i + 1] == nodes[..i] + [nodes[i]];
      others, symlinks, failed := HoldOneBack(nodes[i], others, symlinks, meta, clamp, nodes[..i], t, S, root);
      if failed.Some? {
        return;
      }
    }
    assert nodes[..|nodes|] == nodes;
  }

  method HoldOneBack(n: FSPath, others: seq<TarMember>, symlinks: seq<TarMember>, meta: map<FSPath, Meta>, clamp: int,
                     ghost before: seq<FSPath>, ghost t: Tree<FSPath>, ghost S: set<FSPath>, ghost root: FSPath)
    returns (others': seq<TarMember>, symlinks': seq<TarMember>, failed: Option<ManifestError>)
    requires Wf(t, root, {}) && Snap(S) == t && OneRoot(S, root) && CachesOk(S, {}) && Described(t, meta)
    requires R.IsAt(t, root, n) && AllAt(t, root, before) && SortedInto(t, root, meta, clamp, before, others, symlinks)
    modifies S`pathCache, S`parentPathCache
    ensures Snap(S) == t && CachesOk(S, {})
    ensures failed == None ==>
      AllAt(t, root, before + [n]) && SortedInto(t, root, meta, clamp, before + [n], others', symlinks')
    ensures failed.Some? ==>
      AllAt(t, root, ManifestOrder(t, root)) && Members(t, root, meta, clamp, ManifestOrder(t, root)).Failure?
  {
    others', symlinks', failed := others, symlinks, None;
    var m := PathToTarMember(n, meta, clamp, t, S, root);
    if m.Failure? {
      NoMemberNoManifest(t, root, meta, clamp, n);
      failed := Some(m.error);
      return;
    }
    SortOneMore(t, root, meta, clamp, before, n, others, symlinks);
    if m.value.pathType == SymlinkType {
      symlinks' := symlinks + [m.value];
    } else {
      others' := others + [m.value];
    }
  }

  method PathToTarMember(n: FSPath, meta: map<FSPath, Meta>, clamp: int,
                         ghost t: Tree<FSPath>, ghost S: set<FSPath>, ghost root: FSPath)
    returns (m: Result<TarMember, ManifestError>)
    requires R.IsAt(t, root, n) && Snap(S) == t && OneRoot(S, root) && CachesOk(S, {}) && Described(t, meta)
    modifies S`pathCache, S`parentPathCache
    ensures Snap(S) == t && CachesOk(S, {})
    ensures m == NodeMember(t, root, meta, clamp, n)
    ensures m.Success? ==> (m.value.pathType == SymlinkType <==> t[n].kind.Symlink?)
  {
    assert t[n] == n.View();
    var path := n.Path(S, root, {});
    m := MemberOf(path.value, n.kind, meta[n], clamp);
  }
}
