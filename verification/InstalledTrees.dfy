/** What recursive installation takes a package directory for, a map from relative paths to entries, and
    the tree of nodes that it is: putting an entry into the map is what the operations on nodes do. */
module InstalledTrees {
  import opened Strings
  import opened FsTree
  import opened SourceTree
  import R = RecursiveInstall

  function KindOf(e: R.Delivered): Kind {
    match e
    case DirEntry => Directory
    case LinkEntry(target) => Symlink(target)
    case FileEntry(fsPath) => File(Join(fsPath))
  }

  ghost predicate Inside<N>(t: Tree<N>, d: N, x: N)
    requires UpOk(t)
  {
    x in t && x != d && Below(t, x, d)
  }

  ghost predicate EntryFor<N>(t: Tree<N>, d: N, rel: seq<string>, x: N)
    requires UpOk(t)
  {
    Inside(t, d, x) && NamesFrom(t, d, x) == rel
  }

  ghost predicate NodeShown<N>(t: Tree<N>, d: N, dest: R.Dest, x: N)
    requires UpOk(t)
  {
    Inside(t, d, x) ==> NamesFrom(t, d, x) in dest && KindOf(dest[NamesFrom(t, d, x)]) == t[x].kind
  }

  /** The map has an entry for every node in the directory, and no others. */
  ghost predicate Holds<N>(t: Tree<N>, d: N, dest: R.Dest)
    requires UpOk(t)
  {
    && (forall x {:trigger NodeShown(t, d, dest, x)} :: x in t ==> NodeShown(t, d, dest, x))
    && (forall rel {:trigger rel in dest} :: rel in dest ==> exists x :: x in t && EntryFor(t, d, rel, x))
  }

  // --------------------------------------------------------------- names inside a directory

  lemma {:induction false} NamesFromSplit<N>(t: Tree<N>, d: N, m: N, x: N)
    requires UpOk(t) && x in t && m in t && Below(t, x, m) && Below(t, m, d)
    ensures Below(t, x, d) && NamesFrom(t, d, x) == NamesFrom(t, d, m) + NamesFrom(t, m, x)
    decreases t[x].rank
  {
    assert UpAt(t, x);
    BelowTransitive(t, x, m, d);
    if x != m {
      if x == d {
        BelowRank(t, x, m);
        BelowRank(t, m, d);
      }
      NamesFromSplit(t, d, m, t[x].parent.value);
    }
  }

  lemma {:induction false} NamesFromDistinct<N>(t: Tree<N>, root: N, d: N, x: N, y: N)
    requires Wf(t, root, {}) && x in t && y in t && Below(t, x, d) && Below(t, y, d)
    requires NamesFrom(t, d, x) == NamesFrom(t, d, y)
    ensures x == y
    decreases t[x].rank
  {
    assert UpAt(t, x) && UpAt(t, y) && MirrorAt(t, x) && MirrorAt(t, y);
    if x != d && y != d {
      var p, q := t[x].parent.value, t[y].parent.value;
      assert NamesFrom(t, d, x)[..|NamesFrom(t, d, x)| - 1] == NamesFrom(t, d, p);
      assert NamesFrom(t, d, y)[..|NamesFrom(t, d, y)| - 1] == NamesFrom(t, d, q);
      NamesFromDistinct(t, root, d, p, q);
    }
  }

  /** What is below a path is inside of the node at that path. */
  lemma {:induction false} PrefixIsAbove<N>(t: Tree<N>, root: N, d: N, m: N, x: N)
    requires Wf(t, root, {}) && x in t && m in t && Below(t, x, d) && Below(t, m, d)
    requires NamesFrom(t, d, m) <= NamesFrom(t, d, x)
    ensures Below(t, x, m)
    decreases t[x].rank
  {
    assert UpAt(t, x);
    if NamesFrom(t, d, x) == NamesFrom(t, d, m) {
      NamesFromDistinct(t, root, d, x, m);
    } else {
      assert NamesFrom(t, d, x)[..|NamesFrom(t, d, x)| - 1] == NamesFrom(t, d, t[x].parent.value);
      PrefixIsAbove(t, root, d, m, t[x].parent.value);
    }
  }

  /** The entry of a directory inside of d, if it has one of that name. */
  lemma ChildIsEntry<N>(t: Tree<N>, root: N, d: N, q: N, name: string, dest: R.Dest)
    requires Wf(t, root, {}) && q in t && d in t && Below(t, q, d) && Holds(t, d, dest)
    ensures var rel := NamesFrom(t, d, q) + [name];
      && (name in t[q].children <==> rel in dest)
      && (name in t[q].children ==> EntryFor(t, d, rel, t[q].children[name]) && !Below(t, q, t[q].children[name]))
  {
    var rel := NamesFrom(t, d, q) + [name];
    if name in t[q].children {
      var c := t[q].children[name];
      assert ChildAt(t, q, name) && UpAt(t, c);
      if Below(t, q, c) {
        BelowRank(t, q, c);
      }
      if c == d {
        BelowRank(t, q, d);
      }
      assert NodeShown(t, d, dest, c);
    }
    if rel in dest {
      var x :| x in t && EntryFor(t, d, rel, x);
      assert UpAt(t, x) && MirrorAt(t, x);
      assert NamesFrom(t, d, x)[..|rel| - 1] == NamesFrom(t, d, t[x].parent.value) == NamesFrom(t, d, q);
      NamesFromDistinct(t, root, d, t[x].parent.value, q);
    }
  }

  /** What the map has below a path is what is inside of the node there. */
  lemma BelowIsInside<N>(t: Tree<N>, root: N, d: N, dest: R.Dest, c: N, rel: seq<string>)
    requires Wf(t, root, {}) && d in t && Holds(t, d, dest) && EntryFor(t, d, rel, c)
    ensures t[c].children == map[] <==> R.Below(dest, rel) == {}
    ensures forall x :: x in t && Inside(t, d, x) ==> (Below(t, x, c) <==> rel <= NamesFrom(t, d, x))
  {
    forall x | x in t && Inside(t, d, x) ensures Below(t, x, c) <==> rel <= NamesFrom(t, d, x) {
      if Below(t, x, c) {
        NamesFromSplit(t, d, c, x);
      } else if rel <= NamesFrom(t, d, x) {
        PrefixIsAbove(t, root, d, c, x);
      }
    }
    if k :| k in R.Below(dest, rel) {
      var x :| x in t && EntryFor(t, d, k, x);
      NonEmptyAbove(t, root, x, c);
    }
    if t[c].children != map[] {
      var k :| k in t[c].children;
      assert ChildAt(t, c, k);
      ChildIsEntry(t, root, d, c, k, dest);
      assert rel + [k] in R.Below(dest, rel);
    }
  }

  lemma NothingBelowNothing<N>(t: Tree<N>, root: N, d: N, q: N, name: string, dest: R.Dest)
    requires Wf(t, root, {}) && q in t && d in t && Below(t, q, d) && Holds(t, d, dest) && name !in t[q].children
    ensures R.Below(dest, NamesFrom(t, d, q) + [name]) == {}
  {
    var rel := NamesFrom(t, d, q) + [name];
    if k :| k in R.Below(dest, rel) {
      var x :| x in t && EntryFor(t, d, k, x);
      AncestorAt(t, root, d, x, |rel|, dest);
      assert k[..|rel|] == rel;
      ChildIsEntry(t, root, d, q, name, dest);
    }
  }

  lemma {:induction false} AncestorAt<N>(t: Tree<N>, root: N, d: N, x: N, k: nat, dest: R.Dest)
    requires Wf(t, root, {}) && Inside(t, d, x) && 0 < k <= |NamesFrom(t, d, x)| && Holds(t, d, dest)
    ensures NamesFrom(t, d, x)[..k] in dest
    decreases t[x].rank
  {
    assert UpAt(t, x) && NodeShown(t, d, dest, x);
    var names := NamesFrom(t, d, x);
    if k == |names| {
      assert names[..k] == names;
    } else {
      assert names[..|names| - 1] == NamesFrom(t, d, t[x].parent.value);
      assert names[..k] == names[..|names| - 1][..k];
      AncestorAt(t, root, d, t[x].parent.value, k, dest);
    }
  }

  // ------------------------------------------------------------------------ the operations

  /** What a move does to everything else in a directory: what was replaced is out, and the rest is where it was. */
  lemma MovedElsewhere<N>(t: Tree<N>, root: N, d: N, q: N, n: N, x: N)
    requires Wf(t, root, {}) && MayMove(t, root, n, q) && d in t && x in t && Attached(t, root, d)
    requires !Below(t, d, n) && !BelowAny(t, d, Replaced(t, n, q)) && !Below(t, x, n)
    ensures UpOk(Moved(t, root, n, q)) && x in Moved(t, root, n, q)
    ensures var u := Moved(t, root, n, q);
      && (Inside(u, d, x) <==> Inside(t, d, x) && !BelowAny(t, x, Replaced(t, n, q)))
      && (Inside(u, d, x) ==> NamesFrom(u, d, x) == NamesFrom(t, d, x))
  {
    var h, u, replaced := HungUp(t, root, n, q), Moved(t, root, n, q), Replaced(t, n, q);
    hide Wf, Moved, HungUp, Replaced, MayMove;
    BeforeLinking(t, root, n, q);
    MovedOutside(t, root, n, q, d);
    if BelowAny(t, x, replaced) {
      MovedAway(t, root, n, q, x);
      if Inside(u, d, x) {
        Rooted(u, root);
        AttachedBelow(u, root, x, d);
      }
    } else {
      BelowFrame(t, h, x, d, {n});
      forall m | m in replaced ensures !Below(h, x, m) {
        BelowFrame(t, h, x, m, {n});
      }
      BelowFrame(h, u, x, d, replaced);
      if Below(t, x, d) {
        NamesFromFrame(t, h, d, x, {n});
        NamesFromFrame(h, u, d, x, replaced);
      }
    }
  }

  lemma Rooted<N>(t: Tree<N>, root: N)
    requires Wf(t, root, {})
    ensures RootOk(t, root)
  {
  }

  lemma FreshElsewhere<N>(t: Tree<N>, root: N, d: N, n: N, name: string, kind: Kind, x: N)
    requires Wf(t, root, {}) && n !in t && x in t
    ensures var f := Fresh(t, n, name, kind);
      && Wf(f, root, {}) && !Below(f, x, n) && (Inside(f, d, x) <==> Inside(t, d, x))
      && (Inside(t, d, x) ==> NamesFrom(f, d, x) == NamesFrom(t, d, x))
      && Attached(f, root, x) == Attached(t, root, x)
      && forall m :: Below(f, x, m) == Below(t, x, m)
  {
    var f := Fresh(t, n, name, kind);
    FreshKeeps(t, root, n, name, kind);
    NotBelowStranger(t, x, n);
    forall m ensures Below(f, x, m) == Below(t, x, m) {
      BelowFrame(t, f, x, m, {});
    }
    ChainFrame(t, f, root, x, {});
    if Inside(t, d, x) {
      BelowRank(t, x, d);
      NamesFromFrame(t, f, d, x, {});
    }
  }

  /** The same for the creation of a node. */
  lemma CreatedElsewhere<N>(t: Tree<N>, root: N, d: N, q: N, n: N, name: string, kind: Kind, x: N)
    requires Wf(t, root, {}) && MayCreate(t, root, n, q) && d in t && Below(t, q, d) && Attached(t, root, d) && x in t
    ensures Wf(Created(t, root, n, q, name, kind), root, {}) && x in Created(t, root, n, q, name, kind)
    ensures var u := Created(t, root, n, q, name, kind);
      && u[x].kind == t[x].kind
      && (Inside(u, d, x) <==> Inside(t, d, x) && !(name in t[q].children && Below(t, x, t[q].children[name])))
      && (Inside(u, d, x) ==> NamesFrom(u, d, x) == NamesFrom(t, d, x))
  {
    var f := Fresh(t, n, name, kind);
    MayMoveFresh(t, root, n, q, name, kind);
    MovedKeeps(f, root, n, q);
    FreshElsewhere(t, root, d, n, name, kind, x);
    FreshElsewhere(t, root, d, n, name, kind, d);
    if name in t[q].children {
      var c := t[q].children[name];
      assert ChildAt(t, q, name) && UpAt(t, c);
      assert Replaced(f, n, q) == {c};
      if Below(t, d, c) {
        BelowTransitive(t, q, d, c);
        BelowRank(t, q, c);
      }
    } else {
      assert Replaced(f, n, q) == {};
    }
    MovedElsewhere(f, root, d, q, n, x);
  }

  lemma CreatedItself<N>(t: Tree<N>, root: N, d: N, q: N, n: N, name: string, kind: Kind)
    requires Wf(t, root, {}) && MayCreate(t, root, n, q) && d in t && Below(t, q, d) && Attached(t, root, d)
    ensures Wf(Created(t, root, n, q, name, kind), root, {})
    ensures var u := Created(t, root, n, q, name, kind);
      u.Keys == t.Keys + {n} && u[n].kind == kind && EntryFor(u, d, NamesFrom(t, d, q) + [name], n)
  {
    var f, u := Fresh(t, n, name, kind), Created(t, root, n, q, name, kind);
    MayMoveFresh(t, root, n, q, name, kind);
    MovedKeeps(f, root, n, q);
    if q != d {
      CreatedElsewhere(t, root, d, q, n, name, kind, q);
      if name in t[q].children {
        assert ChildAt(t, q, name) && UpAt(t, t[q].children[name]);
        if Below(t, q, t[q].children[name]) {
          BelowRank(t, q, t[q].children[name]);
        }
      }
    }
    assert UpAt(u, n);
  }

  lemma CreatedHolds<N>(t: Tree<N>, root: N, d: N, q: N, n: N, name: string, e: R.Delivered, dest: R.Dest)
    requires Wf(t, root, {}) && MayCreate(t, root, n, q) && d in t && Below(t, q, d) && Attached(t, root, d)
    requires Holds(t, d, dest)
    ensures Wf(Created(t, root, n, q, name, KindOf(e)), root, {})
    ensures var rel := NamesFrom(t, d, q) + [name];
      Holds(Created(t, root, n, q, name, KindOf(e)), d, (dest - R.Below(dest, rel))[rel := e])
  {
    hide Created, R.Below, KindOf;
    var rel, u := NamesFrom(t, d, q) + [name], Created(t, root, n, q, name, KindOf(e));
    var after := (dest - R.Below(dest, rel))[rel := e];
    CreatedItself(t, root, d, q, n, name, KindOf(e));
    forall x | x in u ensures NodeShown(u, d, after, x) {
      if x != n {
        CreatedElsewhere(t, root, d, q, n, name, KindOf(e), x);
        assert NodeShown(t, d, dest, x);
        if Inside(u, d, x) {
          StaysListed(t, root, d, q, name, dest, x);
        }
      }
    }
    forall k | k in after ensures exists x :: x in u && EntryFor(u, d, k, x) {
      if k == rel {
        assert EntryFor(u, d, k, n);
      } else {
        var x :| x in t && EntryFor(t, d, k, x);
        CreatedElsewhere(t, root, d, q, n, name, KindOf(e), x);
        StaysListed(t, root, d, q, name, dest, x);
        assert EntryFor(u, d, k, x);
      }
    }
  }

  /** Of what the map lists, a new entry replaces what is at its path and below it. */
  lemma StaysListed<N>(t: Tree<N>, root: N, d: N, q: N, name: string, dest: R.Dest, x: N)
    requires Wf(t, root, {}) && q in t && d in t && Below(t, q, d) && Holds(t, d, dest) && x in t && Inside(t, d, x)
    ensures var rel, k := NamesFrom(t, d, q) + [name], NamesFrom(t, d, x);
      && k in dest
      && (name in t[q].children && Below(t, x, t[q].children[name]) <==> k == rel || k in R.Below(dest, rel))
  {
    assert NodeShown(t, d, dest, x);
    ChildIsEntry(t, root, d, q, name, dest);
    var rel := NamesFrom(t, d, q) + [name];
    if name in t[q].children {
      BelowIsInside(t, root, d, dest, t[q].children[name], rel);
    } else {
      NothingBelowNothing(t, root, d, q, name, dest);
    }
  }

  lemma ClearedElsewhere<N>(t: Tree<N>, root: N, d: N, q: N, name: string, x: N)
    requires Wf(t, root, {}) && q in t && d in t && Below(t, q, d) && Attached(t, root, d) && x in t
    requires name in t[q].children
    ensures Wf(Cleared(t, root, q, name), root, {}) && SameNodes(t, Cleared(t, root, q, name))
    ensures Attached(Cleared(t, root, q, name), root, d)
    ensures var u := Cleared(t, root, q, name);
      && (Inside(u, d, x) <==> Inside(t, d, x) && !Below(t, x, t[q].children[name]))
      && (Below(t, x, d) && !Below(t, x, t[q].children[name]) ==>
            Below(u, x, d) && NamesFrom(u, d, x) == NamesFrom(t, d, x))
  {
    var c, u := t[q].children[name], Cleared(t, root, q, name);
    assert ChildAt(t, q, name) && UpAt(t, c);
    AttachedBelow(t, root, q, d);
    DetachedKeeps(t, root, c, {});
    if Below(t, d, c) {
      BelowTransitive(t, q, d, c);
      BelowRank(t, q, c);
    }
    DetachedElsewhere(t, root, c, d);
    if Below(t, x, c) {
      BelowStays(t, u, x, c, root);
      AttachedBelow(u, root, x, c);
      if Inside(u, d, x) {
        AttachedBelow(u, root, x, d);
      }
    } else {
      BelowFrame(t, u, x, d, {c});
      if Below(t, x, d) {
        NamesFromFrame(t, u, d, x, {c});
      }
    }
  }

  lemma ClearedHolds<N>(t: Tree<N>, root: N, d: N, q: N, name: string, dest: R.Dest)
    requires Wf(t, root, {}) && q in t && d in t && Below(t, q, d) && Attached(t, root, d) && Holds(t, d, dest)
    ensures var c, rel := Cleared(t, root, q, name), NamesFrom(t, d, q) + [name];
      && Wf(c, root, {}) && SameNodes(t, c) && Attached(c, root, d) && Below(c, q, d)
      && NamesFrom(c, d, q) == NamesFrom(t, d, q)
      && Holds(c, d, dest - R.Below(dest, rel) - {rel})
  {
    var u, rel := Cleared(t, root, q, name), NamesFrom(t, d, q) + [name];
    var after := dest - R.Below(dest, rel) - {rel};
    hide Cleared, R.Below;
    ChildIsEntry(t, root, d, q, name, dest);
    if name !in t[q].children {
      NothingBelowNothing(t, root, d, q, name, dest);
      NothingToClear(t, root, q, name);
      assert after == dest;
    } else {
      ClearedElsewhere(t, root, d, q, name, q);
      forall x | x in u ensures NodeShown(u, d, after, x) {
        ClearedElsewhere(t, root, d, q, name, x);
        assert NodeShown(t, d, dest, x);
        if Inside(u, d, x) {
          StaysListed(t, root, d, q, name, dest, x);
        }
      }
      forall k | k in after ensures exists x :: x in u && EntryFor(u, d, k, x) {
        var x :| x in t && EntryFor(t, d, k, x);
        ClearedElsewhere(t, root, d, q, name, x);
        StaysListed(t, root, d, q, name, dest, x);
        assert EntryFor(u, d, k, x);
      }
    }
  }

  lemma NothingToClear<N>(t: Tree<N>, root: N, q: N, name: string)
    requires UpOk(t) && q in t && name !in t[q].children
    ensures Cleared(t, root, q, name) == t
  {
  }

  /** Putting an entry into the map does what `mkdir`, `add_symlink` and the insertion of a file do to the
      directory that the entry is in, and fails exactly if they do. */
  lemma PutIsOperation<N>(t: Tree<N>, root: N, d: N, q: N, n: N, x: Item, dest: R.Dest)
    requires Wf(t, root, {}) && MayCreate(t, root, n, q) && d in t && Below(t, q, d) && Attached(t, root, d)
    requires Holds(t, d, dest)
    ensures var name := x.source.name;
      var put := R.Put(dest, NamesFrom(t, d, q) + [name], x);
      match x.source.kind
      case IsDirectory =>
        && (put.Failure? <==> name in t[q].children)
        && (put.Success? ==>
              var u := Created(t, root, n, q, name, Directory);
              Wf(u, root, {}) && Holds(u, d, put.value))
      case IsSymlink(target) =>
        && (put.Failure? <==>
              name in t[q].children && t[q].children[name] in t && t[t[q].children[name]].children != map[])
        && (put.Success? ==>
              var c := Cleared(t, root, q, name);
              && Wf(c, root, {}) && MayAdd(c, n, q)
              && var u := Created(c, root, n, q, name, Symlink(target));
              Wf(u, root, {}) && Holds(u, d, put.value))
      case IsFile =>
        && put.Success?
        && var u := Created(t, root, n, q, name, File(Join(x.path.fs)));
        Wf(u, root, {}) && Holds(u, d, put.value)
      case IsOther => put.Failure?
  {
    hide Created, Cleared, Holds;
    var name := x.source.name;
    var rel := NamesFrom(t, d, q) + [name];
    ChildIsEntry(t, root, d, q, name, dest);
    if name in t[q].children {
      BelowIsInside(t, root, d, dest, t[q].children[name], rel);
    } else {
      NothingBelowNothing(t, root, d, q, name, dest);
    }
    match x.source.kind
    case IsDirectory =>
      CreatedHolds(t, root, d, q, n, name, R.DirEntry, dest);
      assert dest - {} == dest;
    case IsSymlink(target) =>
      ClearedHolds(t, root, d, q, name, dest);
      var c := Cleared(t, root, q, name);
      AttachedBelow(c, root, q, d);
      CreatedHolds(c, root, d, q, n, name, R.LinkEntry(target), dest - R.Below(dest, rel) - {rel});
      if R.Below(dest, rel) == {} {
        var less := dest - R.Below(dest, rel) - {rel};
        assert R.Below(less, rel) == {};
        assert (less - {})[rel := R.LinkEntry(target)] == dest[rel := R.LinkEntry(target)];
      }
    case IsFile =>
      CreatedHolds(t, root, d, q, n, name, R.FileEntry(x.path.fs), dest);
    case IsOther =>
  }
}
