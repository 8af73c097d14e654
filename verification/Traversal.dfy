/** Depth-first traversal of the virtual file system, children by name: a recursive order,
    and the method with its stack of nodes that lists the nodes in that order. */
module Traversal {
  import opened Strings
  import opened FsTree
  import opened VirtualFs

  // --------------------------------------------------------- ordering of names

  predicate Leq(a: string, b: string) {
    a == "" || (b != "" && (a[0] < b[0] || (a[0] == b[0] && Leq(a[1..], b[1..]))))
  }

  lemma {:induction false} LeqTotal(a: string, b: string)
    ensures Leq(a, b) || Leq(b, a)
    ensures Leq(a, b) && Leq(b, a) ==> a == b
  {
    if a != "" && b != "" && a[0] == b[0] {
      LeqTotal(a[1..], b[1..]);
      assert a == [a[0]] + a[1..] && b == [b[0]] + b[1..];
    }
  }

  lemma {:induction false} LeqTransitive(a: string, b: string, c: string)
    requires Leq(a, b) && Leq(b, c)
    ensures Leq(a, c)
  {
    if a != "" && a[0] == b[0] == c[0] {
      LeqTransitive(a[1..], b[1..], c[1..]);
    }
  }

  /** Where two names first differ, the first of them has the smaller character. */
  predicate SmallerAt(a: string, b: string, k: nat) {
    k < |a| && k < |b| && a[..k] == b[..k] && a[k] < b[k]
  }

  lemma SmallerLater(a: string, b: string, k: nat)
    requires a != "" && b != ""
    ensures SmallerAt(a, b, k + 1) <==> a[0] == b[0] && SmallerAt(a[1..], b[1..], k)
  {
    if k + 1 < |a| && k + 1 < |b| {
      assert a[..k + 1] == [a[0]] + a[1..][..k] && b[..k + 1] == [b[0]] + b[1..][..k];
      assert a[..k + 1] == b[..k + 1] ==> a[..k + 1][1..] == b[..k + 1][1..];
      assert a[..k + 1] == b[..k + 1] ==> a[..k + 1][0] == b[..k + 1][0];
      assert a[..k + 1][1..] == a[1..][..k] && b[..k + 1][1..] == b[1..][..k];
    }
  }

  /** One name is not after another if it is the beginning of it, or has the smaller character where they
      first differ. */
  lemma {:induction false} LeqMeans(a: string, b: string)
    ensures Leq(a, b) <==> a <= b || exists k: nat :: SmallerAt(a, b, k)
  {
    if a != "" && b != "" {
      LeqMeans(a[1..], b[1..]);
      assert a <= b <==> a[0] == b[0] && a[1..] <= b[1..] by {
        assert a == [a[0]] + a[1..] && b == [b[0]] + b[1..];
      }
      assert SmallerAt(a, b, 0) <==> a[0] < b[0];
      if k: nat :| SmallerAt(a, b, k) {
        if k > 0 {
          SmallerLater(a, b, k - 1);
        }
        assert Leq(a, b);
      }
      if k: nat :| a[0] == b[0] && SmallerAt(a[1..], b[1..], k) {
        SmallerLater(a, b, k);
      }
    }
  }

  ghost predicate IsLeast(m: string, names: set<string>) {
    m in names && forall k :: k in names ==> Leq(m, k)
  }

  lemma {:induction false} LeastExists(names: set<string>)
    requires names != {}
    ensures exists m :: IsLeast(m, names)
  {
    var k :| k in names;
    LeqTotal(k, k);
    if names == {k} {
      assert IsLeast(k, names);
    } else {
      var rest := names - {k};
      LeastExists(rest);
      var l :| IsLeast(l, rest);
      LeqTotal(k, l);
      var m := if Leq(k, l) then k else l;
      forall x | x in names ensures Leq(m, x) {
        if x != k && m == k {
          LeqTransitive(k, l, x);
        }
      }
      assert IsLeast(m, names);
    }
  }

  ghost function Least(names: set<string>): (m: string)
    requires names != {}
    ensures IsLeast(m, names)
  {
    LeastExists(names);
    var m :| IsLeast(m, names);
    m
  }

  lemma LeastUnique(m: string, names: set<string>)
    requires IsLeast(m, names)
    ensures names != {} && m == Least(names)
  {
    LeqTotal(m, Least(names));
  }

  /** The names in ascending order. */
  ghost function Sorted(names: set<string>): (s: seq<string>)
    ensures |s| == |names| && forall k :: k in s <==> k in names
  {
    if names == {} then []
    else
      var m := Least(names);
      [m] + Sorted(names - {m})
  }

  lemma {:induction false} SortedAscends(names: set<string>, i: nat, j: nat)
    requires i < j < |Sorted(names)|
    ensures Leq(Sorted(names)[i], Sorted(names)[j]) && Sorted(names)[i] != Sorted(names)[j]
  {
    var m := Least(names);
    var rest := Sorted(names - {m});
    assert Sorted(names)[j] == rest[j - 1];
    if i == 0 {
      assert rest[j - 1] in rest;
    } else {
      SortedAscends(names - {m}, i - 1, j - 1);
    }
  }

  // -------------------------------------------------------------- the traversal

  /** The nodes inside n, with n itself. */
  ghost function Inside<N>(t: Tree<N>, n: N): set<N>
    requires UpOk(t)
  {
    set x | x in t && Below(t, x, n)
  }

  ghost predicate Settled<N>(t: Tree<N>) {
    UpOk(t) && DownOk(t, {}) && MirrorOk(t, {})
  }

  lemma ChildInside<N>(t: Tree<N>, n: N, name: string)
    requires Settled(t) && n in t && name in t[n].children
    ensures var c := t[n].children[name];
      c in t && t[c].parent == Some(n) && t[c].name == name && Inside(t, c) < Inside(t, n) && !Below(t, n, c)
  {
    assert ChildAt(t, n, name);
    var c := t[n].children[name];
    assert UpAt(t, c);
    forall x | x in t && Below(t, x, c) ensures Below(t, x, n) {
      BelowTransitive(t, x, c, n);
    }
    if Below(t, n, c) {
      BelowRank(t, n, c);
    }
    assert n in Inside(t, n) && n !in Inside(t, c);
  }

  /** The node, then everything inside it, one child after the other in the order of their names. */
  ghost function Preorder<N>(t: Tree<N>, n: N): seq<N>
    requires Settled(t) && n in t
    decreases Inside(t, n), 1, 0
  {
    [n] + Forest(t, n, Sorted(t[n].children.Keys))
  }

  ghost function Forest<N>(t: Tree<N>, n: N, names: seq<string>): seq<N>
    requires Settled(t) && n in t && forall k :: k in names ==> k in t[n].children
    decreases Inside(t, n), 0, |names|
  {
    if names == [] then []
    else
      assert names[0] in names;
      ChildInside(t, n, names[0]);
      Preorder(t, t[n].children[names[0]]) + Forest(t, n, names[1..])
  }

  /** All nodes inside n are visited and no others. */
  lemma {:induction false} PreorderIsInside<N>(t: Tree<N>, n: N, x: N)
    requires Settled(t) && n in t
    ensures x in Preorder(t, n) <==> x in t && Below(t, x, n)
    decreases Inside(t, n), 1, 0
  {
    var names := Sorted(t[n].children.Keys);
    ForestIsInside(t, n, names, x);
    if x in t && Below(t, x, n) && x != n {
      ChildAbove(t, n, x);
    } else if exists k :: k in names && InChild(t, n, k, x) {
      var k :| k in names && InChild(t, n, k, x);
      ChildInside(t, n, k);
      BelowTransitive(t, x, t[n].children[k], n);
    }
  }

  ghost predicate InChild<N>(t: Tree<N>, n: N, k: string, x: N)
    requires UpOk(t)
  {
    n in t && k in t[n].children && x in t && Below(t, x, t[n].children[k])
  }

  lemma {:induction false} ChildAbove<N>(t: Tree<N>, n: N, x: N)
    requires Settled(t) && n in t && x in t && Below(t, x, n) && x != n
    ensures exists k :: k in t[n].children && InChild(t, n, k, x)
    decreases t[x].rank
  {
    assert UpAt(t, x) && MirrorAt(t, x);
    var p := t[x].parent.value;
    if p == n {
      assert InChild(t, n, t[x].name, x);
    } else {
      ChildAbove(t, n, p);
      var k :| k in t[n].children && InChild(t, n, k, p);
      assert InChild(t, n, k, x);
    }
  }

  lemma {:induction false} ForestIsInside<N>(t: Tree<N>, n: N, names: seq<string>, x: N)
    requires Settled(t) && n in t && forall k :: k in names ==> k in t[n].children
    ensures x in Forest(t, n, names) <==> exists k :: k in names && InChild(t, n, k, x)
    decreases Inside(t, n), 0, |names|
  {
    if names != [] {
      var k := names[0];
      assert k in names;
      ChildInside(t, n, k);
      PreorderIsInside(t, t[n].children[k], x);
      ForestIsInside(t, n, names[1..], x);
      if InChild(t, n, k, x) {
        assert k in names;
      }
      forall j | j in names && InChild(t, n, j, x) ensures j == k || j in names[1..] {
      }
    }
  }

  /** Each node is visited once. */
  lemma {:induction false} PreorderOnce<N>(t: Tree<N>, n: N)
    requires Settled(t) && n in t
    ensures NoDuplicates(Preorder(t, n))
    decreases Inside(t, n), 1, 0
  {
    var names := Sorted(t[n].children.Keys);
    forall i, j | 0 <= i < j < |names| ensures names[i] != names[j] {
      SortedAscends(t[n].children.Keys, i, j);
    }
    ForestOnce(t, n, names);
    ForestIsInside(t, n, names, n);
    forall k | k in names ensures !InChild(t, n, k, n) {
      ChildInside(t, n, k);
    }
    NoDuplicatesConcat([n], Forest(t, n, names));
  }

  lemma {:induction false} ForestOnce<N>(t: Tree<N>, n: N, names: seq<string>)
    requires Settled(t) && n in t && forall k :: k in names ==> k in t[n].children
    requires NoDuplicates(names)
    ensures NoDuplicates(Forest(t, n, names))
    decreases Inside(t, n), 0, |names|
  {
    if names != [] {
      var k := names[0];
      assert k in names;
      ChildInside(t, n, k);
      var c := t[n].children[k];
      PreorderOnce(t, c);
      ForestOnce(t, n, names[1..]);
      forall x | x in Preorder(t, c) ensures x !in Forest(t, n, names[1..]) {
        PreorderIsInside(t, c, x);
        ForestIsInside(t, n, names[1..], x);
        if j :| j in names[1..] && InChild(t, n, j, x) {
          assert j in names;
          ChildInside(t, n, j);
          SiblingsApart(t, n, k, j, x);
          assert false;
        }
      }
      NoDuplicatesConcat(Preorder(t, c), Forest(t, n, names[1..]));
    }
  }

  lemma SiblingsApart<N>(t: Tree<N>, n: N, k: string, j: string, x: N)
    requires Settled(t) && InChild(t, n, k, x) && InChild(t, n, j, x)
    ensures k == j
  {
    ChildInside(t, n, k);
    ChildInside(t, n, j);
    var a, b := t[n].children[k], t[n].children[j];
    assert a != b ==> Below(t, a, b) == Below(t, n, b);
    assert a != b ==> Below(t, b, a) == Below(t, n, a);
    AncestorsLineUp(t, x, a, b);
  }

  /** Every node comes after its parent, if the nodes in `seen` came before. */
  ghost predicate AfterParents<N>(t: Tree<N>, s: seq<N>, seen: set<N>) {
    s == [] || (s[0] in t && t[s[0]].parent.Some? && t[s[0]].parent.value in seen
      && AfterParents(t, s[1..], seen + {s[0]}))
  }

  lemma {:induction false} AfterParentsConcat<N>(t: Tree<N>, a: seq<N>, b: seq<N>, seen: set<N>, more: set<N>)
    requires AfterParents(t, a, seen) && AfterParents(t, b, more) && forall x :: x in more ==> x in seen || x in a
    ensures AfterParents(t, a + b, seen)
  {
    if a == [] {
      assert a + b == b;
      AfterParentsMore(t, b, more, seen);
    } else {
      assert (a + b)[1..] == a[1..] + b;
      forall x | x in more ensures x in seen + {a[0]} || x in a[1..] {
        if x in a && x != a[0] {
          var i :| 0 <= i < |a| && a[i] == x;
          assert a[1..][i - 1] == x;
        }
      }
      AfterParentsConcat(t, a[1..], b, seen + {a[0]}, more);
    }
  }

  lemma {:induction false} AfterParentsMore<N>(t: Tree<N>, s: seq<N>, seen: set<N>, more: set<N>)
    requires AfterParents(t, s, seen) && seen <= more
    ensures AfterParents(t, s, more)
  {
    if s != [] {
      AfterParentsMore(t, s[1..], seen + {s[0]}, more + {s[0]});
    }
  }

  /** A directory is visited before what is in it. */
  lemma {:induction false} ParentsFirst<N>(t: Tree<N>, n: N)
    requires Settled(t) && n in t
    ensures AfterParents(t, Preorder(t, n)[1..], {n})
    decreases Inside(t, n), 1, 0
  {
    ForestAfterParents(t, n, Sorted(t[n].children.Keys));
    assert Preorder(t, n)[1..] == Forest(t, n, Sorted(t[n].children.Keys));
  }

  lemma {:induction false} ForestAfterParents<N>(t: Tree<N>, n: N, names: seq<string>)
    requires Settled(t) && n in t && forall k :: k in names ==> k in t[n].children
    ensures AfterParents(t, Forest(t, n, names), {n})
    decreases Inside(t, n), 0, |names|
  {
    if names != [] {
      assert names[0] in names;
      ChildInside(t, n, names[0]);
      var c := t[n].children[names[0]];
      ParentsFirst(t, c);
      AfterParentsMore(t, Preorder(t, c)[1..], {c}, {n} + {c});
      assert AfterParents(t, Preorder(t, c), {n});
      ForestAfterParents(t, n, names[1..]);
      AfterParentsConcat(t, Preorder(t, c), Forest(t, n, names[1..]), {n}, {n});
    }
  }

  /** All that is in one child comes before all that is in a child with a greater name. */
  lemma SiblingsByName<N>(t: Tree<N>, n: N, j: string, k: string, x: N, y: N)
    requires Settled(t) && InChild(t, n, j, x) && InChild(t, n, k, y) && Leq(j, k) && j != k
    ensures Precedes(Preorder(t, n), x, y)
  {
    var names := Sorted(t[n].children.Keys);
    var i :| 0 <= i < |names| && names[i] == j;
    var l :| 0 <= l < |names| && names[l] == k;
    if l < i {
      SortedAscends(t[n].children.Keys, l, i);
      LeqTotal(j, k);
    }
    hide Preorder, Forest, Precedes;
    ForestByName(t, n, names, i, l, x, y);
    PreorderIs(t, n);
    PrecedesConcat([n], Forest(t, n, names), x, y);
  }

  lemma ForestIs<N>(t: Tree<N>, n: N, names: seq<string>)
    requires Settled(t) && n in t && (forall k :: k in names ==> k in t[n].children) && names != []
    ensures names[0] in t[n].children && t[n].children[names[0]] in t
    ensures Forest(t, n, names) == Preorder(t, t[n].children[names[0]]) + Forest(t, n, names[1..])
  {
    assert names[0] in names;
    ChildInside(t, n, names[0]);
    hide Preorder;
  }

  lemma {:induction false} ForestByName<N>(t: Tree<N>, n: N, names: seq<string>, i: nat, l: nat, x: N, y: N)
    requires Settled(t) && n in t && (forall k :: k in names ==> k in t[n].children) && i < l < |names|
    requires InChild(t, n, names[i], x) && InChild(t, n, names[l], y)
    ensures Precedes(Forest(t, n, names), x, y)
    decreases |names|
  {
    hide Preorder, Forest, Precedes;
    ForestIs(t, n, names);
    var first, rest := Preorder(t, t[n].children[names[0]]), Forest(t, n, names[1..]);
    if i == 0 {
      PreorderIsInside(t, t[n].children[names[0]], x);
      assert names[1..][l - 1] == names[l];
      ForestIsInside(t, n, names[1..], y);
    } else {
      ForestByName(t, n, names[1..], i - 1, l - 1, x, y);
    }
    PrecedesConcat(first, rest, x, y);
  }

  lemma PreorderIs<N>(t: Tree<N>, n: N)
    requires Settled(t) && n in t
    ensures Preorder(t, n) == [n] + Forest(t, n, Sorted(t[n].children.Keys))
  {
  }

  /** And what is in a directory is visited without interruption. */
  lemma {:induction false} VisitedTogether<N>(t: Tree<N>, top: N, n: N) returns (before: seq<N>, after: seq<N>)
    requires Settled(t) && top in t && n in t && Below(t, n, top)
    ensures Preorder(t, top) == before + Preorder(t, n) + after
    decreases Inside(t, top), 1
  {
    hide Preorder, Forest, Sorted;
    if n == top {
      before, after := [], [];
      assert Preorder(t, top) == [] + Preorder(t, n) + [];
    } else {
      ChildAbove(t, top, n);
      var k :| k in t[top].children && InChild(t, top, k, n);
      var names := Sorted(t[top].children.Keys);
      var i :| 0 <= i < |names| && names[i] == k;
      before, after := TogetherInForest(t, top, names, i, n);
      Extended(Forest(t, top, names), [top], before, Preorder(t, n), after, []);
      PreorderIs(t, top);
      before := [top] + before;
    }
  }

  lemma Extended<T>(s: seq<T>, first: seq<T>, before: seq<T>, mid: seq<T>, after: seq<T>, last: seq<T>)
    requires s == before + mid + after
    ensures first + s + last == (first + before) + mid + (after + last)
    ensures first == [] ==> first + s + last == s + last && first + before == before
    ensures last == [] ==> first + s + last == first + s && after + last == after
  {
  }

  lemma {:induction false} TogetherInForest<N>(t: Tree<N>, top: N, names: seq<string>, i: nat, n: N)
    returns (before: seq<N>, after: seq<N>)
    requires Settled(t) && top in t && (forall k :: k in names ==> k in t[top].children) && i < |names|
    requires InChild(t, top, names[i], n)
    ensures Forest(t, top, names) == before + Preorder(t, n) + after
    decreases Inside(t, top), 0, |names|
  {
    assert names[0] in names;
    ChildInside(t, top, names[0]);
    var c := t[top].children[names[0]];
    var rest := Forest(t, top, names[1..]);
    if i == 0 {
      before, after := VisitedTogether(t, c, n);
      Extended(Preorder(t, c), [], before, Preorder(t, n), after, rest);
      after := after + rest;
    } else {
      before, after := TogetherInForest(t, top, names[1..], i - 1, n);
      Extended(rest, Preorder(t, c), before, Preorder(t, n), after, []);
      before := Preorder(t, c) + before;
    }
  }

  // ------------------------------------------------------------------ the loop

  lemma SortedIs(names: set<string>, m: string)
    requires IsLeast(m, names)
    ensures Sorted(names) == [m] + Sorted(names - {m})
  {
    LeastUnique(m, names);
  }

  lemma SortedStep(s: seq<string>, names: set<string>, m: string)
    requires IsLeast(m, names)
    ensures s + Sorted(names) == (s + [m]) + Sorted(names - {m})
  {
    SortedIs(names, m);
    hide Sorted;
    var rest := Sorted(names - {m});
    assert s + ([m] + rest) == (s + [m]) + rest;
  }

  method SortedNames(all: set<string>) returns (s: seq<string>)
    ensures s == Sorted(all)
  {
    var names := all;
    s := [];
    while names != {}
      invariant s + Sorted(names) == Sorted(all)
      decreases names
    {
      LeastExists(names);
      var m :| m in names && forall k :: k in names ==> Leq(m, k);
      SortedStep(s, names, m);
      s := s + [m];
      names := names - {m};
    }
  }

  ghost predicate ChildrenAre<N>(t: Tree<N>, n: N, names: seq<string>, nodes: seq<N>)
    requires n in t
  {
    |nodes| == |names| && forall i :: 0 <= i < |names| ==>
      names[i] in t[n].children && nodes[i] == t[n].children[names[i]]
  }

  /** Python's `sorted` over the children, by name. */
  method SortedChildren(n: FSPath, ghost t: Tree<FSPath>, ghost S: set<FSPath>) returns (s: seq<FSPath>)
    requires Snap(S) == t && n in S
    ensures ChildrenAre(t, n, Sorted(t[n].children.Keys), s)
  {
    assert t[n] == n.View();
    var children := n.children;
    var names := SortedNames(children.Keys);
    assert forall i :: 0 <= i < |names| ==> names[i] in names;
    s := seq(|names|, i requires 0 <= i < |names| && names[i] in children => children[names[i]]);
  }

  /** What the nodes on the stack, read from its top, still have to contribute. */
  ghost function Contribution<N>(t: Tree<N>, nodes: seq<N>): seq<N>
    requires Settled(t) && forall x :: x in nodes ==> x in t
  {
    if nodes == [] then []
    else
      assert nodes[0] in nodes;
      Preorder(t, nodes[0]) + Contribution(t, nodes[1..])
  }

  lemma {:induction false} ContributionOfForest<N>(t: Tree<N>, n: N, names: seq<string>, nodes: seq<N>, later: seq<N>)
    requires Settled(t) && n in t && forall k :: k in names ==> k in t[n].children
    requires ChildrenAre(t, n, names, nodes)
    requires forall x :: x in later ==> x in t
    ensures (forall x :: x in nodes + later ==> x in t)
    ensures Contribution(t, nodes + later) == Forest(t, n, names) + Contribution(t, later)
    decreases |names|
  {
    forall i | 0 <= i < |names| ensures nodes[i] in t {
      ChildInside(t, n, names[i]);
    }
    if names == [] {
      assert nodes + later == later;
    } else {
      assert (nodes + later)[1..] == nodes[1..] + later;
      ContributionOfForest(t, n, names[1..], nodes[1..], later);
    }
  }

  ghost predicate OnStack<N>(t: Tree<N>, root: N, stack: seq<N>)
    requires UpOk(t)
  {
    forall x :: x in Reverse(stack) ==> x in t && Attached(t, root, x)
  }

  /** `all_paths`: the stack holds what is still to be visited, with the next node on top. */
  method AllPaths(self: FSPath, ghost t: Tree<FSPath>, ghost S: set<FSPath>, ghost root: FSPath)
    returns (out: seq<FSPath>)
    requires Wf(t, root, {}) && Snap(S) == t && OneRoot(S, root) && self in S && Attached(t, root, self)
    ensures out == Preorder(t, self)
  {
    out := [self];
    assert t[self] == self.View() && DirAt(t, self);
    if !self.kind.Directory? {
      return;
    }
    var stack := PushChildren(self, [], t, S, root);
    assert Reverse<FSPath>([]) == [];
    while stack != []
      invariant OnStack(t, root, stack)
      invariant out + Contribution(t, Reverse(stack)) == Preorder(t, self)
      decreases |Preorder(t, self)| - |out|
    {
      var current;
      current, stack := VisitTop(stack, t, S, root);
      Outwards(out, current, Contribution(t, Reverse(stack)));
      out := out + [current];
    }
  }

  lemma Outwards<T>(out: seq<T>, x: T, rest: seq<T>)
    ensures (out + [x]) + rest == out + ([x] + rest)
  {
  }

  method VisitTop(stack: seq<FSPath>, ghost t: Tree<FSPath>, ghost S: set<FSPath>, ghost root: FSPath)
    returns (current: FSPath, stack': seq<FSPath>)
    requires Wf(t, root, {}) && Snap(S) == t && OneRoot(S, root) && stack != [] && OnStack(t, root, stack)
    ensures OnStack(t, root, stack')
    ensures Contribution(t, Reverse(stack)) == [current] + Contribution(t, Reverse(stack'))
  {
    TopOfStack(t, root, stack);
    current := stack[|stack| - 1];
    stack' := Visit(current, stack[..|stack| - 1], t, S, root);
  }

  lemma TopOfStack<N>(t: Tree<N>, root: N, stack: seq<N>)
    requires Settled(t) && stack != [] && OnStack(t, root, stack)
    ensures var top, below := stack[|stack| - 1], stack[..|stack| - 1];
      && OnStack(t, root, below) && top in t && Attached(t, root, top)
      && Contribution(t, Reverse(stack)) == Preorder(t, top) + Contribution(t, Reverse(below))
  {
    ReverseTop(stack);
    var top, later := stack[|stack| - 1], Reverse(stack[..|stack| - 1]);
    assert top in [top] + later && ([top] + later)[1..] == later;
    assert forall x :: x in later ==> x in [top] + later;
  }

  method Visit(current: FSPath, stack: seq<FSPath>, ghost t: Tree<FSPath>, ghost S: set<FSPath>, ghost root: FSPath)
    returns (stack': seq<FSPath>)
    requires Wf(t, root, {}) && Snap(S) == t && OneRoot(S, root) && current in S && Attached(t, root, current)
    requires OnStack(t, root, stack)
    ensures OnStack(t, root, stack')
    ensures [current] + Contribution(t, Reverse(stack')) == Preorder(t, current) + Contribution(t, Reverse(stack))
  {
    if current.kind.Directory? && !current.IsDetached(S, root) {
      stack' := PushChildren(current, stack, t, S, root);
    } else {
      assert t[current] == current.View() && DirAt(t, current);
      stack' := stack;
    }
  }

  /** The children go on the stack in descending order, so that they come off in ascending order. */
  method PushChildren(n: FSPath, stack: seq<FSPath>, ghost t: Tree<FSPath>, ghost S: set<FSPath>, ghost root: FSPath)
    returns (stack': seq<FSPath>)
    requires Settled(t) && Snap(S) == t && n in S && Attached(t, root, n) && OnStack(t, root, stack)
    ensures OnStack(t, root, stack')
    ensures [n] + Contribution(t, Reverse(stack')) == Preorder(t, n) + Contribution(t, Reverse(stack))
  {
    hide Preorder, Forest, Contribution, Sorted;
    PreorderIs(t, n);
    ghost var names := Sorted(t[n].children.Keys);
    var children := SortedChildren(n, t, S);
    stack' := stack + Reverse(children);
    ReversePush(stack, children);
    ContributionOfForest(t, n, names, children, Reverse(stack));
    ChildrenAttached(t, root, n, names, children);
    assert [n] + (Forest(t, n, names) + Contribution(t, Reverse(stack))) ==
      Preorder(t, n) + Contribution(t, Reverse(stack));
  }

  lemma ChildrenAttached(t: Tree<FSPath>, root: FSPath, n: FSPath, names: seq<string>, nodes: seq<FSPath>)
    requires Settled(t) && n in t && Attached(t, root, n) && ChildrenAre(t, n, names, nodes)
    ensures forall x :: x in nodes ==> x in t && Attached(t, root, x)
  {
    forall i | 0 <= i < |nodes| ensures nodes[i] in t && Attached(t, root, nodes[i]) {
      ChildInside(t, n, names[i]);
    }
  }
}
