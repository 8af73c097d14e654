/** The order of the search directories that keeps what every package asks for, or a cycle. */
module SearchDirOrder {
  import opened Strings

  type Package = string
  type Dir = string

  datatype SearchDir = SearchDir(dir: Dir, appliesTo: set<Package>)
  datatype CircularDependency = CircularDependency(among: set<Dir>)
  datatype OrderState = OrderState(appliesTo: set<Package>, after: set<Dir>)

  /** What a package asks for. */
  datatype Request = Request(requested: map<Package, seq<Dir>>, allPackages: set<Package>, defaults: seq<Dir>) {
    function PathsFor(pkg: Package): seq<Dir> {
      if pkg in requested then requested[pkg] else defaults
    }

    ghost predicate Wants(pkg: Package, d: Dir) {
      pkg in allPackages && d in PathsFor(pkg)
    }

    ghost predicate Wanted(d: Dir) {
      exists pkg :: Wants(pkg, d)
    }

    /** Some package asks for b right after a. */
    ghost predicate Edge(a: Dir, b: Dir) {
      exists pkg, i {:trigger EdgeAt(pkg, i, a, b)} :: EdgeAt(pkg, i, a, b)
    }

    ghost predicate EdgeAt(pkg: Package, i: nat, a: Dir, b: Dir) {
      pkg in allPackages && i + 1 < |PathsFor(pkg)| && PathsFor(pkg)[i] == a && PathsFor(pkg)[i + 1] == b
    }

    /** A chain of directories each of which has to come before the next. */
    ghost predicate Chain(c: seq<Dir>) {
      forall i {:trigger Link(c, i)} :: 0 < i < |c| ==> Link(c, i)
    }

    ghost predicate Link(c: seq<Dir>, i: int) {
      0 < i < |c| && Edge(c[i - 1], c[i])
    }

    ghost predicate Circular() {
      exists c :: Cycle(c)
    }

    ghost predicate Cycle(c: seq<Dir>) {
      |c| >= 2 && Chain(c) && c[0] == c[|c| - 1]
    }
  }

  // -------------------------------------------------------------- what an order is

  /** All that is in `after` of an element of the order stands before it. */
  ghost predicate KeepsEdges(q: Request, order: seq<Dir>) {
    forall a, j {:trigger q.Edge(a, order[j])} :: 0 <= j < |order| && q.Edge(a, order[j]) ==> a in order[..j]
  }

  lemma ChainPrefix(q: Request, c: seq<Dir>, n: nat)
    requires q.Chain(c) && n <= |c|
    ensures q.Chain(c[..n])
  {
    forall i | 0 < i < n ensures q.Link(c[..n], i) {
      assert q.Link(c, i);
    }
  }

  /** An order that keeps all edges leaves no room for a cycle. */
  lemma {:induction false} ChainAscends(q: Request, order: seq<Dir>, c: seq<Dir>, i: nat, j: nat)
    requires NoDuplicates(order) && KeepsEdges(q, order) && q.Chain(c) && |c| >= 2
    requires i < |order| && j < |order| && order[i] == c[0] && order[j] == c[|c| - 1]
    ensures i < j
    decreases |c|
  {
    assert q.Link(c, |c| - 1);
    assert q.Edge(c[|c| - 2], order[j]);
    assert c[|c| - 2] in order[..j];
    if |c| == 2 {
    } else {
      var k: nat :| k < j && order[k] == c[|c| - 2];
      ChainPrefix(q, c, |c| - 1);
      ChainAscends(q, order, c[..|c| - 1], i, k);
    }
  }

  lemma OrderedIsNotCircular(q: Request, order: seq<Dir>)
    requires NoDuplicates(order) && KeepsEdges(q, order) && forall d :: q.Wanted(d) ==> d in order
    ensures !q.Circular()
  {
    if q.Circular() {
      var c :| q.Cycle(c);
      assert q.Link(c, |c| - 1);
      EdgeWanted(q, c[|c| - 2], c[|c| - 1]);
      var j: nat :| j < |order| && order[j] == c[0];
      ChainAscends(q, order, c, j, j);
    }
  }

  lemma EdgeWanted(q: Request, a: Dir, b: Dir)
    requires q.Edge(a, b)
    ensures q.Wanted(a) && q.Wanted(b)
  {
    var pkg: Package, i: nat :| q.EdgeAt(pkg, i, a, b);
    assert q.PathsFor(pkg)[i] == a && q.PathsFor(pkg)[i + 1] == b;
    assert q.Wants(pkg, a) && q.Wants(pkg, b);
  }

  /** Keeping the edges means keeping the whole order that each package asked for. */
  lemma {:induction false} PackageOrderKept(q: Request, order: seq<Dir>, pkg: Package, i: nat, j: nat, k: nat)
    requires NoDuplicates(order) && KeepsEdges(q, order) && pkg in q.allPackages
    requires i < j < |q.PathsFor(pkg)| && k < |order| && order[k] == q.PathsFor(pkg)[j]
    ensures q.PathsFor(pkg)[i] in order[..k]
    decreases j
  {
    var paths := q.PathsFor(pkg);
    assert q.EdgeAt(pkg, j - 1, paths[j - 1], paths[j]);
    assert q.Edge(paths[j - 1], order[k]);
    if i < j - 1 {
      var l: nat :| l < k && order[l] == paths[j - 1];
      PackageOrderKept(q, order, pkg, i, j - 1, l);
      assert order[..l] <= order[..k];
    }
  }

  ghost predicate Waits(q: Request, waiting: set<Dir>, d: Dir) {
    exists p :: p in waiting && q.Edge(p, d)
  }

  ghost predicate AllWait(q: Request, waiting: set<Dir>) {
    forall d {:trigger Waits(q, waiting, d)} :: d in waiting ==> Waits(q, waiting, d)
  }

  /** Directories that all wait for one another: going back from one to the next, one comes around. */
  lemma {:induction false} WaitingIsCircular(q: Request, waiting: set<Dir>, c: seq<Dir>)
    requires AllWait(q, waiting)
    requires c != [] && q.Chain(c) && NoDuplicates(c) && Released(c) <= waiting
    ensures q.Circular()
    decreases waiting - Released(c)
  {
    assert c[0] in c && Waits(q, waiting, c[0]);
    var p :| p in waiting && q.Edge(p, c[0]);
    ChainLonger(q, p, c);
    if p in c {
      var k: nat :| k < |c| && c[k] == p;
      ChainLoop(q, [p] + c, k + 1);
    } else {
      forall x, y | 0 <= x < y < |c| + 1 ensures ([p] + c)[x] != ([p] + c)[y] {
      }
      assert p in Released([p] + c);
      WaitingIsCircular(q, waiting, [p] + c);
    }
  }

  lemma ChainLonger(q: Request, p: Dir, c: seq<Dir>)
    requires q.Chain(c) && c != [] && q.Edge(p, c[0])
    ensures q.Chain([p] + c)
  {
    var longer := [p] + c;
    forall i | 0 < i < |longer| ensures q.Link(longer, i) {
      if i > 1 {
        assert q.Link(c, i - 1);
        assert longer[i - 1] == c[i - 2] && longer[i] == c[i - 1];
      }
    }
  }

  lemma ChainLoop(q: Request, c: seq<Dir>, k: nat)
    requires q.Chain(c) && 0 < k < |c| && c[k] == c[0]
    ensures q.Circular()
  {
    var loop := c[..k + 1];
    ChainPrefix(q, c, k + 1);
    assert q.Cycle(loop);
  }

  // ---------------------------------------------------------------- the algorithm

  ghost predicate EntryOk(q: Request, table: map<Dir, OrderState>, d: Dir) {
    && (d in table <==> q.Wanted(d))
    && (d in table ==> forall pkg :: pkg in table[d].appliesTo <==> q.Wants(pkg, d))
    && (d in table ==> forall a :: a in table[d].after <==> q.Edge(a, d))
  }

  /** The table says who wants a directory and what stands right before it. */
  ghost predicate TableOk(q: Request, table: map<Dir, OrderState>) {
    forall d {:trigger EntryOk(q, table, d)} :: EntryOk(q, table, d)
  }

  /** What one package contributes to the table. */
  function AddPackage(table: map<Dir, OrderState>, pkg: Package, paths: seq<Dir>): map<Dir, OrderState> {
    if paths == [] then table
    else
      var d := paths[|paths| - 1];
      var before := AddPackage(table, pkg, paths[..|paths| - 1]);
      var state := if d in before then before[d] else OrderState({}, {});
      before[d := OrderState(state.appliesTo + {pkg},
                             state.after + if |paths| > 1 then {paths[|paths| - 2]} else {})]
  }

  /** a stands right before d in a list of paths. */
  ghost predicate RightBefore(paths: seq<Dir>, a: Dir, d: Dir) {
    exists i {:trigger paths[i]} :: 0 < i < |paths| && paths[i] == d && paths[i - 1] == a
  }

  lemma {:induction false} AddPackageAdds(table: map<Dir, OrderState>, pkg: Package, paths: seq<Dir>, d: Dir)
    ensures var t := AddPackage(table, pkg, paths);
      && (d in t <==> d in table || d in paths)
      && (d in t ==> forall p :: p in t[d].appliesTo <==>
        (d in table && p in table[d].appliesTo) || (p == pkg && d in paths))
      && (d in t ==> forall a :: a in t[d].after <==> (d in table && a in table[d].after) || RightBefore(paths, a, d))
  {
    if paths != [] {
      var last, front := paths[|paths| - 1], paths[..|paths| - 1];
      AddPackageAdds(table, pkg, front, d);
      assert paths == front + [last];
      forall a ensures RightBefore(paths, a, d) <==>
        RightBefore(front, a, d) || (front != [] && d == last && a == front[|front| - 1])
      {
      }
      assert d != last && d !in front ==> forall a :: !RightBefore(front, a, d);
    }
  }

  /** The table after the packages in `done` have been entered. */
  ghost predicate TableFor(q: Request, done: set<Package>, table: map<Dir, OrderState>)
    requires done <= q.allPackages
  {
    TableOk(Request(q.requested, done, q.defaults), table)
  }

  lemma EnterPackage(q: Request, done: set<Package>, table: map<Dir, OrderState>, pkg: Package)
    requires done <= q.allPackages && pkg in q.allPackages && pkg !in done && TableFor(q, done, table)
    ensures TableFor(q, done + {pkg}, AddPackage(table, pkg, q.PathsFor(pkg)))
  {
    var old', new' := Request(q.requested, done, q.defaults), Request(q.requested, done + {pkg}, q.defaults);
    var paths, t := q.PathsFor(pkg), AddPackage(table, pkg, q.PathsFor(pkg));
    assert old'.PathsFor(pkg) == paths == new'.PathsFor(pkg);
    forall d ensures new'.Wanted(d) <==> old'.Wanted(d) || d in paths {
      if p :| old'.Wants(p, d) {
        assert new'.Wants(p, d);
      }
      if d in paths {
        assert new'.Wants(pkg, d);
      }
      if p :| new'.Wants(p, d) && p != pkg {
        assert old'.Wants(p, d);
      }
    }
    forall d, a ensures new'.Edge(a, d) <==> old'.Edge(a, d) || RightBefore(paths, a, d) {
      if p: Package, i: nat :| old'.EdgeAt(p, i, a, d) {
        assert new'.EdgeAt(p, i, a, d);
      }
      if i :| 0 < i < |paths| && paths[i] == d && paths[i - 1] == a {
        assert new'.EdgeAt(pkg, i - 1, a, d);
      }
      if p: Package, i: nat :| new'.EdgeAt(p, i, a, d) {
        if p == pkg {
          assert paths[i + 1] == d && paths[i + 1 - 1] == a;
        } else {
          assert old'.EdgeAt(p, i, a, d);
        }
      }
    }
    forall d ensures EntryOk(new', t, d) {
      assert EntryOk(old', table, d);
      AddPackageAdds(table, pkg, paths, d);
      NotWantedNoEdge(old', d);
      forall p ensures new'.Wants(p, d) <==> old'.Wants(p, d) || (p == pkg && d in paths) {
      }
    }
  }

  lemma NotWantedNoEdge(q: Request, d: Dir)
    ensures forall p :: q.Wants(p, d) ==> q.Wanted(d)
    ensures forall a :: q.Edge(a, d) ==> q.Wanted(d)
  {
    forall a | q.Edge(a, d) ensures q.Wanted(d) {
      EdgeWanted(q, a, d);
    }
  }

  /** The first loop: the packages come in any order. */
  method BuildTable(q: Request) returns (table: map<Dir, OrderState>)
    ensures TableOk(q, table)
  {
    table := map[];
    var pending := q.allPackages;
    forall d ensures EntryOk(Request(q.requested, {}, q.defaults), table, d) {
    }
    while pending != {}
      invariant pending <= q.allPackages && TableFor(q, q.allPackages - pending, table)
      decreases pending
    {
      var pkg :| pkg in pending;
      EnterPackage(q, q.allPackages - pending, table, pkg);
      assert q.allPackages - (pending - {pkg}) == (q.allPackages - pending) + {pkg};
      table := EnterPaths(table, pkg, q.PathsFor(pkg));
      pending := pending - {pkg};
    }
    assert Request(q.requested, q.allPackages - {}, q.defaults) == q;
  }

  /** The inner loop: each directory comes after the one that was entered before it. */
  method EnterPaths(start: map<Dir, OrderState>, pkg: Package, paths: seq<Dir>) returns (table: map<Dir, OrderState>)
    ensures table == AddPackage(start, pkg, paths)
  {
    table := start;
    var previous: Option<Dir> := None;
    for i := 0 to |paths|
      invariant table == AddPackage(start, pkg, paths[..i])
      invariant previous == if i == 0 then None else Some(paths[i - 1])
    {
      assert paths[..i + 1][..i] == paths[..i];
      var d := paths[i];
      var state := if d in table then table[d] else OrderState({}, {});
      state := state.(appliesTo := state.appliesTo + {pkg});
      if previous.Some? {
        state := state.(after := state.after + {previous.value});
      } else {
        assert state.after + {} == state.after;
      }
      table := table[d := state];
      previous := Some(d);
    }
    assert paths[..|paths|] == paths;
  }

  // ---------------------------------------------------------------- the release

  /** What has been put in order so far, and what is still waiting. */
  ghost predicate Progress(q: Request, table: map<Dir, OrderState>, order: seq<Dir>, waiting: set<Dir>) {
    && TableOk(q, table) && NoDuplicates(order) && KeepsEdges(q, order)
    && (forall d :: d in order ==> d in table && d !in waiting)
    && (forall d :: d in waiting ==> d in table)
  }

  function Released(order: seq<Dir>): set<Dir> {
    set d | d in order
  }

  lemma Release(q: Request, table: map<Dir, OrderState>, order: seq<Dir>, waiting: set<Dir>, d: Dir)
    requires Progress(q, table, order, waiting) && d in table && d !in order
    requires table[d].after <= Released(order)
    ensures Progress(q, table, order + [d], waiting - {d})
    ensures Released(order + [d]) == Released(order) + {d}
  {
    var longer := order + [d];
    forall a, j | 0 <= j < |longer| && q.Edge(a, longer[j]) ensures a in longer[..j] {
      if j < |order| {
        assert longer[j] == order[j] && longer[..j] == order[..j];
        assert q.Edge(a, order[j]);
      } else {
        assert longer[..j] == order && EntryOk(q, table, d);
        assert a in table[d].after;
      }
    }
  }

  /** One pass over a set of directories, in any order: whoever waits for nobody is released. */
  method Pass(q: Request, table: map<Dir, OrderState>, order: seq<Dir>, candidates: set<Dir>)
    returns (order': seq<Dir>, released: set<Dir>)
    requires Progress(q, table, order, candidates)
    ensures Progress(q, table, order', candidates - released) && order <= order'
    ensures released <= candidates && Released(order') == Released(order) + released
    ensures released == {} ==> AllBlocked(table, order', candidates)
  {
    order', released := order, {};
    var pending := candidates;
    while pending != {}
      invariant pending <= candidates && released <= candidates - pending
      invariant Progress(q, table, order', candidates - released) && order <= order'
      invariant Released(order') == Released(order) + released
      invariant released == {} ==> AllBlocked(table, order', candidates - pending)
      decreases pending
    {
      var d :| d in pending;
      pending := pending - {d};
      if table[d].after <= Released(order') {
        Release(q, table, order', candidates - released, d);
        assert candidates - (released + {d}) == (candidates - released) - {d};
        order' := order' + [d];
        released := released + {d};
      }
    }
  }

  ghost predicate Blocked(table: map<Dir, OrderState>, order: seq<Dir>, d: Dir) {
    d in table && !(table[d].after <= Released(order))
  }

  ghost predicate AllBlocked(table: map<Dir, OrderState>, order: seq<Dir>, dirs: set<Dir>) {
    forall d {:trigger Blocked(table, order, d)} :: d in dirs ==> Blocked(table, order, d)
  }

  lemma StuckWaits(q: Request, table: map<Dir, OrderState>, order: seq<Dir>, remaining: set<Dir>, d: Dir)
    requires TableOk(q, table) && table.Keys == Released(order) + remaining
    requires Blocked(table, order, d)
    ensures Waits(q, remaining, d)
  {
    var a :| a in table[d].after && a !in Released(order);
    assert EntryOk(q, table, d) && EntryOk(q, table, a);
    EdgeWanted(q, a, d);
    assert a in table;
  }

  lemma StuckAllWait(q: Request, table: map<Dir, OrderState>, order: seq<Dir>, remaining: set<Dir>)
    requires TableOk(q, table) && table.Keys == Released(order) + remaining
    requires AllBlocked(table, order, remaining)
    ensures AllWait(q, remaining)
  {
    forall d | d in remaining ensures Waits(q, remaining, d) {
      assert Blocked(table, order, d);
      StuckWaits(q, table, order, remaining, d);
    }
  }

  lemma StuckIsCircular(q: Request, table: map<Dir, OrderState>, order: seq<Dir>, remaining: set<Dir>)
    requires TableOk(q, table) && remaining != {} && table.Keys == Released(order) + remaining
    requires AllBlocked(table, order, remaining)
    ensures q.Circular() && AllWait(q, remaining)
  {
    StuckAllWait(q, table, order, remaining);
    var d :| d in remaining;
    WaitingIsCircular(q, remaining, [d]);
  }

  /** What the order is for: every directory asked for once, with exactly the packages that asked for
      it, every package's own order kept, and the source root at the end for all packages. */
  ghost predicate Serves(q: Request, sourceRoot: Dir, dirs: seq<SearchDir>) {
    && dirs != [] && dirs[|dirs| - 1] == SearchDir(sourceRoot, q.allPackages)
    && var order := DirsOf(dirs[..|dirs| - 1]);
    && NoDuplicates(order)
    && (forall d :: d in order <==> q.Wanted(d))
    && (forall k, pkg {:trigger q.Wants(pkg, dirs[k].dir)} :: 0 <= k < |order| ==>
          (pkg in dirs[k].appliesTo <==> q.Wants(pkg, dirs[k].dir)))
    && (forall pkg, i, j, k {:trigger q.PathsFor(pkg)[i], q.PathsFor(pkg)[j], order[k]} ::
          pkg in q.allPackages && 0 <= i < j < |q.PathsFor(pkg)| && 0 <= k < |order|
            && order[k] == q.PathsFor(pkg)[j] ==>
            q.PathsFor(pkg)[i] in order[..k])
  }

  function DirsOf(dirs: seq<SearchDir>): (r: seq<Dir>)
    ensures |r| == |dirs| && forall i :: 0 <= i < |dirs| ==> r[i] == dirs[i].dir
  {
    seq(|dirs|, i requires 0 <= i < |dirs| => dirs[i].dir)
  }

  /** A package gets the directories that were requested for it, or the default ones if nothing was: each
      of them, and no others before the source root. */
  lemma RequestsServed(q: Request, sourceRoot: Dir, dirs: seq<SearchDir>, pkg: Package, d: Dir)
    requires Serves(q, sourceRoot, dirs) && pkg in q.allPackages
    ensures (exists k :: 0 <= k < |dirs| - 1 && dirs[k].dir == d && pkg in dirs[k].appliesTo) <==>
      d in if pkg in q.requested.Keys then q.requested[pkg] else q.defaults
  {
    var order := DirsOf(dirs[..|dirs| - 1]);
    assert q.Wants(pkg, d) <==> d in if pkg in q.requested.Keys then q.requested[pkg] else q.defaults;
    if q.Wants(pkg, d) {
      assert q.Wanted(d);
      var k :| 0 <= k < |order| && order[k] == d;
      assert dirs[k].dir == d && q.Wants(pkg, dirs[k].dir);
    }
    if k :| 0 <= k < |dirs| - 1 && dirs[k].dir == d && pkg in dirs[k].appliesTo {
      assert q.Wants(pkg, dirs[k].dir);
    }
  }

  /** And in the order of the request. */
  lemma RequestsInOrder(q: Request, sourceRoot: Dir, dirs: seq<SearchDir>, pkg: Package, i: nat, j: nat, k: nat, l: nat)
    requires Serves(q, sourceRoot, dirs) && pkg in q.allPackages && k < |dirs| - 1 && l < |dirs| - 1
    requires var paths := if pkg in q.requested.Keys then q.requested[pkg] else q.defaults;
      i < j < |paths| && dirs[k].dir == paths[i] && dirs[l].dir == paths[j]
    ensures k < l
  {
    var order, paths := DirsOf(dirs[..|dirs| - 1]), q.PathsFor(pkg);
    assert order[k] == paths[i] && order[l] == paths[j];
    var m :| 0 <= m < l && order[..l][m] == paths[i];
    assert order[m] == order[k];
  }

  lemma FinishedServes(q: Request, table: map<Dir, OrderState>, order: seq<Dir>, sourceRoot: Dir, dirs: seq<SearchDir>)
    requires Progress(q, table, order, {}) && table.Keys == Released(order)
    requires |dirs| == |order| + 1 && dirs[|order|] == SearchDir(sourceRoot, q.allPackages)
    requires forall i :: 0 <= i < |order| ==>
      order[i] in table && dirs[i] == SearchDir(order[i], table[order[i]].appliesTo)
    ensures Serves(q, sourceRoot, dirs) && !q.Circular()
  {
    assert DirsOf(dirs[..|dirs| - 1]) == order;
    forall d ensures d in order <==> q.Wanted(d) {
      assert EntryOk(q, table, d);
      assert d in Released(order) <==> d in table;
    }
    OrderedIsNotCircular(q, order);
    forall k, pkg | 0 <= k < |order| ensures pkg in dirs[k].appliesTo <==> q.Wants(pkg, dirs[k].dir) {
      assert EntryOk(q, table, order[k]);
    }
    forall pkg, i, j, k | pkg in q.allPackages && 0 <= i < j < |q.PathsFor(pkg)| && 0 <= k < |order|
      && order[k] == q.PathsFor(pkg)[j]
      ensures q.PathsFor(pkg)[i] in order[..k]
    {
      PackageOrderKept(q, order, pkg, i, j, k);
    }
  }

  /** `_determine_search_dir_order`: an error exactly if the orders of the packages contradict each other. */
  method DetermineSearchDirOrder(q: Request, sourceRoot: Dir) returns (r: Result<seq<SearchDir>, CircularDependency>)
    requires q.requested.Keys <= q.allPackages
    ensures r.Failure? <==> q.Circular()
    ensures r.Failure? ==> r.error.among != {} && AllWait(q, r.error.among)
    ensures r.Success? ==> Serves(q, sourceRoot, r.value)
  {
    var table := BuildTable(q);
    assert Released([]) == {};
    var order, released := Pass(q, table, [], table.Keys);
    var remaining := table.Keys - released;
    while remaining != {}
      invariant Progress(q, table, order, remaining) && table.Keys == Released(order) + remaining
      decreases remaining
    {
      order, released := Pass(q, table, order, remaining);
      if released == {} {
        assert remaining - {} == remaining;
        StuckIsCircular(q, table, order, remaining);
        return Failure(CircularDependency(remaining));
      }
      remaining := remaining - released;
    }
    assert forall i :: 0 <= i < |order| ==> order[i] in order;
    var dirs := seq(|order|, i requires 0 <= i < |order| && order[i] in table =>
      SearchDir(order[i], table[order[i]].appliesTo));
    dirs := dirs + [SearchDir(sourceRoot, q.allPackages)];
    FinishedServes(q, table, order, sourceRoot, dirs);
    r := Success(dirs);
  }
}
