/** Whether a source path is discarded: found by going up the tree, and remembered in a cache. */
module DiscardVerdicts {
  import opened Strings
  import opened SourceTree

  type FsPath = seq<string>

  /** Unchecked paths are those without an entry in the cache. */
  datatype DiscardState = NotDiscarded | DiscardedByPlugin | DiscardedByManifest

  type Cache = map<FsPath, DiscardState>

  // ------------------------------------------------------------ verdicts without a cache

  /** The nearest exclusion on the way up decides; a plugin rule may decide for any directory on the way. */
  function Verdict(hit: Filter, excluded: set<FsPath>, p: SourcePath): DiscardState
    requires p.Valid()
    decreases p.depth
  {
    if p.fs in excluded then DiscardedByManifest
    else if hit(p) then DiscardedByPlugin
    else if p.depth == 0 then NotDiscarded
    else Verdict(hit, excluded, p.Parent())
  }

  function Above(p: SourcePath, k: nat): (a: SourcePath)
    requires p.Valid() && k <= p.depth
    ensures a.Valid()
  {
    SourcePath(p.fs[..|p.fs| - k], p.depth - k)
  }

  ghost predicate DiscardedAt(hit: Filter, excluded: set<FsPath>, p: SourcePath, k: int) {
    p.Valid() && 0 <= k <= p.depth && (Above(p, k).fs in excluded || hit(Above(p, k)))
  }

  /** Discarded means: it or a directory above it is excluded by the manifest or hit by a plugin rule. */
  lemma {:induction false} VerdictMeans(hit: Filter, excluded: set<FsPath>, p: SourcePath)
    requires p.Valid()
    ensures Verdict(hit, excluded, p) != NotDiscarded <==> exists k :: DiscardedAt(hit, excluded, p, k)
    decreases p.depth
  {
    assert Above(p, 0) == p;
    if p.fs in excluded || hit(p) {
      assert DiscardedAt(hit, excluded, p, 0);
    } else if p.depth > 0 {
      var up := p.Parent();
      VerdictMeans(hit, excluded, up);
      if k :| DiscardedAt(hit, excluded, up, k) {
        assert Above(up, k) == Above(p, k + 1);
        assert DiscardedAt(hit, excluded, p, k + 1);
      }
      if k :| DiscardedAt(hit, excluded, p, k) {
        assert Above(up, k - 1) == Above(p, k);
        assert DiscardedAt(hit, excluded, up, k - 1);
      }
    }
  }

  /** An exclusion of the manifest there, and no plugin rule that hits anything below it on the way. */
  ghost predicate ManifestAt(hit: Filter, excluded: set<FsPath>, p: SourcePath, k: int) {
    && p.Valid() && 0 <= k <= p.depth && Above(p, k).fs in excluded
    && forall j: nat {:trigger Above(p, j)} :: j < k ==> !hit(Above(p, j))
  }

  /** Discarded by the manifest means: an exclusion comes first on the way up; where a plugin rule hits
      what is excluded, the exclusion counts. */
  lemma {:induction false} ManifestVerdictMeans(hit: Filter, excluded: set<FsPath>, p: SourcePath)
    requires p.Valid()
    ensures Verdict(hit, excluded, p) == DiscardedByManifest <==> exists k :: ManifestAt(hit, excluded, p, k)
    decreases p.depth
  {
    hide Above;
    AboveParent(p, 0);
    if p.fs in excluded {
      assert ManifestAt(hit, excluded, p, 0);
    } else if p.depth > 0 {
      var up := p.Parent();
      ManifestVerdictMeans(hit, excluded, up);
      if k :| ManifestAt(hit, excluded, up, k) && !hit(p) {
        forall j: nat | j < k + 1 ensures !hit(Above(p, j)) {
          if j > 0 {
            AboveParent(p, j - 1);
            assert !hit(Above(up, j - 1));
          }
        }
        AboveParent(p, k);
        assert ManifestAt(hit, excluded, p, k + 1);
      }
      if k :| ManifestAt(hit, excluded, p, k) {
        assert k != 0 && !hit(Above(p, 0));
        AboveParent(p, k - 1);
        forall j: nat | j < k - 1 ensures !hit(Above(up, j)) {
          AboveParent(p, j);
          assert !hit(Above(p, j + 1));
        }
        assert ManifestAt(hit, excluded, up, k - 1);
      }
    }
  }

  // --------------------------------------------------------------- verdicts with a cache

  /** The search up the tree stops at the first cached verdict. */
  function Answer(hit: Filter, cache: Cache, p: SourcePath): DiscardState
    requires p.Valid()
    decreases p.depth
  {
    if p.fs in cache then cache[p.fs]
    else if hit(p) then DiscardedByPlugin
    else if p.depth == 0 then NotDiscarded
    else Answer(hit, cache, p.Parent())
  }

  /** The verdict is then stored for all that was passed on the way. */
  function Filled(hit: Filter, cache: Cache, p: SourcePath): Cache
    requires p.Valid()
    decreases p.depth
  {
    if p.fs in cache then cache
    else
      var above := if hit(p) || p.depth == 0 then cache else Filled(hit, cache, p.Parent());
      above[p.fs := Answer(hit, cache, p)]
  }

  function RootOf(p: SourcePath): FsPath
    requires p.Valid()
  {
    p.fs[..|p.fs| - p.depth]
  }

  ghost predicate InTree(roots: set<FsPath>, p: SourcePath) {
    p.Valid() && RootOf(p) in roots
  }

  /** What is looked at: the entries of some search directories, everywhere or in a part of the tree. */
  datatype View = View(roots: set<FsPath>, scope: FsPath -> bool) {
    ghost predicate Sees(p: SourcePath) {
      InTree(roots, p) && scope(p.fs)
    }

    /** With a path, all that leads to it is looked at. */
    ghost predicate Closed() {
      forall f, g {:trigger scope(f), scope(g)} :: scope(f) && g <= f ==> scope(g)
    }
  }

  function Everywhere(roots: set<FsPath>): View {
    View(roots, f => true)
  }

  /** One path, and all that leads to it. */
  function Towards(roots: set<FsPath>, f: FsPath): View {
    View(roots, g => g <= f)
  }

  lemma ViewsAreClosed(roots: set<FsPath>, f: FsPath)
    ensures Everywhere(roots).Closed() && Towards(roots, f).Closed()
  {
  }

  ghost predicate ExactAt(hit: Filter, excluded: set<FsPath>, cache: Cache, p: SourcePath) {
    p.Valid() && p.fs in cache ==> cache[p.fs] == Verdict(hit, excluded, p)
  }

  /** Every cached verdict that is looked at is what it would be without a cache. */
  ghost predicate Exact(hit: Filter, excluded: set<FsPath>, view: View, cache: Cache) {
    && (forall f :: f in excluded && view.scope(f) ==> f in cache)
    && forall p {:trigger ExactAt(hit, excluded, cache, p)} :: view.Sees(p) ==> ExactAt(hit, excluded, cache, p)
  }

  lemma ParentInView(view: View, p: SourcePath)
    requires view.Closed() && view.Sees(p) && p.depth > 0
    ensures view.Sees(p.Parent()) && RootOf(p.Parent()) == RootOf(p)
  {
    assert RootOf(p.Parent()) == RootOf(p) && p.Parent().fs <= p.fs;
  }

  /** With an exact cache the search gives the verdict. */
  lemma {:induction false} AnswerIsVerdict(hit: Filter, excluded: set<FsPath>, view: View, cache: Cache, p: SourcePath)
    requires view.Closed() && Exact(hit, excluded, view, cache) && view.Sees(p)
    ensures Answer(hit, cache, p) == Verdict(hit, excluded, p)
    decreases p.depth
  {
    assert ExactAt(hit, excluded, cache, p);
    if p.fs !in cache && !hit(p) && p.depth > 0 {
      ParentInView(view, p);
      AnswerIsVerdict(hit, excluded, view, cache, p.Parent());
    }
  }

  lemma {:induction false} FilledIsAnswer(hit: Filter, cache: Cache, p: SourcePath, q: SourcePath)
    requires p.Valid() && q.Valid() && RootOf(p) == RootOf(q) && q.fs in Filled(hit, cache, p)
    ensures Filled(hit, cache, p)[q.fs] == Answer(hit, cache, q)
    decreases p.depth
  {
    if p.fs !in cache {
      if q.fs == p.fs {
      } else if !hit(p) && p.depth > 0 {
        assert RootOf(p.Parent()) == RootOf(p);
        FilledIsAnswer(hit, cache, p.Parent(), q);
      }
    }
  }

  lemma {:induction false} FilledKeeps(hit: Filter, cache: Cache, p: SourcePath)
    requires p.Valid()
    ensures p.fs in Filled(hit, cache, p) && Filled(hit, cache, p)[p.fs] == Answer(hit, cache, p)
    ensures forall f :: f in cache ==> f in Filled(hit, cache, p) && Filled(hit, cache, p)[f] == cache[f]
    decreases p.depth
  {
    if p.fs !in cache && !hit(p) && p.depth > 0 {
      FilledKeeps(hit, cache, p.Parent());
    }
  }

  /** Whether the cache is exact or stale, a query changes no later answer in the same search directory. */
  lemma {:induction false} QueriesChangeNothing(hit: Filter, cache: Cache, p: SourcePath, q: SourcePath)
    requires p.Valid() && q.Valid() && RootOf(p) == RootOf(q)
    ensures Answer(hit, Filled(hit, cache, p), q) == Answer(hit, cache, q)
    decreases q.depth
  {
    FilledKeeps(hit, cache, p);
    if q.fs in Filled(hit, cache, p) {
      FilledIsAnswer(hit, cache, p, q);
    } else if !hit(q) && q.depth > 0 {
      assert RootOf(q.Parent()) == RootOf(q);
      QueriesChangeNothing(hit, cache, p, q.Parent());
    }
  }

  lemma {:induction false} NewlyStored(hit: Filter, cache: Cache, p: SourcePath, f: FsPath) returns (a: SourcePath)
    requires p.Valid() && f in Filled(hit, cache, p) && f !in cache
    ensures a.Valid() && RootOf(a) == RootOf(p) && a.fs == f && f <= p.fs
    decreases p.depth
  {
    if f == p.fs {
      a := p;
    } else {
      assert RootOf(p.Parent()) == RootOf(p) && p.Parent().fs <= p.fs;
      a := NewlyStored(hit, cache, p.Parent(), f);
    }
  }

  /** A query stores for an entry q of some search directory what it found for the same path a in its own. */
  ghost predicate StoredFor(hit: Filter, view: View, cache: Cache, p: SourcePath, a: SourcePath, q: SourcePath)
    requires p.Valid()
  {
    && a.Valid() && RootOf(a) == RootOf(p) && a.fs in Filled(hit, cache, p) && a.fs !in cache
    && view.Sees(q) && q.fs == a.fs
  }

  ghost predicate AgreeAt(hit: Filter, excluded: set<FsPath>, a: SourcePath, q: SourcePath) {
    a.Valid() && q.Valid() ==> Verdict(hit, excluded, a) == Verdict(hit, excluded, q)
  }

  /** On whatever a query stores, the search directories agree; paths in `spared` do not matter. */
  ghost predicate StoresAgree(hit: Filter, excluded: set<FsPath>, view: View, cache: Cache, p: SourcePath,
                              spared: set<FsPath>)
    requires p.Valid()
  {
    forall a, q {:trigger AgreeAt(hit, excluded, a, q)} ::
      StoredFor(hit, view, cache, p, a, q) && a.fs !in spared ==> AgreeAt(hit, excluded, a, q)
  }

  lemma StoresVerdict(hit: Filter, excluded: set<FsPath>, view: View, cache: Cache, p: SourcePath, a: SourcePath)
    requires view.Closed() && Exact(hit, excluded, view, cache) && view.Sees(a)
    requires p.Valid() && RootOf(a) == RootOf(p) && a.fs in Filled(hit, cache, p)
    ensures Filled(hit, cache, p)[a.fs] == Verdict(hit, excluded, a)
  {
    FilledIsAnswer(hit, cache, p, a);
    AnswerIsVerdict(hit, excluded, view, cache, a);
  }

  /** A query leaves an exact cache exact if and only if the search directories agree on what it stores. */
  lemma QueryKeepsExactIff(hit: Filter, excluded: set<FsPath>, view: View, cache: Cache, p: SourcePath)
    requires view.Closed() && Exact(hit, excluded, view, cache) && InTree(view.roots, p)
    ensures Exact(hit, excluded, view, Filled(hit, cache, p)) <==> StoresAgree(hit, excluded, view, cache, p, {})
  {
    var filled := Filled(hit, cache, p);
    FilledKeeps(hit, cache, p);
    if StoresAgree(hit, excluded, view, cache, p, {}) {
      forall q | view.Sees(q) ensures ExactAt(hit, excluded, filled, q) {
        assert ExactAt(hit, excluded, cache, q);
        if q.fs in filled && q.fs !in cache {
          var a := NewlyStored(hit, cache, p, q.fs);
          StoresVerdict(hit, excluded, view, cache, p, a);
          assert AgreeAt(hit, excluded, a, q);
        }
      }
    }
    if Exact(hit, excluded, view, filled) {
      forall a, q | StoredFor(hit, view, cache, p, a, q) ensures AgreeAt(hit, excluded, a, q) {
        StoresVerdict(hit, excluded, view, cache, p, a);
        assert ExactAt(hit, excluded, filled, q);
      }
    }
  }

  /** Where two search directories disagree on a path, the one that asks first decides for both. */
  lemma DisagreementSticks(hit: Filter, excluded: set<FsPath>, view: View, cache: Cache, p: SourcePath, q: SourcePath)
    requires view.Closed() && Exact(hit, excluded, view, cache) && view.Sees(p) && p.fs !in cache
    requires q.Valid() && p.fs == q.fs && Verdict(hit, excluded, p) != Verdict(hit, excluded, q)
    ensures Answer(hit, Filled(hit, cache, p), q) == Verdict(hit, excluded, p) != Verdict(hit, excluded, q)
  {
    FilledKeeps(hit, cache, p);
    AnswerIsVerdict(hit, excluded, view, cache, p);
  }

  /** A rule that goes by the place in the search directory. */
  const Libtool: Filter := (p: SourcePath) => p.Valid() && p.fs[|p.fs| - p.depth..] == ["usr", "lib", "libfoo.la"]

  /** The case in which they do: `debian/tmp` is a search directory inside of the source root, and a
      rule discards a libtool file of `usr/lib`. */
  lemma DisputedLibrary()
    ensures var fs := ["debian", "tmp", "usr", "lib", "libfoo.la"];
      var staged, source := SourcePath(fs, 3), SourcePath(fs, 5);
      && InTree({[], ["debian", "tmp"]}, staged) && InTree({[], ["debian", "tmp"]}, source)
      && Verdict(Libtool, {}, staged) == DiscardedByPlugin && Verdict(Libtool, {}, source) == NotDiscarded
      && Answer(Libtool, Filled(Libtool, map[], staged), source) == DiscardedByPlugin
      && Answer(Libtool, Filled(Libtool, map[], source), staged) == NotDiscarded
  {
    var fs := ["debian", "tmp", "usr", "lib", "libfoo.la"];
    var staged, source := SourcePath(fs, 3), SourcePath(fs, 5);
    assert RootOf(staged) == ["debian", "tmp"] && RootOf(source) == [];
    assert fs[2..] == ["usr", "lib", "libfoo.la"];
    assert Verdict(Libtool, {}, staged) == DiscardedByPlugin;
    hide Verdict;
    forall k: nat | k <= 5 ensures !Libtool(Above(source, k)) {
      NotALibrary(source, k);
    }
    NeverHit(Libtool, source);
    FirstToAsk(Libtool, staged);
    FirstToAsk(Libtool, source);
  }

  lemma NotALibrary(p: SourcePath, k: nat)
    requires p.Valid() && p.depth == |p.fs| && k <= p.depth
    requires p.fs == ["debian", "tmp", "usr", "lib", "libfoo.la"]
    ensures !Libtool(Above(p, k))
  {
    var a := Above(p, k);
    assert a.fs[|a.fs| - a.depth..] == a.fs;
    if k < p.depth {
      assert |a.fs[0]| == |"debian"| != |"usr"|;
    }
  }

  /** On an empty cache the first query stores the verdict, and any other for the same path repeats it. */
  lemma FirstToAsk(hit: Filter, p: SourcePath)
    requires p.Valid()
    ensures p.fs in Filled(hit, map[], p) && Filled(hit, map[], p)[p.fs] == Verdict(hit, {}, p)
  {
    FilledKeeps(hit, map[], p);
    AnswerIsVerdict(hit, {}, Everywhere({RootOf(p)}), map[], p);
  }

  lemma {:induction false} NeverHit(hit: Filter, p: SourcePath)
    requires p.Valid() && forall k: nat :: k <= p.depth ==> !hit(Above(p, k))
    ensures Verdict(hit, {}, p) == NotDiscarded
    decreases p.depth
  {
    assert Above(p, 0) == p;
    if p.depth > 0 {
      forall k: nat | k <= p.Parent().depth ensures !hit(Above(p.Parent(), k)) {
        AboveParent(p, k);
      }
      NeverHit(hit, p.Parent());
    }
  }

  /** Where rules hit the same entries of two nested search directories, their verdicts for a path
      agree if and only if the inner one discards it, or nothing above the inner one is discarded. */
  lemma {:induction false} NestedAgreeIff(hit: Filter, excluded: set<FsPath>, p: SourcePath, q: SourcePath)
    requires p.Valid() && q.Valid() && p.fs == q.fs && p.depth < q.depth
    requires forall k: nat :: k <= p.depth ==> hit(Above(p, k)) == hit(Above(q, k))
    ensures Verdict(hit, excluded, p) == Verdict(hit, excluded, q) <==>
      Verdict(hit, excluded, p) != NotDiscarded || Verdict(hit, excluded, Above(q, p.depth + 1)) == NotDiscarded
    decreases p.depth
  {
    hide Above;
    AboveParent(p, 0);
    AboveParent(q, 0);
    assert hit(p) == hit(q);
    if p.fs !in excluded && !hit(p) && p.depth > 0 {
      forall k: nat | k <= p.Parent().depth ensures hit(Above(p.Parent(), k)) == hit(Above(q.Parent(), k)) {
        AboveParent(p, k);
        AboveParent(q, k);
      }
      NestedAgreeIff(hit, excluded, p.Parent(), q.Parent());
      AboveParent(q, p.depth);
    }
  }

  lemma AboveParent(p: SourcePath, k: nat)
    requires p.Valid()
    ensures Above(p, 0) == p && (p.depth > 0 ==> Above(p, 1) == p.Parent())
    ensures k < p.depth ==> p.Parent().Valid() && Above(p.Parent(), k) == Above(p, k + 1)
  {
  }

  // ------------------------------------------------------------- exclusions and the cache

  /** Nothing nearer than f decides on q: not q itself, nor anything on the way up to f. */
  ghost predicate Inherits(hit: Filter, excluded: set<FsPath>, q: SourcePath, f: FsPath)
    requires q.Valid()
    decreases q.depth
  {
    && q.fs != f && q.fs !in excluded && !hit(q) && q.depth > 0
    && (q.Parent().fs == f || Inherits(hit, excluded, q.Parent(), f))
  }

  lemma {:induction false} VerdictAfterExclude(hit: Filter, excluded: set<FsPath>, f: FsPath, q: SourcePath)
    requires q.Valid()
    ensures Verdict(hit, excluded + {f}, q) ==
      if q.fs == f || Inherits(hit, excluded, q, f) then DiscardedByManifest else Verdict(hit, excluded, q)
    decreases q.depth
  {
    if q.depth > 0 {
      VerdictAfterExclude(hit, excluded, f, q.Parent());
    }
  }

  lemma {:induction false} InheritsFromAbove(hit: Filter, excluded: set<FsPath>, q: SourcePath, f: FsPath)
    requires q.Valid() && Inherits(hit, excluded, q, f)
    ensures f < q.fs
    decreases q.depth
  {
    assert q.Parent().fs < q.fs;
    if q.Parent().fs != f {
      InheritsFromAbove(hit, excluded, q.Parent(), f);
    }
  }

  /** A cached verdict that came from f or from above it was that of an exclusion. */
  ghost predicate NotLeftBehind(hit: Filter, excluded: set<FsPath>, cache: Cache, q: SourcePath, f: FsPath) {
    q.Valid() && q.fs in cache && Inherits(hit, excluded, q, f) ==> cache[q.fs] == DiscardedByManifest
  }

  ghost predicate NoHeirs(hit: Filter, excluded: set<FsPath>, view: View, cache: Cache, f: FsPath) {
    forall q {:trigger NotLeftBehind(hit, excluded, cache, q, f)} ::
      view.Sees(q) ==> NotLeftBehind(hit, excluded, cache, q, f)
  }

  /** An exclusion keeps the cache exact if and only if no verdict below it was inherited. */
  lemma ExcludeKeepsExactIff(hit: Filter, excluded: set<FsPath>, view: View, cache: Cache, f: FsPath)
    requires Exact(hit, excluded, view, cache)
    ensures Exact(hit, excluded + {f}, view, cache[f := DiscardedByManifest]) <==>
      NoHeirs(hit, excluded, view, cache, f)
  {
    var after, cache' := excluded + {f}, cache[f := DiscardedByManifest];
    forall q | view.Sees(q) ensures ExactAt(hit, after, cache', q) <==> NotLeftBehind(hit, excluded, cache, q, f) {
      assert ExactAt(hit, excluded, cache, q);
      VerdictAfterExclude(hit, excluded, f, q);
    }
    if Exact(hit, after, view, cache') {
      forall q | view.Sees(q) ensures NotLeftBehind(hit, excluded, cache, q, f) {
        assert ExactAt(hit, after, cache', q);
      }
    }
  }

  /** A discard rule asks for a path and excludes it: what the query stores for the path itself does
      not matter then. */
  lemma DiscardKeepsExactIff(hit: Filter, excluded: set<FsPath>, view: View, cache: Cache, p: SourcePath)
    requires view.Closed() && Exact(hit, excluded, view, cache) && InTree(view.roots, p)
    ensures Exact(hit, excluded + {p.fs}, view, Filled(hit, cache, p)[p.fs := DiscardedByManifest]) <==>
      StoresAgree(hit, excluded, view, cache, p, {p.fs}) && NoHeirs(hit, excluded, view, cache, p.fs)
  {
    var f, after, filled := p.fs, excluded + {p.fs}, Filled(hit, cache, p);
    var cache' := filled[f := DiscardedByManifest];
    FilledKeeps(hit, cache, p);
    if StoresAgree(hit, excluded, view, cache, p, {f}) && NoHeirs(hit, excluded, view, cache, f) {
      forall q | view.Sees(q) ensures ExactAt(hit, after, cache', q) {
        StillExact(hit, excluded, view, cache, p, q);
      }
    }
    if Exact(hit, after, view, cache') {
      forall q | view.Sees(q) ensures NotLeftBehind(hit, excluded, cache, q, f) {
        assert ExactAt(hit, after, cache', q) && ExactAt(hit, excluded, cache, q);
        VerdictAfterExclude(hit, excluded, f, q);
      }
      forall a, q | StoredFor(hit, view, cache, p, a, q) && a.fs != f ensures AgreeAt(hit, excluded, a, q) {
        StoresVerdict(hit, excluded, view, cache, p, a);
        assert ExactAt(hit, after, cache', q);
        NewNotBelow(hit, excluded, cache, p, q);
      }
    }
  }

  /** What a query stores is not below the path that it asks for, and so does not inherit from it. */
  lemma NewNotBelow(hit: Filter, excluded: set<FsPath>, cache: Cache, p: SourcePath, q: SourcePath)
    requires p.Valid() && q.Valid() && q.fs in Filled(hit, cache, p) && q.fs !in cache && q.fs != p.fs
    ensures Verdict(hit, excluded + {p.fs}, q) == Verdict(hit, excluded, q)
  {
    var a := NewlyStored(hit, cache, p, q.fs);
    VerdictAfterExclude(hit, excluded, p.fs, q);
    if Inherits(hit, excluded, q, p.fs) {
      InheritsFromAbove(hit, excluded, q, p.fs);
    }
  }

  lemma StillExact(hit: Filter, excluded: set<FsPath>, view: View, cache: Cache, p: SourcePath, q: SourcePath)
    requires view.Closed() && Exact(hit, excluded, view, cache) && InTree(view.roots, p) && view.Sees(q)
    requires StoresAgree(hit, excluded, view, cache, p, {p.fs}) && NoHeirs(hit, excluded, view, cache, p.fs)
    ensures ExactAt(hit, excluded + {p.fs}, Filled(hit, cache, p)[p.fs := DiscardedByManifest], q)
  {
    FilledKeeps(hit, cache, p);
    VerdictAfterExclude(hit, excluded, p.fs, q);
    assert ExactAt(hit, excluded, cache, q);
    if q.fs in cache {
      assert NotLeftBehind(hit, excluded, cache, q, p.fs);
    } else if q.fs in Filled(hit, cache, p) && q.fs != p.fs {
      var a := NewlyStored(hit, cache, p, q.fs);
      StoresVerdict(hit, excluded, view, cache, p, a);
      assert AgreeAt(hit, excluded, a, q);
      NewNotBelow(hit, excluded, cache, p, q);
    }
  }

  /** The case in which it does not: once something in `usr/bin` has been looked at, discarding
      `usr` no longer discards what else is in `usr/bin`. */
  lemma StaleVerdict()
    ensures var hit := (p: SourcePath) => false;
      var foo, bar := SourcePath(["usr", "bin", "foo"], 3), SourcePath(["usr", "bin", "bar"], 3);
      var cache := Filled(hit, map[], foo)[["usr"] := DiscardedByManifest];
      Verdict(hit, {["usr"]}, bar) == DiscardedByManifest && Answer(hit, cache, bar) == NotDiscarded
  {
    var hit := (p: SourcePath) => false;
    var foo, bar := SourcePath(["usr", "bin", "foo"], 3), SourcePath(["usr", "bin", "bar"], 3);
    var bin, usr, root := SourcePath(["usr", "bin"], 2), SourcePath(["usr"], 1), SourcePath([], 0);
    assert foo.Parent() == bin && bar.Parent() == bin && bin.Parent() == usr && usr.Parent() == root;
    assert Answer(hit, map[], root) == Answer(hit, map[], usr) == Answer(hit, map[], bin) == NotDiscarded;
    assert bin.fs in Filled(hit, map[], bin) && Filled(hit, map[], bin)[bin.fs] == NotDiscarded;
    assert foo.fs != bin.fs && bar.fs != foo.fs && bar.fs !in Filled(hit, map[], root);
    assert Verdict(hit, {["usr"]}, usr) == Verdict(hit, {["usr"]}, bin) == DiscardedByManifest;
    assert |bar.fs| != |bin.fs| && bar.fs !in Filled(hit, map[], bin);
  }

  // ------------------------------------------------------------- filling the cache

  /** Some plugin rule discards the path. */
  function Hit(rules: seq<Filter>): Filter {
    p => exists i :: 0 <= i < |rules| && rules[i](p)
  }

  /** One verdict for a list of paths. */
  function Stored(cache: Cache, keys: seq<FsPath>, verdict: DiscardState): Cache {
    if keys == [] then cache else Stored(cache, keys[..|keys| - 1], verdict)[keys[|keys| - 1] := verdict]
  }

  lemma {:induction false} StoredFirst(cache: Cache, keys: seq<FsPath>, k: FsPath, verdict: DiscardState)
    ensures Stored(cache[k := verdict], keys, verdict) == Stored(cache, keys + [k], verdict)
  {
    assert (keys + [k])[..|keys|] == keys;
    if keys != [] {
      var front := keys[..|keys| - 1];
      StoredFirst(cache, front, k, verdict);
      assert (front + [k])[..|front|] == front;
    }
  }
}
