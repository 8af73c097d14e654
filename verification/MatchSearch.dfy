/** Which matches a rule gets to see: those of the first search directory that has any. */
module MatchSearch {
  import opened Strings
  import opened SourceTree

  type Package = string

  datatype Match = Match(path: SourcePath, into: set<Package>)

  ghost predicate ValidPaths(ms: seq<Match>) {
    forall m :: m in ms ==> m.path.Valid()
  }

  /** What a match rule finds in a search directory, in order. */
  datatype Candidate = Candidate(path: SourcePath, isDir: bool)
  datatype DirHits = DirHits(appliesTo: set<Package>, hits: seq<Candidate>)

  /** What asks: `dir/` patterns match directories only, and `**` passes over the search directory itself. */
  datatype Pattern = Pattern(dirOnly: bool, anything: bool)

  datatype Hits = Hits(paths: seq<SourcePath>, rootMatched: bool)

  function Usable(pattern: Pattern, hits: seq<Candidate>): Hits {
    if hits == [] then Hits([], false)
    else
      var before, last := Usable(pattern, hits[..|hits| - 1]), hits[|hits| - 1];
      if before.rootMatched || (pattern.dirOnly && !last.isDir) then before
      else if last.path.depth == 0 then before.(rootMatched := !pattern.anything)
      else before.(paths := before.paths + [last.path])
  }

  function Matches(paths: seq<SourcePath>, into: set<Package>): (ms: seq<Match>)
    ensures |ms| == |paths| && forall i :: 0 <= i < |ms| ==> ms[i] == Match(paths[i], into)
  {
    seq(|paths|, i requires 0 <= i < |paths| => Match(paths[i], into))
  }

  datatype Search = Search(matches: seq<Match>, missing: set<Package>, rootMatched: bool)

  /** One more search directory: skipped if all that it applies to have a match already. */
  function SearchOne(pattern: Pattern, into: set<Package>, before: Search, dir: DirHits): Search {
    if before.rootMatched || (into != {} && before.missing !! dir.appliesTo) then before
    else
      var applicable := dir.appliesTo * before.missing;
      var found := Usable(pattern, dir.hits);
      Search(before.matches + Matches(found.paths, applicable),
             if found.paths == [] || found.rootMatched then before.missing else before.missing - applicable,
             found.rootMatched)
  }

  function SearchAll(pattern: Pattern, into: set<Package>, dirs: seq<DirHits>): Search {
    if dirs == [] then Search([], into, false)
    else SearchOne(pattern, into, SearchAll(pattern, into, dirs[..|dirs| - 1]), dirs[|dirs| - 1])
  }

  /** The paths that one package gets. */
  function PathsFor(matches: seq<Match>, pkg: Package): seq<SourcePath> {
    if matches == [] then []
    else
      var last := matches[|matches| - 1];
      PathsFor(matches[..|matches| - 1], pkg) + if pkg in last.into then [last.path] else []
  }

  /** The finds of the first search directory that applies to the package and has any. */
  function FirstHits(pattern: Pattern, dirs: seq<DirHits>, pkg: Package): seq<SourcePath> {
    if dirs == [] then []
    else
      var before, last := FirstHits(pattern, dirs[..|dirs| - 1], pkg), dirs[|dirs| - 1];
      if before != [] then before
      else if pkg in last.appliesTo then Usable(pattern, last.hits).paths
      else []
  }

  /** None of the directories before it has anything for the package. */
  lemma {:induction false} FirstHitsMeans(pattern: Pattern, dirs: seq<DirHits>, pkg: Package)
    ensures FirstHits(pattern, dirs, pkg) != [] ==>
      exists k :: 0 <= k < |dirs| && pkg in dirs[k].appliesTo &&
        FirstHits(pattern, dirs, pkg) == Usable(pattern, dirs[k].hits).paths &&
        forall j :: 0 <= j < k && pkg in dirs[j].appliesTo ==> Usable(pattern, dirs[j].hits).paths == []
    ensures FirstHits(pattern, dirs, pkg) == [] ==>
      forall j :: 0 <= j < |dirs| && pkg in dirs[j].appliesTo ==> Usable(pattern, dirs[j].hits).paths == []
  {
    hide Usable;
    if dirs != [] {
      var front := dirs[..|dirs| - 1];
      FirstHitsMeans(pattern, front, pkg);
      if FirstHits(pattern, front, pkg) != [] {
        var k :| 0 <= k < |front| && pkg in front[k].appliesTo &&
          FirstHits(pattern, front, pkg) == Usable(pattern, front[k].hits).paths &&
          forall j :: 0 <= j < k && pkg in front[j].appliesTo ==> Usable(pattern, front[j].hits).paths == [];
        assert forall j :: 0 <= j <= k ==> dirs[j] == front[j];
      } else {
        assert forall j :: 0 <= j < |front| ==> dirs[j] == front[j];
      }
    }
  }

  lemma {:induction false} PathsForConcat(a: seq<Match>, b: seq<Match>, pkg: Package)
    ensures PathsFor(a + b, pkg) == PathsFor(a, pkg) + PathsFor(b, pkg)
  {
    if b == [] {
      assert a + b == a;
    } else {
      PathsForConcat(a, b[..|b| - 1], pkg);
      assert (a + b)[..|a + b| - 1] == a + b[..|b| - 1];
    }
  }

  lemma {:induction false} PathsForMatches(paths: seq<SourcePath>, into: set<Package>, pkg: Package)
    ensures PathsFor(Matches(paths, into), pkg) == if pkg in into then paths else []
  {
    if paths != [] {
      PathsForMatches(paths[..|paths| - 1], into, pkg);
      assert Matches(paths, into)[..|paths| - 1] == Matches(paths[..|paths| - 1], into);
      assert paths == paths[..|paths| - 1] + [paths[|paths| - 1]];
    }
  }

  /** What stands in the way of a rule: it matches the search directory itself. */
  predicate MatchesRoot(pattern: Pattern, c: Candidate) {
    (pattern.dirOnly ==> c.isDir) && c.path.depth == 0 && !pattern.anything
  }

  predicate IsUsable(pattern: Pattern, c: Candidate) {
    (pattern.dirOnly ==> c.isDir) && c.path.depth > 0
  }

  /** Of what was found, a rule gets what is below the search directory, and directories only if it asks
      for them; a match of the search directory itself is an error, unless the rule is for anything. */
  lemma {:induction false} UsableMeans(pattern: Pattern, hits: seq<Candidate>, p: SourcePath)
    ensures var r := Usable(pattern, hits);
      && (r.rootMatched <==> exists i :: 0 <= i < |hits| && MatchesRoot(pattern, hits[i]))
      && (p in r.paths ==> exists i :: 0 <= i < |hits| && hits[i].path == p && IsUsable(pattern, hits[i]))
      && (!r.rootMatched ==> forall i :: 0 <= i < |hits| && IsUsable(pattern, hits[i]) ==> hits[i].path in r.paths)
  {
    if hits != [] {
      UsableMeans(pattern, hits[..|hits| - 1], p);
    }
  }

  /** And it gets them in the order in which they were found. */
  lemma {:induction false} UsableInOrder(pattern: Pattern, hits: seq<Candidate>, i: nat, j: nat)
    returns (a: nat, b: nat)
    requires i <= j < |Usable(pattern, hits).paths|
    ensures a <= b < |hits| && (i < j ==> a < b)
    ensures hits[a].path == Usable(pattern, hits).paths[i] && hits[b].path == Usable(pattern, hits).paths[j]
    decreases |hits|
  {
    var front, last := hits[..|hits| - 1], |hits| - 1;
    if j < |Usable(pattern, front).paths| {
      a, b := UsableInOrder(pattern, front, i, j);
    } else if i == j {
      a, b := last, last;
    } else {
      var c;
      a, c := UsableInOrder(pattern, front, i, i);
      b := last;
    }
  }

  /** Matches are for packages that the rule installs into: for some at least, or for none if it discards. */
  lemma {:induction false} MatchesAreWanted(pattern: Pattern, into: set<Package>, dirs: seq<DirHits>)
    ensures var r := SearchAll(pattern, into, dirs);
      r.missing <= into && forall m :: m in r.matches ==> m.into <= into && (m.into == {} <==> into == {})
  {
    if dirs != [] {
      var front, last := dirs[..|dirs| - 1], dirs[|dirs| - 1];
      MatchesAreWanted(pattern, into, front);
      var before := SearchAll(pattern, into, front);
      var r := SearchOne(pattern, into, before, last);
      forall m | m in r.matches && m !in before.matches ensures m.into <= into && (m.into == {} <==> into == {}) {
        assert m.into == last.appliesTo * before.missing;
        if pkg :| pkg in before.missing && pkg in last.appliesTo {
          assert pkg in m.into;
        }
      }
    }
  }

  /** Every package gets exactly what the first search directory that applies to it has for it. */
  lemma {:induction false} FirstDirectoryWins(pattern: Pattern, into: set<Package>, dirs: seq<DirHits>, pkg: Package)
    requires !SearchAll(pattern, into, dirs).rootMatched
    ensures PathsFor(SearchAll(pattern, into, dirs).matches, pkg) ==
      if pkg in into then FirstHits(pattern, dirs, pkg) else []
    ensures pkg in SearchAll(pattern, into, dirs).missing <==> pkg in into && FirstHits(pattern, dirs, pkg) == []
  {
    if dirs != [] {
      var front, last := dirs[..|dirs| - 1], dirs[|dirs| - 1];
      var before := SearchAll(pattern, into, front);
      FirstDirectoryWins(pattern, into, front, pkg);
      var applicable, paths := last.appliesTo * before.missing, Usable(pattern, last.hits).paths;
      hide Usable;
      PathsForConcat(before.matches, Matches(paths, applicable), pkg);
      PathsForMatches(paths, applicable, pkg);
      assert pkg in applicable <==> pkg in last.appliesTo && pkg in before.missing;
      hide PathsFor;
    }
  }

  function AllUsable(pattern: Pattern, dirs: seq<DirHits>): seq<SourcePath> {
    if dirs == [] then [] else AllUsable(pattern, dirs[..|dirs| - 1]) + Usable(pattern, dirs[|dirs| - 1].hits).paths
  }

  function PathsOf(matches: seq<Match>): (r: seq<SourcePath>)
    ensures |r| == |matches| && forall i :: 0 <= i < |r| ==> r[i] == matches[i].path
  {
    seq(|matches|, i requires 0 <= i < |matches| => matches[i].path)
  }

  /** A discard rule sees all finds of all search directories. */
  lemma {:induction false} DiscardsSeeAll(pattern: Pattern, dirs: seq<DirHits>)
    requires !SearchAll(pattern, {}, dirs).rootMatched
    ensures PathsOf(SearchAll(pattern, {}, dirs).matches) == AllUsable(pattern, dirs)
    ensures forall m :: m in SearchAll(pattern, {}, dirs).matches ==> m.into == {}
  {
    if dirs != [] {
      DiscardsSeeAll(pattern, dirs[..|dirs| - 1]);
      MatchesAreWanted(pattern, {}, dirs[..|dirs| - 1]);
    }
  }

  lemma {:induction false} UsableValid(pattern: Pattern, hits: seq<Candidate>)
    requires forall c :: c in hits ==> c.path.Valid()
    ensures forall p :: p in Usable(pattern, hits).paths ==> p.Valid()
  {
    if hits != [] {
      UsableValid(pattern, hits[..|hits| - 1]);
    }
  }

  lemma {:induction false} MatchesValid(pattern: Pattern, into: set<Package>, dirs: seq<DirHits>)
    requires forall d, c :: d in dirs && c in d.hits ==> c.path.Valid()
    ensures ValidPaths(SearchAll(pattern, into, dirs).matches)
  {
    if dirs != [] {
      MatchesValid(pattern, into, dirs[..|dirs| - 1]);
      UsableValid(pattern, dirs[|dirs| - 1].hits);
    }
  }

  /** `_resolve_path`: it stops at a match of the search directory itself, and once nobody is missing. */
  method ResolvePath(pattern: Pattern, dirs: seq<DirHits>, into: set<Package>) returns (r: Search)
    ensures r.matches == SearchAll(pattern, into, dirs).matches
    ensures r.rootMatched == SearchAll(pattern, into, dirs).rootMatched
  {
    var missing := into;
    var found: seq<Match> := [];
    for i := 0 to |dirs|
      invariant SearchAll(pattern, into, dirs[..i]) == Search(found, missing, false)
    {
      assert dirs[..i + 1][..i] == dirs[..i];
      var dir := dirs[i];
      if into == {} || !(missing !! dir.appliesTo) {
        var applicable := dir.appliesTo * missing;
        var matched, rootMatched := FindIn(pattern, dir.hits, applicable);
        found := found + matched;
        if rootMatched {
          SearchEnds(pattern, into, dirs, i + 1);
          return Search(found, missing, true);
        }
        if matched != [] {
          missing := missing - applicable;
          if into != {} && missing == {} {
            SearchEnds(pattern, into, dirs, i + 1);
            return Search(found, missing, false);
          }
        }
      }
    }
    assert dirs[..|dirs|] == dirs;
    r := Search(found, missing, false);
  }

  lemma {:induction false} SearchEnds(pattern: Pattern, into: set<Package>, dirs: seq<DirHits>, n: nat)
    requires n <= |dirs|
    requires var r := SearchAll(pattern, into, dirs[..n]); r.rootMatched || (into != {} && r.missing == {})
    ensures SearchAll(pattern, into, dirs) == SearchAll(pattern, into, dirs[..n])
    decreases |dirs|
  {
    if n == |dirs| {
      assert dirs[..n] == dirs;
    } else {
      assert dirs[..|dirs| - 1][..n] == dirs[..n];
      SearchEnds(pattern, into, dirs[..|dirs| - 1], n);
    }
  }

  /** The matches in one search directory. */
  method FindIn(pattern: Pattern, hits: seq<Candidate>, applicable: set<Package>)
    returns (matched: seq<Match>, rootMatched: bool)
    ensures matched == Matches(Usable(pattern, hits).paths, applicable)
      && rootMatched == Usable(pattern, hits).rootMatched
  {
    matched := [];
    for i := 0 to |hits|
      invariant matched == Matches(Usable(pattern, hits[..i]).paths, applicable)
        && !Usable(pattern, hits[..i]).rootMatched
    {
      assert hits[..i + 1][..i] == hits[..i];
      var found := hits[i];
      if pattern.dirOnly && !found.isDir {
        continue;
      }
      if found.path.depth == 0 {
        if pattern.anything {
          continue;
        }
        RootEnds(pattern, hits, i + 1);
        return matched, true;
      }
      matched := matched + [Match(found.path, applicable)];
    }
    assert hits[..|hits|] == hits;
    rootMatched := false;
  }

  lemma {:induction false} RootEnds(pattern: Pattern, hits: seq<Candidate>, n: nat)
    requires n <= |hits| && Usable(pattern, hits[..n]).rootMatched
    ensures Usable(pattern, hits) == Usable(pattern, hits[..n])
    decreases |hits|
  {
    if n == |hits| {
      assert hits[..n] == hits;
    } else {
      assert hits[..|hits| - 1][..n] == hits[..n];
      RootEnds(pattern, hits[..|hits| - 1], n);
    }
  }

  /** `_check_single_match`: only packages found to be a problem are remembered as seen, so that
      nothing ever is a problem, whether the matches are ambiguous or not. */
  method CheckSingleMatch(matches: seq<Match>) returns (problemPkgs: set<Package>)
    ensures problemPkgs == {}
  {
    var seenPkgs: set<Package> := {};
    problemPkgs := {};
    for i := 0 to |matches|
      invariant seenPkgs == {} && problemPkgs == {}
    {
      problemPkgs := seenPkgs * matches[i].into;
      if problemPkgs != {} {
        break;
      }
      seenPkgs := seenPkgs + problemPkgs;
    }
  }
}
