/** Which source paths have been installed or discarded, over all install and discard rules. */
module SourceMatcher {
  import opened Strings
  import opened SourceTree
  import opened DiscardVerdicts
  import opened MatchSearch

  datatype Owner = Owner(into: set<Package>, source: string)

  /** The state of the matcher; `excluded` remembers what discard rules have named themselves. */
  datatype State = State(owners: map<FsPath, Owner>, exact: set<(Package, FsPath)>, discarded: Cache,
    excluded: set<FsPath>)

  const FRESH := State(map[], {}, map[], {})

  // ------------------------------------------------------------------- the bookkeeping

  datatype MatchError =
    | AlreadyInstalledOrDiscarded(path: FsPath, into: set<Package>)
    | ExactMatchTwice(path: FsPath)
    | MatchedRoot

  datatype Taken = Reserved | AlreadyInstalled | AlreadyExcluded

  predicate ReservedAt(hit: Filter, st: State, p: SourcePath)
    requires p.Valid()
  {
    p.fs in st.owners || Answer(hit, st.discarded, p) != NotDiscarded
  }

  /** `is_reserved` and `may_match` ask for a verdict only if nobody owns the path. */
  function Queried(hit: Filter, st: State, p: SourcePath): State
    requires p.Valid()
  {
    if p.fs in st.owners then st else st.(discarded := Filled(hit, st.discarded, p))
  }

  /** For `may_match`: who has installed the path, and whether it is out of reach. */
  function Eligibility(hit: Filter, st: State, m: Match, exact: bool): (set<Package>, bool)
    requires m.path.Valid()
  {
    if m.path.fs in st.owners then (st.owners[m.path.fs].into, false)
    else
      var verdict := Answer(hit, st.discarded, m.path);
      ({}, verdict != NotDiscarded && !(exact && verdict == DiscardedByPlugin))
  }

  function Excluding(st: State, f: FsPath): State {
    st.(discarded := st.discarded[f := DiscardedByManifest], excluded := st.excluded + {f})
  }

  function Reserving(st: State, f: FsPath, into: set<Package>, source: string): State {
    st.(owners := st.owners[f := Owner(into, source)])
  }

  function ByName(st: State, f: FsPath, into: set<Package>): State {
    st.(exact := st.exact + set pkg | pkg in into :: (pkg, f), discarded := st.discarded - {f})
  }

  predicate RequestedBefore(st: State, m: Match) {
    exists pkg :: pkg in m.into && (pkg, m.path.fs) in st.exact
  }

  function WithRequests(st: State, m: Match): State {
    st.(exact := st.exact + set pkg | pkg in m.into :: (pkg, m.path.fs))
  }

  /** What happens to one match. */
  function TakeOne(hit: Filter, st: State, m: Match, exact: bool, installs: bool,
                   source: string): Result<(State, Taken), MatchError>
    requires m.path.Valid()
  {
    var (into, excluded) := Eligibility(hit, st, m, exact);
    var asked := Queried(hit, st, m.path);
    if into != {} then
      if exact then Failure(AlreadyInstalledOrDiscarded(m.path.fs, into)) else Success((asked, AlreadyInstalled))
    else if excluded then
      if exact then Failure(AlreadyInstalledOrDiscarded(m.path.fs, into)) else Success((asked, AlreadyExcluded))
    else if exact && RequestedBefore(asked, m) then Failure(ExactMatchTwice(m.path.fs))
    else
      var requested := if exact then WithRequests(asked, m) else asked;
      var f := m.path.fs;
      Success((if installs then Reserving(requested, f, m.into, source) else Excluding(requested, f), Reserved))
  }

  // ------------------------------------------------------------------ what every run keeps

  /** Owners own for somebody; what has been asked for by name has an owner; what has an owner has been
      looked at and is not excluded by the manifest; and what the manifest excludes stays excluded. */
  ghost predicate Inv(st: State) {
    && (forall f {:trigger st.owners[f]} :: f in st.owners ==> OwnerOk(st, f))
    && (forall r {:trigger r in st.exact} :: r in st.exact ==> r.1 in st.owners)
    && (forall f {:trigger f in st.excluded} :: f in st.excluded ==>
      f in st.discarded && st.discarded[f] == DiscardedByManifest)
  }

  ghost predicate OwnerOk(st: State, f: FsPath)
    requires f in st.owners
  {
    st.owners[f].into != {} && f in st.discarded && st.discarded[f] != DiscardedByManifest
  }

  /** Nobody loses a path, and no exclusion is taken back. */
  ghost predicate Extends(st: State, later: State) {
    && (forall f {:trigger f in later.owners} {:trigger st.owners[f]} :: f in st.owners ==>
      f in later.owners && later.owners[f] == st.owners[f])
    && st.excluded <= later.excluded
  }

  lemma QueriedKeeps(hit: Filter, st: State, p: SourcePath)
    requires p.Valid() && Inv(st)
    ensures Inv(Queried(hit, st, p)) && Extends(st, Queried(hit, st, p))
    ensures p.fs in Queried(hit, st, p).discarded
    ensures p.fs !in st.owners ==> Queried(hit, st, p).discarded[p.fs] == Answer(hit, st.discarded, p)
  {
    FilledKeeps(hit, st.discarded, p);
    var after := Queried(hit, st, p);
    forall f | f in after.owners ensures OwnerOk(after, f) {
      assert OwnerOk(st, f);
    }
  }

  /** One match keeps the invariant, changes nothing but what is reserved for it, and is never refused as
      asked for twice. */
  lemma TakeOneKeeps(hit: Filter, st: State, m: Match, exact: bool, installs: bool, source: string)
    requires m.path.Valid() && Inv(st) && (installs <==> m.into != {})
    ensures var r := TakeOne(hit, st, m, exact, installs, source);
      && (r.Failure? ==> r.error.AlreadyInstalledOrDiscarded?)
      && (r.Success? ==> (
        && var after, taken := r.value.0, r.value.1 == Reserved;
        && Inv(after) && Extends(st, after)
        && after.owners == (if taken && installs then st.owners[m.path.fs := Owner(m.into, source)] else st.owners)
        && after.excluded == (if taken && !installs then st.excluded + {m.path.fs} else st.excluded)
        && (taken ==> m.path.fs !in st.owners)))
  {
    QueriedKeeps(hit, st, m.path);
    var asked := Queried(hit, st, m.path);
    var f := m.path.fs;
    if f in st.owners {
      assert OwnerOk(st, f);
    } else {
      assert !RequestedBefore(asked, m);
      var requested := if exact then WithRequests(asked, m) else asked;
      var after := if installs then Reserving(requested, f, m.into, source) else Excluding(requested, f);
      forall g | g in after.owners && g != f ensures OwnerOk(after, g) {
        assert OwnerOk(asked, g);
      }
    }
  }

  /** What rules do to the matcher, one step at a time. */
  datatype Step =
    | Ask(path: SourcePath)
    | Take(m: Match, exact: bool, installs: bool, source: string)
    | Claim(path: SourcePath, into: set<Package>, source: string)

  ghost predicate Proper(step: Step) {
    match step
    case Ask(p) => p.Valid()
    case Take(m, _, installs, _) => m.path.Valid() && (installs <==> m.into != {})
    case Claim(p, into, _) => p.Valid() && into != {}
  }

  /** A recursive installation claims what is not reserved and passes by what is. */
  function Claimed(hit: Filter, st: State, p: SourcePath, into: set<Package>, source: string): State
    requires p.Valid()
  {
    if ReservedAt(hit, st, p) then Queried(hit, st, p) else Reserving(Queried(hit, st, p), p.fs, into, source)
  }

  lemma ClaimedKeeps(hit: Filter, st: State, p: SourcePath, into: set<Package>, source: string)
    requires p.Valid() && Inv(st) && into != {}
    ensures Inv(Claimed(hit, st, p, into, source)) && Extends(st, Claimed(hit, st, p, into, source))
    ensures Claimed(hit, st, p, into, source).excluded == st.excluded
    ensures Claimed(hit, st, p, into, source).owners ==
      if ReservedAt(hit, st, p) then st.owners else st.owners[p.fs := Owner(into, source)]
  {
    QueriedKeeps(hit, st, p);
    var asked, after := Queried(hit, st, p), Claimed(hit, st, p, into, source);
    forall g | g in after.owners ensures OwnerOk(after, g) {
      if g in asked.owners {
        assert OwnerOk(asked, g);
      }
    }
  }

  ghost function Stepped(hit: Filter, st: State, step: Step): Result<State, MatchError>
    requires Proper(step)
  {
    match step
    case Ask(p) => Success(Queried(hit, st, p))
    case Take(m, exact, installs, source) =>
      (match TakeOne(hit, st, m, exact, installs, source)
       case Success(v) => Success(v.0)
       case Failure(e) => Failure(e))
    case Claim(p, into, source) => Success(Claimed(hit, st, p, into, source))
  }

  ghost function Run(hit: Filter, st: State, steps: seq<Step>): Result<State, MatchError>
    requires forall s :: s in steps ==> Proper(s)
  {
    if steps == [] then Success(st)
    else
      var before := Run(hit, st, steps[..|steps| - 1]);
      if before.Failure? then before else Stepped(hit, before.value, steps[|steps| - 1])
  }

  ghost predicate Ran(hit: Filter, st: State, steps: seq<Step>, now: State) {
    (forall s :: s in steps ==> Proper(s)) && Run(hit, st, steps) == Success(now)
  }

  lemma NothingRan(hit: Filter, st: State)
    ensures Ran(hit, st, [], st)
  {
  }

  lemma RanOneMore(hit: Filter, st: State, steps: seq<Step>, now: State, step: Step)
    requires Ran(hit, st, steps, now) && Proper(step) && Stepped(hit, now, step).Success?
    ensures Ran(hit, st, steps + [step], Stepped(hit, now, step).value)
  {
    assert (steps + [step])[..|steps|] == steps;
  }

  lemma {:induction false} RanOn(hit: Filter, st: State, steps: seq<Step>, mid: State, more: seq<Step>, now: State)
    requires Ran(hit, st, steps, mid) && Ran(hit, mid, more, now)
    ensures Ran(hit, st, steps + more, now)
    decreases |more|
  {
    if more == [] {
      assert steps + more == steps;
    } else {
      var front, last := more[..|more| - 1], more[|more| - 1];
      assert Proper(last) && forall s :: s in front ==> s in more;
      var before := Run(hit, mid, front).value;
      RanOn(hit, st, steps, mid, front, before);
      RanOneMore(hit, st, steps + front, before, last);
      assert (steps + front) + [last] == steps + more;
    }
  }

  /** Over any run: a path gets at most one owner, which never changes; no path is both installed and
      discarded by the manifest; and the only refusal is that of a path that is taken. */
  lemma {:induction false} RunKeeps(hit: Filter, st: State, steps: seq<Step>)
    requires Inv(st) && forall s :: s in steps ==> Proper(s)
    ensures var r := Run(hit, st, steps);
      if r.Success? then Inv(r.value) && Extends(st, r.value) && r.value.owners.Keys !! r.value.excluded
      else r.error.AlreadyInstalledOrDiscarded?
  {
    if steps != [] {
      RunKeeps(hit, st, steps[..|steps| - 1]);
      var before := Run(hit, st, steps[..|steps| - 1]);
      if before.Success? {
        var last := steps[|steps| - 1];
        assert Proper(last);
        match last
        case Ask(p) => QueriedKeeps(hit, before.value, p);
        case Take(m, exact, installs, source) => TakeOneKeeps(hit, before.value, m, exact, installs, source);
        case Claim(p, into, source) => ClaimedKeeps(hit, before.value, p, into, source);
      }
    }
    var r := Run(hit, st, steps);
    if r.Success? {
      NeverBoth(r.value);
    }
  }

  lemma NeverBoth(st: State)
    requires Inv(st)
    ensures st.owners.Keys !! st.excluded
  {
    forall f | f in st.owners ensures f !in st.excluded {
      assert OwnerOk(st, f);
    }
  }

  lemma FreshIsFine()
    ensures Inv(FRESH)
  {
  }

  // --------------------------------------------------------- exact verdicts over every run

  function StepPath(step: Step): SourcePath {
    match step
    case Ask(p) => p
    case Take(m, _, _, _) => m.path
    case Claim(p, _, _) => p
  }

  ghost predicate InTrees(roots: set<FsPath>, steps: seq<Step>) {
    forall s {:trigger s in steps} :: s in steps ==> Proper(s) && InTree(roots, StepPath(s))
  }

  predicate Excludes(hit: Filter, st: State, step: Step)
    requires step.Take? ==> step.m.path.Valid()
  {
    && step.Take? && !step.installs
    && var r := TakeOne(hit, st, step.m, step.exact, step.installs, step.source);
    r.Success? && r.value.1 == Reserved
  }

  /** Where a step looks for a verdict, the search directories agree on what it stores; and no cached
      verdict hangs on what it excludes. */
  ghost predicate Careful(hit: Filter, view: View, st: State, step: Step)
    requires Proper(step)
  {
    var p := StepPath(step);
    var spared := if Excludes(hit, st, step) then {p.fs} else {};
    && (p.fs !in st.owners ==> StoresAgree(hit, st.excluded, view, st.discarded, p, spared))
    && (Excludes(hit, st, step) ==> NoHeirs(hit, st.excluded, view, st.discarded, p.fs))
  }

  ghost predicate StateExact(hit: Filter, view: View, st: State) {
    Exact(hit, st.excluded, view, st.discarded)
  }

  /** A step leaves the memoised verdicts exact if and only if it is careful. */
  lemma StepKeepsExactIff(hit: Filter, view: View, st: State, step: Step)
    requires Proper(step) && InTree(view.roots, StepPath(step)) && Stepped(hit, st, step).Success?
    requires view.Closed() && StateExact(hit, view, st)
    ensures StateExact(hit, view, Stepped(hit, st, step).value) <==> Careful(hit, view, st, step)
  {
    hide Exact, StoresAgree, NoHeirs, Filled, InTree, View.Closed, Answer;
    var p := StepPath(step);
    QueryKeepsExactIff(hit, st.excluded, view, st.discarded, p);
    DiscardKeepsExactIff(hit, st.excluded, view, st.discarded, p);
    ExcludeKeepsExactIff(hit, st.excluded, view, st.discarded, p.fs);
  }

  ghost predicate CarefulRun(hit: Filter, view: View, st: State, steps: seq<Step>)
    requires forall s :: s in steps ==> Proper(s)
  {
    steps == [] ||
    (var front, last := steps[..|steps| - 1], steps[|steps| - 1];
     assert Proper(last);
     && CarefulRun(hit, view, st, front)
     && (Run(hit, st, steps).Success? ==> Careful(hit, view, Run(hit, st, front).value, last)))
  }

  /** The memoised verdicts are exact after every step that succeeds. */
  ghost predicate ExactThroughout(hit: Filter, view: View, st: State, steps: seq<Step>)
    requires forall s :: s in steps ==> Proper(s)
  {
    && (Run(hit, st, steps).Success? ==> StateExact(hit, view, Run(hit, st, steps).value))
    && (steps == [] || ExactThroughout(hit, view, st, steps[..|steps| - 1]))
  }

  /** Over any run the memoised verdicts are those found without the cache, all along, if and only if
      every step is careful: for the whole tree, or for the way to one path however the search
      directories disagree elsewhere. */
  lemma {:induction false} RunKeepsExactIff(hit: Filter, view: View, st: State, steps: seq<Step>)
    requires view.Closed() && StateExact(hit, view, st) && InTrees(view.roots, steps)
    ensures ExactThroughout(hit, view, st, steps) <==> CarefulRun(hit, view, st, steps)
  {
    hide StateExact, Careful, InTree, View.Closed, Stepped;
    if steps != [] {
      var front, last := steps[..|steps| - 1], steps[|steps| - 1];
      assert last in steps && Proper(last) && InTree(view.roots, StepPath(last));
      assert forall s :: s in front ==> s in steps;
      RunKeepsExactIff(hit, view, st, front);
      if Run(hit, st, steps).Success? && ExactThroughout(hit, view, st, front) {
        StepKeepsExactIff(hit, view, Run(hit, st, front).value, last);
      }
    }
  }

  /** After a careful run the memoised verdict for any path that is looked at is the one found
      without the cache. */
  lemma RunKeepsExact(hit: Filter, view: View, st: State, steps: seq<Step>, p: SourcePath)
    requires view.Closed() && StateExact(hit, view, st) && InTrees(view.roots, steps)
    requires CarefulRun(hit, view, st, steps) && view.Sees(p)
    ensures var r := Run(hit, st, steps);
      r.Success? ==>
        StateExact(hit, view, r.value) && Answer(hit, r.value.discarded, p) == Verdict(hit, r.value.excluded, p)
  {
    RunKeepsExactIff(hit, view, st, steps);
    var r := Run(hit, st, steps);
    if r.Success? {
      AnswerIsVerdict(hit, r.value.excluded, view, r.value.discarded, p);
    }
  }

  /** For the verdict on f, a step for p matters only as far as both lie in the same directories. */
  lemma OnlyTheWayMatters(hit: Filter, roots: set<FsPath>, st: State, p: SourcePath, f: FsPath, spared: set<FsPath>)
    requires p.Valid() && AgreeOnWay(hit, st.excluded, roots, p, f)
    ensures StoresAgree(hit, st.excluded, Towards(roots, f), st.discarded, p, spared)
  {
    forall a, q | StoredFor(hit, Towards(roots, f), st.discarded, p, a, q) && a.fs !in spared
      ensures AgreeAt(hit, st.excluded, a, q) {
      var b := NewlyStored(hit, st.discarded, p, a.fs);
      assert a == b;
    }
  }

  ghost predicate AgreeOnWay(hit: Filter, excluded: set<FsPath>, roots: set<FsPath>, p: SourcePath, f: FsPath)
    requires p.Valid()
  {
    forall a: SourcePath, q: SourcePath {:trigger AgreeAt(hit, excluded, a, q)} ::
      && a.Valid() && RootOf(a) == RootOf(p) && InTree(roots, q) && a.fs == q.fs && a.fs <= p.fs && a.fs <= f
      ==> AgreeAt(hit, excluded, a, q)
  }

  // ------------------------------------------------- who gets what, with exact verdicts

  /** Reserved means: somebody owns the path, or it or a directory above it is excluded or hit by a rule. */
  lemma ReservedMeans(hit: Filter, view: View, st: State, p: SourcePath)
    requires view.Closed() && StateExact(hit, view, st) && view.Sees(p)
    ensures ReservedAt(hit, st, p) <==> p.fs in st.owners || exists k :: DiscardedAt(hit, st.excluded, p, k)
  {
    AnswerIsVerdict(hit, st.excluded, view, st.discarded, p);
    VerdictMeans(hit, st.excluded, p);
  }

  /** A match of a glob is passed by if somebody owns it or anything discards it, and else is reserved. */
  lemma GlobOutcome(hit: Filter, view: View, st: State, m: Match, installs: bool, source: string)
    requires Inv(st) && view.Closed() && StateExact(hit, view, st) && view.Sees(m.path)
    ensures var r := TakeOne(hit, st, m, false, installs, source);
      && r.Success?
      && (r.value.1 == AlreadyInstalled <==> m.path.fs in st.owners)
      && (r.value.1 == AlreadyExcluded <==>
            m.path.fs !in st.owners && exists k :: DiscardedAt(hit, st.excluded, m.path, k))
      && (r.value.1 == Reserved <==>
            m.path.fs !in st.owners && forall k :: !DiscardedAt(hit, st.excluded, m.path, k))
  {
    ReservedMeans(hit, view, st, m.path);
    OwnersHavePackages(st, m.path.fs);
  }

  /** A match by name is refused if somebody owns it or the manifest discards it; else it is reserved,
      even if a plugin rule discards it. */
  lemma ExactOutcome(hit: Filter, view: View, st: State, m: Match, installs: bool, source: string)
    requires Inv(st) && view.Closed() && StateExact(hit, view, st) && view.Sees(m.path)
    ensures var r, f := TakeOne(hit, st, m, true, installs, source), m.path.fs;
      && (r.Failure? <==> f in st.owners || exists k :: ManifestAt(hit, st.excluded, m.path, k))
      && (r.Failure? ==>
            r.error == AlreadyInstalledOrDiscarded(f, if f in st.owners then st.owners[f].into else {}))
      && (r.Success? ==> r.value.1 == Reserved)
  {
    AnswerIsVerdict(hit, st.excluded, view, st.discarded, m.path);
    ManifestVerdictMeans(hit, st.excluded, m.path);
    OwnersHavePackages(st, m.path.fs);
    assert m.path.fs !in st.owners ==> !RequestedBefore(st, m);
  }

  lemma OwnersHavePackages(st: State, f: FsPath)
    requires Inv(st)
    ensures f in st.owners ==> st.owners[f].into != {}
  {
    assert f in st.owners ==> OwnerOk(st, f);
  }

  lemma FreshIsExact(hit: Filter, view: View)
    ensures StateExact(hit, view, FRESH)
  {
  }

  // -------------------------------------------------------------- taking all the matches

  datatype Tally = Tally(matched: seq<Match>, alreadyInstalled: nat, alreadyExcluded: nat)

  function Counted(tally: Tally, m: Match, taken: Taken): Tally {
    match taken
    case Reserved => tally.(matched := tally.matched + [m])
    case AlreadyInstalled => tally.(alreadyInstalled := tally.alreadyInstalled + 1)
    case AlreadyExcluded => tally.(alreadyExcluded := tally.alreadyExcluded + 1)
  }

  /** The matches one after the other; the first that is refused ends it. */
  function TakeAll(hit: Filter, st: State, ms: seq<Match>, exact: bool, installs: bool,
                   source: string): Result<(State, Tally), MatchError>
    requires ValidPaths(ms)
  {
    if ms == [] then Success((st, Tally([], 0, 0)))
    else
      var before := TakeAll(hit, st, ms[..|ms| - 1], exact, installs, source);
      if before.Failure? then before
      else
        var last := ms[|ms| - 1];
        assert last in ms;
        match TakeOne(hit, before.value.0, last, exact, installs, source)
        case Failure(e) => Failure(e)
        case Success(v) => Success((v.0, Counted(before.value.1, last, v.1)))
  }

  function Steps(ms: seq<Match>, exact: bool, installs: bool, source: string): (r: seq<Step>)
    ensures |r| == |ms| && forall i :: 0 <= i < |r| ==> r[i] == Take(ms[i], exact, installs, source)
  {
    seq(|ms|, i requires 0 <= i < |ms| => Take(ms[i], exact, installs, source))
  }

  /** Taking all the matches of a rule is a run of steps. */
  lemma {:induction false} TakeAllIsRun(hit: Filter, st: State, ms: seq<Match>, exact: bool, installs: bool,
                                        source: string)
    requires ValidPaths(ms) && forall m :: m in ms ==> (installs <==> m.into != {})
    ensures forall s :: s in Steps(ms, exact, installs, source) ==> Proper(s)
    ensures var r, taken :=
      Run(hit, st, Steps(ms, exact, installs, source)), TakeAll(hit, st, ms, exact, installs, source);
      if taken.Success? then r == Success(taken.value.0) else r == Failure(taken.error)
  {
    var steps := Steps(ms, exact, installs, source);
    forall s | s in steps ensures Proper(s) {
      var i :| 0 <= i < |steps| && steps[i] == s;
      assert ms[i] in ms;
    }
    if ms != [] {
      TakeAllIsRun(hit, st, ms[..|ms| - 1], exact, installs, source);
      assert steps[..|ms| - 1] == Steps(ms[..|ms| - 1], exact, installs, source);
    }
  }

  lemma ExactOrRefused(hit: Filter, st: State, m: Match, installs: bool, source: string)
    requires m.path.Valid() && TakeOne(hit, st, m, true, installs, source).Success?
    ensures TakeOne(hit, st, m, true, installs, source).value.1 == Reserved
  {
  }

  /** Every match is accounted for: reserved, installed already or excluded already. */
  lemma {:induction false} TallyAddsUp(hit: Filter, st: State, ms: seq<Match>, exact: bool, installs: bool,
                                       source: string)
    requires ValidPaths(ms) && TakeAll(hit, st, ms, exact, installs, source).Success?
    ensures var tally := TakeAll(hit, st, ms, exact, installs, source).value.1;
      && |tally.matched| + tally.alreadyInstalled + tally.alreadyExcluded == |ms|
      && (exact ==> tally.matched == ms)
      && forall m :: m in tally.matched ==> m in ms
  {
    hide TakeOne;
    if ms != [] {
      var front, last := ms[..|ms| - 1], ms[|ms| - 1];
      assert ms == front + [last] && last in ms;
      TallyAddsUp(hit, st, front, exact, installs, source);
      if exact {
        ExactOrRefused(hit, TakeAll(hit, st, front, exact, installs, source).value.0, last, installs, source);
      }
    }
  }

  lemma {:induction false} FailureStays(hit: Filter, st: State, ms: seq<Match>, n: nat, exact: bool,
                                        installs: bool, source: string)
    requires n <= |ms| && ValidPaths(ms) && TakeAll(hit, st, ms[..n], exact, installs, source).Failure?
    ensures TakeAll(hit, st, ms, exact, installs, source) == TakeAll(hit, st, ms[..n], exact, installs, source)
    decreases |ms|
  {
    if n == |ms| {
      assert ms[..n] == ms;
    } else {
      assert ms[..|ms| - 1][..n] == ms[..n];
      FailureStays(hit, st, ms[..|ms| - 1], n, exact, installs, source);
    }
  }

  ghost predicate DifferentPaths(ms: seq<Match>) {
    forall i, j :: 0 <= i < j < |ms| ==> ms[i].path.fs != ms[j].path.fs
  }

  ghost predicate Available(hit: Filter, st: State, m: Match) {
    m.path.fs !in st.owners && forall k :: !DiscardedAt(hit, st.excluded, m.path, k)
  }

  /** The state between two matches of an install rule: exact still, with nothing more excluded. */
  lemma BetweenMatches(hit: Filter, view: View, st: State, ms: seq<Match>, source: string)
    requires ValidPaths(ms) && forall m :: m in ms ==> m.into != {} && view.Sees(m.path)
    requires Inv(st) && view.Closed() && StateExact(hit, view, st)
    requires forall s :: s in Steps(ms, false, true, source) ==> Proper(s)
    requires CarefulRun(hit, view, st, Steps(ms, false, true, source))
    ensures var r := TakeAll(hit, st, ms, false, true, source);
      r.Success? ==> Inv(r.value.0) && StateExact(hit, view, r.value.0)
  {
    hide CarefulRun, StateExact, TakeAll, View.Closed;
    var steps := Steps(ms, false, true, source);
    TakeAllIsRun(hit, st, ms, false, true, source);
    RunKeeps(hit, st, steps);
    forall s | s in steps ensures InTree(view.roots, StepPath(s)) {
      var i :| 0 <= i < |steps| && steps[i] == s;
      assert ms[i] in ms;
    }
    RunKeepsExactIff(hit, view, st, steps);
  }

  /** How many of the paths somebody owns. */
  function Owned(st: State, ms: seq<Match>): nat {
    if ms == [] then 0
    else Owned(st, ms[..|ms| - 1]) + if ms[|ms| - 1].path.fs in st.owners then 1 else 0
  }

  /** Matched is what was available at the start; and of any path, the owner is that of its match if it was. */
  ghost predicate Takes(hit: Filter, st: State, ms: seq<Match>, source: string, f: FsPath, after: State, tally: Tally) {
    && after.excluded == st.excluded && tally.alreadyInstalled == Owned(st, ms)
    && (forall m :: m in tally.matched <==> m in ms && Available(hit, st, m))
    && (forall m :: m in ms && m.path.fs == f && Available(hit, st, m) ==>
          f in after.owners && after.owners[f] == Owner(m.into, source))
    && ((forall m :: m in ms && m.path.fs == f ==> !Available(hit, st, m)) ==>
          (f in after.owners <==> f in st.owners) && (f in st.owners ==> after.owners[f] == st.owners[f]))
  }

  lemma TakesOneMore(hit: Filter, st: State, ms: seq<Match>, source: string, f: FsPath, before: State, tally: Tally,
                     m: Match, after: State, taken: Taken)
    requires Takes(hit, st, ms, source, f, before, tally) && Takes(hit, st, ms, source, m.path.fs, before, tally)
    requires forall other :: other in ms ==> other.path.fs != m.path.fs
    requires taken == Reserved <==> Available(hit, before, m)
    requires taken == AlreadyInstalled <==> m.path.fs in before.owners
    requires after.owners ==
      if taken == Reserved then before.owners[m.path.fs := Owner(m.into, source)] else before.owners
    requires after.excluded == before.excluded
    ensures Takes(hit, st, ms + [m], source, f, after, Counted(tally, m, taken))
  {
    hide DiscardedAt;
    assert (ms + [m])[..|ms|] == ms;
    assert Available(hit, before, m) <==> Available(hit, st, m);
    assert m.path.fs in before.owners <==> m.path.fs in st.owners;
    assert forall x :: x in ms + [m] <==> x in ms || x == m;
  }

  /** What an install rule with a glob takes: the matches that nobody owns and that nothing discards when
      the rule starts; and just these have a new owner afterwards. */
  lemma {:induction false} InstallRuleTakes(hit: Filter, view: View, st: State, ms: seq<Match>, source: string,
                                            f: FsPath)
    requires ValidPaths(ms) && DifferentPaths(ms) && forall m :: m in ms ==> m.into != {} && view.Sees(m.path)
    requires Inv(st) && view.Closed() && StateExact(hit, view, st)
    requires forall s :: s in Steps(ms, false, true, source) ==> Proper(s)
    requires CarefulRun(hit, view, st, Steps(ms, false, true, source))
    ensures var r := TakeAll(hit, st, ms, false, true, source);
      r.Success? && Takes(hit, st, ms, source, f, r.value.0, r.value.1)
  {
    hide Available, Inv, StateExact, View.Closed, View.Sees, CarefulRun, TakeAll, Takes, Steps, Proper;
    if ms == [] {
      NothingTaken(hit, st, source, f);
    } else {
      var front, last := ms[..|ms| - 1], ms[|ms| - 1];
      assert ms == front + [last] && last in ms;
      FrontOfRule(hit, view, st, ms, source);
      InstallRuleTakes(hit, view, st, front, source, f);
      InstallRuleTakes(hit, view, st, front, source, last.path.fs);
      BetweenMatches(hit, view, st, front, source);
      var before := TakeAll(hit, st, front, false, true, source).value;
      OneTaken(hit, view, before.0, last, source);
      var r := TakeOne(hit, before.0, last, false, true, source);
      TakesOneMore(hit, st, front, source, f, before.0, before.1, last, r.value.0, r.value.1);
      TakeAllNext(hit, st, front, last, source);
    }
  }

  lemma NothingTaken(hit: Filter, st: State, source: string, f: FsPath)
    ensures TakeAll(hit, st, [], false, true, source) == Success((st, Tally([], 0, 0)))
    ensures Takes(hit, st, [], source, f, st, Tally([], 0, 0))
  {
  }

  lemma TakeAllNext(hit: Filter, st: State, front: seq<Match>, m: Match, source: string)
    requires ValidPaths(front) && m.path.Valid() && TakeAll(hit, st, front, false, true, source).Success?
    ensures ValidPaths(front + [m])
    ensures var before := TakeAll(hit, st, front, false, true, source).value;
      var r := TakeOne(hit, before.0, m, false, true, source);
      r.Success? ==>
        TakeAll(hit, st, front + [m], false, true, source) == Success((r.value.0, Counted(before.1, m, r.value.1)))
  {
    assert (front + [m])[..|front|] == front;
  }

  lemma OneTaken(hit: Filter, view: View, st: State, m: Match, source: string)
    requires Inv(st) && view.Closed() && StateExact(hit, view, st) && view.Sees(m.path) && m.into != {}
    ensures var r := TakeOne(hit, st, m, false, true, source);
      && r.Success?
      && (r.value.1 == Reserved <==> Available(hit, st, m))
      && (r.value.1 == AlreadyInstalled <==> m.path.fs in st.owners)
      && r.value.0.excluded == st.excluded
      && r.value.0.owners ==
         if r.value.1 == Reserved then st.owners[m.path.fs := Owner(m.into, source)] else st.owners
  {
    GlobOutcome(hit, view, st, m, true, source);
    TakeOneKeeps(hit, st, m, false, true, source);
  }

  /** What holds of all the matches of a rule holds of those before the last one. */
  lemma FrontOfRule(hit: Filter, view: View, st: State, ms: seq<Match>, source: string)
    requires ms != [] && ValidPaths(ms) && DifferentPaths(ms)
    requires forall s :: s in Steps(ms, false, true, source) ==> Proper(s)
    requires CarefulRun(hit, view, st, Steps(ms, false, true, source))
    ensures var front, last := ms[..|ms| - 1], ms[|ms| - 1];
      && (forall s :: s in Steps(front, false, true, source) ==> Proper(s))
      && CarefulRun(hit, view, st, Steps(front, false, true, source))
      && (forall m :: m in front ==> m in ms && m.path.fs != last.path.fs)
  {
    var front, last, steps := ms[..|ms| - 1], ms[|ms| - 1], Steps(ms, false, true, source);
    assert steps[..|ms| - 1] == Steps(front, false, true, source);
    forall m | m in front ensures m in ms && m.path.fs != last.path.fs {
      var i :| 0 <= i < |front| && front[i] == m;
      assert ms[i] == m;
    }
  }

  // ---------------------------------------------------------------- what has been missed

  const Everything: Filter := p => true

  /** Of all that was visited, the files and empty directories that are not reserved. */
  function Unreserved(hit: Filter, st: State, items: seq<Item>): seq<SourcePath>
    requires forall x :: x in items ==> x.path.Valid()
  {
    if items == [] then []
    else
      var x := items[0];
      assert forall y :: y in items[1..] ==> y in items;
      Reported(hit, st, x) + Unreserved(hit, st, items[1..])
  }

  ghost predicate Within(root: FsPath, items: seq<Item>) {
    forall x :: x in items ==> x.path.Valid() && RootOf(x.path) == root && WellFormed(x.source)
  }

  lemma StartOfWalk(searchDir: SourcePath, entries: seq<Source>)
    ensures VisitStack(Everything, KeptEntries(Everything, searchDir, entries)) ==
      VisitEntries(Everything, searchDir, entries)
  {
    StackOfEntries(Everything, [], searchDir, entries);
    assert [] + KeptEntries(Everything, searchDir, entries) == KeptEntries(Everything, searchDir, entries);
    assert VisitEntries(Everything, searchDir, entries) + [] == VisitEntries(Everything, searchDir, entries);
  }

  /** The questions that the report takes. */
  function DetectSteps(items: seq<Item>): seq<Step> {
    if items == [] then []
    else DetectSteps(items[..|items| - 1]) + DetectStep(items[|items| - 1])
  }

  function DetectStep(x: Item): seq<Step> {
    if x.source.entries == [] then [Ask(x.path)] else []
  }

  lemma {:induction false} DetectStepsWithin(root: FsPath, items: seq<Item>)
    requires Within(root, items)
    ensures InTrees({root}, DetectSteps(items))
  {
    if items != [] {
      DetectStepsWithin(root, items[..|items| - 1]);
    }
  }

  /** What has been reported so far and what is still on the stack make up the whole report. */
  ghost predicate Detecting(hit: Filter, st: State, now: State, root: FsPath, all: seq<Item>, stack: seq<Item>,
                            missing: seq<SourcePath>) {
    && Within(root, all) && Within(root, VisitStack(Everything, stack)) && SameReserved(hit, st, now, root)
    && missing + Unreserved(hit, st, VisitStack(Everything, stack)) == Unreserved(hit, st, all)
  }

  function Reported(hit: Filter, st: State, x: Item): seq<SourcePath>
    requires x.path.Valid()
  {
    if x.source.entries == [] && !ReservedAt(hit, st, x.path) then [x.path] else []
  }

  ghost predicate StillToDetect(hit: Filter, st: State, root: FsPath, all: seq<Item>, stack: seq<Item>,
                                missing: seq<SourcePath>) {
    && stack != []
    && var top := stack[|stack| - 1];
    var stack' := stack[..|stack| - 1] + KeptEntries(Everything, top.path, top.source.entries);
    && top.path.Valid() && Within(root, all) && Within(root, VisitStack(Everything, stack'))
    && (missing + Reported(hit, st, top)) + Unreserved(hit, st, VisitStack(Everything, stack')) ==
      Unreserved(hit, st, all)
  }

  lemma TopDetected(hit: Filter, st: State, now: State, root: FsPath, all: seq<Item>, stack: seq<Item>,
                    missing: seq<SourcePath>)
    requires stack != [] && Detecting(hit, st, now, root, all, stack, missing)
    ensures var top := stack[|stack| - 1];
      && top.path.Valid() && RootOf(top.path) == root && WellFormed(top.source) && SameReserved(hit, st, now, root)
      && (KeptEntries(Everything, top.path, top.source.entries) == [] <==> top.source.entries == [])
      && |VisitStack(Everything, stack[..|stack| - 1] + KeptEntries(Everything, top.path, top.source.entries))| <
         |VisitStack(Everything, stack)|
    ensures StillToDetect(hit, st, root, all, stack, missing)
  {
    hide VisitStack, Visit, VisitEntries, KeptEntries, Unreserved, ReservedAt, WellFormed, SameReserved;
    PopAndPush(Everything, stack);
    var top := stack[|stack| - 1];
    EntriesKept(top.path, top.source.entries);
    var rest := VisitStack(Everything, stack[..|stack| - 1] + KeptEntries(Everything, top.path, top.source.entries));
    OneMoreVisited(hit, st, root, VisitStack(Everything, stack), top, rest);
    assert missing + (Reported(hit, st, top) + Unreserved(hit, st, rest)) ==
           (missing + Reported(hit, st, top)) + Unreserved(hit, st, rest);
  }

  lemma MoreDetected(hit: Filter, st: State, now: State, root: FsPath, all: seq<Item>, stack: seq<Item>,
                     missing: seq<SourcePath>)
    requires StillToDetect(hit, st, root, all, stack, missing) && SameReserved(hit, st, now, root)
    ensures var top := stack[|stack| - 1];
      Detecting(hit, st, now, root, all, stack[..|stack| - 1] + KeptEntries(Everything, top.path, top.source.entries),
                missing + Reported(hit, st, top))
  {
  }

  lemma StartOfDetection(hit: Filter, st: State, searchDir: SourcePath, tree: Source)
    requires searchDir.Valid() && WellFormed(tree)
    ensures var root, all, stack := RootOf(searchDir), VisitEntries(Everything, searchDir, tree.entries),
              KeptEntries(Everything, searchDir, tree.entries);
      && Within(root, all) && Detecting(hit, st, st, root, all, stack, [])
      && [] + VisitStack(Everything, stack) == all && Ran(hit, st, DetectSteps([]), st)
  {
    StartOfWalk(searchDir, tree.entries);
    VisitedWithin(Everything, searchDir, tree.entries);
    assert [] + VisitEntries(Everything, searchDir, tree.entries) == VisitEntries(Everything, searchDir, tree.entries);
  }

  function Detected(hit: Filter, now: State, x: Item): State
    requires x.path.Valid()
  {
    if x.source.entries == [] then Queried(hit, now, x.path) else now
  }

  lemma DetectedMore(hit: Filter, st: State, now: State, done: seq<Item>, x: Item)
    requires x.path.Valid() && Ran(hit, st, DetectSteps(done), now)
    ensures Ran(hit, st, DetectSteps(done + [x]), Detected(hit, now, x))
  {
    assert (done + [x])[..|done|] == done;
    if x.source.entries == [] {
      RanOneMore(hit, st, DetectSteps(done), now, Ask(x.path));
    } else {
      assert DetectSteps(done) + [] == DetectSteps(done);
    }
  }

  lemma EndOfDetection(hit: Filter, st: State, now: State, root: FsPath, all: seq<Item>,
                       missing: seq<SourcePath>, done: seq<Item>)
    requires Detecting(hit, st, now, root, all, [], missing)
    requires done + VisitStack(Everything, []) == all && Ran(hit, st, DetectSteps(done), now)
    ensures missing == Unreserved(hit, st, all) && done == all && SameReserved(hit, st, now, root)
    ensures Inv(st) ==> Inv(now) && Extends(st, now)
  {
    if Inv(st) {
      RunKeeps(hit, st, DetectSteps(done));
    }
  }

  lemma OneMoreVisited(hit: Filter, st: State, root: FsPath, items: seq<Item>, x: Item, rest: seq<Item>)
    requires Within(root, items) && items == [x] + rest
    ensures x.path.Valid() && RootOf(x.path) == root && WellFormed(x.source) && Within(root, rest)
    ensures Unreserved(hit, st, items) == Reported(hit, st, x) + Unreserved(hit, st, rest)
  {
    assert items[0] == x && items[1..] == rest;
    assert forall y :: y in rest ==> y in items;
  }

  lemma VisitedWithin(keep: Filter, path: SourcePath, entries: seq<Source>)
    requires path.Valid() && AllWellFormed(entries)
    ensures Within(RootOf(path), VisitEntries(keep, path, entries))
  {
    forall x | x in VisitEntries(keep, path, entries)
      ensures x.path.Valid() && RootOf(x.path) == RootOf(path) && WellFormed(x.source)
    {
      VisitEntriesReaches(keep, path, entries, x);
      var rel :| FoundAmong(keep, path, entries, rel, x);
      FoundWellFormed(entries, rel);
    }
  }

  /** What the walk misses, said without the walk: every file and every empty directory below the
      search directory that is not reserved. */
  ghost predicate Missed(hit: Filter, st: State, searchDir: SourcePath, tree: Source, rel: seq<string>) {
    && rel != [] && Found(tree, rel).Some? && Found(tree, rel).value.entries == []
    && searchDir.Step(rel).Valid() && !ReservedAt(hit, st, searchDir.Step(rel))
  }

  lemma {:induction false} UnreservedMeans(hit: Filter, st: State, items: seq<Item>, p: SourcePath)
    requires forall x :: x in items ==> x.path.Valid()
    ensures p in Unreserved(hit, st, items) <==>
      exists x :: x in items && x.path == p && x.source.entries == [] && !ReservedAt(hit, st, p)
  {
    if items != [] {
      UnreservedMeans(hit, st, items[1..], p);
      assert items == [items[0]] + items[1..];
    }
  }

  lemma {:induction false} UnreservedOnce(hit: Filter, st: State, items: seq<Item>)
    requires forall x :: x in items ==> x.path.Valid()
    requires NoDuplicates(items) && forall x, y :: x in items && y in items && x.path == y.path ==> x == y
    ensures NoDuplicates(Unreserved(hit, st, items))
  {
    if items != [] {
      var x, rest := items[0], items[1..];
      assert forall y :: y in rest ==> y in items;
      assert forall i, j :: 0 <= i < j < |rest| ==> rest[i] == items[i + 1] && rest[j] == items[j + 1];
      UnreservedOnce(hit, st, rest);
      UnreservedMeans(hit, st, rest, x.path);
      assert forall i :: 0 <= i < |rest| ==> rest[i] != items[0];
      NoDuplicatesConcat(Reported(hit, st, x), Unreserved(hit, st, rest));
    }
  }

  /** `detect_missing` reports exactly what has been missed, each path once. */
  lemma MissedExactlyOnce(hit: Filter, st: State, searchDir: SourcePath, tree: Source, p: SourcePath)
    requires searchDir.Valid() && WellFormed(tree)
    ensures Within(RootOf(searchDir), VisitEntries(Everything, searchDir, tree.entries))
    ensures var missing := Unreserved(hit, st, VisitEntries(Everything, searchDir, tree.entries));
      NoDuplicates(missing)
        && (p in missing <==> exists rel :: Missed(hit, st, searchDir, tree, rel) && p == searchDir.Step(rel))
  {
    var items := VisitEntries(Everything, searchDir, tree.entries);
    VisitedWithin(Everything, searchDir, tree.entries);
    VisitEntriesOnce(Everything, searchDir, tree.entries);
    forall x, y | x in items && y in items && x.path == y.path ensures x == y {
      PathDecides(Everything, searchDir, tree, x, y);
    }
    UnreservedOnce(hit, st, items);
    UnreservedMeans(hit, st, items, p);
    if x :| x in items && x.path == p && x.source.entries == [] && !ReservedAt(hit, st, p) {
      VisitEntriesReaches(Everything, searchDir, tree.entries, x);
      var rel :| FoundAmong(Everything, searchDir, tree.entries, rel, x);
      assert Missed(hit, st, searchDir, tree, rel);
    }
    if rel :| Missed(hit, st, searchDir, tree, rel) && p == searchDir.Step(rel) {
      var x := Item(p, Found(tree, rel).value);
      assert FoundAmong(Everything, searchDir, tree.entries, rel, x);
      VisitEntriesReaches(Everything, searchDir, tree.entries, x);
    }
  }

  /** Two states that reserve the same paths in one search directory. */
  ghost predicate SameReserved(hit: Filter, st: State, later: State, root: FsPath) {
    forall q: SourcePath {:trigger ReservedAt(hit, later, q)} :: q.Valid() && RootOf(q) == root ==>
      (ReservedAt(hit, later, q) <==> ReservedAt(hit, st, q))
  }

  lemma QueriesReserveNothing(hit: Filter, st: State, later: State, p: SourcePath)
    requires p.Valid() && SameReserved(hit, st, later, RootOf(p))
    ensures SameReserved(hit, st, Queried(hit, later, p), RootOf(p))
  {
    var after := Queried(hit, later, p);
    forall q: SourcePath | q.Valid() && RootOf(q) == RootOf(p)
      ensures ReservedAt(hit, after, q) <==> ReservedAt(hit, st, q)
    {
      assert ReservedAt(hit, later, q) <==> ReservedAt(hit, st, q);
      QueriesChangeNothing(hit, later.discarded, p, q);
    }
  }

  lemma {:induction false} EntriesKept(path: SourcePath, entries: seq<Source>)
    ensures |KeptEntries(Everything, path, entries)| == |entries|
  {
    if entries != [] {
      EntriesKept(path, entries[..|entries| - 1]);
    }
  }

  class SourcePathMatcher {
    var alreadyMatched: map<FsPath, Owner>
    var exactMatchRequest: set<(Package, FsPath)>
    var discarded: Cache
    ghost var excluded: set<FsPath>
    const autoDiscardRules: seq<Filter>

    ghost function Now(): State
      reads this
    {
      State(alreadyMatched, exactMatchRequest, discarded, excluded)
    }

    constructor (rules: seq<Filter>)
      ensures Now() == FRESH && autoDiscardRules == rules
    {
      alreadyMatched := map[];
      exactMatchRequest := {};
      discarded := map[];
      excluded := {};
      autoDiscardRules := rules;
    }

    method RunPluginProvidedDiscardRulesOn(path: SourcePath) returns (verdict: bool)
      ensures verdict == Hit(autoDiscardRules)(path)
      ensures verdict <==> exists rule :: rule in autoDiscardRules && rule(path)
    {
      for i := 0 to |autoDiscardRules|
        invariant forall j :: 0 <= j < i ==> !autoDiscardRules[j](path)
      {
        if autoDiscardRules[i](path) {
          return true;
        }
      }
      verdict := false;
    }

    method CheckPluginProvidedExcludeStateFor(path: SourcePath) returns (verdict: DiscardState)
      requires path.Valid()
      modifies this`discarded
      ensures verdict == Answer(Hit(autoDiscardRules), old(discarded), path)
      ensures discarded == Filled(Hit(autoDiscardRules), old(discarded), path)
    {
      ghost var hit := Hit(autoDiscardRules);
      var cacheMisses: seq<FsPath> := [];
      var currentPath := path;
      while true
        invariant currentPath.Valid() && discarded == old(discarded)
        invariant Answer(hit, discarded, path) == Answer(hit, discarded, currentPath)
        invariant Filled(hit, discarded, path) ==
          Stored(Filled(hit, discarded, currentPath), cacheMisses, Answer(hit, discarded, path))
        decreases currentPath.depth
      {
        if currentPath.fs in discarded {
          verdict := discarded[currentPath.fs];
          break;
        }
        StoredFirst(if hit(currentPath) || currentPath.depth == 0 then discarded
          else Filled(hit, discarded, currentPath.Parent()),
                    cacheMisses, currentPath.fs, Answer(hit, discarded, path));
        cacheMisses := cacheMisses + [currentPath.fs];
        var hitHere := RunPluginProvidedDiscardRulesOn(currentPath);
        if hitHere {
          verdict := DiscardedByPlugin;
          break;
        }
        if currentPath.depth == 0 {
          verdict := NotDiscarded;
          break;
        }
        currentPath := currentPath.Parent();
      }
      StoreAll(cacheMisses, verdict);
    }

    method StoreAll(keys: seq<FsPath>, verdict: DiscardState)
      modifies this`discarded
      ensures discarded == Stored(old(discarded), keys, verdict)
    {
      for i := 0 to |keys|
        invariant discarded == Stored(old(discarded), keys[..i], verdict)
      {
        assert keys[..i + 1][..i] == keys[..i];
        discarded := discarded[keys[i] := verdict];
      }
      assert keys[..|keys|] == keys;
    }

    method IsReserved(path: SourcePath) returns (r: bool)
      requires path.Valid()
      modifies this`discarded
      ensures r == ReservedAt(Hit(autoDiscardRules), old(Now()), path)
      ensures Now() == Queried(Hit(autoDiscardRules), old(Now()), path)
    {
      if path.fs in alreadyMatched {
        return true;
      }
      var result: DiscardState;
      if path.fs in discarded {
        result := discarded[path.fs];
      } else {
        result := CheckPluginProvidedExcludeStateFor(path);
      }
      r := result != NotDiscarded;
    }

    method Exclude(path: FsPath)
      modifies this`discarded, this`excluded
      ensures Now() == Excluding(old(Now()), path)
    {
      discarded := discarded[path := DiscardedByManifest];
      excluded := excluded + {path};
    }

    /** A reservation by name also forgets the verdict on the path. */
    method Reserve(path: FsPath, reservedBy: set<Package>, definitionSource: string, isExactMatch: bool)
      modifies this`alreadyMatched, this`exactMatchRequest, this`discarded
      ensures var reserved := Reserving(old(Now()), path, reservedBy, definitionSource);
        Now() == if isExactMatch then ByName(reserved, path, reservedBy) else reserved
    {
      alreadyMatched := alreadyMatched[path := Owner(reservedBy, definitionSource)];
      if !isExactMatch {
        return;
      }
      var pending := reservedBy;
      while pending != {}
        invariant pending <= reservedBy && discarded == old(discarded)
        invariant alreadyMatched == old(alreadyMatched)[path := Owner(reservedBy, definitionSource)]
        invariant exactMatchRequest == old(exactMatchRequest) + set pkg | pkg in reservedBy - pending :: (pkg, path)
        decreases pending
      {
        var pkg :| pkg in pending;
        pending := pending - {pkg};
        exactMatchRequest := exactMatchRequest + {(pkg, path)};
      }
      assert reservedBy - pending == reservedBy;
      discarded := discarded - {path};
    }

    method MayMatch(m: Match, isExactMatch: bool) returns (into: set<Package>, isDiscarded: bool)
      requires m.path.Valid()
      modifies this`discarded
      ensures (into, isDiscarded) == Eligibility(Hit(autoDiscardRules), old(Now()), m, isExactMatch)
      ensures Now() == Queried(Hit(autoDiscardRules), old(Now()), m.path)
    {
      if m.path.fs in alreadyMatched {
        return alreadyMatched[m.path.fs].into, false;
      }
      var discardState: DiscardState;
      if m.path.fs in discarded {
        discardState := discarded[m.path.fs];
      } else {
        discardState := CheckPluginProvidedExcludeStateFor(m.path);
      }
      isDiscarded := discardState != NotDiscarded;
      if isExactMatch && discardState == DiscardedByPlugin {
        isDiscarded := false;
      }
      into := {};
    }

    /** The body of the loop over the matches. */
    method ReserveMatch(m: Match, exact: bool, reservedBy: set<Package>, definitionSource: string)
      returns (r: Result<Taken, MatchError>)
      requires m.path.Valid()
      modifies this
      ensures var taken := TakeOne(Hit(autoDiscardRules), old(Now()), m, exact, reservedBy != {}, definitionSource);
        match taken
        case Success(v) => r == Success(v.1) && Now() == v.0
        case Failure(e) => r == Failure(e)
    {
      var installedInto, isExcluded := MayMatch(m, exact);
      if installedInto != {} {
        return if exact then Failure(AlreadyInstalledOrDiscarded(m.path.fs, installedInto))
          else Success(AlreadyInstalled);
      }
      if isExcluded {
        return if exact then Failure(AlreadyInstalledOrDiscarded(m.path.fs, installedInto))
          else Success(AlreadyExcluded);
      }
      if exact {
        var twice := RequestExactly(m);
        if twice {
          return Failure(ExactMatchTwice(m.path.fs));
        }
      }
      if reservedBy != {} {
        alreadyMatched := alreadyMatched[m.path.fs := Owner(m.into, definitionSource)];
      } else {
        Exclude(m.path.fs);
      }
      r := Success(Reserved);
    }

    /** The loop over the packages of a match, in any order. */
    method RequestExactly(m: Match) returns (twice: bool)
      modifies this`exactMatchRequest
      ensures twice == RequestedBefore(old(Now()), m)
      ensures !twice ==> Now() == WithRequests(old(Now()), m)
    {
      var pending := m.into;
      ghost var before := exactMatchRequest;
      while pending != {}
        invariant pending <= m.into
        invariant exactMatchRequest == before + set pkg | pkg in m.into - pending :: (pkg, m.path.fs)
        invariant forall pkg :: pkg in m.into - pending ==> (pkg, m.path.fs) !in before
        decreases pending
      {
        var pkg :| pkg in pending;
        pending := pending - {pkg};
        if (pkg, m.path.fs) in exactMatchRequest {
          return true;
        }
        exactMatchRequest := exactMatchRequest + {(pkg, m.path.fs)};
      }
      assert m.into - pending == m.into;
      twice := false;
    }

    /** `find_and_reserve_all_matches`, for what the match rule finds in every search directory. */
    method FindAndReserveAllMatches(pattern: Pattern, exact: bool, dirs: seq<DirHits>, reservedBy: set<Package>,
                                    definitionSource: string)
      returns (r: Result<Tally, MatchError>)
      requires forall d, c :: d in dirs && c in d.hits ==> c.path.Valid()
      modifies this
      ensures var search := SearchAll(pattern, reservedBy, dirs);
        && ValidPaths(search.matches)
        && (match TakeAll(Hit(autoDiscardRules), old(Now()), search.matches, exact, reservedBy != {}, definitionSource)
            case Failure(e) => r == Failure(e)
            case Success(v) =>
              if search.rootMatched then r == Failure(MatchedRoot) else r == Success(v.1) && Now() == v.0)
    {
      var search := ResolvePath(pattern, dirs, reservedBy);
      MatchesValid(pattern, reservedBy, dirs);
      ghost var start := Now();
      var tally := Tally([], 0, 0);
      for i := 0 to |search.matches|
        invariant
          TakeAll(Hit(autoDiscardRules), start, search.matches[..i], exact, reservedBy != {}, definitionSource) ==
          Success((Now(), tally))
      {
        var m := search.matches[i];
        assert search.matches[..i + 1][..i] == search.matches[..i] && m in search.matches;
        var taken := ReserveMatch(m, exact, reservedBy, definitionSource);
        if taken.Failure? {
          FailureStays(Hit(autoDiscardRules), start, search.matches, i + 1, exact, reservedBy != {}, definitionSource);
          return Failure(taken.error);
        }
        tally := Counted(tally, m, taken.value);
      }
      assert search.matches[..|search.matches|] == search.matches;
      r := if search.rootMatched then Failure(MatchedRoot) else Success(tally);
    }

    /** `detect_missing`: all below a search directory that nobody has taken care of. */
    method DetectMissing(searchDir: SourcePath, tree: Source) returns (missing: seq<SourcePath>)
      requires searchDir.Valid() && WellFormed(tree)
      modifies this`discarded
      ensures Within(RootOf(searchDir), VisitEntries(Everything, searchDir, tree.entries))
      ensures missing == Unreserved(Hit(autoDiscardRules), old(Now()),
        VisitEntries(Everything, searchDir, tree.entries))
      ensures
        Ran(Hit(autoDiscardRules), old(Now()), DetectSteps(VisitEntries(Everything, searchDir, tree.entries)), Now())
      ensures SameReserved(Hit(autoDiscardRules), old(Now()), Now(), RootOf(searchDir))
      ensures Inv(old(Now())) ==> Inv(Now()) && Extends(old(Now()), Now())
      ensures alreadyMatched == old(alreadyMatched)
    {
      ghost var hit, st, root := Hit(autoDiscardRules), Now(), RootOf(searchDir);
      ghost var all, done := VisitEntries(Everything, searchDir, tree.entries), [];
      missing := [];
      var stack := KeptEntries(Everything, searchDir, tree.entries);
      hide *;
      StartOfDetection(hit, st, searchDir, tree);
      while stack != []
        invariant Detecting(hit, st, Now(), root, all, stack, missing) && alreadyMatched == old(alreadyMatched)
        invariant done + VisitStack(Everything, stack) == all && Ran(hit, st, DetectSteps(done), Now())
        decreases |VisitStack(Everything, stack)|
      {
        ghost var top := stack[|stack| - 1];
        stack, missing := DetectNext(stack, missing, st, root, all, done);
        done := done + [top];
      }
      EndOfDetection(hit, st, Now(), root, all, missing, done);
    }

    method DetectNext(stack: seq<Item>, missing: seq<SourcePath>,
                      ghost st: State, ghost root: FsPath, ghost all: seq<Item>, ghost done: seq<Item>)
      returns (stack': seq<Item>, missing': seq<SourcePath>)
      requires stack != [] && Detecting(Hit(autoDiscardRules), st, Now(), root, all, stack, missing)
      requires done + VisitStack(Everything, stack) == all && Ran(Hit(autoDiscardRules), st, DetectSteps(done), Now())
      modifies this`discarded
      ensures Detecting(Hit(autoDiscardRules), st, Now(), root, all, stack', missing')
      ensures var done' := done + [stack[|stack| - 1]];
        done' + VisitStack(Everything, stack') == all && Ran(Hit(autoDiscardRules), st, DetectSteps(done'), Now())
      ensures |VisitStack(Everything, stack')| < |VisitStack(Everything, stack)|
    {
      hide *;
      ghost var before := Now();
      TopDetected(Hit(autoDiscardRules), st, Now(), root, all, stack, missing);
      var m := stack[|stack| - 1];
      var children := KeptEntries(Everything, m.path, m.source.entries);
      stack' := stack[..|stack| - 1] + children;
      DetectedMore(Hit(autoDiscardRules), st, before, done, m);
      PopAndPush(Everything, stack);
      assert (done + [m]) + VisitStack(Everything, stack') == all;
      var found := DetectOne(m, children == [], st);
      MoreDetected(Hit(autoDiscardRules), st, Now(), root, all, stack, missing);
      missing' := missing + found;
    }

    /** Only what has nothing in it is looked at. */
    method DetectOne(m: Item, empty: bool, ghost st: State) returns (found: seq<SourcePath>)
      requires m.path.Valid() && SameReserved(Hit(autoDiscardRules), st, Now(), RootOf(m.path))
      requires WellFormed(m.source) && (empty <==> m.source.entries == [])
      modifies this`discarded
      ensures SameReserved(Hit(autoDiscardRules), st, Now(), RootOf(m.path))
      ensures found == Reported(Hit(autoDiscardRules), st, m)
      ensures Now() == Detected(Hit(autoDiscardRules), old(Now()), m)
    {
      found := [];
      if m.source.kind != IsDirectory || empty {
        QueriesReserveNothing(Hit(autoDiscardRules), st, Now(), m.path);
        assert ReservedAt(Hit(autoDiscardRules), Now(), m.path) <==> ReservedAt(Hit(autoDiscardRules), st, m.path);
        var reserved := IsReserved(m.path);
        if !reserved {
          found := [m.path];
        }
      }
    }
  }
}
