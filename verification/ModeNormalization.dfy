/** Normalising the modes of all paths: the first rule that matches a path decides.
    Rules may come up with the same path again, and the rule for anything goes through
    all paths twice; a path that has been seen is passed over. */
module ModeNormalization {
  import opened Strings

  type Path = string
  type Mode = nat

  datatype ModeError = NotComputable | BelowMinimum

  /** How a symbolic mode changes the mode of a path, if it can. */
  type FileSystemMode = (Mode, bool) -> Option<Mode>

  /** The owner can read it, and can do everything with a directory: `0o400` and `0o700`. */
  predicate HasMinimum(mode: Mode, isDir: bool) {
    if isDir then mode / 0x40 % 8 == 7 else mode / 0x100 % 2 == 1
  }

  /** Computing a mode and setting it; the setter refuses what is below the minimum. */
  function Changed(mode: FileSystemMode, before: Mode, isDir: bool): Result<Mode, ModeError> {
    match mode(before, isDir)
    case None => Failure(NotComputable)
    case Some(m) => if HasMinimum(m, isDir) then Success(m) else Failure(BelowMinimum)
  }

  /** What a rule matches: the rule for anything goes through all paths twice if it is told to ignore
      some, and the second time it ignores nothing. */
  datatype MatchRule = MatchAnything | Matching(paths: seq<Path>) {
    function FindIter(all: seq<Path>, ignored: set<Path>): seq<Path> {
      if MatchAnything? then Without(all, ignored) + all else Without(paths, ignored)
    }

    predicate Matches(all: seq<Path>, p: Path) {
      if MatchAnything? then p in all else p in paths
    }
  }

  function Without(paths: seq<Path>, ignored: set<Path>): seq<Path> {
    if paths == [] then []
    else if paths[0] in ignored then Without(paths[1..], ignored)
    else [paths[0]] + Without(paths[1..], ignored)
  }

  datatype Normalization = Normalization(rule: MatchRule, mode: FileSystemMode)

  datatype Tree = Tree(all: seq<Path>, dirs: set<Path>, symlinks: set<Path>, modes: map<Path, Mode>)

  /** The first rule that matches the path. */
  function FirstMatch(t: Tree, rules: seq<Normalization>, p: Path): (r: Option<nat>)
    ensures r.Some? ==> r.value < |rules|
  {
    if rules == [] then None
    else
      var before := FirstMatch(t, rules[..|rules| - 1], p);
      if before.Some? then before
      else if rules[|rules| - 1].rule.Matches(t.all, p) then Some(|rules| - 1)
      else None
  }

  /** No earlier rule matches. */
  lemma {:induction false} FirstMatchIsFirst(t: Tree, rules: seq<Normalization>, p: Path)
    ensures match FirstMatch(t, rules, p)
      case None => forall i :: 0 <= i < |rules| ==> !rules[i].rule.Matches(t.all, p)
      case Some(k) => rules[k].rule.Matches(t.all, p) && forall i :: 0 <= i < k ==> !rules[i].rule.Matches(t.all, p)
  {
    if rules != [] {
      FirstMatchIsFirst(t, rules[..|rules| - 1], p);
    }
  }

  /** The mode that a path is to have in the end. */
  function Normalized(t: Tree, rules: seq<Normalization>, p: Path): Result<Mode, ModeError>
    requires p in t.modes
  {
    var first := FirstMatch(t, rules, p);
    if p in t.symlinks || first.None? then Success(t.modes[p])
    else Changed(rules[first.value].mode, t.modes[p], p in t.dirs)
  }

  /** Of the nine permission bits, those for the owner are `owner`. */
  ghost predicate OwnerBits(mode: Mode, owner: nat, others: nat, high: nat) {
    owner < 8 && others < 0x40 && mode == 0x200 * high + 0x40 * owner + others
  }

  /** The minimum in terms of these: all of them for a directory, and the first one for anything else. */
  lemma MinimumMeans(mode: Mode, isDir: bool, owner: nat, others: nat, high: nat)
    requires OwnerBits(mode, owner, others, high)
    ensures HasMinimum(mode, isDir) <==> if isDir then owner == 7 else owner >= 4
  {
    assert mode / 0x40 == 8 * high + owner;
    assert (8 * high + owner) % 8 == owner;
    var upper := if owner < 4 then 0 else 1;
    assert mode / 0x100 == 2 * high + upper;
    assert (2 * high + upper) % 2 == upper;
  }

  ghost predicate Decides(t: Tree, rules: seq<Normalization>, p: Path, k: nat)
    requires k < |rules|
  {
    rules[k].rule.Matches(t.all, p) && forall i :: 0 <= i < k ==> !rules[i].rule.Matches(t.all, p)
  }

  /** What becomes of a path: nothing, if it is a symlink or no rule matches; else what the first rule that
      matches makes of it, if that can be computed and has the minimum. */
  lemma NormalizedMeans(t: Tree, rules: seq<Normalization>, p: Path, k: nat)
    requires p in t.modes
    ensures p in t.symlinks || (forall i :: 0 <= i < |rules| ==> !rules[i].rule.Matches(t.all, p)) ==>
      Normalized(t, rules, p) == Success(t.modes[p])
    ensures p !in t.symlinks && k < |rules| && Decides(t, rules, p, k) ==>
      match rules[k].mode(t.modes[p], p in t.dirs)
      case None => Normalized(t, rules, p) == Failure(NotComputable)
      case Some(m) =>
        Normalized(t, rules, p) == if HasMinimum(m, p in t.dirs) then Success(m) else Failure(BelowMinimum)
  {
    FirstMatchIsFirst(t, rules, p);
  }

  /** Later rules have no say in what an earlier one matches. */
  lemma {:induction false} FirstMatchStays(t: Tree, rules: seq<Normalization>, n: nat, p: Path)
    requires n <= |rules| && FirstMatch(t, rules[..n], p).Some?
    ensures FirstMatch(t, rules, p) == FirstMatch(t, rules[..n], p)
    decreases |rules|
  {
    if n == |rules| {
      assert rules[..n] == rules;
    } else {
      assert rules[..|rules| - 1][..n] == rules[..n];
      FirstMatchStays(t, rules[..|rules| - 1], n, p);
    }
  }

  lemma {:induction false} WithoutMeans(paths: seq<Path>, ignored: set<Path>, p: Path)
    ensures p in Without(paths, ignored) <==> p in paths && p !in ignored
  {
    if paths != [] {
      WithoutMeans(paths[1..], ignored, p);
      assert paths == [paths[0]] + paths[1..];
    }
  }

  lemma FindsWhatItMatches(t: Tree, rule: MatchRule, ignored: set<Path>, p: Path)
    ensures p in rule.FindIter(t.all, ignored) ==> rule.Matches(t.all, p)
    ensures rule.Matches(t.all, p) && p !in ignored ==> p in rule.FindIter(t.all, ignored)
  {
    WithoutMeans(t.all, ignored, p);
    if rule.Matching? {
      WithoutMeans(rule.paths, ignored, p);
    }
  }

  /** With a rule for anything at the end no path is missed. */
  lemma NothingMissed(t: Tree, rules: seq<Normalization>, p: Path)
    requires rules != [] && rules[|rules| - 1].rule.MatchAnything? && p in t.all
    ensures FirstMatch(t, rules, p).Some?
  {
  }

  /** A path has its final mode once it has been seen, and its original mode before that. */
  ghost predicate DoneWith(t: Tree, rules: seq<Normalization>, modes: map<Path, Mode>, seen: set<Path>, p: Path) {
    && p in t.modes && p in modes
    && Success(modes[p]) == if p in seen then Normalized(t, rules, p) else Success(t.modes[p])
  }

  /** The rules so far have seen what they match, other than symlinks. */
  ghost predicate SeenBy(t: Tree, rules: seq<Normalization>, seen: set<Path>, p: Path) {
    p in seen <==> p !in t.symlinks && FirstMatch(t, rules, p).Some?
  }

  ghost predicate Consistent(t: Tree, rules: seq<Normalization>) {
    && (forall p :: p in t.all ==> p in t.modes)
    && forall i, p :: 0 <= i < |rules| && rules[i].rule.Matches(t.all, p) ==> p in t.modes
  }

  ghost predicate WrittenOnce(written: seq<Path>, seen: set<Path>) {
    NoDuplicates(written) && forall p :: p in written <==> p in seen
  }

  /** A path that cannot be given the mode that the first matching rule makes for it. */
  ghost predicate Refused(t: Tree, rules: seq<Normalization>, p: Path, e: ModeError) {
    p in t.modes && Normalized(t, rules, p) == Failure(e)
  }

  /** What the rules so far have done. */
  ghost predicate Progress(t: Tree, rules: seq<Normalization>, modes: map<Path, Mode>, seen: set<Path>) {
    && modes.Keys == t.modes.Keys
    && (forall p {:trigger SeenBy(t, rules, seen, p)} :: SeenBy(t, rules, seen, p))
    && (forall p {:trigger DoneWith(t, rules, modes, seen, p)} :: p in t.modes ==> DoneWith(t, rules, modes, seen, p))
  }

  /** `transform_file_system`: every path but the symlinks gets the mode that the first matching rule
      makes of its original mode, and no mode is set twice; it fails exactly if such a mode cannot be
      computed or is below the minimum. */
  method TransformFileSystem(t: Tree, rules: seq<Normalization>)
    returns (r: Result<map<Path, Mode>, ModeError>, ghost written: seq<Path>)
    requires Consistent(t, rules)
    ensures r.Failure? ==> exists p :: Refused(t, rules, p, r.error)
    ensures r.Success? ==>
      r.value.Keys == t.modes.Keys && forall p :: p in r.value ==> Normalized(t, rules, p) == Success(r.value[p])
    ensures NoDuplicates(written)
    ensures forall p :: p in written ==> p !in t.symlinks && FirstMatch(t, rules, p).Some?
    ensures r.Success? ==> forall p :: p !in t.symlinks && FirstMatch(t, rules, p).Some? ==> p in written
  {
    var modes := t.modes;
    written := [];
    var seen: set<Path> := {};
    for i := 0 to |rules|
      invariant Progress(t, rules[..i], modes, seen) && WrittenOnce(written, seen)
    {
      var refused;
      modes, seen, refused, written := ApplyRule(t, rules, i, modes, seen, written);
      if refused.Some? {
        return Failure(refused.value), written;
      }
    }
    assert rules[..|rules|] == rules;
    forall p ensures p in seen <==> p !in t.symlinks && FirstMatch(t, rules, p).Some? {
      assert SeenBy(t, rules, seen, p);
    }
    forall p | p in modes ensures Normalized(t, rules, p) == Success(modes[p]) {
      assert DoneWith(t, rules, modes, seen, p);
    }
    r := Success(modes);
  }

  /** One path, some way through what the rule has found: it is as before or has just been seen. */
  ghost predicate Going(t: Tree, rule: Normalization, modes: map<Path, Mode>, seen: set<Path>, done: seq<Path>,
                        modes': map<Path, Mode>, seen': set<Path>, p: Path) {
    && (p in seen' <==> p in seen || (p in done && p !in t.symlinks))
    && (p in t.modes ==>
          && p in modes && p in modes'
          && Success(modes'[p]) == if p in seen' && p !in seen then Changed(rule.mode, t.modes[p], p in t.dirs)
            else Success(modes[p]))
  }

  /** What the rule comes up with is new or has been seen already. */
  lemma RuleFinds(t: Tree, rules: seq<Normalization>, n: nat, modes: map<Path, Mode>, seen: set<Path>, p: Path)
    requires Consistent(t, rules) && n < |rules| && Progress(t, rules[..n], modes, seen)
    ensures p in rules[n].rule.FindIter(t.all, seen) ==> p in t.modes
    ensures p in seen ==> p !in t.symlinks && FirstMatch(t, rules, p).Some?
    ensures p in rules[n].rule.FindIter(t.all, seen) && p !in t.symlinks && p !in seen ==>
      FirstMatch(t, rules, p) == Some(n)
  {
    assert SeenBy(t, rules[..n], seen, p);
    assert rules[..n + 1][..n] == rules[..n];
    FindsWhatItMatches(t, rules[n].rule, seen, p);
    if p in seen {
      FirstMatchStays(t, rules, n, p);
    } else if p in rules[n].rule.FindIter(t.all, seen) && p !in t.symlinks {
      FirstMatchStays(t, rules, n + 1, p);
    }
  }

  lemma RuleDone(t: Tree, rules: seq<Normalization>, n: nat, modes: map<Path, Mode>, seen: set<Path>,
                 modes': map<Path, Mode>, seen': set<Path>)
    requires n < |rules| && Progress(t, rules[..n], modes, seen)
    requires GoingAll(t, rules[n], modes, seen, rules[n].rule.FindIter(t.all, seen), modes', seen')
    ensures Progress(t, rules[..n + 1], modes', seen')
  {
    var next := rules[..n + 1];
    forall p ensures SeenBy(t, next, seen', p) {
      DoneAt(t, rules, n, modes, seen, modes', seen', p);
    }
    forall p | p in t.modes ensures DoneWith(t, rules[..n + 1], modes', seen', p) {
      DoneAt(t, rules, n, modes, seen, modes', seen', p);
    }
  }

  lemma DoneAt(t: Tree, rules: seq<Normalization>, n: nat, modes: map<Path, Mode>, seen: set<Path>,
               modes': map<Path, Mode>, seen': set<Path>, p: Path)
    requires n < |rules| && Progress(t, rules[..n], modes, seen)
    requires GoingAll(t, rules[n], modes, seen, rules[n].rule.FindIter(t.all, seen), modes', seen')
    ensures SeenBy(t, rules[..n + 1], seen', p)
    ensures p in t.modes ==> DoneWith(t, rules[..n + 1], modes', seen', p)
  {
    assert rules[..n + 1][..n] == rules[..n];
    assert Going(t, rules[n], modes, seen, rules[n].rule.FindIter(t.all, seen), modes', seen', p);
    assert SeenBy(t, rules[..n], seen, p);
    assert p in t.modes ==> DoneWith(t, rules[..n], modes, seen, p);
    FindsWhatItMatches(t, rules[n].rule, seen, p);
  }

  lemma SeenMatch(t: Tree, rules: seq<Normalization>, n: nat, modes: map<Path, Mode>, seen: set<Path>, i: nat,
                  modes': map<Path, Mode>, seen': set<Path>)
    requires Consistent(t, rules) && n < |rules| && Progress(t, rules[..n], modes, seen)
    requires i <= |rules[n].rule.FindIter(t.all, seen)|
    requires GoingAll(t, rules[n], modes, seen, rules[n].rule.FindIter(t.all, seen)[..i], modes', seen')
    ensures forall p :: p in seen' ==> p !in t.symlinks && FirstMatch(t, rules, p).Some?
  {
    forall p | p in seen' ensures p !in t.symlinks && FirstMatch(t, rules, p).Some? {
      assert Going(t, rules[n], modes, seen, rules[n].rule.FindIter(t.all, seen)[..i], modes', seen', p);
      RuleFinds(t, rules, n, modes, seen, p);
    }
  }

  ghost predicate GoingAll(t: Tree, rule: Normalization, modes: map<Path, Mode>, seen: set<Path>, done: seq<Path>,
                           modes': map<Path, Mode>, seen': set<Path>) {
    && modes'.Keys == t.modes.Keys
    && forall p {:trigger Going(t, rule, modes, seen, done, modes', seen', p)} ::
      Going(t, rule, modes, seen, done, modes', seen', p)
  }

  lemma StartOfRule(t: Tree, rules: seq<Normalization>, n: nat, modes: map<Path, Mode>, seen: set<Path>)
    requires n < |rules| && Progress(t, rules[..n], modes, seen)
    ensures GoingAll(t, rules[n], modes, seen, [], modes, seen)
  {
  }

  /** The next path of a rule: passed over, or given its mode. */
  lemma GoesOn(t: Tree, rule: Normalization, modes: map<Path, Mode>, seen: set<Path>, done: seq<Path>,
               modes': map<Path, Mode>, seen': set<Path>, path: Path)
    requires GoingAll(t, rule, modes, seen, done, modes', seen') && path in t.modes
    ensures path in t.symlinks || path in seen' ==> GoingAll(t, rule, modes, seen, done + [path], modes', seen')
    ensures path !in t.symlinks && path !in seen' ==>
      var changed := Changed(rule.mode, modes'[path], path in t.dirs);
      && path in modes && path !in seen && modes'[path] == modes[path]
      && (changed.Success? && modes[path] == t.modes[path] ==>
            GoingAll(t, rule, modes, seen, done + [path], modes'[path := changed.value], seen' + {path}))
  {
    hide Changed;
    assert Going(t, rule, modes, seen, done, modes', seen', path);
    if path in t.symlinks || path in seen' {
      forall p ensures Going(t, rule, modes, seen, done + [path], modes', seen', p) {
        assert Going(t, rule, modes, seen, done, modes', seen', p);
      }
    } else if Changed(rule.mode, modes'[path], path in t.dirs).Success? && modes[path] == t.modes[path] {
      var changed := Changed(rule.mode, modes'[path], path in t.dirs).value;
      var modes'', seen'' := modes'[path := changed], seen' + {path};
      forall p ensures Going(t, rule, modes, seen, done + [path], modes'', seen'', p) {
        assert Going(t, rule, modes, seen, done, modes', seen', p);
      }
    }
  }

  /** One rule: what has been seen, by this rule or by an earlier one, is passed over. */
  method ApplyRule(t: Tree, rules: seq<Normalization>, n: nat, modes: map<Path, Mode>, seen: set<Path>,
                   ghost written: seq<Path>)
    returns (modes': map<Path, Mode>, seen': set<Path>, refused: Option<ModeError>, ghost written': seq<Path>)
    requires Consistent(t, rules) && n < |rules|
    requires Progress(t, rules[..n], modes, seen) && WrittenOnce(written, seen)
    ensures WrittenOnce(written', seen') && forall p :: p in seen' ==> p !in t.symlinks && FirstMatch(t, rules, p).Some?
    ensures match refused
      case None => Progress(t, rules[..n + 1], modes', seen')
      case Some(e) => exists p :: Refused(t, rules, p, e)
  {
    hide FirstMatch, Going, Progress, Consistent, Changed;
    var found := rules[n].rule.FindIter(t.all, seen);
    modes', seen', refused, written' := modes, seen, None, written;
    StartOfRule(t, rules, n, modes, seen);
    for i := 0 to |found|
      invariant GoingAll(t, rules[n], modes, seen, found[..i], modes', seen') && WrittenOnce(written', seen')
    {
      var path := found[i];
      assert found[..i + 1] == found[..i] + [path] && path in found;
      RuleFinds(t, rules, n, modes, seen, path);
      GoesOn(t, rules[n], modes, seen, found[..i], modes', seen', path);
      if path in t.symlinks || path in seen' {
        continue;
      }
      FirstSeen(t, rules, n, modes, seen, path);
      var changed := Changed(rules[n].mode, modes'[path], path in t.dirs);
      if changed.Failure? {
        assert Refused(t, rules, path, changed.error);
        SeenMatch(t, rules, n, modes, seen, i, modes', seen');
        refused := Some(changed.error);
        return;
      }
      seen' := seen' + {path};
      written' := written' + [path];
      modes' := modes'[path := changed.value];
    }
    SeenMatch(t, rules, n, modes, seen, |found|, modes', seen');
    assert found[..|found|] == found;
    RuleDone(t, rules, n, modes, seen, modes', seen');
  }

  lemma FirstSeen(t: Tree, rules: seq<Normalization>, n: nat, modes: map<Path, Mode>, seen: set<Path>, p: Path)
    requires n < |rules| && Progress(t, rules[..n], modes, seen) && p in t.modes && p !in seen
    ensures p in modes && modes[p] == t.modes[p]
  {
    assert DoneWith(t, rules[..n], modes, seen, p);
  }
}
