/** Migrating dh_install lines; a source that several lines name gets a rule of its own. */
module DhInstallMigration {
  import opened Strings
  import opened BasenameGlob

  type Condition = string

  /** A line without `=>`, its paths normalised; the destination may be missing. */
  datatype Line = Line(sources: seq<string>, destDir: Option<string>, conditional: Option<Condition>) {
    /** Neither destination nor condition. */
    predicate Plain() {
      destDir.None? && conditional.None?
    }

    function At(): Dest {
      Dest(destDir, conditional)
    }
  }

  datatype Dest = Dest(destDir: Option<string>, conditional: Option<Condition>)

  /** The sources of all lines with the same destination and condition. */
  datatype Group = Group(at: Dest, sources: seq<string>)

  datatype MultiDest = MultiDest(source: string, dests: seq<Dest>)

  datatype Rule =
    | InstallDest(sources: seq<string>, destDir: Option<string>, when: Option<Condition>)
    | MultiDestInstall(source: string, destDirs: seq<Option<string>>, when: Option<Condition>)
  {
    predicate Names(s: string) {
      if InstallDest? then s in sources else s == source
    }

    predicate Places(s: string, d: Option<string>) {
      if InstallDest? then s in sources && d == destDir else s == source && d in destDirs
    }
  }

  // ------------------------------------------------------------------ reading the lines

  /** What has been gathered from the lines so far. */
  datatype Gathered = Gathered(groups: seq<Group>, current: seq<string>, seen: set<string>, multi: set<string>)

  /** `_fetch_or_create` and `extend`: groups stay in the order in which they came up. */
  function Extended(groups: seq<Group>, at: Dest, sources: seq<string>): seq<Group> {
    if groups == [] then [Group(at, sources)]
    else if groups[0].at == at then [Group(at, groups[0].sources + sources)] + groups[1..]
    else [groups[0]] + Extended(groups[1..], at, sources)
  }

  function AddLine(g: Gathered, l: Line): Gathered {
    var multi := g.multi + set s | s in l.sources && s in g.seen;
    var seen := g.seen + set s | s in l.sources;
    if l.Plain() then Gathered(g.groups, g.current + l.sources, seen, multi)
    else Gathered(Extended(g.groups, l.At(), l.sources), g.current, seen, multi)
  }

  function Gather(lines: seq<Line>): Gathered {
    if lines == [] then Gathered([], [], {}, {}) else AddLine(Gather(lines[..|lines| - 1]), lines[|lines| - 1])
  }

  ghost predicate NamedOn(lines: seq<Line>, i: int, s: string) {
    0 <= i < |lines| && s in lines[i].sources
  }

  /** Two lines name the source. */
  ghost predicate Repeated(lines: seq<Line>, s: string) {
    exists i, j :: i < j && NamedOn(lines, i, s) && NamedOn(lines, j, s)
  }

  lemma {:induction false} GatherMeans(lines: seq<Line>, s: string)
    ensures s in Gather(lines).seen <==> exists i :: NamedOn(lines, i, s)
    ensures s in Gather(lines).multi <==> Repeated(lines, s)
    ensures s in Gather(lines).current <==> exists i :: NamedOn(lines, i, s) && lines[i].Plain()
  {
    if lines != [] {
      var front, n := lines[..|lines| - 1], |lines| - 1;
      GatherMeans(front, s);
      assert forall i :: NamedOn(lines, i, s) <==> NamedOn(front, i, s) || (i == n && s in lines[n].sources);
      if s in lines[n].sources {
        assert NamedOn(lines, n, s);
      }
    }
  }

  ghost predicate HasKey(groups: seq<Group>, at: Dest) {
    exists i :: 0 <= i < |groups| && groups[i].at == at
  }

  ghost predicate InGroup(groups: seq<Group>, at: Dest, s: string) {
    exists g :: g in groups && g.at == at && s in g.sources
  }

  ghost predicate KeysDiffer(groups: seq<Group>) {
    forall i, j :: 0 <= i < j < |groups| ==> groups[i].at != groups[j].at
  }

  lemma {:induction false} ExtendedMeans(groups: seq<Group>, at: Dest, sources: seq<string>, d: Dest, s: string)
    ensures InGroup(Extended(groups, at, sources), d, s) <==> InGroup(groups, d, s) || (d == at && s in sources)
  {
    var e := Extended(groups, at, sources);
    if groups != [] {
      ExtendedMeans(groups[1..], at, sources, d, s);
      hide InGroup;
      assert e[1..] == if groups[0].at == at then groups[1..] else Extended(groups[1..], at, sources);
    }
  }

  lemma {:induction false} ExtendedDiffer(groups: seq<Group>, at: Dest, sources: seq<string>)
    requires KeysDiffer(groups)
    ensures KeysDiffer(Extended(groups, at, sources))
    ensures forall k :: 0 <= k < |Extended(groups, at, sources)| ==>
      Extended(groups, at, sources)[k].at == at || HasKey(groups, Extended(groups, at, sources)[k].at)
  {
    if groups != [] {
      var rest, first := groups[1..], groups[0];
      ExtendedDiffer(rest, at, sources);
      var more := Extended(rest, at, sources);
      if first.at != at {
        forall k | 0 <= k < |more| ensures first.at != more[k].at && (more[k].at == at || HasKey(groups, more[k].at)) {
          if i :| 0 <= i < |rest| && rest[i].at == more[k].at {
            assert groups[i + 1].at == more[k].at;
          }
        }
      }
    }
  }

  ghost predicate PlacedOn(lines: seq<Line>, i: int, at: Dest, s: string) {
    NamedOn(lines, i, s) && !lines[i].Plain() && at == lines[i].At()
  }

  lemma {:induction false} GroupsMean(lines: seq<Line>, at: Dest, s: string)
    ensures InGroup(Gather(lines).groups, at, s) <==> exists i :: PlacedOn(lines, i, at, s)
    ensures KeysDiffer(Gather(lines).groups)
  {
    if lines != [] {
      var front, n := lines[..|lines| - 1], |lines| - 1;
      GroupsMean(front, at, s);
      ExtendedMeans(Gather(front).groups, lines[n].At(), lines[n].sources, at, s);
      ExtendedDiffer(Gather(front).groups, lines[n].At(), lines[n].sources);
      hide InGroup, KeysDiffer, Extended;
      assert forall i :: PlacedOn(lines, i, at, s) <==>
        PlacedOn(front, i, at, s) || (i == n && PlacedOn(lines, n, at, s));
      if PlacedOn(lines, n, at, s) {
        assert s in lines[n].sources;
      }
    }
  }

  predicate GoesTo(l: Line, at: Dest) {
    !l.Plain() && l.At() == at
  }

  /** The sources of the lines for one destination and condition, one line after the other. */
  function SourcesAt(lines: seq<Line>, at: Dest): seq<string> {
    if lines == [] then []
    else
      var last := lines[|lines| - 1];
      SourcesAt(lines[..|lines| - 1], at) + if GoesTo(last, at) then last.sources else []
  }

  function SourcesIn(groups: seq<Group>, at: Dest): seq<string> {
    if groups == [] then []
    else if groups[0].at == at then groups[0].sources
    else SourcesIn(groups[1..], at)
  }

  lemma {:induction false} ExtendedSources(groups: seq<Group>, at: Dest, sources: seq<string>, d: Dest)
    ensures SourcesIn(Extended(groups, at, sources), d) == SourcesIn(groups, d) + if d == at then sources else []
  {
    if groups != [] {
      ExtendedSources(groups[1..], at, sources, d);
      var e := Extended(groups, at, sources);
      assert e[1..] == if groups[0].at == at then groups[1..] else Extended(groups[1..], at, sources);
    }
  }

  /** A group has just these sources, in this order. */
  lemma {:induction false} GroupSources(lines: seq<Line>, d: Dest)
    ensures SourcesIn(Gather(lines).groups, d) == SourcesAt(lines, d)
  {
    if lines != [] {
      var front, last := lines[..|lines| - 1], lines[|lines| - 1];
      GroupSources(front, d);
      ExtendedSources(Gather(front).groups, last.At(), last.sources, d);
    }
  }

  /** Where the key of a group is, among the others. */
  lemma {:induction false} ExtendedOrder(groups: seq<Group>, at: Dest, sources: seq<string>, k: nat)
    requires k < |Extended(groups, at, sources)|
    ensures |groups| <= |Extended(groups, at, sources)| <= |groups| + 1
    ensures k < |groups| ==> Extended(groups, at, sources)[k].at == groups[k].at
    ensures k == |groups| ==> Extended(groups, at, sources)[k].at == at && !HasKey(groups, at)
  {
    if groups != [] && groups[0].at != at && k > 0 {
      ExtendedOrder(groups[1..], at, sources, k - 1);
      assert forall i :: 0 < i < |groups| ==> groups[1..][i - 1] == groups[i];
      if i :| 0 <= i < |groups| && groups[i].at == at {
        assert groups[1..][i - 1].at == at;
      }
    } else if groups != [] && groups[0].at != at {
      assert |Extended(groups, at, sources)| == 1 + |Extended(groups[1..], at, sources)|;
      ExtendedOrder(groups[1..], at, sources, 0);
    }
  }

  lemma {:induction false} ExtendedKeys(groups: seq<Group>, at: Dest, sources: seq<string>, d: Dest)
    ensures HasKey(Extended(groups, at, sources), d) <==> HasKey(groups, d) || d == at
  {
    var e := Extended(groups, at, sources);
    if groups == [] {
      assert e[0].at == at;
    } else {
      ExtendedKeys(groups[1..], at, sources, d);
      KeyInRest(groups, d);
      KeyInRest(e, d);
      assert e[1..] == if groups[0].at == at then groups[1..] else Extended(groups[1..], at, sources);
    }
  }

  lemma KeyInRest(groups: seq<Group>, d: Dest)
    requires groups != []
    ensures HasKey(groups, d) <==> groups[0].at == d || HasKey(groups[1..], d)
  {
    if i :| 0 <= i < |groups| && groups[i].at == d {
      assert i > 0 ==> groups[1..][i - 1].at == d;
    }
    if i :| 0 <= i < |groups[1..]| && groups[1..][i].at == d {
      assert groups[i + 1].at == d;
    }
  }

  lemma {:induction false} KeysAreLines(lines: seq<Line>, d: Dest)
    ensures HasKey(Gather(lines).groups, d) <==> exists m :: 0 <= m < |lines| && GoesTo(lines[m], d)
  {
    if lines != [] {
      var front, last := lines[..|lines| - 1], lines[|lines| - 1];
      KeysAreLines(front, d);
      ExtendedKeys(Gather(front).groups, last.At(), last.sources, d);
      hide HasKey, Extended;
      if m :| 0 <= m < |front| && GoesTo(front[m], d) {
        assert GoesTo(lines[m], d);
      }
      if GoesTo(last, d) {
        assert GoesTo(lines[|lines| - 1], d);
      }
    }
  }

  /** Groups come in the order of the first lines for them. */
  lemma {:induction false} GroupsInOrder(lines: seq<Line>, i: nat, j: nat) returns (l: nat)
    requires i < j < |Gather(lines).groups|
    ensures l < |lines| && GoesTo(lines[l], Gather(lines).groups[i].at)
    ensures forall m :: 0 <= m < |lines| && GoesTo(lines[m], Gather(lines).groups[j].at) ==> l < m
  {
    var front, last := lines[..|lines| - 1], lines[|lines| - 1];
    var before, groups := Gather(front).groups, Gather(lines).groups;
    if !last.Plain() {
      ExtendedOrder(before, last.At(), last.sources, i);
      ExtendedOrder(before, last.At(), last.sources, j);
    }
    if j < |before| {
      l := GroupsInOrder(front, i, j);
      assert lines[l] == front[l];
      assert forall m :: 0 <= m < |front| ==> lines[m] == front[m];
    } else {
      KeysAreLines(front, groups[i].at);
      KeysAreLines(front, groups[j].at);
      assert HasKey(before, before[i].at);
      var k :| 0 <= k < |front| && GoesTo(front[k], groups[i].at);
      l := k;
      assert forall m :: 0 <= m < |front| ==> lines[m] == front[m];
    }
  }

  // ------------------------------------------------------------------ writing the rules

  /** The sources that are, or are not, named on several lines. */
  function Only(sources: seq<string>, multi: set<string>, repeated: bool): seq<string> {
    if sources == [] then []
    else
      var last := sources[|sources| - 1];
      Only(sources[..|sources| - 1], multi, repeated) + if (last in multi) == repeated then [last] else []
  }

  lemma {:induction false} OnlyMeans(sources: seq<string>, multi: set<string>, repeated: bool, s: string)
    ensures s in Only(sources, multi, repeated) <==> s in sources && (s in multi <==> repeated)
  {
    if sources != [] {
      OnlyMeans(sources[..|sources| - 1], multi, repeated, s);
      assert sources == sources[..|sources| - 1] + [sources[|sources| - 1]];
    }
  }

  lemma {:induction false} OnlyNone(sources: seq<string>)
    ensures Only(sources, {}, false) == sources
  {
    if sources != [] {
      OnlyNone(sources[..|sources| - 1]);
      assert sources == sources[..|sources| - 1] + [sources[|sources| - 1]];
    }
  }

  /** A destination more for one source; sources stay in the order in which they came up. */
  function Appended(multi: seq<MultiDest>, s: string, dest: Dest): seq<MultiDest> {
    if multi == [] then [MultiDest(s, [dest])]
    else if multi[0].source == s then [MultiDest(s, multi[0].dests + [dest])] + multi[1..]
    else [multi[0]] + Appended(multi[1..], s, dest)
  }

  function DestsOf(multi: seq<MultiDest>, s: string): seq<Dest> {
    if multi == [] then []
    else if multi[0].source == s then multi[0].dests
    else DestsOf(multi[1..], s)
  }

  ghost predicate SourcesDiffer(multi: seq<MultiDest>) {
    && (forall i, j :: 0 <= i < j < |multi| ==> multi[i].source != multi[j].source)
    && (forall i :: 0 <= i < |multi| ==> multi[i].dests != [])
  }

  lemma {:induction false} AppendedMeans(multi: seq<MultiDest>, s: string, dest: Dest, x: string)
    requires SourcesDiffer(multi)
    ensures SourcesDiffer(Appended(multi, s, dest))
    ensures DestsOf(Appended(multi, s, dest), x) == DestsOf(multi, x) + if x == s then [dest] else []
    ensures forall k :: 0 <= k < |Appended(multi, s, dest)| ==>
      var source := Appended(multi, s, dest)[k].source;
      source == s || exists i :: 0 <= i < |multi| && multi[i].source == source
  {
    if multi != [] {
      var rest, first := multi[1..], multi[0];
      AppendedMeans(rest, s, dest, x);
      var more := Appended(rest, s, dest);
      if first.source != s {
        forall k | 0 <= k < |more|
          ensures first.source != more[k].source
          ensures more[k].source == s || exists i :: 0 <= i < |multi| && multi[i].source == more[k].source
        {
          if i :| 0 <= i < |rest| && rest[i].source == more[k].source {
            assert multi[i + 1].source == more[k].source;
          }
        }
      }
    }
  }

  function AppendAll(multi: seq<MultiDest>, sources: seq<string>, dest: Dest): seq<MultiDest> {
    if sources == [] then multi
    else Appended(AppendAll(multi, sources[..|sources| - 1], dest), sources[|sources| - 1], dest)
  }

  function FromGroups(groups: seq<Group>, names: set<string>): seq<MultiDest> {
    if groups == [] then []
    else
      var last := groups[|groups| - 1];
      AppendAll(FromGroups(groups[..|groups| - 1], names), Only(last.sources, names, true), last.at)
  }

  predicate HasGlobMagic(pattern: string) {
    HasMagic(pattern) || '{' in pattern
  }

  /** The destination of a source without one: the directory that it comes from. */
  function OwnDir(s: string): string {
    var dir := Dirname(s);
    if HasGlobMagic(dir) then "FIXME: " + dir + " (could not reliably compute the dest dir)" else dir
  }

  /** For a source in a directory without glob characters it is that directory, and else a note. */
  lemma OwnDirMeans(dir: seq<string>, name: string)
    requires AllSegments(dir) && SlashFree(name)
    ensures var path := Join(dir);
      OwnDir(Join(dir + [name])) ==
        if '*' in path || '?' in path || '[' in path || '{' in path
        then "FIXME: " + path + " (could not reliably compute the dest dir)" else path
  {
    DirnameOfJoin(dir, name);
    var path := Join(dir);
    if HasMagic(path) {
      var i :| 0 <= i < |path| && IsMagic(path[i]);
      assert path[i] in path;
    }
    if c :| c in path && c in {'*', '?', '['} {
      var i :| 0 <= i < |path| && path[i] == c;
      assert IsMagic(path[i]);
    }
  }

  function FromCurrent(multi: seq<MultiDest>, sources: seq<string>): seq<MultiDest> {
    if sources == [] then multi
    else
      var last := sources[|sources| - 1];
      Appended(FromCurrent(multi, sources[..|sources| - 1]), last, Dest(Some(OwnDir(last)), None))
  }

  function AllMulti(g: Gathered): seq<MultiDest> {
    FromCurrent(FromGroups(g.groups, g.multi), Only(g.current, g.multi, true))
  }

  lemma {:induction false} AppendAllMeans(multi: seq<MultiDest>, sources: seq<string>, dest: Dest, x: string, d: Dest)
    requires SourcesDiffer(multi)
    ensures SourcesDiffer(AppendAll(multi, sources, dest))
    ensures d in DestsOf(AppendAll(multi, sources, dest), x) <==> d in DestsOf(multi, x) || (d == dest && x in sources)
  {
    hide Appended, DestsOf, SourcesDiffer;
    if sources != [] {
      var front, last := sources[..|sources| - 1], sources[|sources| - 1];
      AppendAllMeans(multi, front, dest, x, d);
      AppendedMeans(AppendAll(multi, front, dest), last, dest, x);
    }
  }

  lemma {:induction false} FromGroupsMeans(groups: seq<Group>, names: set<string>, x: string, d: Dest)
    ensures SourcesDiffer(FromGroups(groups, names))
    ensures d in DestsOf(FromGroups(groups, names), x) <==> x in names && InGroup(groups, d, x)
  {
    if groups != [] {
      var front, last := groups[..|groups| - 1], groups[|groups| - 1];
      FromGroupsMeans(front, names, x, d);
      AppendAllMeans(FromGroups(front, names), Only(last.sources, names, true), last.at, x, d);
      OnlyMeans(last.sources, names, true, x);
      assert groups == front + [last];
    }
  }

  lemma {:induction false} FromCurrentMeans(multi: seq<MultiDest>, sources: seq<string>, x: string, d: Dest)
    requires SourcesDiffer(multi)
    ensures SourcesDiffer(FromCurrent(multi, sources))
    ensures d in DestsOf(FromCurrent(multi, sources), x) <==>
      d in DestsOf(multi, x) || (x in sources && d == Dest(Some(OwnDir(x)), None))
  {
    hide Appended, DestsOf, SourcesDiffer, OwnDir;
    if sources != [] {
      var front, last := sources[..|sources| - 1], sources[|sources| - 1];
      FromCurrentMeans(multi, front, x, d);
      AppendedMeans(FromCurrent(multi, front), last, Dest(Some(OwnDir(last)), None), x);
    }
  }

  /** The destinations of a source that several lines name. */
  lemma AllMultiMeans(g: Gathered, x: string, d: Dest)
    ensures SourcesDiffer(AllMulti(g))
    ensures d in DestsOf(AllMulti(g), x) <==>
      x in g.multi && (InGroup(g.groups, d, x) || (x in g.current && d == Dest(Some(OwnDir(x)), None)))
  {
    FromGroupsMeans(g.groups, g.multi, x, d);
    FromCurrentMeans(FromGroups(g.groups, g.multi), Only(g.current, g.multi, true), x, d);
    OnlyMeans(g.current, g.multi, true, x);
  }

  function RuleOf(sources: seq<string>, at: Dest): seq<Rule> {
    if sources == [] then [] else [InstallDest(sources, at.destDir, at.conditional)]
  }

  function GroupRules(groups: seq<Group>, multi: set<string>): seq<Rule> {
    if groups == [] then []
    else
      var last := groups[|groups| - 1];
      GroupRules(groups[..|groups| - 1], multi) + RuleOf(Only(last.sources, multi, false), last.at)
  }

  /** Whatever condition comes first is taken to be the condition of all. */
  function FirstCondition(dests: seq<Dest>): Option<Condition> {
    if dests == [] then None
    else if dests[0].conditional.Some? then dests[0].conditional
    else FirstCondition(dests[1..])
  }

  function DirsOf(dests: seq<Dest>): (dirs: seq<Option<string>>)
    ensures |dirs| == |dests| && forall i :: 0 <= i < |dirs| ==> dirs[i] == dests[i].destDir
  {
    seq(|dests|, i requires 0 <= i < |dests| => dests[i].destDir)
  }

  function MultiRule(m: MultiDest): Rule {
    MultiDestInstall(m.source, DirsOf(m.dests), FirstCondition(m.dests))
  }

  function MultiRules(multi: seq<MultiDest>): (rules: seq<Rule>)
    ensures |rules| == |multi| && forall i :: 0 <= i < |rules| ==> rules[i] == MultiRule(multi[i])
  {
    seq(|multi|, i requires 0 <= i < |multi| => MultiRule(multi[i]))
  }

  function RulesFor(g: Gathered): seq<Rule> {
    GroupRules(g.groups, g.multi) + RuleOf(Only(g.current, g.multi, false), Dest(None, None)) + MultiRules(AllMulti(g))
  }

  // -------------------------------------------------------------- nothing lost, nothing twice

  ghost predicate Placed(rules: seq<Rule>, s: string, d: Option<string>) {
    exists r :: r in rules && r.Places(s, d)
  }

  lemma {:induction false} GroupRulesPlace(groups: seq<Group>, multi: set<string>, s: string, d: Option<string>)
    ensures Placed(GroupRules(groups, multi), s, d) <==> s !in multi && exists c :: InGroup(groups, Dest(d, c), s)
  {
    if groups != [] {
      var front, last := groups[..|groups| - 1], groups[|groups| - 1];
      GroupRulesPlace(front, multi, s, d);
      OnlyMeans(last.sources, multi, false, s);
      assert groups == front + [last];
      assert forall c :: InGroup(groups, Dest(d, c), s) <==>
        InGroup(front, Dest(d, c), s) || (last.at == Dest(d, c) && s in last.sources);
      assert last.at == Dest(last.at.destDir, last.at.conditional);
      RuleOfPlaces(Only(last.sources, multi, false), last.at, s, d);
    }
  }

  /** One rule for each group with sources left, in the order of the groups. */
  lemma {:induction false} GroupRulesInOrder(groups: seq<Group>, multi: set<string>, a: nat, b: nat)
    returns (i: nat, j: nat)
    requires a < b < |GroupRules(groups, multi)|
    ensures var rules := GroupRules(groups, multi);
      && i < j < |groups|
      && rules[a] == InstallDest(Only(groups[i].sources, multi, false), groups[i].at.destDir, groups[i].at.conditional)
      && rules[b] == InstallDest(Only(groups[j].sources, multi, false), groups[j].at.destDir, groups[j].at.conditional)
  {
    var front, last := groups[..|groups| - 1], |groups| - 1;
    if b < |GroupRules(front, multi)| {
      i, j := GroupRulesInOrder(front, multi, a, b);
    } else {
      i := GroupRuleAt(front, multi, a);
      j := last;
    }
  }

  lemma {:induction false} GroupRuleAt(groups: seq<Group>, multi: set<string>, a: nat) returns (i: nat)
    requires a < |GroupRules(groups, multi)|
    ensures i < |groups| && GroupRules(groups, multi)[a] ==
      InstallDest(Only(groups[i].sources, multi, false), groups[i].at.destDir, groups[i].at.conditional)
  {
    var front, last := groups[..|groups| - 1], |groups| - 1;
    if a < |GroupRules(front, multi)| {
      i := GroupRuleAt(front, multi, a);
    } else {
      i := last;
    }
  }

  lemma RuleOfPlaces(sources: seq<string>, at: Dest, s: string, d: Option<string>)
    ensures Placed(RuleOf(sources, at), s, d) <==> s in sources && d == at.destDir
  {
    if s in sources && d == at.destDir {
      assert RuleOf(sources, at)[0].Places(s, d);
    }
  }

  lemma {:induction false} DestsAt(multi: seq<MultiDest>, s: string, i: nat)
    requires SourcesDiffer(multi) && i < |multi| && multi[i].source == s
    ensures DestsOf(multi, s) == multi[i].dests
  {
    if i > 0 {
      DestsAt(multi[1..], s, i - 1);
    }
  }

  lemma {:induction false} DestsThere(multi: seq<MultiDest>, s: string) returns (i: nat)
    requires DestsOf(multi, s) != []
    ensures i < |multi| && multi[i].source == s && multi[i].dests == DestsOf(multi, s)
  {
    if multi[0].source == s {
      i := 0;
    } else {
      i := DestsThere(multi[1..], s);
      i := i + 1;
    }
  }

  lemma MultiRulesPlace(multi: seq<MultiDest>, s: string, d: Option<string>)
    requires SourcesDiffer(multi)
    ensures Placed(MultiRules(multi), s, d) <==> exists dest :: dest in DestsOf(multi, s) && dest.destDir == d
  {
    if r :| r in MultiRules(multi) && r.Places(s, d) {
      var i :| 0 <= i < |multi| && r == MultiRule(multi[i]);
      DestsAt(multi, s, i);
      var k :| 0 <= k < |multi[i].dests| && DirsOf(multi[i].dests)[k] == d;
      assert multi[i].dests[k] in DestsOf(multi, s);
    }
    if dest :| dest in DestsOf(multi, s) && dest.destDir == d {
      var i := DestsThere(multi, s);
      var k :| 0 <= k < |multi[i].dests| && multi[i].dests[k] == dest;
      assert DirsOf(multi[i].dests)[k] == d;
      assert MultiRules(multi)[i].Places(s, d);
    }
  }

  /** Where a source of a line goes: where the line says, except that a source without destination
      and condition that other lines name too goes to the directory that it comes from. */
  ghost function Destination(lines: seq<Line>, i: int, s: string): Option<string>
    requires 0 <= i < |lines|
  {
    if lines[i].Plain() && Repeated(lines, s) then Some(OwnDir(s)) else lines[i].destDir
  }

  /** The rules place exactly what the lines place. */
  lemma PlacesExactly(lines: seq<Line>, s: string, d: Option<string>)
    ensures Placed(RulesFor(Gather(lines)), s, d) <==> exists i :: NamedOn(lines, i, s) && d == Destination(lines, i, s)
  {
    var g := Gather(lines);
    GatherMeans(lines, s);
    GroupRulesPlace(g.groups, g.multi, s, d);
    OnlyMeans(g.current, g.multi, false, s);
    RuleOfPlaces(Only(g.current, g.multi, false), Dest(None, None), s, d);
    AllMultiMeans(g, s, Dest(None, None));
    MultiRulesPlace(AllMulti(g), s, d);
    InSomeGroup(lines, s, d);
    InSomeMulti(lines, s, d);
    hide Placed, RulesFor, GroupRules, RuleOf, Only, AllMulti, MultiRules, Repeated, OwnDir, Gather;
  }

  lemma InSomeGroup(lines: seq<Line>, s: string, d: Option<string>)
    ensures (exists c :: InGroup(Gather(lines).groups, Dest(d, c), s)) <==>
      exists i :: NamedOn(lines, i, s) && !lines[i].Plain() && lines[i].destDir == d
  {
    if c :| InGroup(Gather(lines).groups, Dest(d, c), s) {
      GroupsMean(lines, Dest(d, c), s);
      var i :| PlacedOn(lines, i, Dest(d, c), s);
      assert NamedOn(lines, i, s);
    }
    if i :| NamedOn(lines, i, s) && !lines[i].Plain() && lines[i].destDir == d {
      GroupsMean(lines, lines[i].At(), s);
      assert PlacedOn(lines, i, lines[i].At(), s);
      assert InGroup(Gather(lines).groups, Dest(d, lines[i].conditional), s);
    }
  }

  lemma InSomeMulti(lines: seq<Line>, s: string, d: Option<string>)
    ensures var g := Gather(lines);
      (exists dest :: dest in DestsOf(AllMulti(g), s) && dest.destDir == d) <==>
      Repeated(lines, s) &&
      exists i :: NamedOn(lines, i, s) && d == (if lines[i].Plain() then Some(OwnDir(s)) else lines[i].destDir)
  {
    var g := Gather(lines);
    GatherMeans(lines, s);
    hide Gather, AllMulti, OwnDir, Repeated;
    if dest :| dest in DestsOf(AllMulti(g), s) && dest.destDir == d {
      AllMultiMeans(g, s, dest);
      if InGroup(g.groups, dest, s) {
        GroupsMean(lines, dest, s);
        var i :| PlacedOn(lines, i, dest, s);
        assert NamedOn(lines, i, s);
      }
    }
    if i :|
      Repeated(lines, s) && NamedOn(lines, i, s) &&
      d == (if lines[i].Plain() then Some(OwnDir(s)) else lines[i].destDir)
    {
      var dest := if lines[i].Plain() then Dest(Some(OwnDir(s)), None) else lines[i].At();
      AllMultiMeans(g, s, dest);
      GroupsMean(lines, dest, s);
      assert !lines[i].Plain() ==> PlacedOn(lines, i, dest, s);
    }
  }

  // ------------------------------------------------------------------ one rule per source

  ghost predicate NamedBy(rules: seq<Rule>, s: string) {
    exists r :: r in rules && r.Names(s)
  }

  ghost predicate NamedOnce(rules: seq<Rule>, s: string) {
    forall i, j :: 0 <= i < j < |rules| ==> !(rules[i].Names(s) && rules[j].Names(s))
  }

  lemma NamedOnceConcat(a: seq<Rule>, b: seq<Rule>, s: string)
    requires NamedOnce(a, s) && NamedOnce(b, s) && !(NamedBy(a, s) && NamedBy(b, s))
    ensures NamedOnce(a + b, s)
    ensures NamedBy(a + b, s) <==> NamedBy(a, s) || NamedBy(b, s)
  {
    var rules := a + b;
    forall i, j | 0 <= i < j < |rules| ensures !(rules[i].Names(s) && rules[j].Names(s)) {
      if i < |a| {
        assert rules[i] in a;
        if j >= |a| {
          assert rules[j] == b[j - |a|] && rules[j] in b;
        }
      } else {
        assert rules[i] == b[i - |a|] && rules[j] == b[j - |a|];
      }
    }
  }

  /** A source that only one line names is in one group at most. */
  ghost predicate OneHome(groups: seq<Group>, s: string) {
    forall a, b :: InGroup(groups, a, s) && InGroup(groups, b, s) ==> a == b
  }

  lemma LastHome(groups: seq<Group>, s: string)
    requires groups != [] && KeysDiffer(groups)
    ensures var front, last := groups[..|groups| - 1], groups[|groups| - 1];
      && KeysDiffer(front)
      && (forall at :: InGroup(groups, at, s) <==> InGroup(front, at, s) || (last.at == at && s in last.sources))
      && (OneHome(groups, s) ==> OneHome(front, s))
      && (OneHome(groups, s) && s in last.sources ==> forall at :: !InGroup(front, at, s))
  {
    var front, last := groups[..|groups| - 1], groups[|groups| - 1];
    assert groups == front + [last];
    forall g | g in front ensures g.at != last.at {
      var i :| 0 <= i < |front| && front[i] == g;
      assert groups[i] == g;
    }
    if s in last.sources {
      assert InGroup(groups, last.at, s);
    }
  }

  lemma {:induction false} GroupRulesOnce(groups: seq<Group>, multi: set<string>, s: string)
    requires KeysDiffer(groups) && (s !in multi ==> OneHome(groups, s))
    ensures NamedOnce(GroupRules(groups, multi), s)
    ensures NamedBy(GroupRules(groups, multi), s) <==> s !in multi && exists at :: InGroup(groups, at, s)
  {
    if groups != [] {
      var front, last := groups[..|groups| - 1], groups[|groups| - 1];
      LastHome(groups, s);
      hide InGroup, KeysDiffer, OneHome, NamedOnce, NamedBy, Only, RuleOf;
      GroupRulesOnce(front, multi, s);
      OnlyMeans(last.sources, multi, false, s);
      var rule := RuleOf(Only(last.sources, multi, false), last.at);
      RuleOfNames(Only(last.sources, multi, false), last.at, s);
      NamedOnceConcat(GroupRules(front, multi), rule, s);
      assert s in last.sources ==> InGroup(groups, last.at, s);
    } else {
      assert !NamedBy([], s);
    }
  }

  lemma RuleOfNames(sources: seq<string>, at: Dest, s: string)
    ensures NamedOnce(RuleOf(sources, at), s) && (NamedBy(RuleOf(sources, at), s) <==> s in sources)
  {
    if s in sources {
      assert RuleOf(sources, at)[0].Names(s);
    }
  }

  lemma MultiRulesOnce(multi: seq<MultiDest>, s: string)
    requires SourcesDiffer(multi)
    ensures NamedOnce(MultiRules(multi), s) && (NamedBy(MultiRules(multi), s) ==> DestsOf(multi, s) != [])
  {
    if r :| r in MultiRules(multi) && r.Names(s) {
      var i :| 0 <= i < |multi| && r == MultiRule(multi[i]);
      DestsAt(multi, s, i);
    }
  }

  lemma SingleHasOneHome(lines: seq<Line>, s: string)
    requires !Repeated(lines, s)
    ensures OneHome(Gather(lines).groups, s)
    ensures (exists at :: InGroup(Gather(lines).groups, at, s)) ==> s !in Gather(lines).current
  {
    var g := Gather(lines);
    GatherMeans(lines, s);
    forall a, b | InGroup(g.groups, a, s) && InGroup(g.groups, b, s) ensures a == b && s !in g.current {
      GroupsMean(lines, a, s);
      GroupsMean(lines, b, s);
      var i :| PlacedOn(lines, i, a, s);
      var j :| PlacedOn(lines, j, b, s);
      assert forall k :: NamedOn(lines, k, s) ==> k == i;
    }
  }

  /** No source is named by two rules. */
  lemma NoSourceTwice(lines: seq<Line>, s: string)
    ensures NamedOnce(RulesFor(Gather(lines)), s)
  {
    var g := Gather(lines);
    GatherMeans(lines, s);
    GroupsMean(lines, Dest(None, None), s);
    if s !in g.multi {
      SingleHasOneHome(lines, s);
    }
    GroupRulesOnce(g.groups, g.multi, s);
    OnlyMeans(g.current, g.multi, false, s);
    RuleOfNames(Only(g.current, g.multi, false), Dest(None, None), s);
    AllMultiMeans(g, s, Dest(None, None));
    MultiRulesOnce(AllMulti(g), s);
    if DestsOf(AllMulti(g), s) != [] {
      AllMultiMeans(g, s, DestsOf(AllMulti(g), s)[0]);
    }
    NamedOnceConcat(GroupRules(g.groups, g.multi), RuleOf(Only(g.current, g.multi, false), Dest(None, None)), s);
    NamedOnceConcat(GroupRules(g.groups, g.multi) + RuleOf(Only(g.current, g.multi, false), Dest(None, None)),
      MultiRules(AllMulti(g)), s);
  }

  // ------------------------------------------------------------- where the migration fails

  lemma {:induction false} MultiOfRule(lines: seq<Line>, r: Rule)
    requires r in RulesFor(Gather(lines)) && r.MultiDestInstall?
    ensures var dests := DestsOf(AllMulti(Gather(lines)), r.source);
      dests != [] && r.destDirs == DirsOf(dests) && r.when == FirstCondition(dests)
  {
    var g := Gather(lines);
    GroupRulesPlain(g.groups, g.multi, r);
    assert r in MultiRules(AllMulti(g));
    var i :| 0 <= i < |AllMulti(g)| && r == MultiRule(AllMulti(g)[i]);
    AllMultiMeans(g, r.source, Dest(None, None));
    DestsAt(AllMulti(g), r.source, i);
  }

  lemma {:induction false} GroupRulesPlain(groups: seq<Group>, multi: set<string>, r: Rule)
    ensures r in GroupRules(groups, multi) ==> r.InstallDest?
  {
    if groups != [] {
      GroupRulesPlain(groups[..|groups| - 1], multi, r);
    }
  }

  /** A rule with several destinations lacks one of them if and only if its source is also named by
      a line that has a condition but no destination. */
  lemma MissingDestinationIff(lines: seq<Line>)
    ensures (exists r :: r in RulesFor(Gather(lines)) && r.MultiDestInstall? && None in r.destDirs) <==>
      exists i, s :: NamedOn(lines, i, s) && Repeated(lines, s) && lines[i].destDir.None? && lines[i].conditional.Some?
  {
    var g := Gather(lines);
    if r :| r in RulesFor(g) && r.MultiDestInstall? && None in r.destDirs {
      MultiOfRule(lines, r);
      var s, dests := r.source, DestsOf(AllMulti(g), r.source);
      var k :| 0 <= k < |dests| && DirsOf(dests)[k] == None;
      assert dests[k] in dests && dests[k].destDir == None;
      InSomeMulti(lines, s, None);
      var i :| NamedOn(lines, i, s) && None == (if lines[i].Plain() then Some(OwnDir(s)) else lines[i].destDir);
      assert NamedOn(lines, i, s) && Repeated(lines, s);
    }
    if i, s :| NamedOn(lines, i, s) && Repeated(lines, s) && lines[i].destDir.None? && lines[i].conditional.Some? {
      InSomeMulti(lines, s, None);
      AllMultiMeans(g, s, Dest(None, None));
      MultiRulesPlace(AllMulti(g), s, None);
      var r :| r in MultiRules(AllMulti(g)) && r.Places(s, None);
      assert r in RulesFor(g) && r.MultiDestInstall?;
    }
  }

  lemma {:induction false} FirstConditionMeans(dests: seq<Dest>)
    requires dests != []
    ensures exists d :: d in dests && d.conditional == FirstCondition(dests)
    ensures FirstCondition(dests) == None ==> forall d :: d in dests ==> d.conditional == None
  {
    assert dests == [dests[0]] + dests[1..] && dests[0] in dests;
    if |dests| == 1 {
      assert dests[1..] == [];
      assert dests[0].conditional == FirstCondition(dests);
    } else if dests[0].conditional.None? {
      FirstConditionMeans(dests[1..]);
      var d :| d in dests[1..] && d.conditional == FirstCondition(dests[1..]);
      assert d in dests;
    }
  }

  /** The rule for a source that several lines name keeps the conditions of all of these lines if and
      only if they have the same one. */
  lemma ConditionKeptIff(lines: seq<Line>, r: Rule)
    requires r in RulesFor(Gather(lines)) && r.MultiDestInstall?
    ensures (forall i :: NamedOn(lines, i, r.source) ==> lines[i].conditional == r.when) <==>
      forall i, j :: NamedOn(lines, i, r.source) && NamedOn(lines, j, r.source) ==>
        lines[i].conditional == lines[j].conditional
  {
    var s, dests := r.source, DestsOf(AllMulti(Gather(lines)), r.source);
    MultiOfRule(lines, r);
    FirstConditionMeans(dests);
    var d :| d in dests && d.conditional == r.when;
    var i := LineOf(lines, s, d);
    assert NamedOn(lines, i, s) && lines[i].conditional == r.when;
  }

  /** A rule without several destinations has the destination and the condition of the one line that names
      a source of it. */
  lemma SingleRuleKeepsLine(lines: seq<Line>, r: Rule, s: string, i: int)
    requires r in RulesFor(Gather(lines)) && r.InstallDest? && s in r.sources && NamedOn(lines, i, s)
    ensures lines[i].destDir == r.destDir && lines[i].conditional == r.when
  {
    var g := Gather(lines);
    var at := Dest(r.destDir, r.when);
    GatherMeans(lines, s);
    if r in GroupRules(g.groups, g.multi) {
      GroupRuleFrom(g.groups, g.multi, r, s);
      GroupsMean(lines, at, s);
      var j :| PlacedOn(lines, j, at, s);
      OnlyLine(lines, s, i, j);
    } else {
      assert r in RuleOf(Only(g.current, g.multi, false), Dest(None, None));
      OnlyMeans(g.current, g.multi, false, s);
      var j :| NamedOn(lines, j, s) && lines[j].Plain();
      OnlyLine(lines, s, i, j);
    }
  }

  lemma OnlyLine(lines: seq<Line>, s: string, i: int, j: int)
    requires !Repeated(lines, s) && NamedOn(lines, i, s) && NamedOn(lines, j, s)
    ensures i == j
  {
  }

  lemma {:induction false} GroupRuleFrom(groups: seq<Group>, multi: set<string>, r: Rule, s: string)
    requires r in GroupRules(groups, multi) && r.InstallDest? && s in r.sources
    ensures s !in multi && InGroup(groups, Dest(r.destDir, r.when), s)
  {
    var front, last := groups[..|groups| - 1], groups[|groups| - 1];
    if r in GroupRules(front, multi) {
      GroupRuleFrom(front, multi, r, s);
      assert groups == front + [last];
    } else {
      OnlyMeans(last.sources, multi, false, s);
      assert last in groups && last.at == Dest(last.at.destDir, last.at.conditional);
    }
  }

  lemma LineOf(lines: seq<Line>, s: string, d: Dest) returns (i: int)
    requires d in DestsOf(AllMulti(Gather(lines)), s)
    ensures NamedOn(lines, i, s) && lines[i].conditional == d.conditional
  {
    var g := Gather(lines);
    AllMultiMeans(g, s, d);
    GroupsMean(lines, d, s);
    GatherMeans(lines, s);
    if InGroup(g.groups, d, s) {
      i :| PlacedOn(lines, i, d, s);
    } else {
      i :| NamedOn(lines, i, s) && lines[i].Plain();
    }
  }

  // ---------------------------------------------------------------------- the algorithm

  /** `migrate_install_file`, for the lines of one package without `=>`. */
  method MigrateInstallLines(lines: seq<Line>) returns (rules: seq<Rule>)
    requires forall l :: l in lines ==> l.sources != []
    ensures rules == RulesFor(Gather(lines))
  {
    hide *;
    var g := ReadLines(lines);
    var multi;
    rules, multi := SplitGroups(g);
    var rule;
    rule, multi := SplitCurrent(g.current, g.multi, multi);
    rules := rules + rule;
    var several := WriteMulti(multi);
    rules := rules + several;
    RulesTogether(g);
  }

  lemma RulesTogether(g: Gathered)
    ensures RulesFor(g) ==
      GroupRules(g.groups, g.multi) + RuleOf(Only(g.current, g.multi, false), Dest(None, None)) +
      MultiRules(FromCurrent(FromGroups(g.groups, g.multi), Only(g.current, g.multi, true)))
  {
  }

  ghost predicate NoneEmpty(groups: seq<Group>) {
    forall x :: x in groups ==> x.sources != []
  }

  method ReadLines(lines: seq<Line>) returns (g: Gathered)
    requires forall l :: l in lines ==> l.sources != []
    ensures g == Gather(lines) && NoneEmpty(g.groups)
  {
    hide AddLine;
    g := Gathered([], [], {}, {});
    for i := 0 to |lines|
      invariant g == Gather(lines[..i]) && NoneEmpty(g.groups)
    {
      assert lines[..i + 1][..i] == lines[..i] && lines[i] in lines;
      g := ReadLine(g, lines[i]);
    }
    assert lines[..|lines|] == lines;
  }

  method SplitGroups(g: Gathered) returns (rules: seq<Rule>, multi: seq<MultiDest>)
    requires NoneEmpty(g.groups)
    ensures rules == GroupRules(g.groups, g.multi) && multi == FromGroups(g.groups, g.multi)
  {
    hide Only, AppendAll, RuleOf;
    rules, multi := [], [];
    for i := 0 to |g.groups|
      invariant rules == GroupRules(g.groups[..i], g.multi) && multi == FromGroups(g.groups[..i], g.multi)
    {
      assert g.groups[..i + 1][..i] == g.groups[..i];
      var md := g.groups[i];
      assert md in g.groups;
      var rule;
      rule, multi := SplitGroup(md, g.multi, multi);
      rules := rules + rule;
    }
    assert g.groups[..|g.groups|] == g.groups;
  }

  method WriteMulti(multi: seq<MultiDest>) returns (rules: seq<Rule>)
    ensures rules == MultiRules(multi)
  {
    hide MultiRule;
    rules := [];
    for i := 0 to |multi|
      invariant rules == MultiRules(multi[..i])
    {
      assert MultiRules(multi[..i + 1]) == MultiRules(multi[..i]) + [MultiRule(multi[i])];
      rules := rules + [MultiRule(multi[i])];
    }
    assert multi[..|multi|] == multi;
  }

  /** The body of the first loop: a source counts as repeated if an earlier line has named it. */
  method ReadLine(g: Gathered, l: Line) returns (r: Gathered)
    requires l.sources != [] && NoneEmpty(g.groups)
    ensures r == AddLine(g, l) && NoneEmpty(r.groups)
  {
    var multi := g.multi + set s | s in l.sources && s in g.seen;
    var seen := g.seen + set s | s in l.sources;
    if l.destDir.None? && l.conditional.None? {
      return Gathered(g.groups, g.current + l.sources, seen, multi);
    }
    r := Gathered(Extended(g.groups, l.At(), l.sources), g.current, seen, multi);
    ExtendedNotEmpty(g.groups, l.At(), l.sources);
  }

  lemma {:induction false} ExtendedNotEmpty(groups: seq<Group>, at: Dest, sources: seq<string>)
    requires sources != [] && forall x :: x in groups ==> x.sources != []
    ensures forall x :: x in Extended(groups, at, sources) ==> x.sources != []
  {
    if groups != [] {
      ExtendedNotEmpty(groups[1..], at, sources);
    }
  }

  /** The body of the second loop. */
  method SplitGroup(md: Group, names: set<string>, start: seq<MultiDest>)
    returns (rule: seq<Rule>, multi: seq<MultiDest>)
    requires md.sources != []
    ensures rule == RuleOf(Only(md.sources, names, false), md.at)
    ensures multi == AppendAll(start, Only(md.sources, names, true), md.at)
  {
    OnlyNone(md.sources);
    NoneRepeated(md.sources);
    rule, multi := [], start;
    var sources := md.sources;
    if names != {} {
      sources := Only(md.sources, names, false);
      var repeated := Only(md.sources, names, true);
      for i := 0 to |repeated|
        invariant multi == AppendAll(start, repeated[..i], md.at)
      {
        assert repeated[..i + 1][..i] == repeated[..i];
        multi := Appended(multi, repeated[i], md.at);
      }
      assert repeated[..|repeated|] == repeated;
      if sources == [] {
        return;
      }
    }
    rule := [InstallDest(sources, md.at.destDir, md.at.conditional)];
  }

  lemma {:induction false} NoneRepeated(sources: seq<string>)
    ensures Only(sources, {}, true) == []
  {
    if sources != [] {
      NoneRepeated(sources[..|sources| - 1]);
    }
  }

  method SplitCurrent(current: seq<string>, names: set<string>, start: seq<MultiDest>)
    returns (rule: seq<Rule>, multi: seq<MultiDest>)
    ensures rule == RuleOf(Only(current, names, false), Dest(None, None))
    ensures multi == FromCurrent(start, Only(current, names, true))
  {
    OnlyNone(current);
    NoneRepeated(current);
    rule, multi := [], start;
    var sources := current;
    if names != {} {
      sources := Only(current, names, false);
      var repeated := Only(current, names, true);
      for i := 0 to |repeated|
        invariant multi == FromCurrent(start, repeated[..i])
      {
        assert repeated[..i + 1][..i] == repeated[..i];
        multi := Appended(multi, repeated[i], Dest(Some(OwnDir(repeated[i])), None));
      }
      assert repeated[..|repeated|] == repeated;
    }
    if sources != [] {
      rule := [InstallDest(sources, None, None)];
    }
  }
}
