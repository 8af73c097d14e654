/** Service rules: which of the detected services a rule of the manifest changes. */
module Services {
  import opened Strings

  datatype ServiceKey = ServiceKey(name: string, typeOfService: string, serviceScope: string, manager: string)

  datatype Definition = Definition(
    name: string, names: seq<string>, typeOfService: string, serviceScope: string,
    autoEnable: bool, autoStart: bool, onUpgrade: string, source: string, pluginProvided: bool)

  /** What one service manager detected. */
  datatype Detected = Detected(manager: string, definitions: seq<Definition>)

  datatype ServiceRule = ServiceRule(
    source: string, service: string,
    enableOnInstall: Option<bool>, startOnInstall: Option<bool>, onUpgrade: Option<string>,
    serviceManagers: Option<set<string>>)
  {
    predicate AppliesTo(manager: string) {
      serviceManagers.None? || manager in serviceManagers.value
    }
  }

  datatype Table = Table(byKey: map<ServiceKey, Definition>, aliases: map<string, seq<ServiceKey>>) {
    function Named(name: string): seq<ServiceKey> {
      if name in aliases then aliases[name] else []
    }

    /** Whatever has an alias is a known service, and it is listed under all of its names. */
    ghost predicate Linked() {
      && (forall n, k {:trigger k in Named(n)} :: k in Named(n) ==> k in byKey)
      && (forall n, k {:trigger n in byKey[k].names} :: k in byKey && n in byKey[k].names ==> k in Named(n))
    }
  }

  datatype ServiceError =
    | UnknownManager(rule: ServiceRule, manager: string)
    | NoSuchService(rule: ServiceRule)
    | ConflictingRules(rule: ServiceRule, key: ServiceKey)
    | ManagerWithoutService(rule: ServiceRule, missing: set<string>)

  // -------------------------------------------------------------- the alias table

  datatype Entry = Entry(key: ServiceKey, definition: Definition)

  function EntryOf(manager: string, d: Definition): Entry {
    Entry(ServiceKey(d.name, d.typeOfService, d.serviceScope, manager), d)
  }

  function EntriesOf(manager: string, definitions: seq<Definition>): seq<Entry> {
    if definitions == [] then []
    else EntriesOf(manager, definitions[..|definitions| - 1]) + [EntryOf(manager, definitions[|definitions| - 1])]
  }

  function Entries(detected: seq<Detected>): seq<Entry> {
    if detected == [] then []
    else
      var last := detected[|detected| - 1];
      Entries(detected[..|detected| - 1]) + EntriesOf(last.manager, last.definitions)
  }

  /** One more alias for every one of the names. */
  function Listed(t: Table, names: seq<string>, key: ServiceKey): Table {
    if names == [] then t
    else
      var before := Listed(t, names[..|names| - 1], key);
      var name := names[|names| - 1];
      before.(aliases := before.aliases[name := before.Named(name) + [key]])
  }

  function Entered(t: Table, e: Entry): Table {
    Listed(t.(byKey := t.byKey[e.key := e.definition]), e.definition.names, e.key)
  }

  function TableOf(entries: seq<Entry>): Table {
    if entries == [] then Table(map[], map[])
    else Entered(TableOf(entries[..|entries| - 1]), entries[|entries| - 1])
  }

  lemma {:induction false} ListedNames(t: Table, names: seq<string>, key: ServiceKey, n: string, k: ServiceKey)
    ensures Listed(t, names, key).byKey == t.byKey
    ensures k in Listed(t, names, key).Named(n) <==> k in t.Named(n) || (k == key && n in names)
  {
    if names != [] {
      ListedNames(t, names[..|names| - 1], key, n, k);
      assert names == names[..|names| - 1] + [names[|names| - 1]];
    }
  }

  /** A key stands for the definition that was entered last, an alias for all that were ever entered. */
  lemma {:induction false} TableMeans(entries: seq<Entry>, n: string, k: ServiceKey)
    ensures k in TableOf(entries).Named(n) <==> exists e :: e in entries && e.key == k && n in e.definition.names
    ensures k in TableOf(entries).byKey <==> exists e :: e in entries && e.key == k
    ensures k in TableOf(entries).byKey ==> Entry(k, TableOf(entries).byKey[k]) in entries
  {
    if entries != [] {
      var front, last := entries[..|entries| - 1], entries[|entries| - 1];
      TableMeans(front, n, k);
      assert entries == front + [last];
      ListedNames(TableOf(front).(byKey := TableOf(front).byKey[last.key := last.definition]),
                  last.definition.names, last.key, n, k);
    }
  }

  /** What the entries are: every detected definition with its name, type, scope and service manager. */
  lemma {:induction false} EntriesMean(detected: seq<Detected>, k: ServiceKey, d: Definition)
    ensures Entry(k, d) in Entries(detected) <==>
      exists i, j :: 0 <= i < |detected| && 0 <= j < |detected[i].definitions| && detected[i].definitions[j] == d &&
        k.name == d.name && k.typeOfService == d.typeOfService && k.serviceScope == d.serviceScope &&
        k.manager == detected[i].manager
  {
    if detected != [] {
      var front, last := detected[..|detected| - 1], detected[|detected| - 1];
      EntriesMean(front, k, d);
      EntriesOfMean(last.manager, last.definitions, k, d);
    }
  }

  lemma {:induction false} EntriesOfMean(manager: string, definitions: seq<Definition>, k: ServiceKey, d: Definition)
    ensures Entry(k, d) in EntriesOf(manager, definitions) <==>
      exists j :: 0 <= j < |definitions| && definitions[j] == d && k.name == d.name &&
        k.typeOfService == d.typeOfService && k.serviceScope == d.serviceScope && k.manager == manager
  {
    if definitions != [] {
      EntriesOfMean(manager, definitions[..|definitions| - 1], k, d);
    }
  }

  /** Of several definitions for one key, the last one counts. */
  lemma {:induction false} LastDefinitionCounts(entries: seq<Entry>, i: nat)
    requires i < |entries| && forall j :: i < j < |entries| ==> entries[j].key != entries[i].key
    ensures var t := TableOf(entries);
      entries[i].key in t.byKey && t.byKey[entries[i].key] == entries[i].definition
  {
    var front, last := entries[..|entries| - 1], entries[|entries| - 1];
    ListedNames(TableOf(front).(byKey := TableOf(front).byKey[last.key := last.definition]),
                last.definition.names, last.key, "", last.key);
    if i < |front| {
      LastDefinitionCounts(front, i);
    }
  }

  lemma TableIsLinked(entries: seq<Entry>)
    ensures TableOf(entries).Linked()
  {
    var t := TableOf(entries);
    forall n, k | k in t.Named(n) ensures k in t.byKey {
      TableMeans(entries, n, k);
    }
    forall n, k | k in t.byKey && n in t.byKey[k].names ensures k in t.Named(n) {
      TableMeans(entries, n, k);
      assert Entry(k, t.byKey[k]).key == k;
    }
  }

  /** The first loop of `handle_service_management`. */
  method BuildTable(detected: seq<Detected>) returns (t: Table)
    ensures t == TableOf(Entries(detected)) && t.Linked()
  {
    t := Table(map[], map[]);
    for i := 0 to |detected|
      invariant t == TableOf(Entries(detected[..i]))
    {
      assert detected[..i + 1][..i] == detected[..i];
      t := EnterDetected(t, detected[i].manager, detected[i].definitions, Entries(detected[..i]));
    }
    assert detected[..|detected|] == detected;
    TableIsLinked(Entries(detected));
  }

  method EnterDetected(start: Table, manager: string, definitions: seq<Definition>, ghost before: seq<Entry>)
    returns (t: Table)
    requires start == TableOf(before)
    ensures t == TableOf(before + EntriesOf(manager, definitions))
  {
    t := start;
    assert before + EntriesOf(manager, []) == before;
    for i := 0 to |definitions|
      invariant t == TableOf(before + EntriesOf(manager, definitions[..i]))
    {
      assert definitions[..i + 1][..i] == definitions[..i];
      var entry := EntryOf(manager, definitions[i]);
      ghost var sofar := before + EntriesOf(manager, definitions[..i]);
      assert before + EntriesOf(manager, definitions[..i + 1]) == sofar + [entry];
      assert (sofar + [entry])[..|sofar|] == sofar;
      t := EnterNames(t.(byKey := t.byKey[entry.key := entry.definition]), entry.definition.names, entry.key);
    }
    assert definitions[..|definitions|] == definitions;
  }

  method EnterNames(start: Table, names: seq<string>, key: ServiceKey) returns (t: Table)
    ensures t == Listed(start, names, key)
  {
    t := start;
    for i := 0 to |names|
      invariant t == Listed(start, names[..i], key)
    {
      assert names[..i + 1][..i] == names[..i];
      t := t.(aliases := t.aliases[names[i] := t.Named(names[i]) + [key]]);
    }
    assert names[..|names|] == names;
  }

  // -------------------------------------------------------------- what a rule reaches

  ghost predicate Start(t: Table, rule: ServiceRule, k: ServiceKey) {
    k in t.Named(rule.service) && k in t.byKey && rule.AppliesTo(k.manager)
  }

  /** a has a name that is an alias of b. */
  ghost predicate Link(t: Table, rule: ServiceRule, a: ServiceKey, b: ServiceKey) {
    a in t.byKey && rule.AppliesTo(b.manager) && exists n :: n in t.byKey[a].names && b in t.Named(n)
  }

  ghost predicate ReachableIn(t: Table, rule: ServiceRule, k: ServiceKey, steps: nat)
    decreases steps
  {
    if steps == 0 then Start(t, rule, k)
    else exists a :: ReachableIn(t, rule, a, steps - 1) && Link(t, rule, a, k)
  }

  ghost predicate Reachable(t: Table, rule: ServiceRule, k: ServiceKey) {
    exists steps: nat :: ReachableIn(t, rule, k, steps)
  }

  lemma StartReachable(t: Table, rule: ServiceRule, k: ServiceKey)
    requires Start(t, rule, k)
    ensures Reachable(t, rule, k)
  {
    assert ReachableIn(t, rule, k, 0);
  }

  lemma LinkReachable(t: Table, rule: ServiceRule, a: ServiceKey, b: ServiceKey)
    requires Reachable(t, rule, a) && Link(t, rule, a, b)
    ensures Reachable(t, rule, b)
  {
    var steps: nat :| ReachableIn(t, rule, a, steps);
    assert ReachableIn(t, rule, b, steps + 1);
  }

  /** All that a set reaches in one step is in the set. */
  ghost predicate ClosedAt(t: Table, rule: ServiceRule, all: set<ServiceKey>, a: ServiceKey) {
    forall b {:trigger Link(t, rule, a, b)} :: Link(t, rule, a, b) ==> b in all
  }

  lemma {:induction false} ReachableInClosed(t: Table, rule: ServiceRule, all: set<ServiceKey>, k: ServiceKey,
                                             steps: nat)
    requires ReachableIn(t, rule, k, steps)
    requires forall a {:trigger Start(t, rule, a)} :: Start(t, rule, a) ==> a in all
    requires forall a {:trigger ClosedAt(t, rule, all, a)} :: a in all ==> ClosedAt(t, rule, all, a)
    ensures k in all
    decreases steps
  {
    if steps > 0 {
      var a :| ReachableIn(t, rule, a, steps - 1) && Link(t, rule, a, k);
      ReachableInClosed(t, rule, all, a, steps - 1);
      assert ClosedAt(t, rule, all, a);
    }
  }

  function Keys(s: seq<Entry>): (r: seq<ServiceKey>)
    ensures |r| == |s| && forall i :: 0 <= i < |s| ==> r[i] == s[i].key
  {
    seq(|s|, i requires 0 <= i < |s| => s[i].key)
  }

  /** The two loops over the names of one definition. */
  method Neighbours(t: Table, rule: ServiceRule, definition: Definition, seen: set<ServiceKey>,
                    pending: set<ServiceKey>)
    returns (more: set<ServiceKey>)
    ensures forall k :: k in more <==>
      k in pending || (k !in seen && rule.AppliesTo(k.manager) && exists n :: n in definition.names && k in t.Named(n))
  {
    more := pending;
    for i := 0 to |definition.names|
      invariant forall k :: k in more <==>
        k in pending ||
        (k !in seen && rule.AppliesTo(k.manager) && exists n :: n in definition.names[..i] && k in t.Named(n))
    {
      var name := definition.names[i];
      assert definition.names[..i + 1] == definition.names[..i] + [name];
      ghost var before := more;
      var targets := t.Named(name);
      for j := 0 to |targets|
        invariant forall k :: k in more <==>
          k in before || (k !in seen && rule.AppliesTo(k.manager) && k in targets[..j])
      {
        assert targets[..j + 1] == targets[..j] + [targets[j]];
        if targets[j] !in seen && rule.AppliesTo(targets[j].manager) {
          more := more + {targets[j]};
        }
      }
      assert targets[..|targets|] == targets;
    }
    assert definition.names[..|definition.names|] == definition.names;
  }

  /** `_relevant_service_definitions`: whatever order the set hands out its keys in, exactly
      the services that the rule reaches, each of them once. */
  method RelevantServiceDefinitions(t: Table, rule: ServiceRule) returns (r: Result<seq<Entry>, ServiceError>)
    requires t.Linked()
    ensures r.Failure? <==> forall k :: !Start(t, rule, k)
    ensures r.Failure? ==> r.error == NoSuchService(rule)
    ensures r.Success? ==> NoDuplicates(Keys(r.value)) && forall e :: e in r.value ==>
      e.key in t.byKey && e.definition == t.byKey[e.key]
    ensures r.Success? ==> r.value != [] && forall k :: k in Keys(r.value) <==> Reachable(t, rule, k)
  {
    var pending := set k | k in t.Named(rule.service) && k in t.byKey && rule.AppliesTo(k.manager);
    if pending == {} {
      assert forall k :: Start(t, rule, k) ==> k in pending;
      return Failure(NoSuchService(rule));
    }
    ghost var some :| some in pending;
    StartReachable(t, rule, some);
    var yielded, seen := [], {};
    forall k | k in pending ensures Reachable(t, rule, k) {
      StartReachable(t, rule, k);
    }
    while pending != {}
      invariant Known(t, rule, pending) && Yielded(t, yielded, seen) && Known(t, rule, seen) && pending !! seen
      invariant forall k {:trigger Start(t, rule, k)} :: Start(t, rule, k) ==> k in seen + pending
      invariant forall a {:trigger ClosedAt(t, rule, seen + pending, a)} :: a in seen ==>
        ClosedAt(t, rule, seen + pending, a)
      decreases t.byKey.Keys - seen
    {
      var next :| next in pending;
      yielded, seen, pending := Expand(t, rule, next, yielded, seen, pending);
    }
    assert seen + pending == seen;
    forall k ensures k in Keys(yielded) <==> Reachable(t, rule, k) {
      if steps: nat :| ReachableIn(t, rule, k, steps) {
        ReachableInClosed(t, rule, seen, k, steps);
      }
    }
    r := Success(yielded);
  }

  ghost predicate Known(t: Table, rule: ServiceRule, keys: set<ServiceKey>) {
    forall k {:trigger Reachable(t, rule, k)} :: k in keys ==> Reachable(t, rule, k) && k in t.byKey
  }

  ghost predicate Yielded(t: Table, yielded: seq<Entry>, seen: set<ServiceKey>) {
    && NoDuplicates(Keys(yielded))
    && (forall k :: k in seen <==> k in Keys(yielded))
    && (forall e :: e in yielded ==> e.key in t.byKey && e.definition == t.byKey[e.key])
  }

  /** One round of the worklist. */
  method Expand(t: Table, rule: ServiceRule, next: ServiceKey, yielded: seq<Entry>, seen: set<ServiceKey>,
                pending: set<ServiceKey>)
    returns (yielded': seq<Entry>, seen': set<ServiceKey>, pending': set<ServiceKey>)
    requires t.Linked() && next in pending
    requires Known(t, rule, pending) && Yielded(t, yielded, seen) && Known(t, rule, seen) && pending !! seen
    requires forall a {:trigger ClosedAt(t, rule, seen + pending, a)} :: a in seen ==>
      ClosedAt(t, rule, seen + pending, a)
    ensures seen' == seen + {next} && next in t.byKey && next !in seen && seen + pending <= seen' + pending'
    ensures Known(t, rule, pending') && Yielded(t, yielded', seen') && Known(t, rule, seen') && pending' !! seen'
    ensures forall a {:trigger ClosedAt(t, rule, seen' + pending', a)} :: a in seen' ==>
      ClosedAt(t, rule, seen' + pending', a)
  {
    assert Reachable(t, rule, next);
    seen' := seen + {next};
    var definition := t.byKey[next];
    yielded' := yielded + [Entry(next, definition)];
    assert Keys(yielded') == Keys(yielded) + [next];
    pending' := Neighbours(t, rule, definition, seen', pending - {next});
    forall k | k in pending' ensures Reachable(t, rule, k) && k in t.byKey {
      if k !in pending {
        assert Link(t, rule, next, k);
        LinkReachable(t, rule, next, k);
      } else {
        assert Reachable(t, rule, k);
      }
    }
    forall a | a in seen' ensures ClosedAt(t, rule, seen' + pending', a) {
      if a != next {
        assert ClosedAt(t, rule, seen + pending, a);
      }
    }
  }

  /** A rule with a list of service managers reaches services of these managers only; without a list all
      that have its name are where it starts. */
  lemma ReachedManagers(t: Table, rule: ServiceRule, k: ServiceKey)
    requires t.Linked()
    ensures Reachable(t, rule, k) && rule.serviceManagers.Some? ==> k.manager in rule.serviceManagers.value
    ensures k in t.Named(rule.service) && (rule.serviceManagers.Some? ==> k.manager in rule.serviceManagers.value) ==>
      Reachable(t, rule, k)
  {
    if steps: nat :| ReachableIn(t, rule, k, steps) {
    }
    if k in t.Named(rule.service) && (rule.serviceManagers.Some? ==> k.manager in rule.serviceManagers.value) {
      StartReachable(t, rule, k);
    }
  }

  // ------------------------------------------------------ sharing names is symmetric

  /** No service manager detects two services of the same name, type and scope. */
  ghost predicate KeysUnique(entries: seq<Entry>) {
    forall e, f :: e in entries && f in entries && e.key == f.key ==> e == f
  }

  /** With unique keys an alias leads only to services that carry it as a name. */
  lemma LinkIsSharedName(entries: seq<Entry>, rule: ServiceRule, a: ServiceKey, b: ServiceKey)
    requires KeysUnique(entries)
    ensures var t := TableOf(entries);
      Link(t, rule, a, b) <==> a in t.byKey && b in t.byKey && rule.AppliesTo(b.manager) &&
                               exists n :: n in t.byKey[a].names && n in t.byKey[b].names
  {
    var t := TableOf(entries);
    if a in t.byKey {
      forall n | n in t.byKey[a].names ensures b in t.Named(n) <==> b in t.byKey && n in t.byKey[b].names {
        TableMeans(entries, n, b);
      }
    }
  }

  lemma LinkBack(entries: seq<Entry>, rule: ServiceRule, other: ServiceRule, a: ServiceKey, b: ServiceKey)
    requires KeysUnique(entries) && rule.serviceManagers == other.serviceManagers
    requires Link(TableOf(entries), rule, a, b) && rule.AppliesTo(a.manager)
    ensures Link(TableOf(entries), other, b, a)
  {
    LinkIsSharedName(entries, rule, a, b);
    LinkIsSharedName(entries, other, b, a);
  }

  lemma StartsLinked(entries: seq<Entry>, rule: ServiceRule, other: ServiceRule, a: ServiceKey, b: ServiceKey)
    requires KeysUnique(entries) && rule.serviceManagers == other.serviceManagers
    requires Start(TableOf(entries), rule, a) && Start(TableOf(entries), rule, b)
    ensures Link(TableOf(entries), other, a, b)
  {
    TableMeans(entries, rule.service, a);
    TableMeans(entries, rule.service, b);
    LinkIsSharedName(entries, other, a, b);
  }

  lemma {:induction false} BackToStart(entries: seq<Entry>, rule: ServiceRule, other: ServiceRule,
                                       k: ServiceKey, steps: nat, start: ServiceKey)
    requires KeysUnique(entries) && rule.serviceManagers == other.serviceManagers
    requires ReachableIn(TableOf(entries), rule, k, steps) && Reachable(TableOf(entries), other, k)
    requires Start(TableOf(entries), rule, start)
    ensures Reachable(TableOf(entries), other, start)
    decreases steps
  {
    var t := TableOf(entries);
    if steps == 0 {
      StartsLinked(entries, rule, other, k, start);
      LinkReachable(t, other, k, start);
    } else {
      var a :| ReachableIn(t, rule, a, steps - 1) && Link(t, rule, a, k);
      TableIsLinked(entries);
      LinkBack(entries, rule, other, a, k);
      LinkReachable(t, other, k, a);
      BackToStart(entries, rule, other, a, steps - 1, start);
    }
  }

  lemma {:induction false} ReachesToo(t: Table, rule: ServiceRule, other: ServiceRule, k: ServiceKey, steps: nat)
    requires rule.serviceManagers == other.serviceManagers && ReachableIn(t, rule, k, steps)
    requires forall s {:trigger Start(t, rule, s)} :: Start(t, rule, s) ==> Reachable(t, other, s)
    ensures Reachable(t, other, k)
    decreases steps
  {
    if steps > 0 {
      var a :| ReachableIn(t, rule, a, steps - 1) && Link(t, rule, a, k);
      ReachesToo(t, rule, other, a, steps - 1);
      assert Link(t, other, a, k);
      LinkReachable(t, other, a, k);
    }
  }

  /** Then two rules for the same service managers that meet anywhere reach the same services. */
  lemma MeetingRulesAgree(entries: seq<Entry>, rule: ServiceRule, other: ServiceRule, k: ServiceKey, x: ServiceKey)
    requires KeysUnique(entries) && rule.serviceManagers == other.serviceManagers
    requires Reachable(TableOf(entries), rule, k) && Reachable(TableOf(entries), other, k)
    ensures Reachable(TableOf(entries), rule, x) ==> Reachable(TableOf(entries), other, x)
  {
    var t := TableOf(entries);
    var steps: nat :| ReachableIn(t, rule, k, steps);
    forall s | Start(t, rule, s) ensures Reachable(t, other, s) {
      BackToStart(entries, rule, other, k, steps, s);
    }
    if n: nat :| ReachableIn(t, rule, x, n) {
      ReachesToo(t, rule, other, x, n);
    }
  }

  // -------------------------------------------------------------- applying the rules

  function Applied(rule: ServiceRule, d: Definition): Definition {
    d.(source := rule.source,
       pluginProvided := false,
       name := if rule.service != d.name && rule.service in d.names then rule.service else d.name,
       autoStart := if rule.startOnInstall.Some? then rule.startOnInstall.value
                    else if rule.enableOnInstall.Some? then rule.enableOnInstall.value else d.autoStart,
       onUpgrade := if rule.onUpgrade.Some? then rule.onUpgrade.value else d.onUpgrade)
  }

  /** What a rule asks for is what the service ends up with. */
  ghost predicate Honoured(rule: ServiceRule, before: Definition, after: Definition) {
    && after.autoEnable == (if rule.enableOnInstall.Some? then rule.enableOnInstall.value else before.autoEnable)
    && after.autoStart == (if rule.startOnInstall.Some? then rule.startOnInstall.value else before.autoStart)
    && after.onUpgrade == (if rule.onUpgrade.Some? then rule.onUpgrade.value else before.onUpgrade)
  }

  /** `enable-on-install` is written to the field for starting: the rule is honoured only by luck. */
  lemma EnableIsHonouredIff(rule: ServiceRule, d: Definition)
    ensures Honoured(rule, d, Applied(rule, d)) <==>
      (rule.enableOnInstall.Some? ==>
         rule.enableOnInstall.value == d.autoEnable &&
         (rule.startOnInstall.Some? || rule.enableOnInstall.value == d.autoStart))
  {
  }

  /** What a rule leaves as it was, and what it writes. */
  lemma AppliedSays(rule: ServiceRule, d: Definition)
    ensures var after := Applied(rule, d);
      && after.names == d.names && after.typeOfService == d.typeOfService && after.serviceScope == d.serviceScope
      && after.autoEnable == d.autoEnable && after.source == rule.source && !after.pluginProvided
      && (rule.service in d.names ==> after.name == rule.service)
      && (rule.service !in d.names ==> after.name == d.name)
      && (rule.startOnInstall.Some? ==> after.autoStart == rule.startOnInstall.value)
      && (rule.startOnInstall.None? && rule.enableOnInstall.Some? ==> after.autoStart == rule.enableOnInstall.value)
      && (rule.startOnInstall.None? && rule.enableOnInstall.None? ==> after.autoStart == d.autoStart)
      && (rule.onUpgrade.Some? ==> after.onUpgrade == rule.onUpgrade.value)
      && (rule.onUpgrade.None? ==> after.onUpgrade == d.onUpgrade)
  {
  }

  /** The same services under the same names; only what a rule may change differs. */
  ghost predicate SameShape(t: Table, u: Table) {
    && t.aliases == u.aliases && t.byKey.Keys == u.byKey.Keys
    && forall k {:trigger t.byKey[k]} {:trigger u.byKey[k]} :: k in t.byKey ==> t.byKey[k].names == u.byKey[k].names
  }

  lemma {:induction false} SameReach(t: Table, u: Table, rule: ServiceRule, k: ServiceKey, steps: nat)
    requires SameShape(t, u) && ReachableIn(t, rule, k, steps)
    ensures ReachableIn(u, rule, k, steps)
    decreases steps
  {
    if steps == 0 {
      assert Start(u, rule, k);
    } else {
      var a :| ReachableIn(t, rule, a, steps - 1) && Link(t, rule, a, k);
      SameReach(t, u, rule, a, steps - 1);
      var n :| n in t.byKey[a].names && k in t.Named(n);
      assert n in u.byKey[a].names && k in u.Named(n);
      assert Link(u, rule, a, k);
    }
  }

  lemma ReachableInBoth(t: Table, u: Table, rule: ServiceRule, k: ServiceKey)
    requires SameShape(t, u)
    ensures Reachable(t, rule, k) <==> Reachable(u, rule, k)
  {
    if steps: nat :| ReachableIn(t, rule, k, steps) {
      SameReach(t, u, rule, k, steps);
    }
    if steps: nat :| ReachableIn(u, rule, k, steps) {
      SameReach(u, t, rule, k, steps);
    }
  }

  /** A rule on its own can be applied: it names a service, and every service manager that it lists has one. */
  ghost predicate Satisfied(t: Table, rule: ServiceRule) {
    && (exists k :: Reachable(t, rule, k))
    && (rule.serviceManagers.Some? ==> forall m :: m in rule.serviceManagers.value ==> Serviced(t, rule, m))
  }

  ghost predicate Serviced(t: Table, rule: ServiceRule, manager: string) {
    exists k :: Reachable(t, rule, k) && k.manager == manager
  }

  /** Two rules that change the same service contradict each other. */
  ghost predicate Conflict(t: Table, rule: ServiceRule, other: ServiceRule) {
    exists k :: Reachable(t, rule, k) && Reachable(t, other, k)
  }

  ghost predicate Compatible(t: Table, rules: seq<ServiceRule>) {
    && (forall i {:trigger Satisfied(t, rules[i])} :: 0 <= i < |rules| ==> Satisfied(t, rules[i]))
    && (forall i, j {:trigger Conflict(t, rules[i], rules[j])} :: 0 <= i < j < |rules| ==>
      !Conflict(t, rules[i], rules[j]))
  }

  ghost predicate ClaimedBy(t: Table, rules: seq<ServiceRule>, i: int, k: ServiceKey) {
    0 <= i < |rules| && Reachable(t, rules[i], k)
  }

  /** A service is what was detected, or what the rule that reaches it has made of it. */
  ghost predicate Settled(t: Table, rules: seq<ServiceRule>, k: ServiceKey, after: Definition)
    requires k in t.byKey
  {
    && (forall i {:trigger ClaimedBy(t, rules, i, k)} :: ClaimedBy(t, rules, i, k) ==>
      after == Applied(rules[i], t.byKey[k]))
    && (after != t.byKey[k] ==> exists i :: ClaimedBy(t, rules, i, k))
  }

  /** How far the rules have been applied. */
  ghost predicate AppliedSoFar(t: Table, rules: seq<ServiceRule>, u: Table) {
    && SameShape(t, u)
    && (forall k {:trigger Settled(t, rules, k, u.byKey[k])} :: k in t.byKey ==> Settled(t, rules, k, u.byKey[k]))
  }

  lemma SettledNext(t: Table, rules: seq<ServiceRule>, n: nat, k: ServiceKey, before: Definition, after: Definition)
    requires n < |rules| && k in t.byKey && Settled(t, rules[..n], k, before)
    requires Reachable(t, rules[n], k) ==> before.pluginProvided && after == Applied(rules[n], before)
    requires !Reachable(t, rules[n], k) ==> after == before
    ensures Settled(t, rules[..n + 1], k, after)
  {
    forall i | ClaimedBy(t, rules[..n + 1], i, k) ensures after == Applied(rules[i], t.byKey[k]) {
      assert i < n ==> ClaimedBy(t, rules[..n], i, k);
      assert before.pluginProvided ==> before == t.byKey[k];
    }
    if after != t.byKey[k] {
      if Reachable(t, rules[n], k) {
        assert ClaimedBy(t, rules[..n + 1], n, k);
      } else {
        var i :| ClaimedBy(t, rules[..n], i, k);
        assert ClaimedBy(t, rules[..n + 1], i, k);
      }
    }
  }

  /** A service that is no longer what was detected has been claimed, and claiming it again is a conflict. */
  lemma ChangedIsClaimed(t: Table, rules: seq<ServiceRule>, n: nat, k: ServiceKey, now: Definition)
    requires n < |rules| && k in t.byKey && t.byKey[k].pluginProvided && Settled(t, rules[..n], k, now)
    requires Reachable(t, rules[n], k)
    ensures !now.pluginProvided <==> exists i {:trigger ClaimedBy(t, rules, i, k)} :: i < n && ClaimedBy(t, rules, i, k)
    ensures !now.pluginProvided ==> exists i :: 0 <= i < n && Conflict(t, rules[i], rules[n])
  {
    if !now.pluginProvided {
      var i :| ClaimedBy(t, rules[..n], i, k);
      assert ClaimedBy(t, rules, i, k) && Conflict(t, rules[i], rules[n]);
    }
    if i :| i < n && ClaimedBy(t, rules, i, k) {
      assert ClaimedBy(t, rules[..n], i, k);
    }
  }

  /** The definitions that a rule takes over, one after the other. */
  method Claim(rule: ServiceRule, entries: seq<Entry>, start: map<ServiceKey, Definition>)
    returns (r: Result<map<ServiceKey, Definition>, ServiceError>, managers: set<string>)
    requires NoDuplicates(Keys(entries)) && forall e :: e in entries ==> e.key in start && e.definition == start[e.key]
    ensures r.Failure? <==> exists e :: e in entries && !e.definition.pluginProvided
    ensures r.Failure? ==> r.error.ConflictingRules? && r.error.rule == rule && r.error.key in Keys(entries)
    ensures r.Success? ==> TakenOver(rule, entries, start, r.value)
    ensures r.Success? ==> forall m :: m in managers <==> exists e :: e in entries && e.key.manager == m
  {
    var table := start;
    managers := {};
    for i := 0 to |entries|
      invariant forall e :: e in entries[..i] ==> e.definition.pluginProvided
      invariant TakenOver(rule, entries[..i], start, table)
      invariant forall m :: m in managers <==> exists e :: e in entries[..i] && e.key.manager == m
    {
      var e := entries[i];
      assert entries[..i + 1] == entries[..i] + [e];
      assert Keys(entries[..i + 1]) == Keys(entries[..i]) + [e.key];
      managers := managers + {e.key.manager};
      if !e.definition.pluginProvided {
        assert Keys(entries)[i] == e.key;
        return Failure(ConflictingRules(rule, e.key)), managers;
      }
      table := table[e.key := Applied(rule, e.definition)];
    }
    assert entries[..|entries|] == entries;
    r := Success(table);
  }

  ghost predicate TakenOver(rule: ServiceRule, entries: seq<Entry>, before: map<ServiceKey, Definition>,
                            after: map<ServiceKey, Definition>) {
    && before.Keys == after.Keys
    && forall k {:trigger after[k]} :: k in after ==>
         after[k] == if k in Keys(entries) then Applied(rule, before[k]) else before[k]
  }

  /** What makes the n-th rule go through after the rules before it. */
  ghost predicate GoesThrough(t: Table, rules: seq<ServiceRule>, n: nat)
    requires n < |rules|
  {
    && Satisfied(t, rules[n])
    && forall i {:trigger Conflict(t, rules[i], rules[n])} :: 0 <= i < n ==> !Conflict(t, rules[i], rules[n])
  }

  lemma ReachedMeans(t: Table, u: Table, rule: ServiceRule, entries: seq<Entry>, k: ServiceKey)
    requires SameShape(t, u)
    requires forall x :: x in Keys(entries) <==> Reachable(u, rule, x)
    ensures k in Keys(entries) <==> Reachable(t, rule, k)
  {
    ReachableInBoth(t, u, rule, k);
  }

  /** Why the n-th rule does not go through: it reaches nothing; or something that an earlier rule reaches
      too; or nothing of some service managers that it lists. */
  ghost predicate RefusedFor(t: Table, rules: seq<ServiceRule>, n: nat, e: ServiceError)
    requires n < |rules|
  {
    match e
    case NoSuchService(rule) => rule == rules[n] && forall k :: !Reachable(t, rule, k)
    case ConflictingRules(rule, key) =>
      rule == rules[n] && Reachable(t, rule, key) && exists i :: 0 <= i < n && Conflict(t, rules[i], rule)
    case ManagerWithoutService(rule, missing) =>
      && rule == rules[n] && rule.serviceManagers.Some? && missing != {}
      && forall m :: m in missing <==> m in rule.serviceManagers.value && !Serviced(t, rule, m)
    case UnknownManager(_, _) => false
  }

  method ApplyRule(t: Table, rules: seq<ServiceRule>, n: nat, u: Table) returns (r: Result<Table, ServiceError>)
    requires n < |rules| && t.Linked() && u.Linked() && AppliedSoFar(t, rules[..n], u)
    requires forall k :: k in t.byKey ==> t.byKey[k].pluginProvided
    ensures r.Success? <==> GoesThrough(t, rules, n)
    ensures r.Failure? ==> RefusedFor(t, rules, n, r.error) && !r.error.UnknownManager?
    ensures r.Success? ==> r.value.Linked() && AppliedSoFar(t, rules[..n + 1], r.value)
  {
    var rule := rules[n];
    var entries := RelevantServiceDefinitions(u, rule);
    if entries.Failure? {
      NothingReached(t, u, rule);
      return entries.PropagateFailure();
    }
    forall k ensures k in Keys(entries.value) <==> Reachable(t, rule, k) {
      ReachedMeans(t, u, rule, entries.value, k);
    }
    var table, managers := Claim(rule, entries.value, u.byKey);
    FreeIff(t, rules, n, u, entries.value);
    if table.Failure? {
      return table.PropagateFailure();
    }
    ManagersServiced(t, rule, entries.value, managers);
    if rule.serviceManagers.Some? && managers != rule.serviceManagers.value {
      assert managers + (rule.serviceManagers.value - managers) == rule.serviceManagers.value;
      assert managers + {} == managers;
      return Failure(ManagerWithoutService(rule, rule.serviceManagers.value - managers));
    }
    RuleApplied(t, rules, n, u, entries.value, table.value);
    SatisfiedBy(t, rule, entries.value, managers);
    r := Success(u.(byKey := table.value));
  }

  lemma RuleApplied(t: Table, rules: seq<ServiceRule>, n: nat, u: Table, entries: seq<Entry>,
                    table: map<ServiceKey, Definition>)
    requires n < |rules| && u.Linked() && AppliedSoFar(t, rules[..n], u)
    requires forall k :: k in Keys(entries) <==> Reachable(t, rules[n], k)
    requires forall e :: e in entries ==>
      e.key in u.byKey && e.definition == u.byKey[e.key] && e.definition.pluginProvided
    requires TakenOver(rules[n], entries, u.byKey, table)
    ensures u.(byKey := table).Linked() && AppliedSoFar(t, rules[..n + 1], u.(byKey := table))
  {
    var after := u.(byKey := table);
    forall k | k in t.byKey ensures table[k].names == t.byKey[k].names && Settled(t, rules[..n + 1], k, table[k]) {
      assert Settled(t, rules[..n], k, u.byKey[k]);
      if k in Keys(entries) {
        var x :| 0 <= x < |entries| && entries[x].key == k;
        assert entries[x] in entries;
      }
      SettledNext(t, rules, n, k, u.byKey[k], table[k]);
    }
    forall name, k | k in after.byKey && name in after.byKey[k].names ensures k in after.Named(name) {
      assert name in u.byKey[k].names;
      assert k in u.Named(name);
    }
    forall name, k | k in after.Named(name) ensures k in after.byKey {
      assert k in u.Named(name);
    }
  }

  lemma SatisfiedBy(t: Table, rule: ServiceRule, entries: seq<Entry>, managers: set<string>)
    requires entries != [] && forall k :: k in Keys(entries) <==> Reachable(t, rule, k)
    requires forall m :: m in managers <==> Serviced(t, rule, m)
    requires rule.serviceManagers.Some? ==> managers == rule.serviceManagers.value
    ensures Satisfied(t, rule)
  {
    assert Keys(entries)[0] in Keys(entries);
  }

  lemma NothingReached(t: Table, u: Table, rule: ServiceRule)
    requires SameShape(t, u) && forall k :: !Start(u, rule, k)
    ensures !Satisfied(t, rule) && forall k :: !Reachable(t, rule, k)
  {
    if k :| Reachable(t, rule, k) {
      var steps: nat :| ReachableIn(t, rule, k, steps);
      var start := StartOf(t, rule, k, steps);
      assert Start(u, rule, start);
    }
  }

  lemma {:induction false} StartOf(t: Table, rule: ServiceRule, k: ServiceKey, steps: nat) returns (start: ServiceKey)
    requires ReachableIn(t, rule, k, steps)
    ensures Start(t, rule, start)
    decreases steps
  {
    if steps == 0 {
      start := k;
    } else {
      var a :| ReachableIn(t, rule, a, steps - 1) && Link(t, rule, a, k);
      start := StartOf(t, rule, a, steps - 1);
    }
  }

  lemma TakenBefore(t: Table, rules: seq<ServiceRule>, n: nat, u: Table, e: Entry)
    requires n < |rules| && AppliedSoFar(t, rules[..n], u)
    requires forall k :: k in t.byKey ==> t.byKey[k].pluginProvided
    requires Reachable(t, rules[n], e.key) && e.key in u.byKey && e.definition == u.byKey[e.key]
      && !e.definition.pluginProvided
    ensures exists i :: 0 <= i < n && Conflict(t, rules[i], rules[n])
  {
    assert Settled(t, rules[..n], e.key, u.byKey[e.key]);
    ChangedIsClaimed(t, rules, n, e.key, e.definition);
  }

  lemma MeetsTaken(t: Table, rules: seq<ServiceRule>, n: nat, u: Table, i: nat) returns (k: ServiceKey)
    requires i < n < |rules| && t.Linked() && AppliedSoFar(t, rules[..n], u) && Conflict(t, rules[i], rules[n])
    requires forall k :: k in t.byKey ==> t.byKey[k].pluginProvided
    ensures Reachable(t, rules[n], k) && k in u.byKey && !u.byKey[k].pluginProvided
  {
    k :| Reachable(t, rules[i], k) && Reachable(t, rules[n], k);
    var steps: nat :| ReachableIn(t, rules[i], k, steps);
    assert Settled(t, rules[..n], k, u.byKey[k]);
    assert ClaimedBy(t, rules, i, k);
    ChangedIsClaimed(t, rules, n, k, u.byKey[k]);
  }

  lemma FreeIff(t: Table, rules: seq<ServiceRule>, n: nat, u: Table, entries: seq<Entry>)
    requires n < |rules| && t.Linked() && AppliedSoFar(t, rules[..n], u)
    requires forall k :: k in t.byKey ==> t.byKey[k].pluginProvided
    requires forall k :: k in Keys(entries) <==> Reachable(t, rules[n], k)
    requires forall e :: e in entries ==> e.key in u.byKey && e.definition == u.byKey[e.key]
    ensures (exists e :: e in entries && !e.definition.pluginProvided) <==>
      exists i :: 0 <= i < n && Conflict(t, rules[i], rules[n])
  {
    if e :| e in entries && !e.definition.pluginProvided {
      var x :| 0 <= x < |entries| && entries[x] == e;
      assert Keys(entries)[x] == e.key;
      TakenBefore(t, rules, n, u, e);
    }
    if i :| 0 <= i < n && Conflict(t, rules[i], rules[n]) {
      var k := MeetsTaken(t, rules, n, u, i);
      assert k in Keys(entries);
      var x :| 0 <= x < |entries| && entries[x].key == k;
      assert entries[x] in entries;
    }
  }

  lemma ManagersServiced(t: Table, rule: ServiceRule, entries: seq<Entry>, managers: set<string>)
    requires t.Linked() && forall k :: k in Keys(entries) <==> Reachable(t, rule, k)
    requires forall m :: m in managers <==> exists e :: e in entries && e.key.manager == m
    ensures forall m :: m in managers <==> Serviced(t, rule, m)
    ensures rule.serviceManagers.Some? ==> managers <= rule.serviceManagers.value
  {
    forall m ensures m in managers <==> Serviced(t, rule, m) {
      if e :| e in entries && e.key.manager == m {
        var x :| 0 <= x < |entries| && entries[x] == e;
        assert Keys(entries)[x] == e.key;
      }
      if k :| Reachable(t, rule, k) && k.manager == m {
        assert k in Keys(entries);
        var x :| 0 <= x < |entries| && entries[x].key == k;
        assert entries[x] in entries;
      }
    }
    forall m | m in managers && rule.serviceManagers.Some? ensures m in rule.serviceManagers.value {
      var k :| Reachable(t, rule, k) && k.manager == m;
      var steps: nat :| ReachableIn(t, rule, k, steps);
    }
  }

  ghost predicate KnownManagers(rules: seq<ServiceRule>, known: set<string>) {
    forall i :: 0 <= i < |rules| && rules[i].serviceManagers.Some? ==> rules[i].serviceManagers.value <= known
  }

  /** The check before anything is detected. */
  method CheckManagers(rules: seq<ServiceRule>, known: set<string>) returns (error: Option<ServiceError>)
    ensures error.None? <==> KnownManagers(rules, known)
    ensures error.Some? ==>
      && error.value.UnknownManager? && error.value.rule in rules && error.value.manager !in known
      && error.value.rule.serviceManagers.Some? && error.value.manager in error.value.rule.serviceManagers.value
  {
    for i := 0 to |rules|
      invariant KnownManagers(rules[..i], known)
    {
      if rules[i].serviceManagers.Some? {
        var pending := rules[i].serviceManagers.value;
        while pending != {}
          invariant pending <= rules[i].serviceManagers.value && rules[i].serviceManagers.value - pending <= known
          decreases pending
        {
          var manager :| manager in pending;
          if manager !in known {
            return Some(UnknownManager(rules[i], manager));
          }
          pending := pending - {manager};
        }
      }
    }
    error := None;
  }

  /** The rules in their order: they all go through exactly if each of them can be applied on its own
      and no two of them reach the same service; then no service has been changed by more than one. */
  method ManageServices(detected: seq<Detected>, rules: seq<ServiceRule>, known: set<string>)
    returns (r: Result<map<ServiceKey, Definition>, ServiceError>)
    requires forall e :: e in Entries(detected) ==> e.definition.pluginProvided
    ensures var t := TableOf(Entries(detected));
      r.Success? <==> KnownManagers(rules, known) && Compatible(t, rules)
    ensures r.Failure? ==> (r.error.UnknownManager? <==> !KnownManagers(rules, known))
    ensures var t := TableOf(Entries(detected));
      r.Success? ==> r.value.Keys == t.byKey.Keys && forall k :: k in t.byKey ==> Settled(t, rules, k, r.value[k])
  {
    hide Settled, SameShape, Satisfied, Conflict, RefusedFor, TableOf, Entries, KnownManagers;
    var error := CheckManagers(rules, known);
    if error.Some? {
      return Failure(error.value);
    }
    var t := BuildTable(detected);
    forall k | k in t.byKey ensures t.byKey[k].pluginProvided {
      TableMeans(Entries(detected), "", k);
    }
    var u := t;
    NothingApplied(t, rules);
    hide AppliedSoFar, GoesThrough, Compatible;
    for n := 0 to |rules|
      invariant u.Linked() && AppliedSoFar(t, rules[..n], u)
      invariant forall i {:trigger GoesThrough(t, rules, i)} :: 0 <= i < n ==> GoesThrough(t, rules, i)
    {
      var next := ApplyRule(t, rules, n, u);
      if next.Failure? {
        StopsThere(t, rules, n);
        return next.PropagateFailure();
      }
      u := next.value;
    }
    assert rules[..|rules|] == rules;
    AllGoThrough(t, rules);
    AllSettled(t, rules, u);
    r := Success(u.byKey);
  }

  lemma NothingApplied(t: Table, rules: seq<ServiceRule>)
    ensures AppliedSoFar(t, rules[..0], t)
  {
  }

  lemma AllSettled(t: Table, rules: seq<ServiceRule>, u: Table)
    requires AppliedSoFar(t, rules, u)
    ensures u.byKey.Keys == t.byKey.Keys && forall k :: k in t.byKey ==> Settled(t, rules, k, u.byKey[k])
  {
  }

  lemma StopsThere(t: Table, rules: seq<ServiceRule>, n: nat)
    requires n < |rules| && !GoesThrough(t, rules, n)
    ensures !Compatible(t, rules)
  {
  }

  lemma AllGoThrough(t: Table, rules: seq<ServiceRule>)
    requires forall i {:trigger GoesThrough(t, rules, i)} :: 0 <= i < |rules| ==> GoesThrough(t, rules, i)
    ensures Compatible(t, rules)
  {
    forall i, j | 0 <= i < j < |rules| ensures !Conflict(t, rules[i], rules[j]) {
      assert GoesThrough(t, rules, j);
    }
    forall i | 0 <= i < |rules| ensures Satisfied(t, rules[i]) {
      assert GoesThrough(t, rules, i);
    }
  }

}
