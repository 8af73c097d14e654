/** Installing a matched directory with all that is in it and that nobody else has taken. */
module RecursiveInstall {
  import opened Strings
  import opened SourceTree
  import opened DiscardVerdicts
  import opened MatchSearch
  import opened SourceMatcher

  datatype Delivered = DirEntry | LinkEntry(target: string) | FileEntry(fsPath: FsPath)

  /** What is in a package directory, by path relative to it. */
  type Dest = map<seq<string>, Delivered>

  datatype InstallError = AlreadyExists | NotEmpty | UnsupportedFileType

  // ------------------------------------------------------------------ one package directory

  function Below(dest: Dest, rel: seq<string>): set<seq<string>> {
    set k | k in dest && rel < k
  }

  /** `mkdir` wants the name to be free; a symlink gives way to nothing but an empty directory or a
      file; a file replaces whatever is there. */
  function Put(dest: Dest, rel: seq<string>, x: Item): Result<Dest, InstallError> {
    match x.source.kind
    case IsDirectory => if rel in dest then Failure(AlreadyExists) else Success(dest[rel := DirEntry])
    case IsSymlink(target) =>
      if Below(dest, rel) != {} then Failure(NotEmpty) else Success(dest[rel := LinkEntry(target)])
    case IsFile => Success((dest - Below(dest, rel))[rel := FileEntry(x.path.fs)])
    case IsOther => Failure(UnsupportedFileType)
  }

  function Rel(at: SourcePath, x: Item): seq<string> {
    if |at.fs| <= |x.path.fs| then x.path.fs[|at.fs|..] else []
  }

  function PutAll(dest: Dest, at: SourcePath, items: seq<Item>): Result<Dest, InstallError> {
    if items == [] then Success(dest)
    else
      var before := PutAll(dest, at, items[..|items| - 1]);
      if before.Failure? then before
      else Put(before.value, Rel(at, items[|items| - 1]), items[|items| - 1])
  }

  function EntryFor(x: Item): Delivered
    requires x.source.kind != IsOther
  {
    match x.source.kind
    case IsDirectory => DirEntry
    case IsSymlink(target) => LinkEntry(target)
    case IsFile => FileEntry(x.path.fs)
  }

  /** Paths differ, and nothing is below what is not a directory. */
  ghost predicate Treelike(at: SourcePath, items: seq<Item>) {
    && NoDuplicates(items)
    && (forall x, y :: x in items && y in items && Rel(at, x) == Rel(at, y) ==> x == y)
    && (forall x, y :: x in items && y in items && x.source.kind != IsDirectory ==> !(Rel(at, x) < Rel(at, y)))
  }

  ghost predicate DeliveredAt(at: SourcePath, items: seq<Item>, rel: seq<string>, x: Item) {
    x in items && Rel(at, x) == rel
  }

  /** A file that is delivered at or above the path has replaced what was there. */
  ghost predicate Replaced(at: SourcePath, items: seq<Item>, rel: seq<string>) {
    exists x :: x in items && x.source.kind == IsFile && Rel(at, x) < rel
  }

  lemma PutOne(dest: Dest, at: seq<string>, x: Item, rel: seq<string>)
    requires Put(dest, at, x).Success?
    ensures x.source.kind != IsOther
    ensures var after := Put(dest, at, x).value;
      if rel == at then rel in after && after[rel] == EntryFor(x)
      else
        (rel in after <==> rel in dest && !(x.source.kind == IsFile && at < rel)) &&
        (rel in after ==> after[rel] == dest[rel])
  {
  }

  /** Afterwards a package directory holds just what was delivered, and what was there before and
      has not been replaced. */
  lemma {:induction false} PutAllDelivers(dest: Dest, at: SourcePath, items: seq<Item>, rel: seq<string>)
    requires Treelike(at, items) && PutAll(dest, at, items).Success?
    ensures forall x :: x in items ==> x.source.kind != IsOther
    ensures var after := PutAll(dest, at, items).value;
      && (forall x :: DeliveredAt(at, items, rel, x) ==> rel in after && after[rel] == EntryFor(x))
      && ((forall x :: !DeliveredAt(at, items, rel, x)) ==>
            (rel in after <==> rel in dest && !Replaced(at, items, rel)) && (rel in after ==> after[rel] == dest[rel]))
  {
    if items != [] {
      var front, last := items[..|items| - 1], items[|items| - 1];
      PutAllDelivers(dest, at, front, rel);
      PutOne(PutAll(dest, at, front).value, Rel(at, last), last, rel);
      hide Put, Rel;
      assert forall x :: DeliveredAt(at, items, rel, x) <==>
        DeliveredAt(at, front, rel, x) || (x == last && Rel(at, last) == rel);
      if Rel(at, last) == rel {
        assert DeliveredAt(at, items, rel, last);
        assert forall x :: !DeliveredAt(at, front, rel, x);
      }
    }
  }

  /** What stands in the way of an entry. */
  ghost predicate Blocks(dest: Dest, rel: seq<string>, x: Item) {
    || x.source.kind == IsOther
    || (x.source.kind == IsDirectory && rel in dest)
    || (x.source.kind.IsSymlink? && exists k :: k in dest && rel < k)
  }

  /** The installation fails just if something was in the way of some entry from the start. */
  lemma {:induction false} PutAllFailsIff(dest: Dest, at: SourcePath, items: seq<Item>)
    requires Treelike(at, items)
    ensures PutAll(dest, at, items).Failure? <==> exists x :: x in items && Blocks(dest, Rel(at, x), x)
  {
    if items != [] {
      var front, last := items[..|items| - 1], items[|items| - 1];
      PutAllFailsIff(dest, at, front);
      if PutAll(dest, at, front).Success? {
        var before, rel := PutAll(dest, at, front).value, Rel(at, last);
        StillBlocks(dest, at, items, before);
        if k :| k in before && rel < k {
          assert k in Below(before, rel);
        }
      }
    }
  }

  lemma StillBlocks(dest: Dest, at: SourcePath, items: seq<Item>, before: Dest)
    requires Treelike(at, items) && items != [] && PutAll(dest, at, items[..|items| - 1]) == Success(before)
    ensures var last := items[|items| - 1];
      Blocks(before, Rel(at, last), last) <==> Blocks(dest, Rel(at, last), last)
  {
    var front, last := items[..|items| - 1], items[|items| - 1];
    var rel := Rel(at, last);
    PutAllDelivers(dest, at, front, rel);
    forall k | last.source.kind.IsSymlink? && rel < k ensures k in before <==> k in dest {
      PutAllDelivers(dest, at, front, k);
      assert !Replaced(at, front, k);
    }
  }

  // ------------------------------------------------------------- what is left to be taken

  /** What nobody has and nothing discards. */
  function Unclaimed(hit: Filter, st: State): Filter {
    (p: SourcePath) => p.Valid() && !ReservedAt(hit, st, p)
  }

  function Owners(owners: map<FsPath, Owner>, items: seq<Item>, owner: Owner): map<FsPath, Owner> {
    if items == [] then owners
    else Owners(owners, items[..|items| - 1], owner)[items[|items| - 1].path.fs := owner]
  }

  /** Exactly what was visited has a new owner. */
  lemma {:induction false} OwnersMean(owners: map<FsPath, Owner>, items: seq<Item>, owner: Owner, f: FsPath)
    ensures f in Owners(owners, items, owner) <==> f in owners || exists x :: x in items && x.path.fs == f
    ensures (exists x :: x in items && x.path.fs == f) ==> Owners(owners, items, owner)[f] == owner
    ensures f in owners && (forall x :: x in items ==> x.path.fs != f) ==> Owners(owners, items, owner)[f] == owners[f]
  {
    if items != [] {
      var front, last := items[..|items| - 1], items[|items| - 1];
      assert items == front + [last];
      OwnersMean(owners, front, owner, f);
    }
  }

  /** The entries that an installation takes, in the order in which it takes them. */
  function Order(hit: Filter, st: State, at: SourcePath, tree: Source): seq<Item> {
    VisitEntries(Unclaimed(hit, st), at, tree.entries)
  }

  lemma OrderIsTreelike(hit: Filter, st: State, at: SourcePath, tree: Source)
    requires at.Valid() && WellFormed(tree)
    ensures Treelike(at, Order(hit, st, at, tree))
  {
    var keep, items := Unclaimed(hit, st), Order(hit, st, at, tree);
    VisitEntriesOnce(keep, at, tree.entries);
    forall x, y | x in items && y in items
      ensures (Rel(at, x) == Rel(at, y) ==> x == y) && (x.source.kind != IsDirectory ==> !(Rel(at, x) < Rel(at, y)))
    {
      var a := TakenAt(hit, st, at, tree, x);
      var b := TakenAt(hit, st, at, tree, y);
      if x.source.kind != IsDirectory && a < b {
        FoundWellFormed(tree.entries, a);
        NothingBelowLeaf(tree.entries, a, b);
      }
    }
  }

  lemma TakenAt(hit: Filter, st: State, at: SourcePath, tree: Source, x: Item) returns (rel: seq<string>)
    requires at.Valid() && WellFormed(tree) && x in Order(hit, st, at, tree)
    ensures FoundAmong(Unclaimed(hit, st), at, tree.entries, rel, x) && rel == Rel(at, x)
  {
    VisitEntriesReaches(Unclaimed(hit, st), at, tree.entries, x);
    rel :| FoundAmong(Unclaimed(hit, st), at, tree.entries, rel, x);
    assert x.path.fs == at.fs + rel;
  }

  lemma {:induction false} NothingBelowLeaf(entries: seq<Source>, a: seq<string>, b: seq<string>)
    requires a != [] && a < b && FoundIn(entries, a).Some? && FoundIn(entries, a).value.entries == []
    ensures FoundIn(entries, b).None?
    decreases a
  {
    assert a[0] == b[0];
    if |a| > 1 {
      assert a[1..] < b[1..];
      NothingBelowLeaf(EntryNamed(entries, a[0]).value.entries, a[1..], b[1..]);
    } else {
      assert EntryNamed([], b[1]) == None;
    }
  }

  /** What an installation delivers to a package directory, said without the walk: an entry arrives
      just if it and all on the way to it are unclaimed, as what it is in the source tree. */
  lemma InstallationDelivers(hit: Filter, st: State, at: SourcePath, tree: Source, dest: Dest, rel: seq<string>)
    requires at.Valid() && WellFormed(tree) && PutAll(dest, at, Order(hit, st, at, tree)).Success?
    ensures var after, keep := PutAll(dest, at, Order(hit, st, at, tree)).value, Unclaimed(hit, st);
      if ReachedIn(keep, at, tree.entries, rel) then
        var x := Item(at.Step(rel), FoundIn(tree.entries, rel).value);
        x.source.kind != IsOther && rel in after && after[rel] == EntryFor(x)
      else
        (rel in after ==> rel in dest && after[rel] == dest[rel]) &&
        (rel in dest && rel !in after ==>
           exists above {:trigger ReachedIn(keep, at, tree.entries, above)} ::
             above < rel && ReachedIn(keep, at, tree.entries, above)
               && FoundIn(tree.entries, above).value.kind == IsFile)
  {
    var items, keep := Order(hit, st, at, tree), Unclaimed(hit, st);
    OrderIsTreelike(hit, st, at, tree);
    PutAllDelivers(dest, at, items, rel);
    if ReachedIn(keep, at, tree.entries, rel) {
      var x := Item(at.Step(rel), FoundIn(tree.entries, rel).value);
      assert FoundAmong(keep, at, tree.entries, rel, x);
      VisitEntriesReaches(keep, at, tree.entries, x);
      assert Rel(at, x) == rel;
      assert DeliveredAt(at, items, rel, x);
    } else {
      forall x ensures !DeliveredAt(at, items, rel, x) {
        if DeliveredAt(at, items, rel, x) {
          var found := TakenAt(hit, st, at, tree, x);
        }
      }
      if rel in dest && rel !in PutAll(dest, at, items).value {
        var x :| x in items && x.source.kind == IsFile && Rel(at, x) < rel;
        var above := TakenAt(hit, st, at, tree, x);
      }
    }
  }

  /** And exactly these entries have a new owner. */
  lemma InstallationReserves(hit: Filter, st: State, at: SourcePath, tree: Source, owner: Owner, f: FsPath)
    requires at.Valid() && WellFormed(tree)
    ensures var after, keep := Owners(st.owners, Order(hit, st, at, tree), owner), Unclaimed(hit, st);
      && (f in after <==> f in st.owners || exists rel :: ReachedIn(keep, at, tree.entries, rel) && f == at.fs + rel)
      && (f in st.owners ==> after[f] == st.owners[f])
      && (f in after && f !in st.owners ==> after[f] == owner)
  {
    var items, keep := Order(hit, st, at, tree), Unclaimed(hit, st);
    OwnersMean(st.owners, items, owner, f);
    if x :| x in items && x.path.fs == f {
      var rel := TakenAt(hit, st, at, tree, x);
      assert rel[..|rel|] == rel && keep(at.Step(rel));
    }
    if rel :| ReachedIn(keep, at, tree.entries, rel) && f == at.fs + rel {
      var x := Item(at.Step(rel), FoundIn(tree.entries, rel).value);
      assert FoundAmong(keep, at, tree.entries, rel, x);
      VisitEntriesReaches(keep, at, tree.entries, x);
    }
  }

  // ---------------------------------------------------------------------- the algorithm

  lemma {:induction false} FailureRemains(dest: Dest, at: SourcePath, items: seq<Item>, more: seq<Item>)
    requires PutAll(dest, at, items).Failure?
    ensures PutAll(dest, at, items + more).Failure?
    decreases |more|
  {
    if more == [] {
      assert items + more == items;
    } else {
      FailureRemains(dest, at, items, more[..|more| - 1]);
      assert (items + more)[..|items + more| - 1] == items + more[..|more| - 1];
    }
  }

  ghost predicate SameAnswers(hit: Filter, st: State, now: State, root: FsPath) {
    forall q: SourcePath {:trigger Answer(hit, now.discarded, q)} :: q.Valid() && RootOf(q) == root ==>
      Answer(hit, now.discarded, q) == Answer(hit, st.discarded, q)
  }

  /** The matcher after some entries have been claimed: queries have not changed any answer. */
  ghost predicate Claiming(hit: Filter, st: State, now: State, root: FsPath, done: seq<Item>, owner: Owner) {
    && now.owners == Owners(st.owners, done, owner) && now.exact == st.exact && now.excluded == st.excluded
    && SameAnswers(hit, st, now, root)
  }

  lemma QueryKeepsClaims(hit: Filter, st: State, now: State, p: SourcePath, done: seq<Item>, owner: Owner)
    requires p.Valid() && Claiming(hit, st, now, RootOf(p), done, owner)
    ensures Claiming(hit, st, Queried(hit, now, p), RootOf(p), done, owner)
  {
    var after := Queried(hit, now, p);
    forall q: SourcePath | q.Valid() && RootOf(q) == RootOf(p)
      ensures Answer(hit, after.discarded, q) == Answer(hit, st.discarded, q)
    {
      assert Answer(hit, now.discarded, q) == Answer(hit, st.discarded, q);
      QueriesChangeNothing(hit, now.discarded, p, q);
    }
  }

  /** As long as a path is not among those just claimed, it is reserved if it was at the start. */
  lemma StillUnclaimed(hit: Filter, st: State, now: State, p: SourcePath, done: seq<Item>, owner: Owner)
    requires p.Valid() && Claiming(hit, st, now, RootOf(p), done, owner)
    requires ReservedAt(hit, st, p) || forall x :: x in done ==> x.path.fs != p.fs
    ensures ReservedAt(hit, now, p) <==> ReservedAt(hit, st, p)
  {
    OwnersMean(st.owners, done, owner, p.fs);
    assert Answer(hit, now.discarded, p) == Answer(hit, st.discarded, p);
  }

  lemma ClaimedOneMore(hit: Filter, st: State, now: State, root: FsPath, done: seq<Item>, x: Item, owner: Owner)
    requires Claiming(hit, st, now, root, done, owner)
    ensures Claiming(hit, st, Reserving(now, x.path.fs, owner.into, owner.source), root, done + [x], owner)
  {
    assert (done + [x])[..|done|] == done;
  }

  /** The bookkeeping is in order, and whatever waits to be installed has been looked at. */
  ghost predicate Fit(now: State, waiting: seq<Item>) {
    Inv(now) && forall x {:trigger x in waiting} :: x in waiting ==> Looked(now, x)
  }

  ghost predicate Looked(now: State, x: Item) {
    x.path.fs in now.discarded && now.discarded[x.path.fs] != DiscardedByManifest
  }

  lemma AskedFits(hit: Filter, now: State, waiting: seq<Item>, x: Item)
    requires x.path.Valid() && Fit(now, waiting)
    ensures Fit(Queried(hit, now, x.path), waiting)
    ensures !ReservedAt(hit, now, x.path) ==> Fit(Queried(hit, now, x.path), waiting + [x])
  {
    QueriedKeeps(hit, now, x.path);
    FilledKeeps(hit, now.discarded, x.path);
    var after := Queried(hit, now, x.path);
    forall y | y in waiting ensures Looked(after, y) {
      assert Looked(now, y);
    }
  }

  lemma FitsWithout(now: State, waiting: seq<Item>, part: seq<Item>)
    requires Fit(now, waiting) && forall x :: x in part ==> x in waiting
    ensures Fit(now, part)
  {
  }

  lemma ReservedFits(now: State, waiting: seq<Item>, x: Item, into: set<Package>, source: string)
    requires Fit(now, waiting) && x in waiting && into != {}
    ensures Fit(Reserving(now, x.path.fs, into, source), waiting)
  {
    var after := Reserving(now, x.path.fs, into, source);
    assert Looked(now, x);
    forall f | f in after.owners ensures OwnerOk(after, f) {
      if f != x.path.fs {
        assert OwnerOk(now, f);
      }
    }
    forall y | y in waiting ensures Looked(after, y) {
      assert Looked(now, y);
    }
  }

  /** Nothing that is to be taken among the entries has been taken. */
  ghost predicate Untouched(keep: Filter, path: SourcePath, entries: seq<Source>, done: seq<Item>) {
    forall e, x :: e in entries && keep(path.Step([e.name])) && x in done ==> x.path.fs != path.Step([e.name]).fs
  }

  function Asks(path: SourcePath, entries: seq<Source>): seq<Step> {
    if entries == [] then []
    else Asks(path, entries[..|entries| - 1]) + [Ask(path.Step([entries[|entries| - 1].name]))]
  }

  /** What an installation does to the matcher: an entry is claimed, and then asked about are those in it. */
  function InstallSteps(at: SourcePath, tree: Source, items: seq<Item>, owner: Owner): seq<Step> {
    if items == [] then Asks(at, tree.entries)
    else
      var last := items[|items| - 1];
      (InstallSteps(at, tree, items[..|items| - 1], owner) + [Claim(last.path, owner.into, owner.source)])
      + Asks(last.path, last.source.entries)
  }

  lemma {:induction false} AsksWithin(path: SourcePath, entries: seq<Source>)
    requires path.Valid()
    ensures InTrees({RootOf(path)}, Asks(path, entries))
  {
    if entries != [] {
      AsksWithin(path, entries[..|entries| - 1]);
      assert RootOf(path.Step([entries[|entries| - 1].name])) == RootOf(path);
    }
  }

  /** All of it within one search directory. */
  lemma {:induction false} InstallStepsWithin(at: SourcePath, tree: Source, items: seq<Item>, owner: Owner)
    requires at.Valid() && Within(RootOf(at), items) && owner.into != {}
    ensures InTrees({RootOf(at)}, InstallSteps(at, tree, items, owner))
  {
    if items == [] {
      AsksWithin(at, tree.entries);
    } else {
      var last := items[|items| - 1];
      InstallStepsWithin(at, tree, items[..|items| - 1], owner);
      AsksWithin(last.path, last.source.entries);
    }
  }

  lemma ClaimsTop(hit: Filter, st: State, now: State, at: SourcePath, tree: Source, done: seq<Item>,
                  stack: seq<Item>, owner: Owner)
    requires at.Valid() && WellFormed(tree) && stack != [] && Fit(now, stack) && owner.into != {}
    requires done + VisitStack(Unclaimed(hit, st), stack) == Order(hit, st, at, tree)
    requires Claiming(hit, st, now, RootOf(at), done, owner) && Ran(hit, st, InstallSteps(at, tree, done, owner), now)
    ensures var top := stack[|stack| - 1];
      && top.path.Valid()
      && Ran(hit, st, InstallSteps(at, tree, done, owner) + [Claim(top.path, owner.into, owner.source)],
             Reserving(now, top.path.fs, owner.into, owner.source))
  {
    var keep, top := Unclaimed(hit, st), stack[|stack| - 1];
    hide Order, VisitStack, WellFormed, InstallSteps;
    TopWithin(hit, st, at, tree, done, stack);
    TopUnclaimed(hit, st, at, tree, done, stack);
    StillUnclaimed(hit, st, now, top.path, done, owner);
    assert top in stack && Looked(now, top);
    RanOneMore(hit, st, InstallSteps(at, tree, done, owner), now, Claim(top.path, owner.into, owner.source));
  }

  lemma TopUnclaimed(hit: Filter, st: State, at: SourcePath, tree: Source, done: seq<Item>, stack: seq<Item>)
    requires at.Valid() && WellFormed(tree) && stack != []
    requires done + VisitStack(Unclaimed(hit, st), stack) == Order(hit, st, at, tree)
    ensures var top := stack[|stack| - 1];
      top.path.Valid() && !ReservedAt(hit, st, top.path) && forall x :: x in done ==> x.path.fs != top.path.fs
  {
    var keep, top := Unclaimed(hit, st), stack[|stack| - 1];
    StackIsVisited(keep, stack, top);
    OrderIsTreelike(hit, st, at, tree);
    assert top in Order(hit, st, at, tree);
    var rel := TakenAt(hit, st, at, tree, top);
    assert rel[..|rel|] == rel && keep(at.Step(rel));
    forall x | x in done ensures x.path.fs != top.path.fs {
      LaterIsNotDone(at, done, VisitStack(keep, stack), x, top);
    }
  }

  lemma OneMoreInstalled(hit: Filter, st: State, mid: State, now: State, at: SourcePath, tree: Source,
                         done: seq<Item>, top: Item, owner: Owner)
    requires Ran(hit, st, InstallSteps(at, tree, done, owner) + [Claim(top.path, owner.into, owner.source)], mid)
    requires Ran(hit, mid, Asks(top.path, top.source.entries), now)
    ensures Ran(hit, st, InstallSteps(at, tree, done + [top], owner), now)
  {
    assert (done + [top])[..|done|] == done;
    RanOn(hit, st, InstallSteps(at, tree, done, owner) + [Claim(top.path, owner.into, owner.source)], mid,
          Asks(top.path, top.source.entries), now);
  }

  lemma NoEntries(keep: Filter, path: SourcePath)
    ensures KeptEntries(keep, path, []) == [] && Asks(path, []) == []
  {
  }

  lemma NextEntry(keep: Filter, path: SourcePath, entries: seq<Source>, i: nat)
    requires i < |entries|
    ensures var child := path.Step([entries[i].name]);
      && KeptEntries(keep, path, entries[..i + 1]) ==
         KeptEntries(keep, path, entries[..i]) + (if keep(child) then [Item(child, entries[i])] else [])
      && Asks(path, entries[..i + 1]) == Asks(path, entries[..i]) + [Ask(child)]
  {
    assert entries[..i + 1][..i] == entries[..i];
  }

  /** The list comprehension that asks for every entry whether it is reserved. */
  method UnreservedEntries(matcher: SourcePathMatcher, path: SourcePath, entries: seq<Source>,
                           ghost st: State, ghost done: seq<Item>, ghost owner: Owner, ghost waiting: seq<Item>)
    returns (kept: seq<Item>)
    requires Fit(matcher.Now(), waiting)
    requires path.Valid() && Claiming(Hit(matcher.autoDiscardRules), st, matcher.Now(), RootOf(path), done, owner)
    requires Untouched(Unclaimed(Hit(matcher.autoDiscardRules), st), path, entries, done)
    modifies matcher
    ensures Claiming(Hit(matcher.autoDiscardRules), st, matcher.Now(), RootOf(path), done, owner)
    ensures kept == KeptEntries(Unclaimed(Hit(matcher.autoDiscardRules), st), path, entries)
    ensures Fit(matcher.Now(), waiting + kept)
    ensures Ran(Hit(matcher.autoDiscardRules), old(matcher.Now()), Asks(path, entries), matcher.Now())
  {
    ghost var hit, before := Hit(matcher.autoDiscardRules), matcher.Now();
    NothingRan(hit, before);
    hide Fit, Claiming, ReservedAt, Ran, KeptEntries, Asks, Hit;
    kept := [];
    assert waiting + kept == waiting;
    NoEntries(Unclaimed(hit, st), path);
    for i := 0 to |entries|
      invariant Fit(matcher.Now(), waiting + kept)
      invariant Claiming(hit, st, matcher.Now(), RootOf(path), done, owner)
      invariant kept == KeptEntries(Unclaimed(hit, st), path, entries[..i])
      invariant Ran(hit, before, Asks(path, entries[..i]), matcher.Now())
    {
      NextEntry(Unclaimed(hit, st), path, entries, i);
      var child := path.Step([entries[i].name]);
      StillUnclaimed(hit, st, matcher.Now(), child, done, owner);
      QueryKeepsClaims(hit, st, matcher.Now(), child, done, owner);
      AskedFits(hit, matcher.Now(), waiting + kept, Item(child, entries[i]));
      RanOneMore(hit, before, Asks(path, entries[..i]), matcher.Now(), Ask(child));
      var reserved := matcher.IsReserved(child);
      if !reserved {
        assert (waiting + kept) + [Item(child, entries[i])] == waiting + (kept + [Item(child, entries[i])]);
        kept := kept + [Item(child, entries[i])];
      }
    }
    assert entries[..|entries|] == entries;
  }

  /** One entry goes to every package directory. */
  method Deliver(dests: seq<Dest>, rel: seq<string>, x: Item) returns (r: Result<seq<Dest>, InstallError>)
    requires dests != []
    ensures r.Failure? ==> exists i :: 0 <= i < |dests| && Put(dests[i], rel, x).Failure?
    ensures r.Success? ==>
      |r.value| == |dests| && forall i :: 0 <= i < |dests| ==> Put(dests[i], rel, x) == Success(r.value[i])
  {
    var delivered: seq<Dest> := [];
    for i := 0 to |dests|
      invariant |delivered| == i && forall j :: 0 <= j < i ==> Put(dests[j], rel, x) == Success(delivered[j])
    {
      var next := Put(dests[i], rel, x);
      if next.Failure? {
        return next.PropagateFailure();
      }
      delivered := delivered + [next.value];
    }
    r := Success(delivered);
  }

  /** The installation under way. */
  ghost predicate Installing(keep: Filter, at: SourcePath, all: seq<Item>, start: seq<Dest>,
                             done: seq<Item>, stack: seq<Item>, dests: seq<Dest>) {
    && done + VisitStack(keep, stack) == all
    && |dests| == |start| && forall i :: 0 <= i < |dests| ==> PutAll(start[i], at, done) == Success(dests[i])
  }

  function Pushed(keep: Filter, stack: seq<Item>): seq<Item>
    requires stack != []
  {
    var top := stack[|stack| - 1];
    stack[..|stack| - 1] + KeptEntries(keep, top.path, top.source.entries)
  }

  lemma {:induction false} KeptIsThere(keep: Filter, path: SourcePath, entries: seq<Source>, e: Source)
    requires e in entries && keep(path.Step([e.name]))
    ensures Item(path.Step([e.name]), e) in KeptEntries(keep, path, entries)
  {
    if entries[|entries| - 1] != e {
      assert e in entries[..|entries| - 1];
      KeptIsThere(keep, path, entries[..|entries| - 1], e);
    }
  }

  lemma {:induction false} StackIsVisited(keep: Filter, stack: seq<Item>, x: Item)
    requires x in stack
    ensures x in VisitStack(keep, stack)
  {
    if stack[|stack| - 1] != x {
      StackIsVisited(keep, stack[..|stack| - 1], x);
    }
  }

  /** What comes later has not been done yet. */
  lemma LaterIsNotDone(at: SourcePath, done: seq<Item>, later: seq<Item>, x: Item, y: Item)
    requires Treelike(at, done + later) && x in done && y in later
    ensures Rel(at, x) != Rel(at, y)
  {
    var all := done + later;
    var i :| 0 <= i < |done| && done[i] == x;
    var j :| 0 <= j < |later| && later[j] == y;
    assert all[i] == x && all[|done| + j] == y;
  }

  lemma EntriesUntouched(hit: Filter, st: State, at: SourcePath, tree: Source, done: seq<Item>, stack: seq<Item>)
    requires at.Valid() && WellFormed(tree) && stack != []
    requires done + VisitStack(Unclaimed(hit, st), stack) == Order(hit, st, at, tree)
    ensures var keep, top := Unclaimed(hit, st), stack[|stack| - 1];
      && (done + [top]) + VisitStack(keep, Pushed(keep, stack)) == Order(hit, st, at, tree)
      && Untouched(keep, top.path, top.source.entries, done + [top])
  {
    var keep, top, all := Unclaimed(hit, st), stack[|stack| - 1], Order(hit, st, at, tree);
    var later := VisitStack(keep, Pushed(keep, stack));
    PopAndPush(keep, stack);
    assert (done + [top]) + later == all;
    OrderIsTreelike(hit, st, at, tree);
    forall e, x | e in top.source.entries && keep(top.path.Step([e.name])) && x in done + [top]
      ensures x.path.fs != top.path.Step([e.name]).fs
    {
      var y := Item(top.path.Step([e.name]), e);
      KeptIsThere(keep, top.path, top.source.entries, e);
      StackIsVisited(keep, Pushed(keep, stack), y);
      LaterIsNotDone(at, done + [top], later, x, y);
    }
  }

  lemma TopWithin(hit: Filter, st: State, at: SourcePath, tree: Source, done: seq<Item>, stack: seq<Item>)
    requires at.Valid() && WellFormed(tree) && stack != []
    requires done + VisitStack(Unclaimed(hit, st), stack) == Order(hit, st, at, tree)
    ensures var top := stack[|stack| - 1];
      top.path.Valid() && RootOf(top.path) == RootOf(at) && WellFormed(top.source)
  {
    VisitedWithin(Unclaimed(hit, st), at, tree.entries);
    StackIsVisited(Unclaimed(hit, st), stack, stack[|stack| - 1]);
    assert stack[|stack| - 1] in Order(hit, st, at, tree);
  }

  lemma DeliveryFails(at: SourcePath, start: Dest, dest: Dest, done: seq<Item>, x: Item, later: seq<Item>)
    requires PutAll(start, at, done) == Success(dest) && Put(dest, Rel(at, x), x).Failure?
    ensures PutAll(start, at, (done + [x]) + later).Failure?
  {
    assert (done + [x])[..|done|] == done;
    FailureRemains(start, at, done + [x], later);
  }

  lemma DeliveryInstalls(keep: Filter, at: SourcePath, all: seq<Item>, start: seq<Dest>,
                         done: seq<Item>, stack: seq<Item>, dests: seq<Dest>, delivered: seq<Dest>)
    requires Installing(keep, at, all, start, done, stack, dests) && stack != [] && |delivered| == |dests|
    requires var top := stack[|stack| - 1];
      && (done + [top]) + VisitStack(keep, Pushed(keep, stack)) == all
      && forall i :: 0 <= i < |dests| ==> Put(dests[i], Rel(at, top), top) == Success(delivered[i])
    ensures Installing(keep, at, all, start, done + [stack[|stack| - 1]], Pushed(keep, stack), delivered)
  {
    assert (done + [stack[|stack| - 1]])[..|done|] == done;
  }

  /** One round: the entry on top of the stack is reserved and delivered, and what is in it is pushed. */
  method InstallNext(matcher: SourcePathMatcher, stack: seq<Item>, dests: seq<Dest>, at: SourcePath,
                     into: set<Package>, source: string,
                     ghost tree: Source, ghost st: State, ghost start: seq<Dest>, ghost done: seq<Item>)
    returns (r: Result<(seq<Item>, seq<Dest>), InstallError>)
    requires at.Valid() && WellFormed(tree) && stack != [] && dests != [] && into != {}
    requires Fit(matcher.Now(), stack)
    requires var hit := Hit(matcher.autoDiscardRules);
      && Installing(Unclaimed(hit, st), at, Order(hit, st, at, tree), start, done, stack, dests)
      && Claiming(hit, st, matcher.Now(), RootOf(at), done, Owner(into, source))
      && Ran(hit, st, InstallSteps(at, tree, done, Owner(into, source)), matcher.Now())
    modifies matcher
    ensures var hit := Hit(matcher.autoDiscardRules);
      r.Failure? ==> exists i :: 0 <= i < |start| && PutAll(start[i], at, Order(hit, st, at, tree)).Failure?
    ensures var hit, top := Hit(matcher.autoDiscardRules), stack[|stack| - 1];
      r.Success? ==>
        && Installing(Unclaimed(hit, st), at, Order(hit, st, at, tree), start, done + [top], r.value.0, r.value.1)
        && Claiming(hit, st, matcher.Now(), RootOf(at), done + [top], Owner(into, source))
        && Ran(hit, st, InstallSteps(at, tree, done + [top], Owner(into, source)), matcher.Now())
        && Fit(matcher.Now(), r.value.0)
  {
    ghost var hit, owner := Hit(matcher.autoDiscardRules), Owner(into, source);
    ghost var keep, all := Unclaimed(hit, st), Order(hit, st, at, tree);
    var top, below := stack[|stack| - 1], stack[..|stack| - 1];
    EntriesUntouched(hit, st, at, tree, done, stack);
    TopWithin(hit, st, at, tree, done, stack);
    ReservedFits(matcher.Now(), stack, top, into, source);
    ClaimsTop(hit, st, matcher.Now(), at, tree, done, stack, owner);
    ClaimedOneMore(hit, st, matcher.Now(), RootOf(at), done, top, owner);
    hide *;
    matcher.Reserve(top.path.fs, into, source, false);
    ghost var mid := matcher.Now();
    var delivered := Deliver(dests, Rel(at, top), top);
    if delivered.Failure? {
      ghost var i :| 0 <= i < |dests| && Put(dests[i], Rel(at, top), top).Failure?;
      DeliveryFails(at, start[i], dests[i], done, top, VisitStack(keep, Pushed(keep, stack)));
      return Failure(delivered.error);
    }
    DeliveryInstalls(keep, at, all, start, done, stack, dests, delivered.value);
    FitsWithout(matcher.Now(), stack, below);
    var children := [];
    if top.source.kind == IsDirectory {
      children := UnreservedEntries(matcher, top.path, top.source.entries, st, done + [top], owner, below);
    } else {
      assert below + children == below;
      assert Asks(top.path, []) == [];
      NothingRan(hit, mid);
    }
    OneMoreInstalled(hit, st, mid, matcher.Now(), at, tree, done, top, owner);
    r := Success((below + children, delivered.value));
  }

  /** `_install_dir_recursively`: it fails just if the delivery to some package directory does;
      otherwise every one of them gets the same entries, and these are reserved. */
  method InstallDirRecursively(matcher: SourcePathMatcher, parentDirs: seq<Dest>, at: SourcePath, tree: Source,
                               into: set<Package>, definitionSource: string)
    returns (r: Result<seq<Dest>, InstallError>)
    requires at.Valid() && WellFormed(tree) && parentDirs != [] && into != {} && Inv(matcher.Now())
    modifies matcher
    ensures var items := Order(Hit(matcher.autoDiscardRules), old(matcher.Now()), at, tree);
      && (r.Failure? <==> exists i :: 0 <= i < |parentDirs| && PutAll(parentDirs[i], at, items).Failure?)
      && (r.Success? ==>
            && |r.value| == |parentDirs|
            && (forall i :: 0 <= i < |parentDirs| ==> PutAll(parentDirs[i], at, items) == Success(r.value[i]))
            && matcher.alreadyMatched == Owners(old(matcher.alreadyMatched), items, Owner(into, definitionSource))
            && matcher.exactMatchRequest == old(matcher.exactMatchRequest) && matcher.excluded == old(matcher.excluded)
            && Ran(Hit(matcher.autoDiscardRules), old(matcher.Now()),
                   InstallSteps(at, tree, items, Owner(into, definitionSource)), matcher.Now())
            && Inv(matcher.Now()) && Extends(old(matcher.Now()), matcher.Now()))
  {
    ghost var hit, st, owner := Hit(matcher.autoDiscardRules), matcher.Now(), Owner(into, definitionSource);
    ghost var keep, all := Unclaimed(hit, st), Order(hit, st, at, tree);
    ghost var done := [];
    hide *;
    StartOfInstall(hit, st, at, tree, parentDirs, owner);
    var stack := UnreservedEntries(matcher, at, tree.entries, st, done, owner, []);
    assert [] + stack == stack;
    var dests := parentDirs;
    while stack != []
      invariant Installing(keep, at, all, parentDirs, done, stack, dests) && |dests| == |parentDirs|
      invariant Claiming(hit, st, matcher.Now(), RootOf(at), done, owner) && Fit(matcher.Now(), stack)
      invariant Ran(hit, st, InstallSteps(at, tree, done, owner), matcher.Now())
      decreases |all| - |done|
    {
      var next := InstallNext(matcher, stack, dests, at, into, definitionSource, tree, st, parentDirs, done);
      if next.Failure? {
        return Failure(next.error);
      }
      done := done + [stack[|stack| - 1]];
      stack, dests := next.value.0, next.value.1;
    }
    EndOfInstall(hit, st, matcher.Now(), at, tree, parentDirs, done, dests, owner);
    r := Success(dests);
  }

  lemma StartOfInstall(hit: Filter, st: State, at: SourcePath, tree: Source, start: seq<Dest>, owner: Owner)
    requires at.Valid() && Inv(st)
    ensures Fit(st, [])
    ensures var keep := Unclaimed(hit, st);
      && Installing(keep, at, Order(hit, st, at, tree), start, [], KeptEntries(keep, at, tree.entries), start)
      && Untouched(keep, at, tree.entries, [])
    ensures Claiming(hit, st, st, RootOf(at), [], owner)
    ensures InstallSteps(at, tree, [], owner) == Asks(at, tree.entries)
  {
    var keep := Unclaimed(hit, st);
    StackOfEntries(keep, [], at, tree.entries);
    assert [] + KeptEntries(keep, at, tree.entries) == KeptEntries(keep, at, tree.entries);
    assert VisitEntries(keep, at, tree.entries) + [] == VisitEntries(keep, at, tree.entries);
  }

  lemma EndOfInstall(hit: Filter, st: State, now: State, at: SourcePath, tree: Source, start: seq<Dest>,
                     done: seq<Item>, dests: seq<Dest>, owner: Owner)
    requires at.Valid() && WellFormed(tree)
      && Installing(Unclaimed(hit, st), at, Order(hit, st, at, tree), start, done, [], dests)
    requires Fit(now, [])
    requires Claiming(hit, st, now, RootOf(at), done, owner)
    ensures var all := Order(hit, st, at, tree);
      && |dests| == |start| && (forall i :: 0 <= i < |start| ==> PutAll(start[i], at, all) == Success(dests[i]))
      && done == all && now.owners == Owners(st.owners, all, owner) && now.exact == st.exact
        && now.excluded == st.excluded
    ensures Inv(now) && Extends(st, now)
  {
    assert done == Order(hit, st, at, tree);
    forall f | f in st.owners ensures f in now.owners && now.owners[f] == st.owners[f] {
      InstallationReserves(hit, st, at, tree, owner, f);
    }
  }
}
