/** The source tree that is installed from: an immutable tree of directory entries, and
    the depth-first walk with a stack that its users share.  What is not kept is passed
    over by the walk, with all that is in it. */
module SourceTree {
  import opened Strings

  datatype SourceKind = IsDirectory | IsSymlink(target: string) | IsFile | IsOther

  datatype Source = Source(name: string, kind: SourceKind, entries: seq<Source>)

  /** Where an entry is: the segments of its path, and how many directories above it belong to the
      same search directory.  Nested search directories give the same path different depths. */
  datatype SourcePath = SourcePath(fs: seq<string>, depth: nat) {
    predicate Valid() {
      depth <= |fs|
    }

    function Parent(): (p: SourcePath)
      requires depth > 0 && Valid()
      ensures p.Valid()
    {
      SourcePath(fs[..|fs| - 1], depth - 1)
    }

    function Step(rel: seq<string>): (p: SourcePath)
      ensures Valid() ==> p.Valid()
    {
      SourcePath(fs + rel, depth + |rel|)
    }
  }

  datatype Item = Item(path: SourcePath, source: Source)

  /** Only directories have entries, and their names differ. */
  ghost predicate WellFormed(s: Source) {
    (s.kind != IsDirectory ==> s.entries == []) && AllWellFormed(s.entries)
  }

  ghost predicate AllWellFormed(entries: seq<Source>) {
    entries == [] ||
    (var last, front := entries[|entries| - 1], entries[..|entries| - 1];
     WellFormed(last) && AllWellFormed(front) && EntryNamed(front, last.name).None?)
  }

  function EntryNamed(entries: seq<Source>, name: string): (r: Option<Source>)
    ensures r.Some? ==> r.value in entries && r.value.name == name
    ensures r.None? ==> forall e :: e in entries ==> e.name != name
  {
    if entries == [] then None
    else if entries[|entries| - 1].name == name then Some(entries[|entries| - 1])
    else EntryNamed(entries[..|entries| - 1], name)
  }

  /** What is at the end of a relative path. */
  function Found(s: Source, rel: seq<string>): Option<Source> {
    if rel == [] then Some(s) else FoundIn(s.entries, rel)
  }

  function FoundIn(entries: seq<Source>, rel: seq<string>): Option<Source>
    requires rel != []
    decreases rel, 0
  {
    var next := EntryNamed(entries, rel[0]);
    if next.None? then None
    else if |rel| == 1 then next
    else FoundIn(next.value.entries, rel[1..])
  }

  // ---------------------------------------------------------------------- the walk

  type Filter = SourcePath -> bool

  /** The entry, and all below it that can be reached through entries that are kept;
      the last entry of a directory first, as a stack hands them out. */
  function Visit(keep: Filter, path: SourcePath, s: Source): seq<Item>
    decreases s
  {
    [Item(path, s)] + VisitEntries(keep, path, s.entries)
  }

  function VisitEntries(keep: Filter, path: SourcePath, entries: seq<Source>): seq<Item>
    decreases entries
  {
    if entries == [] then []
    else
      var last := entries[|entries| - 1];
      var at := path.Step([last.name]);
      (if keep(at) then Visit(keep, at, last) else []) + VisitEntries(keep, path, entries[..|entries| - 1])
  }

  /** What the entries of a directory put on the stack. */
  function KeptEntries(keep: Filter, path: SourcePath, entries: seq<Source>): seq<Item> {
    if entries == [] then []
    else
      var last := entries[|entries| - 1];
      var at := path.Step([last.name]);
      KeptEntries(keep, path, entries[..|entries| - 1]) + (if keep(at) then [Item(at, last)] else [])
  }

  /** All that is visited from a stack. */
  function VisitStack(keep: Filter, stack: seq<Item>): seq<Item> {
    if stack == [] then []
    else
      var top := stack[|stack| - 1];
      Visit(keep, top.path, top.source) + VisitStack(keep, stack[..|stack| - 1])
  }

  lemma PushOne(keep: Filter, stack: seq<Item>, top: Item)
    ensures VisitStack(keep, stack + [top]) == Visit(keep, top.path, top.source) + VisitStack(keep, stack)
  {
    assert (stack + [top])[..|stack|] == stack;
  }

  /** Of two kept entries of a directory, all of the later one is visited before any of the earlier one. */
  lemma {:induction false} LaterEntryFirst(keep: Filter, path: SourcePath, entries: seq<Source>, i: nat, j: nat,
                                           x: Item, y: Item)
    requires i < j < |entries| && keep(path.Step([entries[i].name])) && keep(path.Step([entries[j].name]))
    requires x in Visit(keep, path.Step([entries[i].name]), entries[i])
    requires y in Visit(keep, path.Step([entries[j].name]), entries[j])
    ensures Precedes(VisitEntries(keep, path, entries), y, x)
  {
    hide Visit;
    var front, last := entries[..|entries| - 1], entries[|entries| - 1];
    var rest := VisitEntries(keep, path, front);
    var first := if keep(path.Step([last.name])) then Visit(keep, path.Step([last.name]), last) else [];
    assert VisitEntries(keep, path, entries) == first + rest;
    if j == |entries| - 1 {
      EntryVisited(keep, path, front, i, x);
    } else {
      LaterEntryFirst(keep, path, front, i, j, x, y);
    }
    PrecedesConcat(first, rest, y, x);
  }

  lemma {:induction false} EntryVisited(keep: Filter, path: SourcePath, entries: seq<Source>, i: nat, x: Item)
    requires i < |entries| && keep(path.Step([entries[i].name]))
    requires x in Visit(keep, path.Step([entries[i].name]), entries[i])
    ensures x in VisitEntries(keep, path, entries)
  {
    hide Visit;
    if i < |entries| - 1 {
      EntryVisited(keep, path, entries[..|entries| - 1], i, x);
    }
  }

  lemma {:induction false} StackOfEntries(keep: Filter, stack: seq<Item>, path: SourcePath, entries: seq<Source>)
    ensures VisitStack(keep, stack + KeptEntries(keep, path, entries)) ==
            VisitEntries(keep, path, entries) + VisitStack(keep, stack)
  {
    hide Visit, VisitStack;
    var kept := KeptEntries(keep, path, entries);
    if entries == [] {
      assert stack + kept == stack;
    } else {
      var last, front := entries[|entries| - 1], entries[..|entries| - 1];
      var at, below := path.Step([last.name]), KeptEntries(keep, path, front);
      StackOfEntries(keep, stack, path, front);
      if keep(at) {
        assert stack + kept == (stack + below) + [Item(at, last)];
        PushOne(keep, stack + below, Item(at, last));
      } else {
        assert kept == below;
      }
    }
  }

  /** Popping an entry and pushing what is in it leaves the rest of the walk as it was. */
  lemma PopAndPush(keep: Filter, stack: seq<Item>)
    requires stack != []
    ensures var top := stack[|stack| - 1];
      VisitStack(keep, stack) ==
        [top] + VisitStack(keep, stack[..|stack| - 1] + KeptEntries(keep, top.path, top.source.entries))
  {
    var top := stack[|stack| - 1];
    StackOfEntries(keep, stack[..|stack| - 1], top.path, top.source.entries);
  }

  // -------------------------------------------------------------- what the walk reaches

  /** Everything on the way down a relative path is kept. */
  ghost predicate KeptDown(keep: Filter, path: SourcePath, rel: seq<string>) {
    forall k {:trigger rel[..k]} :: 0 < k <= |rel| ==> keep(path.Step(rel[..k]))
  }

  /** Some entry is at this relative path, and it and all on the way to it are kept. */
  ghost predicate Reached(keep: Filter, path: SourcePath, s: Source, rel: seq<string>) {
    Found(s, rel).Some? && KeptDown(keep, path, rel)
  }

  ghost predicate ReachedIn(keep: Filter, path: SourcePath, entries: seq<Source>, rel: seq<string>) {
    rel != [] && FoundIn(entries, rel).Some? && KeptDown(keep, path, rel)
  }

  lemma KeptDownFirst(keep: Filter, path: SourcePath, rel: seq<string>)
    requires rel != []
    ensures KeptDown(keep, path, rel) <==> keep(path.Step([rel[0]])) && KeptDown(keep, path.Step([rel[0]]), rel[1..])
  {
    var at := path.Step([rel[0]]);
    if KeptDown(keep, path, rel) {
      assert rel[..1] == [rel[0]];
      forall k | 0 < k <= |rel[1..]| ensures keep(at.Step(rel[1..][..k])) {
        assert [rel[0]] + rel[1..][..k] == rel[..k + 1];
        assert at.Step(rel[1..][..k]) == path.Step(rel[..k + 1]);
      }
    }
    if keep(at) && KeptDown(keep, at, rel[1..]) {
      forall k | 0 < k <= |rel| ensures keep(path.Step(rel[..k])) {
        assert rel[..k] == [rel[0]] + rel[1..][..k - 1];
        assert at.Step(rel[1..][..k - 1]) == path.Step(rel[..k]);
        assert k == 1 ==> rel[..k] == [rel[0]];
      }
    }
  }

  /** x is what the walk finds at a relative path from s. */
  ghost predicate FoundAt(keep: Filter, path: SourcePath, s: Source, rel: seq<string>, x: Item) {
    Reached(keep, path, s, rel) && x == Item(path.Step(rel), Found(s, rel).value)
  }

  ghost predicate FoundAmong(keep: Filter, path: SourcePath, entries: seq<Source>, rel: seq<string>, x: Item) {
    ReachedIn(keep, path, entries, rel) && x == Item(path.Step(rel), FoundIn(entries, rel).value)
  }

  /** The walk visits just what is reached through kept entries. */
  lemma {:induction false} VisitReaches(keep: Filter, path: SourcePath, s: Source, x: Item)
    requires WellFormed(s)
    ensures x in Visit(keep, path, s) <==> exists rel :: FoundAt(keep, path, s, rel, x)
    decreases s
  {
    VisitEntriesReaches(keep, path, s.entries, x);
    if x == Item(path, s) {
      assert path.Step([]) == path;
      assert FoundAt(keep, path, s, [], x);
    }
    if rel :| FoundAmong(keep, path, s.entries, rel, x) {
      assert FoundAt(keep, path, s, rel, x);
    }
    if rel :| FoundAt(keep, path, s, rel, x) {
      if rel == [] {
        assert path.Step([]) == path;
      } else {
        assert FoundAmong(keep, path, s.entries, rel, x);
      }
    }
  }

  lemma {:induction false} VisitEntriesReaches(keep: Filter, path: SourcePath, entries: seq<Source>, x: Item)
    requires AllWellFormed(entries)
    ensures x in VisitEntries(keep, path, entries) <==> exists rel :: FoundAmong(keep, path, entries, rel, x)
    decreases entries
  {
    hide FoundAt, FoundAmong, Visit;
    if entries == [] {
      NothingFound(keep, path, x);
    } else {
      var last, front := entries[|entries| - 1], entries[..|entries| - 1];
      var at := path.Step([last.name]);
      assert entries == front + [last];
      VisitEntriesReaches(keep, path, front, x);
      VisitReaches(keep, at, last, x);
      if rel :| FoundAmong(keep, path, entries, rel, x) {
        FirstOrOther(keep, path, last, front, rel, x);
      }
      if rel :| FoundAmong(keep, path, front, rel, x) {
        OtherEntry(keep, path, last, front, rel, x);
      }
      if rel :| keep(at) && FoundAt(keep, at, last, rel, x) {
        ThroughEntry(keep, path, last, front, rel, x);
      }
    }
  }

  lemma NothingFound(keep: Filter, path: SourcePath, x: Item)
    ensures forall rel :: !FoundAmong(keep, path, [], rel, x)
  {
  }

  lemma ThroughEntry(keep: Filter, path: SourcePath, last: Source, front: seq<Source>, rel: seq<string>, x: Item)
    requires keep(path.Step([last.name])) && FoundAt(keep, path.Step([last.name]), last, rel, x)
    ensures FoundAmong(keep, path, front + [last], [last.name] + rel, x)
  {
    var longer, entries := [last.name] + rel, front + [last];
    assert longer[1..] == rel && longer[0] == last.name;
    KeptDownFirst(keep, path, longer);
    assert EntryNamed(entries, last.name) == Some(last);
    assert path.Step([last.name]).Step(rel) == path.Step(longer);
  }

  lemma OtherEntry(keep: Filter, path: SourcePath, last: Source, front: seq<Source>, rel: seq<string>, x: Item)
    requires EntryNamed(front, last.name).None? && FoundAmong(keep, path, front, rel, x)
    ensures FoundAmong(keep, path, front + [last], rel, x)
  {
    assert (front + [last])[..|front|] == front;
    assert EntryNamed(front + [last], rel[0]) == EntryNamed(front, rel[0]);
  }

  lemma FirstOrOther(keep: Filter, path: SourcePath, last: Source, front: seq<Source>, rel: seq<string>, x: Item)
    requires FoundAmong(keep, path, front + [last], rel, x)
    ensures (rel != [] && keep(path.Step([last.name])) && FoundAt(keep, path.Step([last.name]), last, rel[1..], x)) ||
            FoundAmong(keep, path, front, rel, x)
  {
    assert (front + [last])[..|front|] == front;
    KeptDownFirst(keep, path, rel);
    assert [rel[0]] + rel[1..] == rel;
    assert path.Step([rel[0]]).Step(rel[1..]) == path.Step(rel);
  }

  /** What is visited is decided by its path. */
  lemma PathDecides(keep: Filter, path: SourcePath, s: Source, x: Item, y: Item)
    requires WellFormed(s) && x in Visit(keep, path, s) && y in Visit(keep, path, s) && x.path == y.path
    ensures x == y
  {
    VisitReaches(keep, path, s, x);
    VisitReaches(keep, path, s, y);
    var rel :| FoundAt(keep, path, s, rel, x);
    var other :| FoundAt(keep, path, s, other, y);
    assert (path.fs + rel)[|path.fs|..] == rel && (path.fs + other)[|path.fs|..] == other;
  }

  lemma BelowEntries(keep: Filter, path: SourcePath, entries: seq<Source>, x: Item)
    requires AllWellFormed(entries) && x in VisitEntries(keep, path, entries)
    ensures |x.path.fs| > |path.fs| && EntryNamed(entries, x.path.fs[|path.fs|]).Some?
  {
    VisitEntriesReaches(keep, path, entries, x);
    var rel :| FoundAmong(keep, path, entries, rel, x);
  }

  lemma BelowEntry(keep: Filter, path: SourcePath, s: Source, x: Item)
    requires WellFormed(s) && x in Visit(keep, path.Step([s.name]), s)
    ensures |x.path.fs| > |path.fs| && x.path.fs[|path.fs|] == s.name
  {
    VisitReaches(keep, path.Step([s.name]), s, x);
    var rel :| FoundAt(keep, path.Step([s.name]), s, rel, x);
  }

  /** Nothing is visited twice. */
  lemma {:induction false} VisitOnce(keep: Filter, path: SourcePath, s: Source)
    requires WellFormed(s)
    ensures NoDuplicates(Visit(keep, path, s))
    decreases s
  {
    VisitEntriesOnce(keep, path, s.entries);
    if Item(path, s) in VisitEntries(keep, path, s.entries) {
      BelowEntries(keep, path, s.entries, Item(path, s));
    }
    NoDuplicatesConcat([Item(path, s)], VisitEntries(keep, path, s.entries));
  }

  lemma {:induction false} VisitEntriesOnce(keep: Filter, path: SourcePath, entries: seq<Source>)
    requires AllWellFormed(entries)
    ensures NoDuplicates(VisitEntries(keep, path, entries))
    decreases entries
  {
    if entries != [] {
      var last, front := entries[|entries| - 1], entries[..|entries| - 1];
      var at := path.Step([last.name]);
      VisitOnce(keep, at, last);
      VisitEntriesOnce(keep, path, front);
      forall x | x in Visit(keep, at, last) ensures x !in VisitEntries(keep, path, front) {
        BelowEntry(keep, path, last, x);
        if x in VisitEntries(keep, path, front) {
          BelowEntries(keep, path, front, x);
        }
      }
      NoDuplicatesConcat(Visit(keep, at, last), VisitEntries(keep, path, front));
    }
  }

  lemma {:induction false} NamedWellFormed(entries: seq<Source>, name: string)
    requires AllWellFormed(entries)
    ensures EntryNamed(entries, name).Some? ==> WellFormed(EntryNamed(entries, name).value)
  {
    if entries != [] {
      NamedWellFormed(entries[..|entries| - 1], name);
    }
  }

  lemma {:induction false} FoundWellFormed(entries: seq<Source>, rel: seq<string>)
    requires AllWellFormed(entries) && rel != []
    ensures FoundIn(entries, rel).Some? ==> WellFormed(FoundIn(entries, rel).value)
    decreases rel
  {
    NamedWellFormed(entries, rel[0]);
    if EntryNamed(entries, rel[0]).Some? && |rel| > 1 {
      FoundWellFormed(EntryNamed(entries, rel[0]).value.entries, rel[1..]);
    }
  }
}
