# debputy: from source trees to package trees to archives

debputy takes the files that a build has left in its search directories, sorts them into one
in-memory tree per binary package, changes these trees, and writes each of them out as a manifest for
a tar writer and finally as an ar container. This project models the algorithms on that way and
proves what they keep, what they compute and, where they do not do what they are for, exactly when
they do.

| file | part of the program |
|---|---|
| `Strings.dfy` | string operations on slash-separated paths |
| `SymlinkTargets.dfy` | symlink targets in the form that section 10.5 of Debian Policy asks for |
| `FsTree.dfy`, `VirtualFs.dfy` | the mutable virtual file system: `FsTree` says what each step does to the tree of all nodes, `VirtualFs` has the class with its child tables, parent references and path caches |
| `Resolution.dfy`, `PathLookup.dfy` | looking up and creating paths, through symlinks: `Resolution` says what a path means, `PathLookup` has the loops |
| `Traversal.dfy`, `Manifest.dfy`, `PackageManifest.dfy` | the depth-first traversal, the members of the intermediate manifest with their serialised form, and the manifest of a package tree |
| `SourceTree.dfy`, `DiscardVerdicts.dfy`, `MatchSearch.dfy`, `SourceMatcher.dfy`, `RecursiveInstall.dfy`, `InstalledTrees.dfy` | which source paths are matched, discarded, installed and missed; `InstalledTrees` relates what is installed to the virtual file system |
| `SearchDirOrder.dfy` | the order of the search directories of all packages |
| `Services.dfy` | which of the detected services a service rule changes |
| `ArArchive.dfy` | writing the ar container, and reading it back |
| `DhInstallMigration.dfy` | turning dh_install lines into install rules |
| `BasenameGlob.dfy`, `ModeNormalization.dfy`, `Substitution.dfy` | glob shortcuts, mode normalisation, variable substitution |

How the parts are modelled:

- An `FSPath` is an object of a class with the fields of the original. Methods take, as ghost
  arguments, the set of all nodes and the root directory; `Snap` turns the fields of all nodes into a
  value of type `Tree`, and the contract of every method names the step on that value. A ghost rank
  per node says that parent references are acyclic. Weak references are plain ones.
- Python sets are iterated in an arbitrary order (`:|`), so that what is proved holds for every order.
- Exceptions and fatal errors are `Failure` results. File contents and the metadata of paths are
  opaque values; JSON is taken to be the identity on dictionaries of scalars.
- The source tree that packages are installed from is an immutable finite tree. A path in it is known
  by its segments, which are what the matcher's tables are keyed by, and by how many directories above
  it belong to the same search directory: search directories may be nested, as `debian/tmp` is in the
  source root.

Where the code does not do what it is for, the model does what the code does, and a lemma says when
that is right:

- A symlink that is a prefix of the path it points to gets the empty string or a wrong absolute path
  (`MeaningKept`, `PrefixForm`).
- Renaming or moving a detached node that is still in a directory leaves it there under its old name,
  and a new entry of a detached directory overwrites one that is not told (`RenamingInsideDetached`,
  `MovedKeepsIff`, `CreatedKeepsIff`); the root directory can be renamed (`FSPath.SetName`); the parent
  setter has no check against moving a directory into itself (`MovingBelowItselfIsCyclic`).
- A lookup takes a doubled slash for an entry with an empty name (`DoubledSlash`), and refuses to go up
  from the root directory (`PathAboveRoot`), where an operating system stays.
- A discard rule for a directory does not reach paths whose verdict is in the cache, or hangs on one
  that is (`ExcludeKeepsExactIff`, `StaleVerdict`); and if two nested search directories disagree on
  a path, whichever asks first decides (`DisagreementSticks`, `DisputedLibrary`). `RunKeepsExactIff`
  says exactly over which runs the memoised verdicts are right, for all paths or for one.
- The error for a path that is named exactly twice cannot occur: the second request has failed
  already (`TakeOneKeeps`). The check for a single match never finds anything (`CheckSingleMatch`).
- A service rule's `enable-on-install` is written to the field for starting (`EnableIsHonouredIff`).
- The pattern `foo?` also matches `foo` (`AgreesIffNotMistaken`).
- A dh_install line with a condition and without a destination puts "no destination" into a rule with
  several destinations (`MissingDestinationIff`); and such a rule keeps one of several different
  conditions (`ConditionKeptIff`).
- An ar member of odd length makes the archive unreadable (`FileReadBackIffEven`), and the
  header of a streamed member that is too long for its columns overwrites what comes after it
  (`OutputIsDirectIff`, `FileIsDirectIff`).
- Normalising modes fails for a rule that takes the minimum bits from a path (`TransformFileSystem`).

## Model

| member | source | states |
|---|---|---|
| SymlinkTargets.MeaningKept | src/debputy/util.py:346-402 | for every link with valid names and every target: the rewritten target points, lexically from the directory of the link, to what the original points to if and only if the link is not itself a prefix of that path |
| SymlinkTargets.RelativeIffSameTopLevel | src/debputy/util.py:362-402 | outside of the prefix case the rewritten target is relative exactly if link and target share the top-level directory (Debian Policy, section 10.5) |
| SymlinkTargets.RelativeIsShortest | src/debputy/util.py:379-402 | no relative target that points to the same path has fewer segments |
| SymlinkTargets.RewritingTwiceIff | src/debputy/util.py:346-402 | rewriting the rewritten target changes nothing if and only if the link is not a prefix of what it points to, or goes on there with a segment other than its first one |
| SymlinkTargets.EmptyIffToItself | src/debputy/util.py:346-402 | the result is the empty string exactly for a link that points to itself |
| SymlinkTargets.PrefixForm | src/debputy/util.py:379-402 | what is written when the link is a prefix of the target: the empty string, or an absolute path without the prefix |
| SymlinkTargets.PrefixFormPointsElsewhere | src/debputy/util.py:379-402 | that form never points to what the original pointed to |
| SymlinkTargets.StepsNeeded | src/debputy/util.py:379-402 | a chain of segments is at least as long as the way between the directories it connects; the bound behind the shortest form |
| SymlinkTargets.TargetSegmentsMeaning | src/debputy/util.py:356-377 | the segments compared by the code are those that the target leads to from the directory of the link |
| SymlinkTargets.NormalizedPathShape | src/debputy/util.py:193-222 | an accepted link path is the root directory or `./` and valid names, so that the results above cover every accepted link |
| SymlinkTargets.NormalizePathMeans | src/debputy/util.py:193-222 | normalising a path keeps its segments that are not empty, without a `.` in front, with or without the prefix; it fails exactly if `.` or `..` is among them |
| SymlinkTargets.DebianPolicyNormalizeSymlinkTarget | src/debputy/util.py:346-402 | the method with its loops fails exactly as the link path fails to normalise, and else computes the policy target that the lemmas are about |
| SymlinkTargets.NormalizeLinkTarget | src/debputy/util.py:225-238 | the loop over the segments gives the joined segments that the target leads to from the root, with `..` at the root staying there |
| SymlinkTargets.WritePolicyForm | src/debputy/util.py:379-402 | the counting loop writes the policy form of the two paths |
| FsTree.RunKeeps | src/debputy/filesystem_scan.py:363-385 | every run of creations, moves, renames, removals and prunes, attached or detached, keeps the tree well formed: children under their own names, parent and child agreeing, one parent each, no cycle, with any names; names stay valid if the given ones are; every node that there was, removed or not, is still among the nodes |
| FsTree.MovedKeepsIff | src/debputy/filesystem_scan.py:604-626 | wherever a node is and wherever it goes, other than into itself, a move keeps the tree well formed if and only if the node is attached, in no directory or in the one it goes to, and that is attached or has nothing else of the name |
| FsTree.CreatedKeepsIff | src/debputy/filesystem_scan.py:417-442 | a new node keeps the tree well formed if and only if its directory is attached or has nothing of the name |
| FsTree.DetachedKeepsIff | src/debputy/filesystem_scan.py:604-626 | dropping the parent keeps the tree well formed if and only if the node was attached or had none |
| FsTree.ApplyKeeps | src/debputy/filesystem_scan.py:604-626 | each single step that the code accepts keeps the tree well formed, other than those that MovedKeepsIff, CreatedKeepsIff and RenamingInsideDetached except |
| FsTree.MovedKeeps | src/debputy/filesystem_scan.py:604-626 | a move that may be made keeps the tree well formed and puts the node below its new parent |
| FsTree.MovedInside | src/debputy/filesystem_scan.py:577-592 | whatever is inside a moved node keeps its names from there and gets the new parent in front of them |
| FsTree.MovedOutside | src/debputy/filesystem_scan.py:604-626 | whatever is neither moved nor replaced keeps its place and its path |
| FsTree.MovedAway | src/debputy/filesystem_scan.py:558-568 | what had the name before is detached by the move, with all that is in it |
| FsTree.DetachedKeeps | src/debputy/filesystem_scan.py:932-949 | taking a node out keeps the tree well formed and detaches the node, also while another one is being moved |
| FsTree.DetachedElsewhere | src/debputy/filesystem_scan.py:932-949 | what is not inside a removed node keeps its place and its names |
| FsTree.RenamedKeeps | src/debputy/filesystem_scan.py:458-471 | renaming an attached node keeps the tree well formed and changes no other name |
| FsTree.RenamedInside | src/debputy/filesystem_scan.py:458-471 | a renamed node stays attached, in its directory and under the new name, with all that is in it |
| FsTree.RenamedOutside | src/debputy/filesystem_scan.py:458-471 | what else had the name there is detached with all that is in it, and everything else keeps its place and its names |
| FsTree.RenamingInsideDetached | src/debputy/filesystem_scan.py:463-465 | renaming a detached node that is still in a directory keeps the tree well formed if and only if the name does not change |
| FsTree.MovingBelowItselfIsCyclic | src/debputy/filesystem_scan.py:604-626 | with a new parent inside of the moved node no choice of ranks makes the parent references acyclic |
| FsTree.PrunedKeeps | src/debputy/filesystem_scan.py:363-385 | pruning keeps the tree well formed and every node that the pruned directory is not inside of |
| FsTree.PrunedLeavesNoEmptyParent | src/debputy/filesystem_scan.py:363-385 | where the pruning went, no empty directory is left |
| VirtualFs.FSPath.Root | src/debputy/filesystem_scan.py:1078-1087 | a new root directory alone satisfies the class invariant |
| VirtualFs.FSPath.Orphan | src/debputy/filesystem_scan.py:417-442 | a new node without a parent |
| VirtualFs.FSPath.IsDetached | src/debputy/filesystem_scan.py:511-519 | detached means that following parent references does not end in the root directory |
| VirtualFs.FSPath.IsReadWrite | src/debputy/filesystem_scan.py:922-930 | a node may be changed if it is detached or the root directory is writable |
| VirtualFs.FSPath.Path | src/debputy/filesystem_scan.py:577-592 | for an attached node the cached path is the join of the names from the root, whatever was renamed or moved above it since; the getter changes nothing but caches |
| VirtualFs.FSPath.SetParent | src/debputy/filesystem_scan.py:604-626 | the setter with all its error cases, for attached and detached nodes and parents; its new state is that of a move or a removal, and the invariant with its caches is kept exactly if the move is a clean one or the removed node was attached or in no directory |
| VirtualFs.FSPath.AddChild | src/debputy/filesystem_scan.py:558-568 | an entry with the same name is unlinked with its contents unless it is detached, then the child is entered; or nothing changes and the reason is returned |
| VirtualFs.FSPath.Unlink | src/debputy/filesystem_scan.py:932-949 | error cases of unlinking, and the node and only the node is detached |
| VirtualFs.FSPath.SetName | src/debputy/filesystem_scan.py:458-471 | an attached node is renamed in its directory, as the lemmas on renaming say, and replaces what has the name; the invariant is kept exactly if the node is attached and not the root directory, is in no directory or keeps its name |
| VirtualFs.FSPath.Mkdir | src/debputy/filesystem_scan.py:893-917 | in any directory, attached or not, refused names, existing entries and read-only trees fail without any change; otherwise the tree has one directory more |
| VirtualFs.FSPath.AddSymlink | src/debputy/filesystem_scan.py:863-891 | a symlink replaces a file, a symlink or an empty directory, and fails on a directory with contents; the invariant is kept exactly if its directory is attached or has nothing of the name |
| VirtualFs.FSPath.InsertFile | src/debputy/filesystem_scan.py:801-861 | a file replaces whatever has its name, even a directory with contents, unless that was excluded; the invariant is kept exactly if its directory is attached or has nothing of the name |
| VirtualFs.FSPath.PruneIfEmptyDir | src/debputy/filesystem_scan.py:363-385 | the recursion up the tree removes just the empty directories that pruning is about; for a detached directory it changes nothing and fails exactly if that is empty and in no directory |
| Resolution.LookupIsMeaning | src/debputy/filesystem_scan.py:298-346 | for every tree, with cyclic symlinks too: whatever the resolver with its stack returns, other than its loop error, is what the path means by a recursive definition; node, or deepest node and missing parts |
| Resolution.PathThroughLink | src/debputy/filesystem_scan.py:321-343 | a path through a symlink, absolute or relative, leads to what is inside of the directory that the target means lexically, read from the root directory or from the one that the symlink is in, if only directories are on that way |
| Resolution.PathThroughRewrittenLink | src/debputy/util.py:346-402 | once a symlink has been rewritten as Debian Policy asks for it, whatever the original target was, paths through it lead to what is inside of the directory that the original meant, if the symlink is not a prefix of that |
| Resolution.PathWithoutLinks | src/debputy/filesystem_scan.py:298-346 | without symlinks on the way a path, absolute or relative, means what it says lexically |
| Resolution.PathAboveRoot | src/debputy/filesystem_scan.py:311-316 | a path that goes up from the root directory is refused |
| Resolution.PathMissing | src/debputy/filesystem_scan.py:317-324 | where names lead down to a directory that lacks the next one, that and all that follows is missing, with a slash at the end or without |
| Resolution.DoubledSlash | src/debputy/filesystem_scan.py:216-225 | a path with a doubled slash asks for an entry with an empty name, and is missing where there is none |
| Resolution.EndlessIsLoop | src/debputy/filesystem_scan.py:298-346 | a path whose resolution would never end is answered by the loop error |
| Resolution.LoopIffTraversedTwice | src/debputy/filesystem_scan.py:321-334 | the loop error comes exactly if some symlink is traversed twice |
| Resolution.StackFollowsMeaning | src/debputy/filesystem_scan.py:298-346 | with more parts pending on the stack, the resolver goes where the first parts lead and continues from there |
| Resolution.MoreFuel | src/debputy/filesystem_scan.py:298-346 | the meaning of a path does not depend on how many steps one allows, once they are enough |
| Resolution.NoLoopMeansAllNew | src/debputy/filesystem_scan.py:321-334 | without the loop error no symlink path repeats, for any number of steps |
| Resolution.LoopMeansRepeat | src/debputy/filesystem_scan.py:321-334 | with the loop error a symlink path has repeated |
| Resolution.OwnPathLeadsHome | src/debputy/filesystem_scan.py:216-225 | looking up the path of an attached node from the root gives that node |
| Resolution.PathsAreDistinct | src/debputy/filesystem_scan.py:577-592 | two attached nodes never have the same path |
| Resolution.PathIsJoin | src/debputy/filesystem_scan.py:577-592 | a path is the join of `.` and the names from the root |
| Resolution.MissingStart | src/debputy/filesystem_scan.py:298-346 | what is missing starts with a name that the deepest directory does not have |
| Resolution.LookupAfterCreate | src/debputy/filesystem_scan.py:348-361 | once a directory has been made for the first missing part, a new lookup of the whole path goes on from it |
| Resolution.GrownKeepsPlaces | src/debputy/filesystem_scan.py:348-361 | in a tree that has only grown every node is where it was |
| PathLookup.AttemptLookup | src/debputy/filesystem_scan.py:298-346 | the loop over a stack of pending parts terminates and computes the resolution that the lemmas are about, changing nothing but caches |
| PathLookup.LookupNode | src/debputy/filesystem_scan.py:291-296 | a node only if nothing is missing, none exactly if something is, and an error for a detached start |
| PathLookup.Mkdirs | src/debputy/filesystem_scan.py:348-361 | all outcomes: a detached start fails, an existing directory is returned and nothing changes; what is missing is created, nothing else moves, a later lookup of the same path reaches the new directory, and without symlinks on the way that has the names of the path |
| PathLookup.RootOf | src/debputy/filesystem_scan.py:228-234 | going up from an attached node ends in the root directory |
| PathLookup.ExpandSymlink | src/debputy/filesystem_scan.py:321-334 | the parts of a target go on top of what is pending, read from the right directory |
| PathLookup.Advance | src/debputy/filesystem_scan.py:310-341 | one turn of the loop: an answer, or a next state with the same answer and a smaller measure |
| Traversal.AllPaths | src/debputy/filesystem_scan.py:478-488 | the stack-based traversal lists the tree in preorder, children by name |
| Traversal.PreorderIsInside | src/debputy/filesystem_scan.py:478-488 | all nodes inside the start are visited, and no others |
| Traversal.PreorderOnce | src/debputy/filesystem_scan.py:478-488 | no node is visited twice |
| Traversal.ParentsFirst | src/debputy/filesystem_scan.py:478-488 | a directory is visited before what is in it |
| Traversal.SortedAscends | src/debputy/filesystem_scan.py:478-488 | children are visited in ascending order of their names |
| Traversal.SiblingsByName | src/debputy/filesystem_scan.py:478-488 | all that is in one child is visited before all that is in a child with a greater name |
| Traversal.VisitedTogether | src/debputy/filesystem_scan.py:478-488 | what is in a directory is visited without interruption |
| Manifest.RoundTrip | src/debputy/intermediate_manifest.py:202-318 | a member comes back from its serialised form as it was if and only if it is consistent; an inconsistent one is refused when written or when read |
| Manifest.OctRoundTrip | src/debputy/intermediate_manifest.py:202-217 | modes survive being written in octal |
| Manifest.InOrderMeans | src/debputy/intermediate_manifest.py:220-245 | the growing set of directories accepts a list exactly if every member is in a directory that is known or listed before it |
| Manifest.ParseIntermediateManifest | src/debputy/intermediate_manifest.py:220-245 | the loop accepts a manifest exactly if every member is well formed, the root directory comes first and every directory before what is in it |
| PackageManifest.ManifestListsEachOnce | src/debputy/highlevel_manifest.py:201-212 | the manifest lists every node of the tree once, and the root directory first |
| PackageManifest.ManifestAfterParents | src/debputy/highlevel_manifest.py:201-212 | holding the symlinks back to the end keeps every directory before what is in it |
| PackageManifest.ManifestKeepsTraversal | src/debputy/highlevel_manifest.py:201-212 | symlinks come after everything else, and apart from that the order is that of the traversal |
| PackageManifest.MembersAt | src/debputy/highlevel_manifest.py:201-212 | one member for each node, in the same order |
| PackageManifest.ManifestIsAccepted | src/debputy/highlevel_manifest.py:201-212 | the manifest of any tree with valid names passes every check of the reader |
| PackageManifest.MembersReadBack | src/debputy/intermediate_manifest.py:202-318 | written and read back, all members of a manifest are the same |
| PackageManifest.MemberSays | src/debputy/highlevel_manifest.py:132-198 | the member for a node is consistent, has its path and its type |
| PackageManifest.MemberFields | src/debputy/highlevel_manifest.py:132-198 | all fields of a member: path, type, mode, owner and group, the file it is taken from, the time, which is that of the path clamped, and the target of a symlink, which points to what the original points to exactly if the symlink is no prefix of that, and is relative exactly for a shared top-level directory |
| PackageManifest.PackedLinkLeads | src/debputy/highlevel_manifest.py:150-158 | in the tree with the packed target, paths through a symlink lead to what is inside of the directory that it has meant in the package tree |
| PackageManifest.MemberExists | src/debputy/highlevel_manifest.py:132-198 | there is no member exactly for a symlink to itself, and for a file that may be taken over but is not in the scratch directory |
| PackageManifest.GenerateIntermediateManifest | src/debputy/highlevel_manifest.py:201-212 | the two lists filled by the loop make up the members in manifest order; it fails exactly if some node has no member |
| PackageManifest.PathToTarMember | src/debputy/highlevel_manifest.py:132-198 | the member of one node, from its path and its fields |
| SourceTree.VisitReaches | src/debputy/installations.py:763-813 | a depth-first walk that passes by what is not kept visits just what can be reached through kept entries |
| SourceTree.VisitOnce | src/debputy/installations.py:763-813 | and nothing twice |
| SourceTree.LaterEntryFirst | src/debputy/installations.py:773-792 | of two kept entries of a directory, all of the later one is visited first, as a stack has it |
| SourceTree.PopAndPush | src/debputy/installations.py:773-792 | taking an entry off the stack and pushing its kept entries leaves the rest of the walk as it was |
| DiscardVerdicts.VerdictMeans | src/debputy/installations.py:307-333 | without a cache a path is discarded exactly if it or a directory above it is excluded by the manifest or hit by a plugin rule |
| DiscardVerdicts.ManifestVerdictMeans | src/debputy/installations.py:307-333 | it is discarded by the manifest exactly if on the way up an exclusion comes before any hit of a plugin rule |
| DiscardVerdicts.AnswerIsVerdict | src/debputy/installations.py:307-333 | with an exact cache the search up the tree gives that verdict |
| DiscardVerdicts.QueryKeepsExactIff | src/debputy/installations.py:330-332 | storing a verdict for all that was passed keeps an exact cache exact, for the whole tree or for the part that is looked at, if and only if the search directories agree on what is newly stored there |
| DiscardVerdicts.QueriesChangeNothing | src/debputy/installations.py:307-333 | whether the cache is exact or stale, a query changes no later answer in the same search directory |
| DiscardVerdicts.ExcludeKeepsExactIff | src/debputy/installations.py:296-297 | an exclusion keeps the cache exact if and only if no cached verdict below it was inherited from there or further up, other than from an exclusion |
| DiscardVerdicts.StaleVerdict | src/debputy/installations.py:296-297 | the case in which it does not: `usr` is discarded after a path in `usr/bin` was looked at |
| DiscardVerdicts.DisagreementSticks | src/debputy/installations.py:307-333 | where two search directories disagree on a path that is not in the cache, the first one that asks decides for both |
| DiscardVerdicts.DisputedLibrary | src/debputy/installations.py:307-333 | the case in which they do: with `debian/tmp` and `.` as search directories and a rule for `usr/lib/libfoo.la` by its place in the search directory, the file is discarded or not depending on where it is asked for first |
| DiscardVerdicts.DiscardKeepsExactIff | src/debputy/installations.py:411-464 | a discard rule, which asks for a path and then excludes it, keeps an exact cache exact if and only if the search directories agree on what is stored for the directories above it, and no cached verdict below it was inherited |
| DiscardVerdicts.NestedAgreeIff | src/debputy/installations.py:307-333 | if the rules hit the same entries of two nested search directories, their verdicts on a path agree if and only if the inner one discards it or nothing above the inner one is discarded |
| MatchSearch.FirstDirectoryWins | src/debputy/installations.py:469-506 | every package gets exactly the matches of the first search directory that applies to it and has any |
| MatchSearch.DiscardsSeeAll | src/debputy/installations.py:495-506 | a discard rule sees the matches of all search directories |
| MatchSearch.MatchesAreWanted | src/debputy/installations.py:469-506 | matches are for some of the packages of the rule, or for none if it discards |
| MatchSearch.UsableMeans | src/debputy/installations.py:480-492 | a rule gets what is below the search directory, and directories only if it asks for them; a match of the search directory itself is an error unless the rule is for anything |
| MatchSearch.UsableInOrder | src/debputy/installations.py:480-492 | and in the order in which it was found |
| MatchSearch.FirstHitsMeans | src/debputy/installations.py:469-506 | of the search directories before the first one with a match, none that applies to the package has any |
| MatchSearch.ResolvePath | src/debputy/installations.py:469-506 | the loop that shrinks the set of packages without a match, with its early exits, finds these matches |
| MatchSearch.CheckSingleMatch | src/debputy/installations.py:594-610 | the check for ambiguous matches never finds any |
| SourceMatcher.RunKeeps | src/debputy/installations.py:284-466 | over any run of queries, install rules, discard rules and recursive installations: a path gets at most one owner, which never changes, no path is both installed and discarded by the manifest, and the only refusal is that of a path that is taken |
| SourceMatcher.RunKeepsExactIff | src/debputy/installations.py:307-333 | over any run, the memoised verdicts are those without a cache after every step, for the whole tree or for the way to one path, if and only if on what each step stores there the search directories agree and nothing is excluded that a cached verdict hangs on |
| SourceMatcher.RunKeepsExact | src/debputy/installations.py:307-333 | after such a run, the memoised verdict for any path that is looked at is the one without a cache |
| SourceMatcher.StepKeepsExactIff | src/debputy/installations.py:307-333 | for each single step of a query, an install rule, a discard rule or a recursive installation the same condition is exact |
| SourceMatcher.OnlyTheWayMatters | src/debputy/installations.py:307-333 | for the verdict on one path, a step matters only as far as both paths lie in the same directories: disputes elsewhere do no harm |
| SourceMatcher.TakeOneKeeps | src/debputy/installations.py:411-464 | one match keeps the invariant, changes nothing but what is reserved for it, reserves only what nobody owns, and never fails for having been asked for twice |
| SourceMatcher.GlobOutcome | src/debputy/installations.py:411-464 | with exact verdicts, a match of a glob is passed by as installed if somebody owns it, as excluded if nobody does and it or a directory above it is excluded or hit by a plugin rule, and is reserved otherwise |
| SourceMatcher.ExactOutcome | src/debputy/installations.py:411-464 | a match by name is refused exactly if somebody owns it or the manifest discards it, and is reserved otherwise, plugin hits included |
| SourceMatcher.InstallRuleTakes | src/debputy/installations.py:396-466 | over all matches of an install rule with a glob: matched are those that nobody owned and nothing discarded when it started, just these have a new owner afterwards, and those that were owned are counted |
| SourceMatcher.ReservedMeans | src/debputy/installations.py:284-294 | reserved means that somebody owns the path, or that it or a directory above it is excluded or hit by a plugin rule |
| SourceMatcher.TakeAllIsRun | src/debputy/installations.py:396-466 | the matches of one rule are a run of single steps |
| SourceMatcher.TallyAddsUp | src/debputy/installations.py:396-466 | every match is reserved, installed already or excluded already; with an exact rule every match is reserved |
| SourceMatcher.MissedExactlyOnce | src/debputy/installations.py:382-394 | what is reported as missed: exactly the files and empty directories that are not reserved, each of them once |
| SourceMatcher.SourcePathMatcher.constructor | src/debputy/installations.py:274-282 | a matcher that knows of nothing |
| SourceMatcher.SourcePathMatcher.CheckPluginProvidedExcludeStateFor | src/debputy/installations.py:307-333 | the loop up the tree with its list of misses gives the answer and fills the cache |
| SourceMatcher.SourcePathMatcher.IsReserved | src/debputy/installations.py:284-294 | reserved means owned or discarded; only the cache changes |
| SourceMatcher.SourcePathMatcher.MayMatch | src/debputy/installations.py:335-358 | the owners of a path, or whether it is discarded; an exact match overrides plugin rules only |
| SourceMatcher.SourcePathMatcher.Exclude | src/debputy/installations.py:296-297 | the new state of an exclusion |
| SourceMatcher.SourcePathMatcher.Reserve | src/debputy/installations.py:360-380 | the new state of a reservation, and of one by name, which forgets the verdict on the path |
| SourceMatcher.SourcePathMatcher.FindAndReserveAllMatches | src/debputy/installations.py:396-466 | the loop over the matches of all search directories: the state, the matches that were reserved, the counts and the failures are those of the single steps |
| SourceMatcher.SourcePathMatcher.DetectMissing | src/debputy/installations.py:382-394 | the loop with its stack reports what is missed in the state it starts from, although its queries fill the cache; it is a run of queries, so that what holds over every run holds of it, and keeps what is reserved in the search directory |
| SourceMatcher.DetectStepsWithin | src/debputy/installations.py:382-394 | all of these queries are for paths in that search directory |
| RecursiveInstall.InstallationDelivers | src/debputy/installations.py:763-813 | a package directory receives an entry exactly if it and all on the way to it are unclaimed, as what it is in the source tree; everything else is as before, other than what a file has replaced |
| RecursiveInstall.InstallationReserves | src/debputy/installations.py:778-783 | exactly these entries have a new owner |
| RecursiveInstall.PutAllFailsIff | src/debputy/installations.py:784-813 | the installation fails exactly if, from the start, an entry was of an unsupported kind, a directory was there already or a symlink stood for a directory with contents |
| RecursiveInstall.OrderIsTreelike | src/debputy/installations.py:763-813 | entries are taken once each, and nothing below what is not a directory |
| RecursiveInstall.UnreservedEntries | src/debputy/installations.py:771-792 | asking for every entry, while others are being claimed, picks what was unclaimed at the start |
| RecursiveInstall.InstallDirRecursively | src/debputy/installations.py:763-813 | the loop over the stack fails exactly if the delivery to some package directory does; otherwise every one of them receives the same entries, these are reserved, no owner changes, and the matcher ends in the state of a run of queries and claims, one claim for each entry |
| RecursiveInstall.InstallStepsWithin | src/debputy/installations.py:763-813 | all of these steps are for paths in the search directory of the match, so that what holds over every run of such steps holds of an installation |
| InstalledTrees.PutIsOperation | src/debputy/installations.py:784-813 | putting an entry into the map of a package directory fails exactly if creating the directory, the symlink or the file below the node of that directory does, and otherwise the map is that of the tree after it |
| InstalledTrees.CreatedHolds | src/debputy/filesystem_scan.py:558-568 | after the creation of a node the map of a directory around it is the old one without what is below the new entry, and with that entry |
| InstalledTrees.BelowIsInside | src/debputy/filesystem_scan.py:577-592 | what the map has below a path is what is inside of the node at that path |
| SearchDirOrder.DetermineSearchDirOrder | src/debputy/highlevel_manifest.py:1563-1628 | for every iteration order of the sets: an error if and only if the combined order has a cycle, naming directories that all wait for one another; otherwise every requested directory once, with exactly the packages that asked for it, every order kept and the source root last |
| SearchDirOrder.OrderedIsNotCircular | src/debputy/highlevel_manifest.py:1587-1611 | an order that keeps all edges leaves no room for a cycle |
| SearchDirOrder.WaitingIsCircular | src/debputy/highlevel_manifest.py:1596-1611 | directories that all wait for one another contain a cycle |
| SearchDirOrder.PackageOrderKept | src/debputy/highlevel_manifest.py:1571-1585 | keeping what stands right before each directory keeps the whole order of every package |
| SearchDirOrder.RequestsServed | src/debputy/highlevel_manifest.py:1569-1580 | a package gets the directories that were requested for it, or the default ones if nothing was, and no others before the source root |
| SearchDirOrder.RequestsInOrder | src/debputy/highlevel_manifest.py:1569-1585 | and in the order of the request |
| SearchDirOrder.BuildTable | src/debputy/highlevel_manifest.py:1570-1585 | the table has exactly the requested directories, with who wants them and what stands right before them |
| SearchDirOrder.Pass | src/debputy/highlevel_manifest.py:1587-1611 | one pass releases only what waits for nobody, and releases nothing only if all are blocked |
| Services.RelevantServiceDefinitions | src/debputy/deb_packaging_support.py:923-963 | for every order in which the set hands out its keys: an error exactly if the rule names no service, otherwise exactly the reachable services, each once |
| Services.ManageServices | src/debputy/deb_packaging_support.py:966-1055 | all rules go through if and only if their service managers are known, each of them can be applied on its own and no two reach the same service; then every service is as detected or as its one rule has made it |
| Services.ApplyRule | src/debputy/deb_packaging_support.py:1016-1041 | one rule goes through exactly if it is satisfied and meets no service that an earlier rule has changed; otherwise the error says which of its three reasons it has |
| Services.BuildTable | src/debputy/deb_packaging_support.py:989-1017 | the nested loops over what was detected fill both tables |
| Services.TableMeans | src/debputy/deb_packaging_support.py:1003-1017 | a key stands for the definition that was entered last, an alias for all that were entered under the name |
| Services.EntriesMean | src/debputy/deb_packaging_support.py:1004-1014 | every detected definition is entered under its name, type and scope and its service manager |
| Services.LastDefinitionCounts | src/debputy/deb_packaging_support.py:1011-1014 | of several definitions for one key, the last one counts |
| Services.MeetingRulesAgree | src/debputy/deb_packaging_support.py:923-963 | if keys are unique, two rules for the same service managers that meet anywhere reach the same services |
| Services.LinkIsSharedName | src/debputy/deb_packaging_support.py:951-961 | if keys are unique, an alias leads just to services that share a name |
| Services.ReachedManagers | src/debputy/deb_packaging_support.py:923-963 | a rule with a list of service managers reaches services of these only, and starts at all of them that have its name |
| Services.EnableIsHonouredIff | src/debputy/plugin/debputy/binary_package_rules.py:466-476 | what a rule asks for is what the service ends up with if and only if it does not ask for enabling, or happens to ask for what was there |
| Services.AppliedSays | src/debputy/plugin/debputy/binary_package_rules.py:466-478 | what a rule leaves as it was, and what it writes: source, name, start and upgrade behaviour |
| Services.CheckManagers | src/debputy/deb_packaging_support.py:981-988 | the check for unknown service managers names one that a rule lists and nobody knows, if there is any |
| ArArchive.PatchIsDirectIff | src/debputy/commands/deb_packer.py:97-106 | for one member at the end of a file, seeking back to fill in a header leaves the same bytes as writing it first, if and only if it has its 60 bytes or nothing comes after it |
| ArArchive.HeaderLength | src/debputy/commands/deb_packer.py:68-79 | a header has its 60 bytes if and only if name, time and length fit their columns |
| ArArchive.HeaderRead | src/debputy/commands/deb_packer.py:68-79 | a header with fitting columns says name, time and length, and that the member is a regular file of the user root with mode 0644 |
| ArArchive.OutputIsDirectIff | src/debputy/commands/deb_packer.py:82-106 | for any list of members, the writer ends with the bytes and at the position of writing every final header up front, if and only if the header of every streamed member fits its columns |
| ArArchive.FileIsDirectIff | src/debputy/commands/deb_packer.py:82-106 | the file as such has these bytes if and only if the header of every streamed member fits, save for that of an empty last one |
| ArArchive.FileReadBackIffEven | src/debputy/commands/deb_packer.py:82-106 | if all headers fit, a reader of the format of deb(5) recovers all names, times and contents from the file that is written, magic line and all, if and only if all lengths are even, and fails otherwise |
| ArArchive.ReadBackIffEven | src/debputy/commands/deb_packer.py:82-106 | the same for the members after the magic line |
| ArArchive.DecimalRoundTrip | src/debputy/commands/deb_packer.py:74-78 | numbers survive being written in decimal |
| ArArchive.BinaryFile.WriteMember | src/debputy/commands/deb_packer.py:90-106 | writing, seeking back and overwriting one member, at any position of the file |
| ArArchive.BinaryFile.GenerateArArchive | src/debputy/commands/deb_packer.py:82-106 | the loop over the members leaves the file that the lemmas are about, gives up exactly at a name that is not ASCII, and if all headers fit what it has written is read back exactly if all lengths are even |
| DhInstallMigration.PlacesExactly | src/debputy/dh_migration/migrators_impl.py:646-791 | the rules place exactly what the lines place: every source at the destination of its line, or in its own directory if the line has none and other lines name the source too |
| DhInstallMigration.NoSourceTwice | src/debputy/dh_migration/migrators_impl.py:724-791 | no source is named by two rules |
| DhInstallMigration.MissingDestinationIff | src/debputy/dh_migration/migrators_impl.py:724-791 | a rule with several destinations lacks one if and only if a line with a condition and without a destination names a source that another line names too |
| DhInstallMigration.ConditionKeptIff | src/debputy/dh_migration/migrators_impl.py:770-791 | such a rule keeps the condition of every line that names its source if and only if these conditions are all the same |
| DhInstallMigration.SingleRuleKeepsLine | src/debputy/dh_migration/migrators_impl.py:724-745 | any other rule has the destination and the condition of the one line that names a source of it |
| DhInstallMigration.OwnDirMeans | src/debputy/dh_migration/migrators_impl.py:749-756 | a source without destination goes to the directory that it is in, or to a note if that has glob characters |
| DhInstallMigration.GatherMeans | src/debputy/dh_migration/migrators_impl.py:684-700 | a source counts as repeated exactly if two lines name it |
| DhInstallMigration.GroupsMean | src/debputy/dh_migration/migrators_impl.py:700-717 | a source is in the group of a destination and a condition exactly if such a line names it, and there is one group for each |
| DhInstallMigration.GroupSources | src/debputy/dh_migration/migrators_impl.py:700-717 | with the sources of these lines in their order |
| DhInstallMigration.GroupsInOrder | src/debputy/dh_migration/migrators_impl.py:700-717 | groups come in the order of the first lines for them |
| DhInstallMigration.GroupRulesInOrder | src/debputy/dh_migration/migrators_impl.py:724-745 | one rule for each group with sources left, in that order |
| DhInstallMigration.MigrateInstallLines | src/debputy/dh_migration/migrators_impl.py:646-791 | the loops over lines, groups and repeated sources write these rules |
| BasenameGlob.AgreesIffNotMistaken | src/debputy/path_matcher.py:36-60 | the compiled test accepts exactly what the full glob accepts, for all names, if and only if the pattern is not a plain text followed by `?` or `[` |
| BasenameGlob.QuickIsGlob | src/debputy/path_matcher.py:36-60 | equality, prefix, suffix and substring tests stand for the full glob |
| BasenameGlob.MistakenAcceptsMore | src/debputy/path_matcher.py:51-57 | such a pattern also accepts the name without its last character |
| ModeNormalization.TransformFileSystem | src/debputy/transformation_rules.py:581-600 | every path but the symlinks gets the mode that the first matching rule makes of its original mode, and no mode is set twice although paths come up repeatedly; it fails exactly if such a mode cannot be computed or lacks the minimum bits that the mode setter asks for |
| ModeNormalization.FirstMatchIsFirst | src/debputy/transformation_rules.py:586-600 | the rule that decides on a path is the first one that matches it |
| ModeNormalization.NormalizedMeans | src/debputy/transformation_rules.py:581-600 | what becomes of a path: nothing if it is a symlink or no rule matches, else what the first matching rule makes of its mode, if that can be computed and has the minimum |
| ModeNormalization.MinimumMeans | src/debputy/filesystem_scan.py:669-682 | the minimum in terms of the permission bits of the owner: all three for a directory, the first one for anything else |
| ModeNormalization.NothingMissed | src/debputy/transformation_rules.py:581-600 | with a rule for anything at the end no path is missed |
| ModeNormalization.FindsWhatItMatches | src/debputy/path_matcher.py:232-237 | with or without paths to ignore, a rule comes up with what it matches and has not been seen, and with nothing it does not match |
| Substitution.ApplySubstitution | src/debputy/substitution.py:86-108 | with the running offset every variable is replaced in its place and all text between stays, for values of any length; it fails exactly if a variable has no value |
| Substitution.InPlace | src/debputy/substitution.py:86-108 | every value is where its variable was and every character in front of it where it was, but for the sum of the differences so far |

## Left out

- VirtualFs.FSPath.SetParent: a new parent is not inside of what is moved, since following parents would not end afterwards (`MovingBelowItselfIsCyclic`); and the invariant holds before, so that what is done to a tree after a step that breaks it is not covered.
- VirtualFs.FSPath.Unlink: while another node is being moved, as when the new parent replaces an entry, an attached node is not inside of that one; outside of a move nothing is asked for.
- VirtualFs.FSPath.SetName: `CachesOk` says nothing about nodes without a parent, whose cached path the code leaves as it was.
- VirtualFs.FSPath.Path: for a detached node that has cached a path before, what the getter answers is not stated beyond that no tree changes.
- FsTree.RunKeeps: passes over the steps that break the tree (`MovedKeepsIff`, `CreatedKeepsIff`, `RenamingInsideDetached`) and over moves into what is moved; what nodes are called matters for the manifest and for looking up a path, which ask for valid names since the code accepts the empty one (mkdirs of `a//b` creates one) and a path string does not tell it from a doubled slash.
- Resolution.PathThroughLink: asks for a target without empty segments, which the code takes for names, and for directories that are no symlinks on the way; what happens on a way through further symlinks is `Resolution.LookupIsMeaning`.
- PathLookup.Mkdirs: after the assertion against `.` and `..` has failed midway, directories that were created before stay; the contract then only says that the tree has grown.
- Weak references: parent references are not weak, and nothing is garbage collected.
- Mutation during traversal: `all_paths` and the lookups see a tree that does not change meanwhile; `walk` is not modelled.
- FSPath metadata: modes, mtimes, owners, stat caches, reference paths, plugin metadata and replacing file contents are values at most; files are not opened or written.
- Manifest.RoundTrip: values that JSON reads more laxly than they were written (a number for a string, truth values of other types) are refused by the model, where Python's `int` and truthiness would take some of them.
- SourceMatcher.SourcePathMatcher.Reserve: the list of paths per plugin rule, which is for reporting only, is not kept; no caller reserves by name, and no run has a step for it.
- SourceMatcher.SourcePathMatcher.FindAndReserveAllMatches: takes what the match rule finds in every search directory as given, with the filter of the rule applied; the messages for an empty match are not modelled.
- RecursiveInstall.InstallDirRecursively: package directories are maps from relative paths to entries, related to `FSPath` trees entry by entry (`PutIsOperation`), and none of them is inside of another, as a rule with several destinations could have it; on a failure, which is fatal, the state of the matcher is not stated; modes and reference paths of what is installed are left out.
- Installation of the matched path itself and the computation of destination paths from format strings and man pages.
- Services.ManageServices: paths, contexts and the integration step of services; a rule's type and scope, which the closure does not look at.
- DhInstallMigration.MigrateInstallLines: lines are taken as split and normalised, without `=>`; two conditions count as the same if their keys are equal.
- GenericGlobImplementation and EnvironmentModification.combine, which as written store a tuple where a callable is expected and unpack keys as pairs.
- Substitution.ApplySubstitution: the variable pattern and glob escaping; match spans are given, in order and without overlaps, and made up of prefix, key and suffix as the pattern has them.
- ModeNormalization.TransformFileSystem: symbolic modes are functions that may fail; that the tree is writable is taken for granted, and what has been set before a failure, which is fatal, is not stated.
- ArArchive.BinaryFile.GenerateArArchive: a streamed member only appends to the file; operating system errors while writing.
- Argument parsing, logging, linting, the language server, apt, tar and compression, maintscript snippets, conditions and build environments would add members that are easy or rest on modules outside of the repository.
