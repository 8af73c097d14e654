/** Normalisation of symlink targets as section 10.5 of Debian Policy asks for it. */
module SymlinkTargets {
  import opened Strings

  datatype Error = LinkPathNotNormalized | SegmentNotNormalized(path: string)

  // ------------------------------------------------- the meaning of a target

  /** What a list of segments leads to, lexically, from a directory given by its
      segments.  As for the operating system, `..` in the root directory is the root. */
  function Resolve(base: seq<string>, segs: seq<string>): seq<string>
    decreases segs
  {
    if segs == [] then base
    else if segs[0] == "" || segs[0] == "." then Resolve(base, segs[1..])
    else if segs[0] == ".." then Resolve(DropLast(base), segs[1..])
    else Resolve(base + [segs[0]], segs[1..])
  }

  function DropLast(s: seq<string>): seq<string> {
    if s == [] then [] else s[..|s| - 1]
  }

  /** What the target of a link in directory `dir` points to. */
  function PointsTo(dir: seq<string>, target: string): seq<string> {
    Resolve(if StartsWith(target, "/") then [] else dir, Split(target))
  }

  // --------------------------------------------------------- path cleaning

  /** The check of every segment, after an optional leading `./`, for `.` and `..`. */
  function CleanPath(origPath: string): Result<string, Error> {
    var p := PruneSlashes(origPath);
    var base := if StartsWith(p, "./") then p[2..] else p;
    if "." in Split(base) || ".." in Split(base) then Failure(SegmentNotNormalized(origPath))
    else Success(p)
  }

  predicate HasDoubleSlash(s: string) {
    exists i :: 0 <= i < |s| - 1 && s[i] == '/' && s[i + 1] == '/'
  }

  function NormalizePath(path: string, withPrefix: bool): Result<string, Error> {
    var stripped := RStrip(LStrip(path));
    if stripped == "" || stripped == "." then Success(".")
    else
      var cleaned := if HasDoubleSlash(stripped) || '.' in stripped then CleanPath(stripped) else Success(stripped);
      if cleaned.Failure? then cleaned
      else
        var p := cleaned.value;
        if withPrefix == StartsWith(p, "./") then Success(p)
        else if withPrefix then Success("./" + p)
        else Success(p[2..])
  }

  // ---------------------------------------------------- the rewriting itself

  /** The loop over the segments of a target, which is taken to be absolute. */
  method NormalizeLinkTarget(linkTarget: string) returns (normalized: string)
    ensures normalized == Join(Resolve([], Split(linkTarget)))
  {
    var segments := Split(PruneSlashes(LStrip(linkTarget)));
    var result: seq<string> := [];
    for i := 0 to |segments|
      invariant Resolve(result, segments[i..]) == Resolve([], segments)
    {
      var segment := segments[i];
      assert segments[i..][1..] == segments[i + 1..];
      if segment == "." || segment == "" {
      } else if segment == ".." {
        if result != [] {
          result := result[..|result| - 1];
        }
      } else {
        result := result + [segment];
      }
    }
    ResolveNonEmpty([], segments);
    ResolveNonEmpty([], Split(linkTarget));
    PruneKeepsSegments(LStrip(linkTarget));
    LStripKeepsSegments(linkTarget);
    normalized := Join(result);
  }

  function Repeat(s: string, times: int): string {
    if times <= 0 then "" else s + Repeat(s, times - 1)
  }

  function WithoutDots(parts: seq<string>): seq<string> {
    if parts == [] then []
    else (if parts[0] == "." then [] else [parts[0]]) + WithoutDots(parts[1..])
  }

  /** How many leading segments two paths share. */
  function Common(a: seq<string>, b: seq<string>): (c: nat)
    ensures c <= |a| && c <= |b| && a[..c] == b[..c]
    ensures c < |a| && c < |b| ==> a[c] != b[c]
  {
    if a != [] && b != [] && a[0] == b[0] then
      var c := Common(a[1..], b[1..]);
      assert a[..c + 1] == [a[0]] + a[1..][..c] && b[..c + 1] == [b[0]] + b[1..][..c];
      c + 1
    else 0
  }

  /** The segments that the target of a link names when read from the root. */
  function TargetSegments(linkPath: string, target: string): seq<string> {
    Resolve([], Split(if StartsWith(target, "/") then target else "/" + Dirname(linkPath) + "/" + target))
  }

  /** The written form chosen for the link with segments `link` and a target with segments `target`. */
  function PolicyForm(link: seq<string>, target: seq<string>): string
    requires link != []
  {
    if target != [] && link[0] == target[0] then
      if Common(link, target) == |target| == |link| - 1 then "."
      else
        var up := |link| - 1 - Common(link, target);
        Join((if up == 0 then [] else [RStrip(Repeat("../", up))]) + target[Common(link, target)..])
    else "/" + Join(target)
  }

  function PolicyTarget(linkPath: string, target: string): string {
    PolicyForm(Split(linkPath), Split(Join(TargetSegments(linkPath, target))))
  }

  /** The second half of the rewriting: the shared segments are counted in a loop. */
  method WritePolicyForm(linkParts: seq<string>, targetParts: seq<string>) returns (result: string)
    requires linkParts != []
    ensures result == PolicyForm(linkParts, targetParts)
  {
    if targetParts != [] && linkParts[0] == targetParts[0] {
      var commonCount := 1;
      var shortest := if |targetParts| < |linkParts| then |targetParts| else |linkParts|;
      while commonCount < shortest && targetParts[commonCount] == linkParts[commonCount]
        invariant 1 <= commonCount <= shortest
        invariant forall i :: 0 <= i < commonCount ==> targetParts[i] == linkParts[i]
      {
        commonCount := commonCount + 1;
      }
      assert linkParts[..commonCount] == targetParts[..commonCount];
      CommonIs(linkParts, targetParts, commonCount);
      if commonCount == shortest && |linkParts| - 1 == |targetParts| {
        result := ".";
      } else {
        var upDirCount := |linkParts| - 1 - commonCount;
        var parts: seq<string> := [];
        if upDirCount != 0 {
          parts := [RStrip(Repeat("../", upDirCount))];
        }
        result := Join(parts + targetParts[commonCount..]);
      }
    } else {
      result := "/" + Join(targetParts);
    }
  }

  method DebianPolicyNormalizeSymlinkTarget(
      linkPath: string, linkTarget: string, normalizeLinkPath: bool)
    returns (r: Result<string, Error>)
    ensures !normalizeLinkPath && !StartsWith(linkPath, "./") ==> r == Failure(LinkPathNotNormalized)
    ensures !normalizeLinkPath && StartsWith(linkPath, "./") ==> r == Success(PolicyTarget(linkPath[2..], linkTarget))
    ensures normalizeLinkPath && NormalizePath(linkPath, true).Failure? ==> r == NormalizePath(linkPath, true)
    ensures normalizeLinkPath && NormalizePath(linkPath, true).Success? ==>
      var p := NormalizePath(linkPath, true).value;
      r == Success(PolicyTarget(if p == "." then "" else p[2..], linkTarget))
  {
    var path := linkPath;
    if normalizeLinkPath {
      var normalizedPath := NormalizePath(linkPath, true);
      if normalizedPath.Failure? {
        return normalizedPath;
      }
      path := normalizedPath.value;
    } else if !StartsWith(linkPath, "./") {
      return Failure(LinkPathNotNormalized);
    }
    path := if |path| < 2 then "" else path[2..];

    var target := if StartsWith(linkTarget, "/") then linkTarget else "/" + Dirname(path) + "/" + linkTarget;
    var linkParts := Split(path);
    var normalizedTarget := NormalizeLinkTarget(target);
    var targetParts := WithoutDots(Split(normalizedTarget));
    TargetHasNoDots(target);

    var result := WritePolicyForm(linkParts, targetParts);
    r := Success(result);
  }

  // ------------------------------------------------------- supporting lemmas

  lemma {:induction false} ResolveNonEmpty(base: seq<string>, segs: seq<string>)
    ensures Resolve(base, segs) == Resolve(base, NonEmpty(segs))
    decreases segs
  {
    if segs != [] {
      var rest := segs[1..];
      if segs[0] == "" || segs[0] == "." {
        ResolveNonEmpty(base, rest);
      } else if segs[0] == ".." {
        ResolveNonEmpty(DropLast(base), rest);
      } else {
        ResolveNonEmpty(base + [segs[0]], rest);
      }
      assert segs[0] != "" ==> NonEmpty(segs)[1..] == NonEmpty(rest);
    }
  }

  lemma {:induction false} ResolveConcat(base: seq<string>, a: seq<string>, b: seq<string>)
    ensures Resolve(base, a + b) == Resolve(Resolve(base, a), b)
    decreases a
  {
    if a == [] {
      assert a + b == b;
    } else {
      assert (a + b)[1..] == a[1..] + b;
      if a[0] == "" || a[0] == "." {
        ResolveConcat(base, a[1..], b);
      } else if a[0] == ".." {
        ResolveConcat(DropLast(base), a[1..], b);
      } else {
        ResolveConcat(base + [a[0]], a[1..], b);
      }
    }
  }

  /** Resolution of slash-free segments from valid names ends in valid names. */
  lemma {:induction false} ResolveValid(base: seq<string>, segs: seq<string>)
    requires AllValid(base) && AllSlashFree(segs)
    ensures AllValid(Resolve(base, segs))
    decreases segs
  {
    if segs != [] {
      if segs[0] == "" || segs[0] == "." {
        ResolveValid(base, segs[1..]);
      } else if segs[0] == ".." {
        ResolveValid(DropLast(base), segs[1..]);
      } else {
        ResolveValid(base + [segs[0]], segs[1..]);
      }
    }
  }

  lemma {:induction false} ResolveNames(base: seq<string>, names: seq<string>)
    requires AllValid(names)
    ensures Resolve(base, names) == base + names
    decreases names
  {
    if names == [] {
      assert base + names == base;
    } else {
      ResolveNames(base + [names[0]], names[1..]);
      assert base + [names[0]] + names[1..] == base + names;
    }
  }

  lemma {:induction false} WithoutDotsId(parts: seq<string>)
    requires forall i :: 0 <= i < |parts| ==> parts[i] != "."
    ensures WithoutDots(parts) == parts
  {
    if parts != [] {
      WithoutDotsId(parts[1..]);
    }
  }

  /** Splitting the joined names gives them back, except that no name at all reads as one empty segment. */
  lemma SplitJoinNames(names: seq<string>)
    requires AllValid(names)
    ensures Split(Join(names)) == if names == [] then [""] else names
  {
    if names != [] {
      SplitJoin(names);
    }
  }

  lemma TargetHasNoDots(target: string)
    ensures var parts := Split(Join(Resolve([], Split(target)))); WithoutDots(parts) == parts
  {
    var names := Resolve([], Split(target));
    ResolveValid([], Split(target));
    SplitJoinNames(names);
    WithoutDotsId(Split(Join(names)));
  }

  lemma {:induction false} CommonIs(a: seq<string>, b: seq<string>, c: nat)
    requires c <= |a| && c <= |b| && a[..c] == b[..c]
    requires c < |a| && c < |b| ==> a[c] != b[c]
    ensures Common(a, b) == c
  {
  }

  lemma {:induction false} PruneEnds(s: string)
    requires s != ""
    ensures PruneSlashes(s) != "" && PruneSlashes(s)[0] == s[0]
    ensures EndsWithSlash(PruneSlashes(s)) <==> EndsWithSlash(s)
    ensures !HasDoubleSlash(PruneSlashes(s))
  {
    if |s| >= 2 {
      PruneEnds(s[1..]);
      if !(s[0] == '/' && s[1] == '/') {
        OneMoreCharacter(s[0], PruneSlashes(s[1..]));
      }
    }
  }

  lemma OneMoreCharacter(c: char, s: string)
    requires s != "" && !HasDoubleSlash(s) && !(c == '/' && s[0] == '/')
    ensures !HasDoubleSlash([c] + s) && (EndsWithSlash([c] + s) <==> EndsWithSlash(s))
  {
    forall i | 0 <= i < |s| ensures !(([c] + s)[i] == '/' && ([c] + s)[i + 1] == '/') {
      assert i > 0 ==> ([c] + s)[i] == s[i - 1];
    }
  }

  lemma {:induction false} StripEnds(s: string)
    ensures !EndsWithSlash(RStrip(s)) && RStrip(s) <= s
    ensures !StartsWith(LStrip(s), "/")
    decreases s
  {
    if EndsWithSlash(s) {
      StripEnds(s[..|s| - 1]);
    }
    if s != "" && s[0] == '/' {
      StripEnds(s[1..]);
    }
  }

  /** Without doubled slashes or slashes at the ends there are no empty segments. */
  lemma {:induction false} NoEmptySegments(s: string)
    requires s != "" && !HasDoubleSlash(s) && !EndsWithSlash(s)
    ensures forall i :: 0 < i < |Split(s)| ==> Split(s)[i] != ""
    ensures s[0] != '/' ==> Split(s)[0] != ""
  {
    if |s| > 1 {
      var t := s[1..];
      forall i | 0 <= i < |t| - 1
        ensures !(t[i] == '/' && t[i + 1] == '/')
      {
        assert t[i] == s[i + 1] && t[i + 1] == s[i + 2];
      }
      NoEmptySegments(t);
      assert s[0] == '/' ==> s[1] != '/';
    }
  }

  /** A path that normalises is the root directory or `./` followed by valid names, so what
      is proved below about links with valid names covers every link path that is accepted. */
  lemma NormalizedPathShape(path: string)
    requires NormalizePath(path, true).Success?
    ensures var p := NormalizePath(path, true).value;
      p == "." || (p[..2] == "./" && AllValid(Split(p[2..])))
  {
    var stripped := RStrip(LStrip(path));
    StripEnds(path);
    StripEnds(LStrip(path));
    if stripped != "" && stripped != "." {
      PruneEnds(stripped);
      var p := NormalizePath(path, true).value;
      var base := p[2..];
      if '.' !in stripped {
        NoDotSegments(stripped);
      }
      assert stripped[0] != '/';
      var cleaned := if HasDoubleSlash(stripped) || '.' in stripped then PruneSlashes(stripped) else stripped;
      NoEmptySegments(cleaned);
      if StartsWith(cleaned, "./") {
        assert cleaned == "." + "/" + base;
        SplitConcat(".", base);
        assert Split(cleaned)[1..] == Split(base) by { SplitSlashFree("."); }
      } else {
        assert cleaned == base;
      }
    }
  }

  lemma {:induction false} JoinSplit(s: string)
    ensures Join(Split(s)) == s
  {
    if s != "" {
      JoinSplit(s[1..]);
      var rest := Split(s[1..]);
      if s[0] == '/' {
        assert ([""] + rest)[1..] == rest;
        assert s == "/" + s[1..];
      } else {
        assert ([[s[0]] + rest[0]] + rest[1..])[1..] == rest[1..];
        assert s == [s[0]] + s[1..];
      }
    }
  }

  /** Stripping slashes at the end only removes empty segments. */
  lemma {:induction false} RStripKeepsSegments(s: string)
    ensures NonEmpty(Split(RStrip(s))) == NonEmpty(Split(s))
  {
    if EndsWithSlash(s) {
      var front := s[..|s| - 1];
      RStripKeepsSegments(front);
      assert s == front + "/" + "";
      SplitConcat(front, "");
      NonEmptyConcat(Split(front), [""]);
      assert [""][1..] == [];
    }
  }

  lemma {:induction false} AllNonEmpty(parts: seq<string>)
    requires forall i :: 0 <= i < |parts| ==> parts[i] != ""
    ensures NonEmpty(parts) == parts
  {
    if parts != [] {
      AllNonEmpty(parts[1..]);
    }
  }

  /** A string without doubled slashes and slashes at the ends is the join of its segments. */
  lemma CleanSegments(s: string)
    requires s != "" && !HasDoubleSlash(s) && !EndsWithSlash(s) && s[0] != '/'
    ensures NonEmpty(Split(s)) == Split(s) && Join(NonEmpty(Split(s))) == s && AllSegments(Split(s))
  {
    NoEmptySegments(s);
    AllNonEmpty(Split(s));
    JoinSplit(s);
  }

  /** The segments that normalisation keeps: those that are not empty, without a `.` in front. */
  function Kept(path: string): seq<string> {
    var segs := NonEmpty(Split(path));
    if segs != [] && segs[0] == "." then segs[1..] else segs
  }

  /** Normalising a path keeps these segments, with or without `./` in front of them; it fails exactly if
      `.` or `..` is among them. */
  lemma NormalizePathMeans(path: string, withPrefix: bool)
    ensures var kept := Kept(path);
      if kept == [] then NormalizePath(path, withPrefix) == Success(".")
      else if "." in kept || ".." in kept then NormalizePath(path, withPrefix).Failure?
      else NormalizePath(path, withPrefix) == Success((if withPrefix then "./" else "") + Join(kept))
  {
    var stripped := RStrip(LStrip(path));
    LStripKeepsSegments(path);
    RStripKeepsSegments(LStrip(path));
    assert Kept(stripped) == Kept(path);
    hide Split, NonEmpty, PruneSlashes, HasDoubleSlash, RStrip, LStrip, Kept, Join, CleanPath;
    if stripped == "" || stripped == "." {
      NothingKept();
    } else {
      StripEnds(path);
      StripEnds(LStrip(path));
      Cleaning(stripped);
      assert "" + Join(Kept(stripped)) == Join(Kept(stripped));
    }
  }

  /** Whether a stripped path is cleaned or not, what comes out is clean and keeps the same segments. */
  lemma Cleaning(s: string)
    requires s != "" && s != "." && !EndsWithSlash(s) && s[0] != '/'
    ensures var r := if HasDoubleSlash(s) || '.' in s then CleanPath(s) else Success(s);
      && Kept(s) != []
      && (r.Failure? <==> "." in Kept(s) || ".." in Kept(s))
      && (r.Success? && StartsWith(r.value, "./") ==> r.value == "./" + Join(Kept(s)) && r.value[2..] == Join(Kept(s)))
      && (r.Success? && !StartsWith(r.value, "./") ==> r.value == Join(Kept(s)))
  {
    var p := if HasDoubleSlash(s) || '.' in s then PruneSlashes(s) else s;
    hide Split, NonEmpty, HasDoubleSlash, Kept, Join, PruneSlashes, AllSlashFree;
    CleanedMeans(s);
    KeptOfClean(p);
    if StartsWith(p, "./") {
      assert p == "./" + p[2..];
    }
  }

  lemma NothingKept()
    ensures Kept("") == [] && Kept(".") == []
  {
    SplitSlashFree(".");
    assert ["."][1..] == [] && [""][1..] == [];
  }

  /** What the cleaning of a stripped path keeps, and what it is then like. */
  lemma CleanedMeans(s: string)
    requires s != "" && s != "." && !EndsWithSlash(s) && s[0] != '/'
    ensures var p := if HasDoubleSlash(s) || '.' in s then PruneSlashes(s) else s;
      && p != "" && p != "." && !HasDoubleSlash(p) && !EndsWithSlash(p) && p[0] != '/' && Kept(p) == Kept(s)
      && ('.' !in s ==> !StartsWith(p, "./") && "." !in Kept(p) && ".." !in Kept(p))
  {
    PruneEnds(s);
    PruneKeepsSegments(s);
    var p := if HasDoubleSlash(s) || '.' in s then PruneSlashes(s) else s;
    if p == "." {
      assert PruneSlashes(s) == [s[0]] + PruneSlashes(s[1..]);
      PruneEnds(s[1..]);
    }
    if '.' !in s {
      NoDotSegments(s);
      NoDotKept(Split(s));
      assert '.' in "." && '.' in "..";
      if StartsWith(p, "./") {
        KeptOfClean(p);
        assert p[0] == s[0];
      }
    }
  }

  lemma {:induction false} NoDotKept(parts: seq<string>)
    requires forall i :: 0 <= i < |parts| ==> '.' !in parts[i]
    ensures forall s :: s in NonEmpty(parts) ==> '.' !in s
  {
    if parts != [] {
      NoDotKept(parts[1..]);
    }
  }

  lemma DotSlash(s: string)
    requires Split(s)[0] == "."
    ensures s == "." || StartsWith(s, "./")
  {
    JoinSplit(s);
    var rest := Split(s)[1..];
    assert Split(s) == ["."] + rest;
    assert rest != [] ==> Join(Split(s)) == "." + "/" + Join(rest);
  }

  /** What is in front of the segments that are kept of a clean path. */
  lemma KeptOfClean(s: string)
    requires s != "" && s != "." && !HasDoubleSlash(s) && !EndsWithSlash(s) && s[0] != '/'
    ensures var base := if StartsWith(s, "./") then s[2..] else s;
      Kept(s) == Split(base) && Kept(s) != [] && Join(Kept(s)) == base
  {
    CleanSegments(s);
    SplitSlashFree(".");
    if StartsWith(s, "./") {
      var base := s[2..];
      assert s == "." + "/" + base;
      SplitConcat(".", base);
      JoinSplit(base);
      assert (["."] + Split(base))[1..] == Split(base);
    } else {
      assert Split(s)[0] != "." by {
        if Split(s)[0] == "." {
          DotSlash(s);
        }
      }
    }
  }

  lemma {:induction false} NoDotSegments(s: string)
    requires '.' !in s
    ensures forall i :: 0 <= i < |Split(s)| ==> '.' !in Split(s)[i]
  {
    if s != "" {
      NoDotSegments(s[1..]);
    }
  }

  function Ups(n: nat): (r: seq<string>)
    ensures |r| == n && forall i :: 0 <= i < n ==> r[i] == ".."
  {
    seq(n, i => "..")
  }

  /** The characters written for n steps up are those of n joined `..` segments. */
  lemma {:induction false} UpPart(n: nat)
    requires n >= 1
    ensures RStrip(Repeat("../", n)) == Join(Ups(n))
    ensures Repeat("../", n) == Join(Ups(n)) + "/"
    ensures !EndsWithSlash(Join(Ups(n)))
  {
    if n == 1 {
      assert Ups(1) == [".."];
      assert Repeat("../", 1) == "../" + Repeat("../", 0) == "../";
    } else {
      UpPart(n - 1);
      assert Ups(n)[1..] == Ups(n - 1);
      var tail := Join(Ups(n - 1));
      assert Join(Ups(n)) == ".." + "/" + tail;
      assert Repeat("../", n) == "../" + (tail + "/");
      assert "../" + (tail + "/") == (".." + "/" + tail) + "/";
    }
    StripOne(Join(Ups(n)));
  }

  lemma StripOne(s: string)
    requires !EndsWithSlash(s)
    ensures RStrip(s + "/") == s
  {
    assert (s + "/")[..|s|] == s;
  }

  lemma {:induction false} ResolveUps(base: seq<string>, n: nat)
    requires n <= |base|
    ensures Resolve(base, Ups(n)) == base[..|base| - n]
    decreases n
  {
    if n == 0 {
      assert base[..|base| - 0] == base;
    } else {
      assert Ups(n)[1..] == Ups(n - 1);
      ResolveUps(DropLast(base), n - 1);
      assert DropLast(base)[..|base| - n] == base[..|base| - n];
    }
  }

  // ---------------------------------------------------------- the guarantees

  /** The directory that a link with these segments is in. */
  function LinkDir(link: seq<string>): seq<string>
    requires link != []
  {
    link[..|link| - 1]
  }

  /** Reading the link's directory and then the target from the root. */
  lemma ReadFromRoot(dir: seq<string>, target: string)
    requires AllValid(dir)
    ensures Resolve([], Split("/" + Join(dir) + "/" + target)) == Resolve(dir, Split(target))
  {
    var rest := Join(dir) + "/" + target;
    assert "/" + Join(dir) + "/" + target == "/" + rest;
    SplitConcat(Join(dir), target);
    ResolveConcat([], Split(Join(dir)), Split(target));
    ResolveOwnNames(dir);
  }

  lemma ResolveOwnNames(names: seq<string>)
    requires AllValid(names)
    ensures Resolve([], Split(Join(names))) == names
  {
    SplitJoinNames(names);
    ResolveNames([], names);
    assert [] + names == names;
    if names == [] {
      assert [""][1..] == [];
    }
  }

  /** The code reads the target from the link's directory, as the operating system does. */
  lemma TargetSegmentsMeaning(link: seq<string>, target: string)
    requires AllValid(link) && link != []
    ensures TargetSegments(Join(link), target) == PointsTo(LinkDir(link), target)
    ensures AllValid(TargetSegments(Join(link), target))
  {
    if StartsWith(target, "/") {
      ResolveValid([], Split(target));
    } else {
      var dir := LinkDir(link);
      assert link == dir + [link[|link| - 1]];
      DirnameOfJoin(dir, link[|link| - 1]);
      ReadFromRoot(dir, target);
      ResolveValid(dir, Split(target));
    }
  }

  /** The segments of a relative form. */
  function RelativeSegments(link: seq<string>, names: seq<string>): seq<string>
    requires Common(link, names) < |link|
  {
    var c := Common(link, names);
    if names == LinkDir(link) then ["."] else Ups(|link| - 1 - c) + names[c..]
  }

  lemma RelativeFormIsJoin(link: seq<string>, names: seq<string>)
    requires names != [] && link != [] && link[0] == names[0] && !(link <= names)
    ensures Common(link, names) < |link|
    ensures PolicyForm(link, names) == Join(RelativeSegments(link, names))
  {
    JoinOfRelative(|link| - 1 - Common(link, names), names[Common(link, names)..]);
  }

  lemma RelativeSegmentsJoinable(link: seq<string>, names: seq<string>)
    requires AllValid(names) && link != [] && !(link <= names)
    ensures Common(link, names) < |link|
    ensures RelativeSegments(link, names) != [] && AllSegments(RelativeSegments(link, names))
  {
    var c := Common(link, names);
  }

  lemma RelativeForm(link: seq<string>, names: seq<string>)
    requires AllValid(names) && names != [] && link != []
    requires link[0] == names[0] && !(link <= names)
    ensures Common(link, names) < |link|
    ensures Split(PolicyForm(link, names)) == RelativeSegments(link, names)
    ensures !StartsWith(PolicyForm(link, names), "/")
  {
    RelativeFormIsJoin(link, names);
    RelativeSegmentsJoinable(link, names);
    var segs := RelativeSegments(link, names);
    SplitJoin(segs);
    JoinEnds(segs);
  }

  lemma RelativePointsTo(link: seq<string>, names: seq<string>)
    requires AllValid(link) && AllValid(names) && names != [] && link != []
    requires link[0] == names[0] && !(link <= names)
    ensures PointsTo(LinkDir(link), PolicyForm(link, names)) == names
  {
    RelativeForm(link, names);
    if names == LinkDir(link) {
      assert ["."][1..] == [];
    } else {
      UpAndDown(link, names);
    }
  }

  lemma JoinOfRelative(up: nat, down: seq<string>)
    ensures Join((if up == 0 then [] else [RStrip(Repeat("../", up))]) + down) == Join(Ups(up) + down)
  {
    if up == 0 {
      assert Ups(0) + down == down;
      assert [] + down == down;
    } else {
      UpPart(up);
      if down == [] {
        assert Ups(up) + down == Ups(up) && [Join(Ups(up))] + down == [Join(Ups(up))];
      } else {
        JoinConcat(Ups(up), down);
        assert ([Join(Ups(up))] + down)[1..] == down;
      }
    }
  }

  /** Going up from the link's directory to the shared part, then down again. */
  lemma UpAndDown(link: seq<string>, names: seq<string>)
    requires AllValid(link) && AllValid(names) && link != []
    requires Common(link, names) < |link|
    ensures var c := Common(link, names);
      Resolve(LinkDir(link), Ups(|link| - 1 - c) + names[c..]) == names
  {
    var c := Common(link, names);
    var dir := LinkDir(link);
    ResolveConcat(dir, Ups(|link| - 1 - c), names[c..]);
    ResolveUps(dir, |link| - 1 - c);
    assert dir[..c] == link[..c] == names[..c];
    ResolveNames(names[..c], names[c..]);
    assert names[..c] + names[c..] == names;
  }

  lemma AbsoluteForm(link: seq<string>, names: seq<string>)
    requires AllValid(link) && AllValid(names) && link != []
    requires names == [] || link[0] != names[0]
    ensures PolicyForm(link, Split(Join(names))) == "/" + Join(names)
    ensures Resolve([], Split("/" + Join(names))) == names
  {
    SplitJoinNames(names);
    ResolveOwnNames(names);
  }

  /** When the link is itself a prefix of what it points to, the form goes "-1 levels up":
      it is empty for a link to itself and an absolute path without the prefix otherwise. */
  lemma PrefixForm(link: seq<string>, names: seq<string>)
    requires AllValid(link) && AllValid(names) && link != [] && link <= names
    ensures PolicyForm(link, names) == if names == link then "" else "/" + Join(names[|link|..])
  {
    CommonIs(link, names, |link|);
    assert Repeat("../", -1) == "";
    var rest := names[|link|..];
    if names == link {
      assert rest == [];
    } else {
      assert ([""] + rest)[1..] == rest;
      assert [RStrip(Repeat("../", -1))] + rest == [""] + rest;
      assert Join([""] + rest) == "" + "/" + Join(rest);
    }
  }

  lemma PrefixFormPointsElsewhere(link: seq<string>, names: seq<string>)
    requires AllValid(link) && AllValid(names) && link != [] && link <= names
    ensures PointsTo(LinkDir(link), if names == link then "" else "/" + Join(names[|link|..])) != names
  {
    if names == link {
      assert [""][1..] == [];
      assert Resolve(LinkDir(link), [""]) == LinkDir(link);
    } else {
      var rest := names[|link|..];
      SplitJoin(rest);
      ResolveNames([], rest);
    }
  }

  lemma FormPointsTo(link: seq<string>, names: seq<string>)
    requires AllValid(link) && AllValid(names) && link != []
    ensures PointsTo(LinkDir(link), PolicyForm(link, Split(Join(names)))) == names <==> !(link <= names)
  {
    SplitJoinNames(names);
    if link <= names {
      PrefixForm(link, names);
      PrefixFormPointsElsewhere(link, names);
    } else if names == [] || link[0] != names[0] {
      AbsoluteForm(link, names);
    } else {
      RelativePointsTo(link, names);
    }
  }

  /** The rewritten target points to what the original pointed to if and only if the
      link is not itself a prefix of that path. */
  lemma MeaningKept(link: seq<string>, target: string)
    requires AllValid(link) && link != []
    ensures var names := PointsTo(LinkDir(link), target);
      PointsTo(LinkDir(link), PolicyTarget(Join(link), target)) == names <==> !(link <= names)
  {
    TargetSegmentsMeaning(link, target);
    SplitJoinNames(link);
    FormPointsTo(link, PointsTo(LinkDir(link), target));
  }

  /** The rewritten target is the empty string if and only if the link points to itself. */
  lemma EmptyIffToItself(link: seq<string>, target: string)
    requires AllValid(link) && link != []
    ensures PolicyTarget(Join(link), target) == "" <==> PointsTo(LinkDir(link), target) == link
  {
    var names := PointsTo(LinkDir(link), target);
    TargetSegmentsMeaning(link, target);
    SplitJoinNames(link);
    SplitJoinNames(names);
    if link <= names {
      PrefixForm(link, names);
    } else if names == [] || link[0] != names[0] {
      AbsoluteForm(link, names);
    } else {
      RelativeFormIsJoin(link, names);
      RelativeSegmentsJoinable(link, names);
      JoinEnds(RelativeSegments(link, names));
    }
  }

  /** Section 10.5: relative exactly when link and target are below the same top-level directory. */
  lemma RelativeIffSameTopLevel(link: seq<string>, target: string)
    requires AllValid(link) && link != []
    requires !(link <= PointsTo(LinkDir(link), target))
    ensures var names := PointsTo(LinkDir(link), target);
      !StartsWith(PolicyTarget(Join(link), target), "/") <==> names != [] && names[0] == link[0]
  {
    var names := PointsTo(LinkDir(link), target);
    TargetSegmentsMeaning(link, target);
    SplitJoinNames(link);
    SplitJoinNames(names);
    if names == [] || link[0] != names[0] {
      AbsoluteForm(link, names);
    } else {
      RelativeForm(link, names);
    }
  }

  /** In the prefix case the rewritten target leads elsewhere, and from there to the same form only if
      that is below another top-level directory. */
  lemma PrefixFormTwice(link: seq<string>, names: seq<string>)
    requires AllValid(link) && AllValid(names) && link != [] && link <= names
    ensures var form := PolicyForm(link, names);
      PolicyTarget(Join(link), form) == form <==> names != link && names[|link|] != link[0]
  {
    PrefixForm(link, names);
    SplitJoinNames(link);
    if names == link {
      FromEmptyTarget(link);
    } else {
      var rest := names[|link|..];
      ResolveOwnNames(rest);
      TargetSegmentsMeaning(link, "/" + Join(rest));
      if rest[0] != link[0] {
        AbsoluteForm(link, rest);
      } else if link <= rest {
        SplitJoinNames(rest);
        SplitJoinNames(rest[|link|..]);
        PrefixForm(link, rest);
      } else {
        SplitJoinNames(rest);
        RelativeForm(link, rest);
      }
    }
  }

  lemma FromEmptyTarget(link: seq<string>)
    requires AllValid(link) && link != []
    ensures PolicyTarget(Join(link), "") != ""
  {
    var dir := LinkDir(link);
    TargetSegmentsMeaning(link, "");
    assert [""][1..] == [];
    assert Resolve(dir, [""]) == dir;
    SplitJoinNames(link);
    SplitJoinNames(dir);
    if dir == [] {
      AbsoluteForm(link, dir);
    } else {
      RelativeFormIsJoin(link, dir);
      RelativeSegmentsJoinable(link, dir);
      JoinEnds(RelativeSegments(link, dir));
    }
  }

  /** Rewriting a rewritten target changes nothing, if and only if the link is not a prefix of what it
      points to, or goes on there with a segment other than its first one. */
  lemma RewritingTwiceIff(link: seq<string>, target: string)
    requires AllValid(link) && link != []
    ensures var names, form := PointsTo(LinkDir(link), target), PolicyTarget(Join(link), target);
      PolicyTarget(Join(link), form) == form <==> (link <= names ==> names != link && names[|link|] != link[0])
  {
    var names, form := PointsTo(LinkDir(link), target), PolicyTarget(Join(link), target);
    TargetSegmentsMeaning(link, target);
    SplitJoinNames(link);
    if link <= names {
      SplitJoinNames(names);
      PrefixFormTwice(link, names);
    } else {
      MeaningKept(link, target);
      TargetSegmentsMeaning(link, form);
    }
  }

  // ------------------------------------------------------------- minimality

  /** The number of steps between two directories: up to the shared one and down again. */
  function Distance(a: seq<string>, b: seq<string>): int {
    |a| + |b| - 2 * Common(a, b)
  }

  /** No segment moves more than one step closer. */
  lemma OneStepCloser(a: seq<string>, b: seq<string>, name: string)
    ensures Distance(a, b) <= Distance(DropLast(a), b) + 1
    ensures Distance(a, b) <= Distance(a + [name], b) + 1
  {
    var c := Common(a, b);
    if a != [] {
      var d := DropLast(a);
      if c == |a| {
        assert d == a[..c - 1] == b[..c - 1];
        CommonIs(d, b, c - 1);
      } else {
        assert d[..c] == a[..c];
        CommonIs(d, b, c);
      }
    }
    var e := a + [name];
    assert e[..c] == a[..c];
    if c == |a| && c < |b| && b[c] == name {
      assert e[..c + 1] == b[..c + 1];
      CommonIs(e, b, c + 1);
    } else {
      CommonIs(e, b, c);
    }
  }

  lemma {:induction false} StepsNeeded(base: seq<string>, segs: seq<string>)
    ensures |segs| >= Distance(base, Resolve(base, segs))
    decreases segs
  {
    if segs == [] {
      CommonIs(base, base, |base|);
    } else if segs[0] == "" || segs[0] == "." {
      StepsNeeded(base, segs[1..]);
    } else {
      OneStepCloser(base, Resolve(base, segs), segs[0]);
      if segs[0] == ".." {
        StepsNeeded(DropLast(base), segs[1..]);
      } else {
        StepsNeeded(base + [segs[0]], segs[1..]);
      }
    }
  }

  lemma RelativeLength(link: seq<string>, names: seq<string>)
    requires link != [] && !(link <= names)
    ensures Common(link, names) < |link|
    ensures |RelativeSegments(link, names)| <= 1 || |RelativeSegments(link, names)| == Distance(LinkDir(link), names)
  {
    var c := Common(link, names);
    assert LinkDir(link)[..c] == link[..c];
    CommonIs(LinkDir(link), names, c);
  }

  /** No relative target with fewer segments points to the same path. */
  lemma RelativeIsShortest(link: seq<string>, target: string, other: string)
    requires AllValid(link) && link != []
    requires !(link <= PointsTo(LinkDir(link), target))
    requires !StartsWith(PolicyTarget(Join(link), target), "/")
    requires !StartsWith(other, "/") && PointsTo(LinkDir(link), other) == PointsTo(LinkDir(link), target)
    ensures |Split(PolicyTarget(Join(link), target))| <= |Split(other)|
  {
    var names := PointsTo(LinkDir(link), target);
    RelativeIffSameTopLevel(link, target);
    TargetSegmentsMeaning(link, target);
    SplitJoinNames(link);
    SplitJoinNames(names);
    RelativeForm(link, names);
    RelativeLength(link, names);
    StepsNeeded(LinkDir(link), Split(other));
  }
}
