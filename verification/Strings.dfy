/** Slash-separated strings: the handful of Python string operations that the
    path code relies on (`split`, `join`, `strip`, `dirname`), and the lemmas that
    relate a path string to the sequence of its segments.  Some notions that
    several parts of the program need, such as optional values and lists without
    repetition, are here too. */
module Strings {

  datatype Option<+T> = None | Some(value: T)

  datatype Result<+T, +E> = Success(value: T) | Failure(error: E) {
    predicate IsFailure() {
      Failure?
    }
    function PropagateFailure<U>(): Result<U, E>
      requires Failure?
    {
      Failure(error)
    }
    function Extract(): T
      requires Success?
    {
      value
    }
  }

  /** Nothing occurs twice. */
  ghost predicate NoDuplicates<T>(s: seq<T>) {
    forall i, j :: 0 <= i < j < |s| ==> s[i] != s[j]
  }

  lemma NoDuplicatesConcat<T>(a: seq<T>, b: seq<T>)
    requires NoDuplicates(a) && NoDuplicates(b) && forall x :: x in a ==> x !in b
    ensures NoDuplicates(a + b)
  {
    var s := a + b;
    forall i, j | 0 <= i < j < |s| ensures s[i] != s[j] {
      assert i < |a| ==> s[i] in a;
      assert j >= |a| ==> s[j] in b;
      assert i >= |a| ==> s[i] == b[i - |a|];
      assert j >= |a| ==> s[j] == b[j - |a|];
    }
  }

  /** One element stands somewhere before another. */
  ghost predicate Precedes<T>(s: seq<T>, x: T, y: T) {
    exists a, b :: 0 <= a < b < |s| && s[a] == x && s[b] == y
  }

  lemma PrecedesConcat<T>(a: seq<T>, b: seq<T>, x: T, y: T)
    ensures Precedes(b, x, y) || (x in a && y in b) ==> Precedes(a + b, x, y)
  {
    if i, j :| 0 <= i < j < |b| && b[i] == x && b[j] == y {
      assert (a + b)[|a| + i] == x && (a + b)[|a| + j] == y;
    }
    if i, j :| 0 <= i < |a| && 0 <= j < |b| && a[i] == x && b[j] == y {
      assert (a + b)[i] == x && (a + b)[|a| + j] == y;
    }
  }

  /** A string without any slash in it; the segments of a path are of this kind. */
  predicate SlashFree(s: string) {
    '/' !in s
  }

  /** A name that a directory entry can have without confusing path strings. */
  predicate ValidName(s: string) {
    s != "" && s != "." && s != ".." && SlashFree(s)
  }

  ghost predicate AllValid(names: seq<string>) {
    forall i :: 0 <= i < |names| ==> ValidName(names[i])
  }

  ghost predicate AllSlashFree(parts: seq<string>) {
    forall i :: 0 <= i < |parts| ==> SlashFree(parts[i])
  }

  /** Segments that can be joined and split again: not empty and without slashes. */
  ghost predicate AllSegments(parts: seq<string>) {
    forall i :: 0 <= i < |parts| ==> SlashFree(parts[i]) && parts[i] != ""
  }

  /** Python's `s.split("/")`. */
  function Split(s: string): (parts: seq<string>)
    ensures |parts| >= 1
    ensures AllSlashFree(parts)
  {
    if s == "" then [""]
    else if s[0] == '/' then [""] + Split(s[1..])
    else
      var rest := Split(s[1..]);
      [[s[0]] + rest[0]] + rest[1..]
  }

  /** Python's `"/".join(parts)`. */
  function Join(parts: seq<string>): string {
    if parts == [] then ""
    else if |parts| == 1 then parts[0]
    else parts[0] + "/" + Join(parts[1..])
  }

  predicate StartsWith(s: string, prefix: string) {
    prefix <= s
  }

  predicate EndsWithSlash(s: string) {
    s != "" && s[|s| - 1] == '/'
  }

  /** Python's `s.rstrip("/")`. */
  function RStrip(s: string): string {
    if EndsWithSlash(s) then RStrip(s[..|s| - 1]) else s
  }

  /** Python's `s.lstrip("/")`. */
  function LStrip(s: string): string {
    if s != "" && s[0] == '/' then LStrip(s[1..]) else s
  }

  /** Replacing every run of two or more slashes by a single one. */
  function PruneSlashes(s: string): string {
    if |s| >= 2 && s[0] == '/' && s[1] == '/' then PruneSlashes(s[1..])
    else if s == "" then ""
    else [s[0]] + PruneSlashes(s[1..])
  }

  /** The part of `s` up to and including its last slash. */
  function UpToLastSlash(s: string): string {
    if s == "" || EndsWithSlash(s) then s else UpToLastSlash(s[..|s| - 1])
  }

  /** Python's `os.path.dirname`: slashes are stripped from the head unless it is nothing but slashes. */
  function Dirname(s: string): string {
    var head := UpToLastSlash(s);
    var stripped := RStrip(head);
    if stripped == "" then head else stripped
  }

  /** Python's `os.path.join` of two components. */
  function PathJoin(a: string, b: string): string {
    if StartsWith(b, "/") then b
    else if a == "" || EndsWithSlash(a) then a + b
    else a + "/" + b
  }

  /** The segments that are not empty. */
  function NonEmpty(parts: seq<string>): (r: seq<string>)
    ensures forall i :: 0 <= i < |r| ==> r[i] != ""
    ensures AllSlashFree(parts) ==> AllSlashFree(r)
  {
    if parts == [] then []
    else if parts[0] == "" then NonEmpty(parts[1..])
    else [parts[0]] + NonEmpty(parts[1..])
  }

  /** A stack with its top at the end, read from the top. */
  function Reverse<T>(s: seq<T>): (r: seq<T>)
    ensures |r| == |s| && forall i :: 0 <= i < |s| ==> r[i] == s[|s| - 1 - i]
  {
    seq(|s|, i requires 0 <= i < |s| => s[|s| - 1 - i])
  }

  lemma ReverseTop<T>(s: seq<T>)
    requires s != []
    ensures Reverse(s) == [s[|s| - 1]] + Reverse(s[..|s| - 1])
  {
  }

  lemma ReversePush<T>(s: seq<T>, more: seq<T>)
    ensures Reverse(s + Reverse(more)) == more + Reverse(s)
  {
  }

  // ---------------------------------------------------------------- lemmas

  lemma {:induction false} SplitSlashFree(s: string)
    requires SlashFree(s)
    ensures Split(s) == [s]
  {
    if s != "" {
      assert forall c :: c in s[1..] ==> c in s;
      SplitSlashFree(s[1..]);
      assert [s[0]] + s[1..] == s;
    }
  }

  /** Splitting distributes over a slash. */
  lemma {:induction false} SplitConcat(a: string, b: string)
    ensures Split(a + "/" + b) == Split(a) + Split(b)
  {
    if a == "" {
      assert a + "/" + b == ['/'] + b;
    } else {
      var t := a[1..] + "/" + b;
      assert a + "/" + b == [a[0]] + t && a == [a[0]] + a[1..];
      SplitConcat(a[1..], b);
    }
  }

  lemma {:induction false} SplitJoin(parts: seq<string>)
    requires parts != [] && AllSlashFree(parts)
    ensures Split(Join(parts)) == parts
  {
    SplitSlashFree(parts[0]);
    if |parts| > 1 {
      SplitJoin(parts[1..]);
      SplitConcat(parts[0], Join(parts[1..]));
      assert parts == [parts[0]] + parts[1..];
    }
  }

  lemma {:induction false} JoinConcat(a: seq<string>, b: seq<string>)
    requires a != [] && b != []
    ensures Join(a + b) == Join(a) + "/" + Join(b)
  {
    if |a| == 1 {
      assert (a + b)[1..] == b;
    } else {
      assert (a + b)[1..] == a[1..] + b;
      JoinConcat(a[1..], b);
    }
  }

  /** A join of valid names is not empty, and neither starts nor ends with a slash. */
  lemma {:induction false} JoinEnds(parts: seq<string>)
    requires parts != [] && AllSegments(parts)
    ensures Join(parts) != "" && Join(parts)[0] != '/' && !EndsWithSlash(Join(parts))
    ensures Join(parts)[0] == parts[0][0]
  {
    assert parts[0][0] in parts[0];
    if |parts| == 1 {
      assert parts[0][|parts[0]| - 1] in parts[0];
    } else {
      JoinEnds(parts[1..]);
    }
  }

  lemma {:induction false} UpToLastSlashOf(head: string, name: string)
    requires SlashFree(name)
    ensures UpToLastSlash(head + "/" + name) == head + "/"
  {
    var s := head + "/" + name;
    if name == "" {
      assert s == head + "/";
    } else {
      assert s[|s| - 1] == name[|name| - 1] && name[|name| - 1] in name;
      assert s[..|s| - 1] == head + "/" + name[..|name| - 1];
      UpToLastSlashOf(head, name[..|name| - 1]);
    }
  }

  lemma {:induction false} UpToLastSlashNone(name: string)
    requires SlashFree(name)
    ensures UpToLastSlash(name) == ""
  {
    if name != "" {
      assert name[|name| - 1] in name;
      UpToLastSlashNone(name[..|name| - 1]);
    }
  }

  /** `dirname` of a path drops its last segment. */
  lemma DirnameOfJoin(parts: seq<string>, name: string)
    requires AllSegments(parts)
    requires SlashFree(name)
    ensures Dirname(Join(parts + [name])) == Join(parts)
  {
    if parts == [] {
      assert parts + [name] == [name];
      UpToLastSlashNone(name);
    } else {
      JoinConcat(parts, [name]);
      JoinEnds(parts);
      UpToLastSlashOf(Join(parts), name);
      var head := Join(parts) + "/";
      assert head[..|head| - 1] == Join(parts);
      assert RStrip(head) == Join(parts);
    }
  }

  lemma {:induction false} NonEmptyConcat(a: seq<string>, b: seq<string>)
    ensures NonEmpty(a + b) == NonEmpty(a) + NonEmpty(b)
  {
    if a == [] {
      assert a + b == b;
    } else {
      assert (a + b)[1..] == a[1..] + b;
      NonEmptyConcat(a[1..], b);
    }
  }

  /** Pruning slash runs keeps the first segment and all the non-empty ones. */
  lemma {:induction false} PruneKeepsSegments(s: string)
    ensures NonEmpty(Split(PruneSlashes(s))) == NonEmpty(Split(s))
    ensures Split(PruneSlashes(s))[0] == Split(s)[0]
  {
    if s != "" {
      PruneKeepsSegments(s[1..]);
      if |s| >= 2 && s[0] == '/' && s[1] == '/' {
        assert s[1..][0] == '/';
        assert Split(s[1..])[0] == "";
        assert Split(s) == [""] + Split(s[1..]);
      } else {
        var t := PruneSlashes(s[1..]);
        assert PruneSlashes(s) == [s[0]] + t && ([s[0]] + t)[1..] == t;
        if s[0] == '/' {
          assert ([""] + Split(t))[1..] == Split(t);
          assert ([""] + Split(s[1..]))[1..] == Split(s[1..]);
        } else {
          NonEmptyHead(Split(t), Split(s[1..]), s[0]);
        }
      }
    }
  }

  lemma NonEmptyHead(p: seq<string>, q: seq<string>, c: char)
    requires |p| >= 1 && |q| >= 1 && p[0] == q[0] && NonEmpty(p) == NonEmpty(q)
    ensures NonEmpty([[c] + p[0]] + p[1..]) == NonEmpty([[c] + q[0]] + q[1..])
  {
    assert ([[c] + p[0]] + p[1..])[1..] == p[1..];
    assert ([[c] + q[0]] + q[1..])[1..] == q[1..];
    assert NonEmpty(p[1..]) == NonEmpty(q[1..]) by {
      if p[0] != "" {
        assert NonEmpty(p)[1..] == NonEmpty(p[1..]);
        assert NonEmpty(q)[1..] == NonEmpty(q[1..]);
      }
    }
  }

  /** Stripping leading slashes only removes empty segments. */
  lemma {:induction false} LStripKeepsSegments(s: string)
    ensures NonEmpty(Split(LStrip(s))) == NonEmpty(Split(s))
  {
    if s != "" && s[0] == '/' {
      LStripKeepsSegments(s[1..]);
      assert ([""] + Split(s[1..]))[1..] == Split(s[1..]);
    }
  }

}
