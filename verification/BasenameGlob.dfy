/** Basename patterns: the quick tests that stand in for the full glob match. */
module BasenameGlob {
  import opened Strings

  /** Whether a character is in a bracket set, given what is between the brackets. */
  type InSet = (string, char) -> bool

  predicate IsMagic(c: char) {
    c == '*' || c == '?' || c == '['
  }

  predicate HasMagic(p: string) {
    exists i :: 0 <= i < |p| && IsMagic(p[i])
  }

  // ------------------------------------------------------------------ what globs mean

  function NextBracket(p: string, from: nat): nat
    requires from <= |p|
    ensures from <= NextBracket(p, from) <= |p|
    decreases |p| - from
  {
    if from == |p| || p[from] == ']' then from else NextBracket(p, from + 1)
  }

  /** Where the set that starts with the first character ends: a bracket that comes first, even after
      a negation, is part of the set; without an end there is no set. */
  function SetEnd(p: string): (end: nat)
    requires p != ""
    ensures 1 <= end <= |p|
  {
    var start := if |p| > 1 && p[1] == '!' then 2 else 1;
    NextBracket(p, if start < |p| && p[start] == ']' then start + 1 else start)
  }

  /** The language of `fnmatch`. */
  predicate Glob(inSet: InSet, p: string, x: string)
    decreases |p|, |x|
  {
    if p == "" then x == ""
    else if p[0] == '*' then Glob(inSet, p[1..], x) || (x != "" && Glob(inSet, p, x[1..]))
    else if x == "" then false
    else if p[0] == '?' then Glob(inSet, p[1..], x[1..])
    else if p[0] == '[' && SetEnd(p) < |p| then
      inSet(p[1..SetEnd(p)], x[0]) && Glob(inSet, p[SetEnd(p) + 1..], x[1..])
    else x[0] == p[0] && Glob(inSet, p[1..], x[1..])
  }

  // -------------------------------------------------------------------- the quick tests

  predicate EndsWith(x: string, suffix: string) {
    |suffix| <= |x| && x[|x| - |suffix|..] == suffix
  }

  predicate ContainsAt(x: string, part: string, i: nat) {
    i + |part| <= |x| && x[i..i + |part|] == part
  }

  predicate Contains(x: string, part: string) {
    exists i: nat {:trigger ContainsAt(x, part, i)} :: i <= |x| && ContainsAt(x, part, i)
  }

  datatype QuickTest = Equals(s: string) | StartsWithIt(s: string) | EndsWithIt(s: string) | ContainsIt(s: string) {
    predicate Accepts(x: string) {
      match this
      case Equals(s) => x == s
      case StartsWithIt(s) => s <= x
      case EndsWithIt(s) => EndsWith(x, s)
      case ContainsIt(s) => Contains(x, s)
    }
  }

  /** The test that the first and the last character of a pattern suggest. */
  function Suggested(p: string): QuickTest
    requires p != ""
  {
    if p[0] == '*' then
      if p[|p| - 1] == '*' then ContainsIt(if |p| == 1 then "" else p[1..|p| - 1]) else EndsWithIt(p[1..])
    else StartsWithIt(p[..|p| - 1])
  }

  /** `_compile_basename_glob`: the full match is kept for patterns with more wildcards inside. */
  function CompileBasenameGlob(inSet: InSet, p: string): string -> bool {
    if !HasMagic(p) then (x: string) => Equals(p).Accepts(x)
    else if !HasMagic(Suggested(p).s) then
      var quick := Suggested(p);
      (x: string) => quick.Accepts(x)
    else (x: string) => Glob(inSet, p, x)
  }

  // ------------------------------------------------------------------------- they agree

  lemma {:induction false} LiteralFirst(inSet: InSet, s: string, p: string, x: string)
    requires !HasMagic(s)
    ensures Glob(inSet, s + p, x) <==> s <= x && Glob(inSet, p, x[|s|..])
    decreases |s|
  {
    if s == "" {
      assert s + p == p && x[0..] == x;
    } else {
      assert !IsMagic(s[0]);
      assert (s + p)[0] == s[0] && (s + p)[1..] == s[1..] + p;
      if x != "" {
        forall i | 0 <= i < |s[1..]| ensures !IsMagic(s[1..][i]) {
          assert !IsMagic(s[i + 1]);
        }
        LiteralFirst(inSet, s[1..], p, x[1..]);
        assert s <= x <==> s[0] == x[0] && s[1..] <= x[1..] by {
          assert s == [s[0]] + s[1..] && x == [x[0]] + x[1..];
        }
        assert s <= x ==> x[1..][|s[1..]|..] == x[|s|..];
      }
    }
  }

  lemma Literal(inSet: InSet, s: string, x: string)
    requires !HasMagic(s)
    ensures Glob(inSet, s, x) <==> x == s
  {
    LiteralFirst(inSet, s, "", x);
    assert s + "" == s;
  }

  lemma {:induction false} StarTakesAll(inSet: InSet, x: string)
    ensures Glob(inSet, "*", x)
    decreases |x|
  {
    assert "*"[1..] == "";
    if x != "" {
      StarTakesAll(inSet, x[1..]);
    }
  }

  /** A star skips some characters, and the rest of the pattern matches what is left. */
  lemma {:induction false} StarSkips(inSet: InSet, p: string, x: string)
    ensures Glob(inSet, "*" + p, x) <==> exists i {:trigger x[i..]} :: 0 <= i <= |x| && Glob(inSet, p, x[i..])
    decreases |x|
  {
    var q := "*" + p;
    assert q[0] == '*' && q[1..] == p;
    assert x[0..] == x;
    if x != "" {
      var y := x[1..];
      StarSkips(inSet, p, y);
      if i :| 0 <= i <= |y| && Glob(inSet, p, y[i..]) {
        assert x[i + 1..] == y[i..];
      }
      if i :| 0 <= i <= |x| && Glob(inSet, p, x[i..]) {
        if i > 0 {
          assert y[i - 1..] == x[i..];
        }
      }
    }
  }

  lemma StarOnBothSides(inSet: InSet, s: string, x: string)
    requires !HasMagic(s)
    ensures Glob(inSet, "*" + (s + "*"), x) <==> Contains(x, s)
  {
    StarSkips(inSet, s + "*", x);
    forall i: nat | 0 <= i <= |x| ensures Glob(inSet, s + "*", x[i..]) <==> ContainsAt(x, s, i) {
      LiteralFirst(inSet, s, "*", x[i..]);
      if s <= x[i..] {
        StarTakesAll(inSet, x[i..][|s|..]);
        assert x[i..i + |s|] == x[i..][..|s|];
      }
      if ContainsAt(x, s, i) {
        assert x[i..][..|s|] == x[i..i + |s|];
      }
    }
    if Glob(inSet, "*" + (s + "*"), x) {
      var i :| 0 <= i <= |x| && Glob(inSet, s + "*", x[i..]);
      assert ContainsAt(x, s, i);
    }
    if i: nat :| i <= |x| && ContainsAt(x, s, i) {
      assert Glob(inSet, s + "*", x[i..]);
    }
  }

  lemma LiteralThenStar(inSet: InSet, s: string, x: string)
    requires !HasMagic(s)
    ensures Glob(inSet, s + "*", x) <==> s <= x
  {
    LiteralFirst(inSet, s, "*", x);
    if s <= x {
      StarTakesAll(inSet, x[|s|..]);
    }
  }

  /** A pattern whose last character is taken for a star although it is none. */
  predicate Mistaken(p: string) {
    p != "" && (p[|p| - 1] == '?' || p[|p| - 1] == '[') && !HasMagic(p[..|p| - 1])
  }

  /** Unless the pattern is mistaken, the compiled test accepts exactly the names that the glob accepts. */
  lemma QuickIsGlob(inSet: InSet, p: string, x: string)
    requires !Mistaken(p)
    ensures CompileBasenameGlob(inSet, p)(x) <==> Glob(inSet, p, x)
  {
    if !HasMagic(p) {
      Literal(inSet, p, x);
    } else if !HasMagic(Suggested(p).s) {
      var s := Suggested(p).s;
      if p[0] == '*' {
        if p[|p| - 1] != '*' {
          assert p == "*" + s;
        } else if |p| == 1 {
          StarTakesAll(inSet, x);
          assert p == "*" && ContainsAt(x, "", 0);
        } else {
          assert p == "*" + (s + "*");
          StarOnBothSides(inSet, s, x);
        }
      } else {
        assert p == s + "*";
        LiteralThenStar(inSet, s, x);
      }
    }
  }

  /** A mistaken pattern also accepts the name that ends right before its last character. */
  lemma MistakenAcceptsMore(inSet: InSet, p: string)
    requires Mistaken(p)
    ensures CompileBasenameGlob(inSet, p)(p[..|p| - 1]) && !Glob(inSet, p, p[..|p| - 1])
  {
    var s, last := p[..|p| - 1], [p[|p| - 1]];
    assert IsMagic(p[|p| - 1]) && HasMagic(p);
    assert p[0] != '*' by {
      if |p| > 1 {
        assert !IsMagic(s[0]);
      }
    }
    assert p == s + last;
    LiteralFirst(inSet, s, last, s);
    assert s[|s|..] == "";
  }

  ghost predicate AgreesWithGlob(inSet: InSet, p: string) {
    forall x :: CompileBasenameGlob(inSet, p)(x) <==> Glob(inSet, p, x)
  }

  /** The quick tests are right for every pattern but the mistaken ones, such as `foo?`. */
  lemma AgreesIffNotMistaken(inSet: InSet, p: string)
    ensures AgreesWithGlob(inSet, p) <==> !Mistaken(p)
  {
    if Mistaken(p) {
      MistakenAcceptsMore(inSet, p);
    } else {
      forall x ensures CompileBasenameGlob(inSet, p)(x) <==> Glob(inSet, p, x) {
        QuickIsGlob(inSet, p, x);
      }
    }
  }
}
