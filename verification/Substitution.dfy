/** Replacing the variables in a string, with an offset that keeps track of how far
    the string has grown or shrunk so far.  The pattern that finds the variables is
    not modelled: its matches are given, one after the other and without overlaps,
    and so are the values of the variables. */
module Substitution {
  import opened Strings

  /** A match of the variable pattern: `{{`, the name of the variable and `}}`. */
  datatype Found = Found(start: nat, prefix: string, key: string, suffix: string) {
    function End(): nat {
      start + |prefix| + |key| + |suffix|
    }
  }

  datatype Outcome = Replaced(value: string, used: seq<string>) | Unresolved(key: string)

  /** What a variable stands for, if anything. */
  type Replacements = string -> Option<string>

  /** The matches are in the string, one after the other and without overlaps. */
  ghost predicate InOrder(value: string, ms: seq<Found>) {
    && (forall i :: 0 <= i < |ms| ==> ms[i].End() <= |value|)
    && (forall i :: 0 < i < |ms| ==> ms[i - 1].End() <= ms[i].start)
  }

  function EndOf(ms: seq<Found>): nat {
    if ms == [] then 0 else ms[|ms| - 1].End()
  }

  /** What the string becomes up to the end of the last match: the text between the matches as it
      is, and the values of the variables in between. */
  ghost function Rewritten(value: string, ms: seq<Found>, values: Replacements): string
    requires InOrder(value, ms) && forall m :: m in ms ==> values(m.key).Some?
  {
    if ms == [] then []
    else
      var front, last := ms[..|ms| - 1], ms[|ms| - 1];
      assert last in ms && EndOf(front) <= last.start by {
        assert front != [] ==> front[|front| - 1] == ms[|ms| - 2];
      }
      Rewritten(value, front, values) + value[EndOf(front)..last.start] + values(last.key).value
  }

  function KeysOf(ms: seq<Found>): (keys: seq<string>)
    ensures |keys| == |ms| && forall i :: 0 <= i < |keys| ==> keys[i] == ms[i].key
  {
    seq(|ms|, i requires 0 <= i < |ms| => ms[i].key)
  }

  /** How far the text behind the first i matches has moved. */
  function Shift(ms: seq<Found>, values: Replacements, i: nat): int
    requires i <= |ms| && forall m :: m in ms[..i] ==> values(m.key).Some?
    decreases i
  {
    if i == 0 then 0
    else
      assert ms[i - 1] == ms[..i][i - 1] && forall m :: m in ms[..i - 1] ==> m in ms[..i];
      Shift(ms, values, i - 1) + |values(ms[i - 1].key).value| - (ms[i - 1].End() - ms[i - 1].start)
  }

  /** Putting a value in the place of a match moves everything behind it by the difference. */
  lemma OneReplaced(value: string, done: string, from: nat, m: Found, text: string, current: string, offset: int)
    requires from <= m.start && m.End() <= |value|
    requires current == done + value[from..] && offset == |done| - from
    ensures var after := done + value[from..m.start] + text;
      && |after| == |done| + (m.start - from) + |text|
      && 0 <= m.start + offset && m.End() + offset <= |current|
      && current[..m.start + offset] + text + current[m.End() + offset..] == after + value[m.End()..]
  {
    assert current[..m.start + offset] == done + value[from..m.start];
    assert current[m.End() + offset..] == value[m.End()..];
  }

  lemma OneMoreRewritten(value: string, ms: seq<Found>, i: nat, values: Replacements)
    requires InOrder(value, ms) && i < |ms| && forall m :: m in ms[..i] ==> values(m.key).Some?
    requires values(ms[i].key).Some?
    ensures InOrder(value, ms[..i]) && InOrder(value, ms[..i + 1]) && EndOf(ms[..i]) <= ms[i].start
    ensures forall m :: m in ms[..i + 1] ==> values(m.key).Some?
    ensures Rewritten(value, ms[..i + 1], values) ==
            Rewritten(value, ms[..i], values) + value[EndOf(ms[..i])..ms[i].start] + values(ms[i].key).value
  {
    assert ms[..i + 1] == ms[..i] + [ms[i]];
    assert ms[..i + 1][..i] == ms[..i];
  }

  lemma {:induction false} RewrittenLength(value: string, ms: seq<Found>, i: nat, values: Replacements)
    requires InOrder(value, ms) && i <= |ms| && forall m :: m in ms[..i] ==> values(m.key).Some?
    ensures InOrder(value, ms[..i]) && |Rewritten(value, ms[..i], values)| == EndOf(ms[..i]) + Shift(ms, values, i)
    decreases i
  {
    if i > 0 {
      assert ms[i - 1] == ms[..i][i - 1] && forall m :: m in ms[..i - 1] ==> m in ms[..i];
      RewrittenLength(value, ms, i - 1, values);
      OneMoreRewritten(value, ms, i - 1, values);
      hide Rewritten, InOrder;
    }
  }

  lemma {:induction false} RewrittenGrows(value: string, ms: seq<Found>, i: nat, values: Replacements)
    requires InOrder(value, ms) && i <= |ms| && forall m :: m in ms ==> values(m.key).Some?
    ensures (forall m :: m in ms[..i] ==> values(m.key).Some?) && InOrder(value, ms[..i])
    ensures Rewritten(value, ms[..i], values) <= Rewritten(value, ms, values)
    decreases |ms| - i
  {
    hide Rewritten, InOrder;
    assert forall m :: m in ms[..i] ==> m in ms;
    if i == |ms| {
      assert ms[..i] == ms;
    } else {
      assert ms[i] in ms;
      RewrittenGrows(value, ms, i + 1, values);
      OneMoreRewritten(value, ms, i, values);
    }
  }

  /** What comes out: every value is where its variable was, and every character in front of it where it
      was, but for the shift. */
  lemma InPlace(value: string, ms: seq<Found>, values: Replacements, i: nat, c: nat)
    requires InOrder(value, ms) && i < |ms| && forall m :: m in ms ==> values(m.key).Some?
    requires EndOf(ms[..i]) <= c < ms[i].start || c == ms[i].start
    ensures (forall m :: m in ms[..i] ==> values(m.key).Some?)
    ensures var r, at, v := Rewritten(value, ms, values), c + Shift(ms, values, i), values(ms[i].key).value;
      && 0 <= at <= |r|
      && (if c < ms[i].start then at < |r| && r[at] == value[c] else at + |v| <= |r| && r[at..at + |v|] == v)
  {
    hide Rewritten, InOrder, Shift;
    assert ms[i] in ms && forall m :: m in ms[..i] ==> m in ms;
    RewrittenLength(value, ms, i, values);
    RewrittenGrows(value, ms, i + 1, values);
    OneMoreRewritten(value, ms, i, values);
    MatchInside(value, ms, i);
    PartsInPlace(Rewritten(value, ms[..i], values), value, EndOf(ms[..i]), ms[i].start, values(ms[i].key).value,
                 Rewritten(value, ms, values));
  }

  lemma MatchInside(value: string, ms: seq<Found>, i: nat)
    requires InOrder(value, ms) && i < |ms|
    ensures ms[i].start <= ms[i].End() <= |value|
  {
  }

  lemma PartsInPlace(done: string, value: string, from: nat, to: nat, v: string, r: string)
    requires from <= to <= |value| && done + value[from..to] + v <= r
    ensures forall c :: from <= c < to ==> 0 <= c + |done| - from < |r| && r[c + |done| - from] == value[c]
    ensures var at := to + |done| - from; 0 <= at && at + |v| <= |r| && r[at..at + |v|] == v
  {
    var front := done + value[from..to];
    assert r[|front|..|front| + |v|] == (front + v)[|front|..] == v;
    forall c | from <= c < to ensures 0 <= c + |done| - from < |r| && r[c + |done| - from] == value[c] {
      assert r[c + |done| - from] == front[c + |done| - from] == value[from..to][c - from];
    }
  }

  /** The string while the i-th match is about to be replaced. */
  ghost predicate Underway(value: string, ms: seq<Found>, i: nat, values: Replacements, current: string, offset: int) {
    && i <= |ms| && InOrder(value, ms[..i]) && EndOf(ms[..i]) <= |value|
    && (forall m :: m in ms[..i] ==> values(m.key).Some?)
    && current == Rewritten(value, ms[..i], values) + value[EndOf(ms[..i])..]
    && offset == |Rewritten(value, ms[..i], values)| - EndOf(ms[..i])
  }

  lemma NextUnderway(value: string, ms: seq<Found>, i: nat, values: Replacements, current: string, offset: int)
    requires InOrder(value, ms) && i < |ms| && Underway(value, ms, i, values, current, offset)
      && values(ms[i].key).Some?
    ensures var m, text := ms[i], values(ms[i].key).value;
      && 0 <= m.start + offset && m.End() + offset <= |current|
      && Underway(value, ms, i + 1, values, current[..m.start + offset] + text + current[m.End() + offset..],
                  offset + |text| - |m.key| - (|m.prefix| + |m.suffix|))
  {
    UnderwayMeans(value, ms, i, values, current, offset);
    hide Rewritten, InOrder, Underway, EndOf;
    var m, text, done, from := ms[i], values(ms[i].key).value, Rewritten(value, ms[..i], values), EndOf(ms[..i]);
    OneMoreRewritten(value, ms, i, values);
    OneReplaced(value, done, from, m, text, current, offset);
    var after, current' :=
      done + value[from..m.start] + text, current[..m.start + offset] + text + current[m.End() + offset..];
  }

  lemma UnderwayMeans(value: string, ms: seq<Found>, i: nat, values: Replacements, current: string, offset: int)
    requires Underway(value, ms, i, values, current, offset)
    ensures i <= |ms| && InOrder(value, ms[..i]) && EndOf(ms[..i]) <= |value|
    ensures (forall m :: m in ms[..i] ==> values(m.key).Some?)
    ensures current == Rewritten(value, ms[..i], values) + value[EndOf(ms[..i])..]
    ensures offset == |Rewritten(value, ms[..i], values)| - EndOf(ms[..i])
  {
  }

  lemma AllUnderway(value: string, ms: seq<Found>, values: Replacements, current: string, offset: int)
    requires InOrder(value, ms) && Underway(value, ms, |ms|, values, current, offset)
    ensures EndOf(ms) <= |value| && (forall m :: m in ms ==> values(m.key).Some?)
    ensures current == Rewritten(value, ms, values) + value[EndOf(ms)..]
  {
    assert ms[..|ms|] == ms;
  }

  lemma NothingYet(value: string, ms: seq<Found>, values: Replacements)
    ensures Underway(value, ms, 0, values, value, 0)
  {
    assert ms[..0] == [] && value[0..] == value;
  }

  /** `_apply_substitution`: whatever the lengths of the values, every variable is replaced in its
      place and everything else stays. */
  method ApplySubstitution(value: string, ms: seq<Found>, values: Replacements) returns (r: Outcome)
    requires InOrder(value, ms)
    ensures r.Unresolved? <==> exists m :: m in ms && values(m.key).None?
    ensures r.Replaced? ==> (
      && r.used == KeysOf(ms) && (forall m :: m in ms ==> values(m.key).Some?) && EndOf(ms) <= |value|
      && r.value == Rewritten(value, ms, values) + value[EndOf(ms)..])
  {
    hide Rewritten, Underway, InOrder;
    var replacement := value;
    var offset: int := 0;
    var used: seq<string> := [];
    NothingYet(value, ms, values);
    for i := 0 to |ms|
      invariant Underway(value, ms, i, values, replacement, offset) && used == KeysOf(ms[..i])
    {
      var m := ms[i];
      assert ms[..i + 1] == ms[..i] + [m] && m in ms;
      var replacementValue := values(m.key);
      if replacementValue.None? {
        return Unresolved(m.key);
      }
      used := used + [m.key];
      NextUnderway(value, ms, i, values, replacement, offset);
      var s, e := m.start + offset, m.End() + offset;
      replacement := replacement[..s] + replacementValue.value + replacement[e..];
      var tokenFluffLen := |m.prefix| + |m.suffix|;
      offset := offset + |replacementValue.value| - |m.key| - tokenFluffLen;
    }
    AllUnderway(value, ms, values, replacement, offset);
    assert ms[..|ms|] == ms;
    r := Replaced(replacement, used);
  }
}
