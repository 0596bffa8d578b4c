/** Substring search as the standard library performs it on text and on bytes:
    `find`, `in`, `count`, `replace(old, new, 1)`, `startswith` and `endswith`. */
module Search {

  predicate OccursAt<T(==)>(s: seq<T>, pat: seq<T>, i: int)
  {
    0 <= i && i + |pat| <= |s| && s[i..i + |pat|] == pat
  }

  /** The first occurrence at or after `from`, or -1. */
  function Find<T(==)>(s: seq<T>, pat: seq<T>, from: nat): (r: int)
    ensures r == -1 || (from <= r && r + |pat| <= |s| && OccursAt(s, pat, r))
    ensures forall i :: from <= i && (r == -1 || i < r) ==> !OccursAt(s, pat, i)
    decreases |s| - from
  {
    if from + |pat| > |s| then -1
    else if OccursAt(s, pat, from) then from
    else Find(s, pat, from + 1)
  }

  predicate Has<T(==)>(s: seq<T>, pat: seq<T>)
    ensures Has(s, pat) <==> exists i :: OccursAt(s, pat, i)
  {
    Find(s, pat, 0) >= 0
  }

  /** The leftmost non-overlapping occurrences, in order. */
  function Matches<T(==)>(s: seq<T>, pat: seq<T>, from: nat): seq<nat>
    requires pat != []
    decreases |s| - from
  {
    var i := Find(s, pat, from);
    if i < 0 then [] else [i] + Matches(s, pat, i + |pat|)
  }

  function Count<T(==)>(s: seq<T>, pat: seq<T>): nat
    requires pat != []
  {
    |Matches(s, pat, 0)|
  }

  function ReplaceFirst<T(==)>(s: seq<T>, pat: seq<T>, by_: seq<T>): seq<T>
  {
    var i := Find(s, pat, 0);
    if i < 0 then s else s[..i] + by_ + s[i + |pat|..]
  }

  predicate EndsWith<T(==)>(s: seq<T>, pat: seq<T>)
  {
    |pat| <= |s| && s[|s| - |pat|..] == pat
  }

  predicate StartsWith<T(==)>(s: seq<T>, pat: seq<T>)
  {
    |pat| <= |s| && s[..|pat|] == pat
  }

  /** Matches are occurrences, at or after `from`, pairwise disjoint and increasing. */
  lemma {:induction false} MatchesAreDisjoint<T>(s: seq<T>, pat: seq<T>, from: nat)
    requires pat != []
    ensures forall k :: 0 <= k < |Matches(s, pat, from)| ==>
              from <= Matches(s, pat, from)[k] && OccursAt(s, pat, Matches(s, pat, from)[k])
    ensures forall j, k :: 0 <= j < k < |Matches(s, pat, from)| ==>
              Matches(s, pat, from)[j] + |pat| <= Matches(s, pat, from)[k]
    decreases |s| - from
  {
    hide Find, OccursAt;
    var i := Find(s, pat, from);
    if i >= 0 {
      MatchesAreDisjoint(s, pat, i + |pat|);
    }
  }

  /** Every occurrence, chosen or stepped over, begins inside some match. */
  lemma {:induction false} OccurrencesBeginInMatches<T>(s: seq<T>, pat: seq<T>, from: nat, p: int) returns (o: nat)
    requires pat != []
    requires from <= p && OccursAt(s, pat, p)
    ensures o in Matches(s, pat, from) && o <= p < o + |pat|
    decreases |s| - from
  {
    hide Find, OccursAt;
    o := Find(s, pat, from);
    if p >= o + |pat| {
      o := OccurrencesBeginInMatches(s, pat, o + |pat|, p);
    }
  }

  lemma SingleMatch<T>(s: seq<T>, pat: seq<T>, i: nat)
    requires pat != [] && OccursAt(s, pat, i)
    requires forall j :: 0 <= j < i || i + |pat| <= j ==> !OccursAt(s, pat, j)
    ensures Matches(s, pat, 0) == [i]
  {
    hide Find, OccursAt;
    assert Find(s, pat, 0) == i;
    assert Find(s, pat, i + |pat|) == -1;
    assert Matches(s, pat, i + |pat|) == [];
  }

  /** Membership in a longer text, from membership in a part of it. */
  lemma OccursInContext<T>(a: seq<T>, s: seq<T>, b: seq<T>, pat: seq<T>, i: int)
    requires OccursAt(s, pat, i)
    ensures OccursAt(a + s + b, pat, |a| + i)
  {
    assert (a + s + b)[|a| + i..|a| + i + |pat|] == s[i..i + |pat|];
  }

  /** Text put in front moves every occurrence along. */
  lemma OccursShifted<T>(a: seq<T>, t: seq<T>, pat: seq<T>, i: int)
    requires i >= 0
    ensures OccursAt(a + t, pat, |a| + i) <==> OccursAt(t, pat, i)
  {
    if i + |pat| <= |t| { assert (a + t)[|a| + i..|a| + i + |pat|] == t[i..i + |pat|]; }
  }

  lemma FindShifted<T>(a: seq<T>, t: seq<T>, pat: seq<T>, from: nat)
    ensures Find(a + t, pat, |a| + from) == if Find(t, pat, from) < 0 then -1 else |a| + Find(t, pat, from)
  {
    hide Find, OccursAt;
    var i, j := Find(t, pat, from), Find(a + t, pat, |a| + from);
    if i >= 0 { OccursShifted(a, t, pat, i); }
    if j >= 0 { OccursShifted(a, t, pat, j - |a|); }
  }

  lemma {:induction false} MatchesShifted<T>(a: seq<T>, t: seq<T>, pat: seq<T>, from: nat)
    requires pat != []
    ensures |Matches(a + t, pat, |a| + from)| == |Matches(t, pat, from)|
    ensures forall k :: 0 <= k < |Matches(t, pat, from)| ==>
              Matches(a + t, pat, |a| + from)[k] == |a| + Matches(t, pat, from)[k]
    decreases |t| - from
  {
    hide Find, OccursAt;
    FindShifted(a, t, pat, from);
    var i := Find(t, pat, from);
    if i >= 0 { MatchesShifted(a, t, pat, i + |pat|); }
  }

  /** A scan may start anywhere before the first occurrence. */
  lemma MatchesSkip<T>(s: seq<T>, pat: seq<T>, from: nat)
    requires pat != [] && forall i :: OccursAt(s, pat, i) ==> from <= i
    ensures Matches(s, pat, 0) == Matches(s, pat, from)
  {
    hide Find, OccursAt;
    assert Find(s, pat, 0) == Find(s, pat, from);
  }
}
