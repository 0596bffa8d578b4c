/** Text made of lines: where a pattern that is one line can occur, and what
    inserting whole lines or stripping trailing white space does to it. */
module Lines {
  import opened Search

  /** The characters `str.isspace` accepts, hence the ones `rstrip()` removes. */
  predicate IsSpace(c: char)
  {
    var n := c as int;
    || 9 <= n <= 13 || 28 <= n <= 32 || n == 0x85 || n == 0xA0 || n == 0x1680
    || 0x2000 <= n <= 0x200A || n == 0x2028 || n == 0x2029 || n == 0x202F || n == 0x205F || n == 0x3000
  }

  function RStrip(s: string): (t: string)
    ensures t <= s
    ensures t == "" || !IsSpace(t[|t| - 1])
    ensures forall i :: |t| <= i < |s| ==> IsSpace(s[i])
  {
    if s != "" && IsSpace(s[|s| - 1]) then RStrip(s[..|s| - 1]) else s
  }

  ghost predicate Blank(s: string) { forall i :: 0 <= i < |s| ==> IsSpace(s[i]) }

  /** One line: a newline at the end and nowhere else, visible text just before it. */
  ghost predicate IsLine(l: string)
  {
    && |l| >= 3
    && l[|l| - 1] == '\n' && !IsSpace(l[|l| - 2])
    && forall i :: 0 <= i < |l| - 1 ==> l[i] != '\n'
  }

  /** Text that stops at a line end. */
  ghost predicate Closed(a: string) { a == "" || a[|a| - 1] == '\n' }

  /** Text whose last line is visible and complete. */
  ghost predicate EndsVisibly(a: string) { |a| >= 2 && a[|a| - 1] == '\n' && !IsSpace(a[|a| - 2]) }

  ghost predicate OneAt(s: string, l: string, i: int)
  {
    OccursAt(s, l, i) && forall j :: OccursAt(s, l, j) ==> j == i
  }

  ghost predicate One(s: string, l: string)
  {
    exists i :: OneAt(s, l, i)
  }

  /** The two lines differ in one of the last two visible characters. */
  ghost predicate Differ(x: string, y: string)
    requires |x| >= 3 && |y| >= 3
  {
    x[|x| - 2] != y[|y| - 2] || x[|x| - 3] != y[|y| - 3]
  }

  /** The stripped text ends in the line `l` but for its newline, which is missing. */
  ghost predicate Dangling(s: string, l: string)
    requires |l| > 0
  {
    EndsWith(RStrip(s), l[..|l| - 1]) && !(|RStrip(s)| < |s| && s[|RStrip(s)|] == '\n')
  }

  // ---- Where a line can occur ----

  lemma OccursChar<T>(s: seq<T>, l: seq<T>, i: int, k: int)
    requires OccursAt(s, l, i) && 0 <= k < |l|
    ensures s[i + k] == l[k]
  {
    assert s[i..i + |l|][k] == s[i + k];
  }

  lemma OccursByChars<T>(s: seq<T>, l: seq<T>, i: int)
    requires 0 <= i && i + |l| <= |s|
    requires forall k :: 0 <= k < |l| ==> s[i + k] == l[k]
    ensures OccursAt(s, l, i)
  {
    assert s[i..i + |l|] == l;
  }

  /** A line never straddles a line end: it lies on one side of it. */
  lemma Cut(a: string, b: string, l: string, i: int)
    requires Closed(a) && IsLine(l)
    ensures OccursAt(a + b, l, i) <==> OccursAt(a, l, i) || OccursAt(b, l, i - |a|)
    ensures !(OccursAt(a, l, i) && OccursAt(b, l, i - |a|))
  {
    if OccursAt(a + b, l, i) {
      if i + |l| <= |a| {
        assert a[i..i + |l|] == (a + b)[i..i + |l|];
      } else if i >= |a| {
        assert b[i - |a|..i - |a| + |l|] == (a + b)[i..i + |l|];
      } else {
        OccursChar(a + b, l, i, |a| - 1 - i);
      }
    }
    if OccursAt(a, l, i) { OccursInContext("", a, b, l, i); assert "" + a + b == a + b; }
    if OccursAt(b, l, i - |a|) { OccursInContext(a, b, "", l, i - |a|); assert a + b + "" == a + b; }
  }

  lemma DifferentLines(x: string, y: string)
    requires IsLine(x) && IsLine(y) && Differ(x, y)
    ensures !Has(x, y)
  {
    forall i
      ensures !OccursAt(x, y, i)
    {
      if OccursAt(x, y, i) {
        OccursChar(x, y, i, |y| - 1);
        OccursChar(x, y, i, |y| - 2);
        OccursChar(x, y, i, |y| - 3);
      }
    }
  }

  lemma NoneInTwo(a: string, b: string, l: string)
    requires Closed(a) && IsLine(l) && !Has(a, l) && !Has(b, l)
    ensures !Has(a + b, l)
  {
    hide Find, IsLine, OccursAt;
    forall i
      ensures !OccursAt(a + b, l, i)
    {
      Cut(a, b, l, i);
    }
  }

  lemma NoSelfOverlap(s: string, l: string, o: int, i: int)
    requires IsLine(l) && OccursAt(s, l, o) && OccursAt(s, l, i) && o <= i < o + |l|
    ensures i == o
  {
    OccursChar(s, l, o, |l| - 1);
    OccursChar(s, l, i, o + |l| - 1 - i);
  }

  /** A line cannot overlap itself, so every occurrence is one of the matches. */
  lemma OccurrencesAreMatches(s: string, l: string, i: int)
    requires IsLine(l) && OccursAt(s, l, i)
    ensures i in Matches(s, l, 0)
  {
    var o := OccurrencesBeginInMatches(s, l, 0, i);
    MatchesAreDisjoint(s, l, 0);
    NoSelfOverlap(s, l, o, i);
  }

  /** `count == 1` is the same as a single occurrence. */
  lemma CountOne(s: string, l: string)
    requires IsLine(l)
    ensures Count(s, l) == 1 <==> One(s, l)
  {
    hide Find;
    MatchesAreDisjoint(s, l, 0);
    var ms := Matches(s, l, 0);
    if |ms| == 1 {
      forall i | OccursAt(s, l, i)
        ensures i == ms[0]
      {
        OccurrencesAreMatches(s, l, i);
      }
      assert OneAt(s, l, ms[0]);
    } else if |ms| >= 2 {
      assert OccursAt(s, l, ms[0]) && OccursAt(s, l, ms[1]);
    } else {
      assert Find(s, l, 0) < 0;
    }
  }

  // ---- Inserting whole lines ----

  lemma InsertedOccurrence(u: string, blk: string, v: string, l: string, i: int)
    requires Closed(u) && Closed(blk) && IsLine(l) && !Has(blk, l)
    ensures OccursAt(u + blk + v, l, i) <==> OccursAt(u, l, i) || OccursAt(v, l, i - |u| - |blk|)
  {
    hide Find, OccursAt, IsLine;
    Cut(u + blk, v, l, i);
    Cut(u, blk, l, i);
  }

  lemma InsertKeepsLine(u: string, blk: string, v: string, l: string)
    requires Closed(u) && Closed(blk) && IsLine(l) && !Has(blk, l)
    ensures Has(u + blk + v, l) <==> Has(u + v, l)
  {
    hide Find, OccursAt, IsLine, Closed;
    if i :| OccursAt(u + blk + v, l, i) {
      InsertedOccurrence(u, blk, v, l, i);
      Cut(u, v, l, i);
      Cut(u, v, l, i - |blk|);
    }
    if i :| OccursAt(u + v, l, i) {
      Cut(u, v, l, i);
      InsertedOccurrence(u, blk, v, l, i);
      InsertedOccurrence(u, blk, v, l, i + |blk|);
    }
  }

  lemma InsertKeepsOne(u: string, blk: string, v: string, l: string)
    requires Closed(u) && Closed(blk) && IsLine(l) && !Has(blk, l)
    requires One(u + v, l)
    ensures One(u + blk + v, l)
  {
    hide Find, OccursAt, IsLine, Closed;
    var i :| OneAt(u + v, l, i);
    Cut(u, v, l, i);
    var k := if OccursAt(u, l, i) then i else i + |blk|;
    InsertedOccurrence(u, blk, v, l, k);
    forall j | OccursAt(u + blk + v, l, j)
      ensures j == k
    {
      InsertedOccurrence(u, blk, v, l, j);
      Cut(u, v, l, j);
      Cut(u, v, l, j - |blk|);
    }
    assert OneAt(u + blk + v, l, k);
  }

  /** Three lines in a row survive an insertion that does not fall between them. */
  lemma InsertKeepsThree(u: string, blk: string, v: string, m: string, g: string, h: string)
    requires Closed(u) && IsLine(m) && IsLine(g) && IsLine(h)
    requires !EndsWith(u, m) && !EndsWith(u, g)
    requires Has(u + v, m + g + h)
    ensures Has(u + blk + v, m + g + h)
  {
    hide Find, IsLine;
    var pat := m + g + h;
    var i :| OccursAt(u + v, pat, i);
    if i + |pat| <= |u| {
      assert u[i..i + |pat|] == (u + v)[i..i + |pat|];
      OccursInContext("", u, blk + v, pat, i);
      assert "" + u + (blk + v) == u + blk + v;
    } else if i >= |u| {
      assert v[i - |u|..i - |u| + |pat|] == (u + v)[i..i + |pat|];
      OccursInContext(u + blk, v, "", pat, i - |u|);
      assert u + blk + v + "" == u + blk + v;
    } else {
      NotAcross(u, v, m, g, h, i);
    }
  }

  lemma NotAcross(u: string, v: string, m: string, g: string, h: string, i: int)
    requires Closed(u) && IsLine(m) && IsLine(g) && IsLine(h)
    requires OccursAt(u + v, m + g + h, i) && i < |u| < i + |m + g + h|
    ensures EndsWith(u, m) || EndsWith(u, g)
  {
    var pat, d := m + g + h, |u| - i;
    OccursChar(u + v, pat, i, d - 1);
    SplitOfThree(m, g, h, d);
    assert u[i..] == (u + v)[i..i + |pat|][..d] == pat[..d];
    if d == |m| {
      assert u[|u| - |m|..] == m;
    } else {
      assert u[|u| - |g|..] == u[i..][|m|..] == g;
    }
  }

  lemma SplitOfThree(m: string, g: string, h: string, d: nat)
    requires IsLine(m) && IsLine(g) && IsLine(h)
    requires 0 < d < |m + g + h| && (m + g + h)[d - 1] == '\n'
    ensures d == |m| || d == |m| + |g|
    ensures d == |m| ==> (m + g + h)[..d] == m
    ensures d == |m| + |g| ==> (m + g + h)[..d] == m + g
  {
  }

  // ---- Trailing white space ----

  lemma RStripUnique(s: string, t: string)
    requires t <= s && (t == "" || !IsSpace(t[|t| - 1])) && Blank(s[|t|..])
    ensures RStrip(s) == t
  {
    var r := RStrip(s);
    assert forall i :: |t| <= i < |s| ==> s[i] == s[|t|..][i - |t|];
    assert t != "" ==> !IsSpace(s[|t| - 1]);
    assert r != "" ==> !IsSpace(s[|r| - 1]);
  }

  lemma RStripConcat(u: string, v: string)
    ensures !Blank(v) ==> RStrip(u + v) == u + RStrip(v)
    ensures Blank(v) ==> RStrip(u + v) == RStrip(u)
  {
    if Blank(v) {
      forall i | |RStrip(u)| <= i < |u + v| ensures IsSpace((u + v)[i]) {}
      RStripUnique(u + v, RStrip(u));
    } else {
      assert RStrip(v) != "";
      RStripUnique(u + v, u + RStrip(v));
    }
  }

  lemma RStripVisible(u: string)
    requires EndsVisibly(u)
    ensures RStrip(u) == u[..|u| - 1]
  {
    RStripUnique(u, u[..|u| - 1]);
  }

  /** Whether the text ends in a header without its newline does not depend on lines
      inserted further up. */
  lemma InsertKeepsDangling(u: string, blk: string, v: string, l: string)
    requires u == "" || EndsVisibly(u)
    requires u != "" || !Blank(v)
    requires EndsVisibly(blk) && IsLine(l)
    ensures Dangling(u + blk + v, l) <==> Dangling(u + v, l)
  {
    hide Find, EndsWith;
    if Blank(v) {
      RStripConcat(u, v);
      RStripConcat(u + blk, v);
      RStripVisible(u);
      assert EndsVisibly(u + blk);
      RStripVisible(u + blk);
    } else {
      DanglingAfter(u, v, l);
      DanglingAfter(u + blk, v, l);
    }
  }

  lemma DanglingAfter(u: string, v: string, l: string)
    requires Closed(u) && IsLine(l) && !Blank(v)
    ensures Dangling(u + v, l) <==> Dangling(v, l)
  {
    hide Find, RStrip, EndsWith;
    RStripConcat(u, v);
    EndsWithAfter(u, RStrip(v), l[..|l| - 1]);
  }

  lemma EndsWithAfter(u: string, t: string, h: string)
    requires Closed(u) && forall i :: 0 <= i < |h| ==> h[i] != '\n'
    ensures EndsWith(u + t, h) <==> EndsWith(t, h)
  {
    if |h| <= |t| {
      assert (u + t)[|u + t| - |h|..] == t[|t| - |h|..];
    } else if |h| <= |u + t| {
      assert (u + t)[|u + t| - |h|..][|h| - |t| - 1] == u[|u| - 1];
    }
  }

  /** Replacing the trailing white space by two newlines and a further line keeps every
      visible pattern where it was ... */
  lemma AppendKeeps(s: string, last: string, pat: string, i: int)
    requires EndsVisibly(pat) && OccursAt(s, pat, i)
    ensures OccursAt(RStrip(s) + "\n\n" + last, pat, i)
  {
    var t, y := RStrip(s), RStrip(s) + "\n\n" + last;
    OccursChar(s, pat, i, |pat| - 2);
    forall k | 0 <= k < |pat|
      ensures y[i + k] == pat[k]
    {
      OccursChar(s, pat, i, k);
    }
    OccursByChars(y, pat, i);
  }

  /** ... and creates a line only where a header was dangling. */
  lemma AppendOccurrence(s: string, last: string, l: string, i: int)
    requires IsLine(l) && IsLine(last) && !Has(last, l)
    ensures OccursAt(RStrip(s) + "\n\n" + last, l, i) <==>
            OccursAt(s, l, i) || (Dangling(s, l) && i == |RStrip(s)| + 1 - |l|)
  {
    hide Find, RStrip;
    var t := RStrip(s);
    var y := t + "\n\n" + last;
    if OccursAt(s, l, i) { AppendKeeps(s, last, l, i); }
    assert y == (t + "\n") + ("\n" + last);
    assert !Has("\n", l);
    NoneInTwo("\n", last, l);
    Cut(t + "\n", "\n" + last, l, i);
    if OccursAt(t + "\n", l, i) {
      if i + |l| <= |t| {
        assert s[i..i + |l|] == (t + "\n")[i..i + |l|];
      } else {
        assert t[i..] == (t + "\n")[i..i + |l|][..|l| - 1];
        if |t| < |s| && s[|t|] == '\n' { assert s[i..i + |l|] == (t + "\n")[i..i + |l|]; }
      }
    }
    if Dangling(s, l) && i == |t| + 1 - |l| {
      assert (t + "\n")[i..i + |l|] == t[i..] + "\n" == l;
    }
  }
}
