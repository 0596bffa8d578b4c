/** `add_nsis_version_preflight`: guarded insertions into the generated NSIS script,
    meant to be run again on their own output. */
module NsisScript {
  import opened Search
  import opened Lines

  datatype Result = Ok(script: string) | EntrypointChanged

  /** The lines the rewriting looks for and the lines it inserts. */
  datatype Blocks = Blocks(
    marker: string, recover: string, preflight: string,
    reinstall: string, skip: string, abort: string, callbacks: string)
  {
    function Guard(): string { recover + preflight }

    ghost predicate Valid()
    {
      && IsLine(marker) && IsLine(recover) && IsLine(preflight) && IsLine(reinstall)
      && IsLine(skip) && IsLine(abort) && IsLine(callbacks)
      && Differ(marker, recover) && Differ(marker, preflight) && Differ(marker, reinstall)
      && Differ(marker, skip) && Differ(marker, abort) && Differ(marker, callbacks)
      && Differ(reinstall, recover) && Differ(reinstall, preflight) && Differ(reinstall, skip)
      && Differ(reinstall, abort) && Differ(reinstall, callbacks)
      && Differ(abort, recover) && Differ(abort, preflight) && Differ(abort, skip) && Differ(abort, callbacks)
      && Differ(callbacks, recover) && Differ(callbacks, preflight) && Differ(callbacks, skip)
      && abort[0] != BOM
    }
  }

  const BOM := '\U{FEFF}'

  /** The program's own lines.  The longer ones are spelled in pieces: the verifier reasons
      about the characters of a short literal, and not of a long one. */
  const NSIS := Blocks(
    "Function .onInit\n",
    "  !insertmacro " + "CIVICCAST_TRANS" + "ACTION_RECOVER_" + "PENDING\n",
    "  !insertmacro " + "CIVICCAST_" + "VERSION_PREFLIG" + "HT\n",
    "Function " + "PageReinstall\n",
    "  Abort ; Native" + " upgrades use t" + "he recoverable " + "PREINSTALL " + "transaction.\n",
    "!define MUI_" + "CUSTOMFUNCTION_" + "ABORT CivicCast" + "TransactionAbort\n",
    "!insertmacro " + "CIVICCAST_" + "TRANSACTION_" + "CALLBACKS\n")

  function BomOf(script: string): string
  {
    if script != "" && script[0] == BOM then [BOM] else ""
  }

  function InsertAfter(s: string, anchor: string, block: string): string
  {
    if Has(s, anchor) && !Has(s, anchor + block) then ReplaceFirst(s, anchor, anchor + block) else s
  }

  function WithAbort(b: Blocks, s: string): string
  {
    if Has(s, b.abort) then s else b.abort + s
  }

  function WithCallbacks(b: Blocks, s: string): string
  {
    if Has(s, b.callbacks) then s else RStrip(s) + "\n\n" + b.callbacks
  }

  function Rewrite(b: Blocks, body: string): string
  {
    var guarded := InsertAfter(body, b.marker, b.Guard());
    var skipping := InsertAfter(guarded, b.reinstall, b.skip);
    WithCallbacks(b, WithAbort(b, skipping))
  }

  function AddPreflight(b: Blocks, script: string): Result
    requires b.marker != ""
  {
    var bom := BomOf(script);
    var body := script[|bom|..];
    if Count(body, b.marker) != 1 then EntrypointChanged else Ok(bom + Rewrite(b, body))
  }

  function AddNsisVersionPreflight(script: string): Result
  {
    AddPreflight(NSIS, script)
  }

  ghost predicate LineEnding(l: string, x: char, y: char)
  {
    IsLine(l) && l[|l| - 3] == x && l[|l| - 2] == y
  }

  lemma ValidByEndings(b: Blocks)
    requires LineEnding(b.marker, 'i', 't') && LineEnding(b.recover, 'N', 'G')
    requires LineEnding(b.preflight, 'H', 'T') && LineEnding(b.reinstall, 'l', 'l')
    requires LineEnding(b.skip, 'n', '.') && LineEnding(b.abort, 'r', 't')
    requires LineEnding(b.callbacks, 'K', 'S') && b.abort[0] != BOM
    ensures b.Valid()
  {
  }

  lemma RecoverLine() ensures LineEnding(NSIS.recover, 'N', 'G') {}
  lemma PreflightLine() ensures LineEnding(NSIS.preflight, 'H', 'T') {}
  lemma ReinstallLine() ensures LineEnding(NSIS.reinstall, 'l', 'l') {}
  lemma SkipLine() ensures LineEnding(NSIS.skip, 'n', '.') {}
  lemma AbortLine() ensures LineEnding(NSIS.abort, 'r', 't') && NSIS.abort[0] != BOM {}
  lemma CallbacksLine() ensures LineEnding(NSIS.callbacks, 'K', 'S') {}
  lemma MarkerLine() ensures LineEnding(NSIS.marker, 'i', 't') {}

  lemma NsisBlocksAreValid()
    ensures NSIS.Valid()
  {
    MarkerLine();
    RecoverLine();
    PreflightLine();
    ReinstallLine();
    SkipLine();
    AbortLine();
    CallbacksLine();
    ValidByEndings(NSIS);
  }

  // ---- What each insertion keeps ----

  /** A line that an insertion neither adds nor takes away. */
  ghost predicate SameFor(s: string, s': string, l: string)
    requires |l| > 0
  {
    && (Has(s', l) <==> Has(s, l))
    && (One(s, l) ==> One(s', l))
    && (Dangling(s', l) <==> Dangling(s, l))
  }

  lemma InsertSame(u: string, blk: string, v: string, l: string)
    requires u == "" || EndsVisibly(u)
    requires u != "" || !Blank(v)
    requires EndsVisibly(blk) && IsLine(l) && !Has(blk, l)
    ensures SameFor(u + v, u + blk + v, l)
  {
    hide Find, OccursAt, RStrip, One, Dangling, EndsWith;
    InsertKeepsLine(u, blk, v, l);
    if One(u + v, l) { InsertKeepsOne(u, blk, v, l); }
    InsertKeepsDangling(u, blk, v, l);
  }

  lemma VisibleEnd(u: string, l: string)
    requires EndsWith(u, l) && IsLine(l)
    ensures EndsVisibly(u)
  {
    assert u[|u| - 1] == u[|u| - |l|..][|l| - 1];
    assert u[|u| - 2] == u[|u| - |l|..][|l| - 2];
  }

  lemma NotBoth(u: string, x: string, y: string)
    requires IsLine(x) && IsLine(y) && Differ(x, y) && EndsWith(u, x)
    ensures !EndsWith(u, y)
  {
    assert u[|u| - 2] == u[|u| - |x|..][|x| - 2] && u[|u| - 3] == u[|u| - |x|..][|x| - 3];
    if |y| <= |u| {
      assert u[|u| - 2] == u[|u| - |y|..][|y| - 2] && u[|u| - 3] == u[|u| - |y|..][|y| - 3];
    }
  }

  /** The insertion after an anchor, as a cut of the text. */
  lemma InsertAfterCut(s: string, anchor: string, block: string) returns (u: string, v: string)
    requires Has(s, anchor) && !Has(s, anchor + block)
    ensures s == u + v && InsertAfter(s, anchor, block) == u + block + v
    ensures EndsWith(u, anchor) && Has(u + block + v, anchor + block)
  {
    hide Find;
    var i := Find(s, anchor, 0);
    u, v := s[..i + |anchor|], s[i + |anchor|..];
    assert u == s[..i] + anchor;
    OccursInContext(s[..i], anchor + block, v, anchor + block, 0);
    assert s[..i] + (anchor + block) + v == u + block + v;
  }

  lemma GuardHasNo(b: Blocks, l: string)
    requires b.Valid() && IsLine(l) && Differ(l, b.recover) && Differ(l, b.preflight)
    ensures !Has(b.Guard(), l) && EndsVisibly(b.Guard())
  {
    DifferentLines(b.recover, l);
    DifferentLines(b.preflight, l);
    NoneInTwo(b.recover, b.preflight, l);
  }

  lemma GuardStep(b: Blocks, s: string, l: string)
    requires b.Valid() && Has(s, b.marker)
    requires l in {b.marker, b.reinstall, b.abort, b.callbacks}
    ensures var s1 := InsertAfter(s, b.marker, b.Guard());
            Has(s1, b.marker + b.Guard()) && SameFor(s, s1, l)
  {
    hide Find, OccursAt, RStrip, One, Dangling, EndsWith;
    if !Has(s, b.marker + b.Guard()) {
      var u, v := InsertAfterCut(s, b.marker, b.Guard());
      VisibleEnd(u, b.marker);
      GuardHasNo(b, l);
      InsertSame(u, b.Guard(), v, l);
    }
  }

  lemma SkipStep(b: Blocks, s: string, l: string)
    requires b.Valid() && Has(s, b.marker + b.Guard())
    requires l in {b.marker, b.reinstall, b.abort, b.callbacks}
    ensures var s1 := InsertAfter(s, b.reinstall, b.skip);
            && Has(s1, b.marker + b.Guard()) && SameFor(s, s1, l)
            && (Has(s1, b.reinstall) ==> Has(s1, b.reinstall + b.skip))
  {
    hide Find, OccursAt, RStrip, One, Dangling, EndsWith;
    if Has(s, b.reinstall) && !Has(s, b.reinstall + b.skip) {
      var u, v := InsertAfterCut(s, b.reinstall, b.skip);
      VisibleEnd(u, b.reinstall);
      DifferentLines(b.skip, l);
      InsertSame(u, b.skip, v, l);
      NotBoth(u, b.reinstall, b.marker);
      NotBoth(u, b.reinstall, b.recover);
      assert b.marker + b.Guard() == b.marker + b.recover + b.preflight;
      InsertKeepsThree(u, b.skip, v, b.marker, b.recover, b.preflight);
    }
  }

  lemma HasVisible(s: string, l: string)
    requires Has(s, l) && EndsVisibly(l)
    ensures !Blank(s)
  {
    var i :| OccursAt(s, l, i);
    OccursChar(s, l, i, |l| - 2);
  }

  lemma PrependKeeps(a: string, s: string, pat: string)
    requires Has(s, pat)
    ensures Has(a + s, pat)
  {
    var i :| OccursAt(s, pat, i);
    OccursInContext(a, s, "", pat, i);
    assert a + s + "" == a + s;
  }

  lemma AbortStepPatterns(b: Blocks, s: string)
    requires b.Valid() && Has(s, b.marker + b.Guard())
    ensures Has(WithAbort(b, s), b.marker + b.Guard()) && Has(WithAbort(b, s), b.abort)
    ensures Has(s, b.reinstall + b.skip) ==> Has(WithAbort(b, s), b.reinstall + b.skip)
  {
    hide Find, OccursAt, RStrip, One, Dangling, EndsWith;
    if !Has(s, b.abort) {
      PrependKeeps(b.abort, s, b.marker + b.Guard());
      if Has(s, b.reinstall + b.skip) { PrependKeeps(b.abort, s, b.reinstall + b.skip); }
      OccursInContext("", b.abort, s, b.abort, 0);
      assert "" + b.abort + s == b.abort + s;
    }
  }

  lemma AbortStep(b: Blocks, s: string, l: string)
    requires b.Valid() && !Blank(s)
    requires l in {b.marker, b.reinstall, b.callbacks}
    ensures SameFor(s, WithAbort(b, s), l)
  {
    hide Find, OccursAt, RStrip, One, Dangling, EndsWith;
    if !Has(s, b.abort) {
      DifferentLines(b.abort, l);
      InsertSame("", b.abort, s, l);
      assert "" + b.abort + s == b.abort + s && "" + s == s;
    }
  }

  /** The text just before the callbacks are appended. */
  function Inserted(b: Blocks, body: string): string
  {
    WithAbort(b, InsertAfter(InsertAfter(body, b.marker, b.Guard()), b.reinstall, b.skip))
  }

  lemma InsertedLine(b: Blocks, body: string, l: string)
    requires b.Valid() && Has(body, b.marker) && l in {b.marker, b.reinstall, b.callbacks}
    ensures SameFor(body, Inserted(b, body), l)
  {
    hide Find, OccursAt, RStrip, One, Dangling, EndsWith, InsertAfter, WithAbort;
    var s1 := InsertAfter(body, b.marker, b.Guard());
    var s2 := InsertAfter(s1, b.reinstall, b.skip);
    GuardStep(b, body, l);
    SkipStep(b, s1, l);
    HasVisible(s2, b.marker + b.Guard());
    AbortStep(b, s2, l);
  }

  lemma InsertedPatterns(b: Blocks, body: string)
    requires b.Valid() && Has(body, b.marker)
    ensures Has(Inserted(b, body), b.marker + b.Guard()) && Has(Inserted(b, body), b.abort)
    ensures Has(Inserted(b, body), b.reinstall) ==> Has(Inserted(b, body), b.reinstall + b.skip)
  {
    hide Find, OccursAt, RStrip, One, Dangling, EndsWith, InsertAfter, WithAbort;
    var s1 := InsertAfter(body, b.marker, b.Guard());
    var s2 := InsertAfter(s1, b.reinstall, b.skip);
    GuardStep(b, body, b.reinstall);
    SkipStep(b, s1, b.reinstall);
    AbortStepPatterns(b, s2);
    HasVisible(s2, b.marker + b.Guard());
    AbortStep(b, s2, b.reinstall);
  }

  // ---- The appended callbacks ----

  lemma AppendedHas(s: string, last: string, pat: string)
    requires EndsVisibly(pat) && Has(s, pat)
    ensures Has(RStrip(s) + "\n\n" + last, pat)
  {
    var i :| OccursAt(s, pat, i);
    AppendKeeps(s, last, pat, i);
  }

  /** After the append a line is unique if it was, and was not left dangling. */
  lemma AppendedOne(s: string, last: string, l: string)
    requires IsLine(l) && IsLine(last) && !Has(last, l) && One(s, l)
    ensures One(RStrip(s) + "\n\n" + last, l) <==> !Dangling(s, l)
  {
    hide Find, RStrip;
    var y, d := RStrip(s) + "\n\n" + last, |RStrip(s)| + 1 - |l|;
    var i :| OneAt(s, l, i);
    forall j
      ensures OccursAt(y, l, j) <==> j == i || (Dangling(s, l) && j == d)
    {
      AppendOccurrence(s, last, l, j);
    }
    if Dangling(s, l) {
      NotAlready(s, l);
      assert OccursAt(y, l, i) && OccursAt(y, l, d) && d != i;
    } else {
      assert OneAt(y, l, i);
    }
  }

  lemma NotAlready(s: string, l: string)
    requires IsLine(l) && Dangling(s, l)
    ensures !OccursAt(s, l, |RStrip(s)| + 1 - |l|)
  {
    var d := |RStrip(s)| + 1 - |l|;
    if OccursAt(s, l, d) { OccursChar(s, l, d, |l| - 1); }
  }

  /** A header that the append completes has no skip line after it. */
  lemma AppendedHeader(b: Blocks, s: string)
    requires b.Valid() && !Has(s, b.reinstall)
    ensures Has(RStrip(s) + "\n\n" + b.callbacks, b.reinstall) <==> Dangling(s, b.reinstall)
    ensures !Has(RStrip(s) + "\n\n" + b.callbacks, b.reinstall + b.skip)
  {
    hide Find, RStrip;
    var y, d := RStrip(s) + "\n\n" + b.callbacks, |RStrip(s)| + 1 - |b.reinstall|;
    DifferentLines(b.callbacks, b.reinstall);
    forall i
      ensures OccursAt(y, b.reinstall, i) <==> Dangling(s, b.reinstall) && i == d
      ensures !OccursAt(y, b.reinstall + b.skip, i)
    {
      AppendOccurrence(s, b.callbacks, b.reinstall, i);
      if OccursAt(y, b.reinstall + b.skip, i) {
        assert y[i..i + |b.reinstall|] == y[i..i + |b.reinstall + b.skip|][..|b.reinstall|];
        OccursChar(y, b.reinstall + b.skip, i, |b.reinstall|);
      }
    }
    if Dangling(s, b.reinstall) { assert OccursAt(y, b.reinstall, d); }
  }

  // ---- Running it again ----

  /** What a caller can check on the original script: the callbacks are not in it yet and
      its visible text stops at an entry-point header that lacks its newline. */
  ghost predicate OnInitLeftOpen(b: Blocks, body: string)
    requires b.Valid()
  {
    !Has(body, b.callbacks) && Dangling(body, b.marker)
  }

  ghost predicate ReinstallLeftOpen(b: Blocks, body: string)
    requires b.Valid()
  {
    !Has(body, b.callbacks) && Dangling(body, b.reinstall) && !Has(body, b.reinstall)
  }

  /** A text that has every block is rewritten only where a reinstall page lacks its skip. */
  lemma RewriteComplete(b: Blocks, s: string)
    requires b.Valid() && Has(s, b.marker + b.Guard()) && Has(s, b.abort) && Has(s, b.callbacks)
    ensures Rewrite(b, s) == s <==> (Has(s, b.reinstall) ==> Has(s, b.reinstall + b.skip))
  {
    hide Find, OccursAt, RStrip, One, Dangling, EndsWith;
    assert InsertAfter(s, b.marker, b.Guard()) == s;
    if Has(s, b.reinstall) && !Has(s, b.reinstall + b.skip) {
      var u, v := InsertAfterCut(s, b.reinstall, b.skip);
      assert |InsertAfter(s, b.reinstall, b.skip)| > |s|;
      AtLeastAsLong(b, s);
    }
  }

  lemma AtLeastAsLong(b: Blocks, s: string)
    requires b.Valid() && Has(s, b.abort) && Has(s, b.callbacks) && Has(s, b.marker + b.Guard())
    ensures Rewrite(b, s) == InsertAfter(s, b.reinstall, b.skip)
  {
    hide Find, OccursAt, RStrip, One, Dangling, EndsWith;
    SkipStep(b, s, b.abort);
    SkipStep(b, s, b.callbacks);
  }

  /** Everything the second run looks at, in terms of the original text. */
  lemma RewrittenText(b: Blocks, body: string)
    requires b.Valid() && One(body, b.marker)
    ensures var out := Rewrite(b, body);
            && Has(out, b.marker + (b.recover + b.preflight)) && Has(out, b.abort) && Has(out, b.callbacks)
            && (One(out, b.marker) <==> !OnInitLeftOpen(b, body))
            && ((Has(out, b.reinstall) && !Has(out, b.reinstall + b.skip)) <==> ReinstallLeftOpen(b, body))
  {
    hide Find, OccursAt, RStrip, Dangling, EndsWith, InsertAfter, WithAbort;
    var s := Inserted(b, body);
    InsertedLine(b, body, b.marker);
    InsertedLine(b, body, b.reinstall);
    InsertedLine(b, body, b.callbacks);
    InsertedPatterns(b, body);
    if !Has(s, b.callbacks) { CallbacksStep(b, s); }
  }

  /** Callbacks that were missing are appended behind one blank line, in place of whatever white
      space the text ended in. */
  lemma AppendedBehindBlankLine(b: Blocks, body: string) returns (head: string)
    requires b.Valid() && One(body, b.marker) && !Has(body, b.callbacks)
    ensures Rewrite(b, body) == head + "\n\n" + b.callbacks
    ensures head != "" && !IsSpace(head[|head| - 1])
  {
    hide Find, OccursAt, Dangling, EndsWith, InsertAfter, WithAbort, IsSpace, RStrip;
    var s := Inserted(b, body);
    InsertedLine(b, body, b.callbacks);
    InsertedPatterns(b, body);
    HasVisible(s, b.abort);
    head := RStrip(s);
  }

  lemma CallbacksStep(b: Blocks, s: string)
    requires b.Valid() && One(s, b.marker) && Has(s, b.marker + b.Guard()) && Has(s, b.abort)
    requires Has(s, b.reinstall) ==> Has(s, b.reinstall + b.skip)
    ensures var out := RStrip(s) + "\n\n" + b.callbacks;
            && Has(out, b.marker + b.Guard()) && Has(out, b.abort) && Has(out, b.callbacks)
            && (One(out, b.marker) <==> !Dangling(s, b.marker))
            && ((Has(out, b.reinstall) && !Has(out, b.reinstall + b.skip)) <==>
                (Dangling(s, b.reinstall) && !Has(s, b.reinstall)))
  {
    hide Find, OccursAt, RStrip, One, Dangling, EndsWith;
    AppendedHas(s, b.callbacks, b.marker + b.Guard());
    AppendedHas(s, b.callbacks, b.abort);
    PrependKeeps(RStrip(s) + "\n\n", b.callbacks, b.callbacks) by {
      assert OccursAt(b.callbacks, b.callbacks, 0) by { OccursByChars(b.callbacks, b.callbacks, 0); }
    }
    DifferentLines(b.callbacks, b.marker);
    AppendedOne(s, b.callbacks, b.marker);
    if Has(s, b.reinstall) {
      AppendedHas(s, b.callbacks, b.reinstall + b.skip);
    } else {
      AppendedHeader(b, s);
    }
  }

  /** Exactly the scripts with one entry point are rewritten, and a byte-order mark in front
      makes no difference but for being there. */
  lemma AcceptedExactly(b: Blocks, body: string)
    requires b.Valid()
    ensures AddPreflight(b, [BOM] + body).Ok? <==> One(body, b.marker)
    ensures BomOf(body) == "" ==>
              && (AddPreflight(b, body).Ok? <==> One(body, b.marker))
              && (One(body, b.marker) ==>
                    AddPreflight(b, [BOM] + body).script == [BOM] + AddPreflight(b, body).script)
  {
    hide Find, OccursAt, One, Count, Rewrite;
    assert ([BOM] + body)[1..] == body && body[0..] == body;
    CountOne(body, b.marker);
  }

  lemma PreflightAcceptsExactly(body: string)
    ensures AddNsisVersionPreflight([BOM] + body).Ok? <==> One(body, NSIS.marker)
    ensures BomOf(body) == "" ==>
              && (AddNsisVersionPreflight(body).Ok? <==> One(body, NSIS.marker))
              && (One(body, NSIS.marker) ==>
                    AddNsisVersionPreflight([BOM] + body).script == [BOM] + AddNsisVersionPreflight(body).script)
  {
    hide Find, OccursAt, One, Count, Rewrite, AddPreflight;
    NsisBlocksAreValid();
    AcceptedExactly(NSIS, body);
  }

  /** The byte-order mark, if any, stays the first character, and nothing else becomes one. */
  lemma BomStays(b: Blocks, script: string)
    requires b.Valid() && AddPreflight(b, script).Ok?
    ensures var out, bom := AddPreflight(b, script).script, BomOf(script);
            BomOf(out) == bom && out[|bom|..] == Rewrite(b, script[|bom|..])
  {
    hide Find, OccursAt, RStrip, One, Dangling, EndsWith, WithCallbacks;
    var bom := BomOf(script);
    var body := script[|bom|..];
    CountOne(body, b.marker);
    FirstCharacter(b, body);
  }

  lemma FirstCharacter(b: Blocks, body: string)
    requires b.Valid() && One(body, b.marker)
    ensures body != "" && Rewrite(b, body) != ""
    ensures Rewrite(b, body)[0] in {body[0], b.abort[0]}
  {
    hide Find, RStrip, Dangling, EndsWith;
    var s1 := InsertAfter(body, b.marker, b.Guard());
    InsertAfterFirst(body, b.marker, b.Guard());
    InsertAfterFirst(s1, b.reinstall, b.skip);
    var s := Inserted(b, body);
    InsertedPatterns(b, body);
    HasVisible(s, b.abort);
  }

  lemma InsertAfterFirst(s: string, anchor: string, block: string)
    requires anchor != "" && s != ""
    ensures InsertAfter(s, anchor, block) != "" && InsertAfter(s, anchor, block)[0] == s[0]
  {
    hide Find, OccursAt;
    if Has(s, anchor) && !Has(s, anchor + block) {
      var u, v := InsertAfterCut(s, anchor, block);
      assert |u| > 0;
    }
  }

  /** Running the rewriting on its own output changes nothing exactly when the original
      left no header open; it refuses exactly when the open header is `.onInit`. */
  lemma RunAgain(b: Blocks, script: string)
    requires b.Valid() && AddPreflight(b, script).Ok?
    ensures var out, body := AddPreflight(b, script).script, script[|BomOf(script)|..];
            && (AddPreflight(b, out) == Ok(out) <==> !OnInitLeftOpen(b, body) && !ReinstallLeftOpen(b, body))
            && (AddPreflight(b, out) == EntrypointChanged <==> OnInitLeftOpen(b, body))
  {
    hide Find, OccursAt, RStrip, One, Dangling, EndsWith, Rewrite;
    var bom := BomOf(script);
    var body := script[|bom|..];
    var out := AddPreflight(b, script).script;
    CountOne(body, b.marker);
    BomStays(b, script);
    RewrittenText(b, body);
    CountOne(out[|bom|..], b.marker);
    RewriteComplete(b, out[|bom|..]);
    assert out == bom + out[|bom|..];
  }

  /** Whatever the original, a second success is final. */
  lemma SecondRunIsFinal(b: Blocks, script: string)
    requires b.Valid() && AddPreflight(b, script).Ok?
    requires AddPreflight(b, AddPreflight(b, script).script).Ok?
    ensures var twice := AddPreflight(b, AddPreflight(b, script).script);
            AddPreflight(b, twice.script) == twice
  {
    hide Find, OccursAt, RStrip, One, Dangling, EndsWith, Rewrite;
    var out := AddPreflight(b, script).script;
    var body := script[|BomOf(script)|..];
    CountOne(body, b.marker);
    RewrittenText(b, body);
    BomStays(b, script);
    RunAgain(b, out);
  }

  /** The same for the program's own text. */
  lemma PreflightIsRerunnable(script: string)
    requires AddNsisVersionPreflight(script).Ok?
    ensures NSIS.Valid()
    ensures var out, body := AddNsisVersionPreflight(script).script, script[|BomOf(script)|..];
            && (AddNsisVersionPreflight(out) == Ok(out) <==>
                !OnInitLeftOpen(NSIS, body) && !ReinstallLeftOpen(NSIS, body))
            && (AddNsisVersionPreflight(out) == EntrypointChanged <==> OnInitLeftOpen(NSIS, body))
  {
    hide Find, OccursAt, RStrip, One, Dangling, EndsWith, Rewrite, AddPreflight;
    NsisBlocksAreValid();
    RunAgain(NSIS, script);
  }

  /** A complete entry point, and then a bare header. */
  ghost function EndingIn(b: Blocks, header: string): string
    requires header != ""
  {
    b.marker + header[..|header| - 1]
  }

  lemma LineThenHeader(m: string, h: string)
    requires IsLine(m) && forall i :: 0 <= i < |h| ==> h[i] != '\n'
    ensures One(m + h, m)
  {
    hide Find, OccursAt;
    HeaderHasNoLine(h, m);
    OccursByChars(m, m, 0);
    forall i
      ensures OccursAt(m + h, m, i) <==> i == 0
    {
      Cut(m, h, m, i);
      if OccursAt(m, m, i) { WithinText(m, m, i); }
    }
    assert OneAt(m + h, m, 0);
  }

  lemma HeaderDangles(a: string, l: string)
    requires IsLine(l)
    ensures Dangling(a + l[..|l| - 1], l)
  {
    hide RStrip, EndsWith;
    var h := l[..|l| - 1];
    RStripUnique(a + h, a + h);
    EndsWithWhole(a, h);
  }

  lemma OpenHeader(b: Blocks, l: string)
    requires b.Valid() && l in {b.marker, b.reinstall}
    ensures var body := EndingIn(b, l);
            One(body, b.marker) && !Has(body, b.callbacks) && Dangling(body, l)
  {
    hide Find, OccursAt, EndsWith, One, Dangling;
    var m, h := b.marker, l[..|l| - 1];
    LineThenHeader(m, h);
    HeaderDangles(m, l);
    HeaderHasNoLine(h, b.callbacks);
    DifferentLines(m, b.callbacks);
    NoneInTwo(m, h, b.callbacks);
  }

  /** Scripts of both failing kinds exist. */
  lemma OnInitCanBeLeftOpen(b: Blocks)
    requires b.Valid()
    ensures One(EndingIn(b, b.marker), b.marker) && OnInitLeftOpen(b, EndingIn(b, b.marker))
  {
    hide Find, OccursAt, EndsWith, Dangling;
    OpenHeader(b, b.marker);
  }

  lemma ReinstallCanBeLeftOpen(b: Blocks)
    requires b.Valid()
    ensures var body := EndingIn(b, b.reinstall);
            One(body, b.marker) && ReinstallLeftOpen(b, body) && !OnInitLeftOpen(b, body)
  {
    hide Find, OccursAt, EndsWith, Dangling;
    var m, h := b.marker, b.reinstall[..|b.reinstall| - 1];
    OpenHeader(b, b.reinstall);
    HeaderHasNoLine(h, b.reinstall);
    DifferentLines(m, b.reinstall);
    NoneInTwo(m, h, b.reinstall);
    DanglingIsOne(m + h, b.reinstall, m);
  }

  /** A text does not stop at two different headers. */
  lemma DanglingIsOne(s: string, x: string, y: string)
    requires IsLine(x) && IsLine(y) && Differ(y, x) && Dangling(s, x)
    ensures !Dangling(s, y)
  {
    hide RStrip;
    var t := RStrip(s);
    assert t[|t| - (|x| - 1)..][|x| - 2] == t[|t| - 1] && t[|t| - (|x| - 1)..][|x| - 3] == t[|t| - 2];
    if |y| - 1 <= |t| {
      assert t[|t| - (|y| - 1)..][|y| - 2] == t[|t| - 1] && t[|t| - (|y| - 1)..][|y| - 3] == t[|t| - 2];
    }
  }

  lemma NoMarkInFront(header: string)
    requires header != ""
    ensures BomOf(EndingIn(NSIS, header)) == ""
  {
    assert NSIS.marker[0] == 'F';
  }

  /** On the program's own text: a script that ends in a bare `.onInit` header is accepted, and
      what comes out is refused. */
  lemma SecondRunCanRefuse()
    ensures var once := AddNsisVersionPreflight(EndingIn(NSIS, NSIS.marker));
            once.Ok? && AddNsisVersionPreflight(once.script) == EntrypointChanged
  {
    hide Find, OccursAt, RStrip, One, Dangling, EndsWith, Rewrite, EndingIn, Count;
    var script := EndingIn(NSIS, NSIS.marker);
    NsisBlocksAreValid();
    OnInitCanBeLeftOpen(NSIS);
    NoMarkInFront(NSIS.marker);
    assert script[0..] == script;
    CountOne(script, NSIS.marker);
    RunAgain(NSIS, script);
  }

  /** One that ends in a bare reinstall header is accepted twice, and changed twice. */
  lemma SecondRunCanChange()
    ensures var once := AddNsisVersionPreflight(EndingIn(NSIS, NSIS.reinstall));
            && once.Ok? && AddNsisVersionPreflight(once.script).Ok?
            && AddNsisVersionPreflight(once.script) != once
  {
    hide Find, OccursAt, RStrip, One, Dangling, EndsWith, Rewrite, EndingIn, Count;
    var script := EndingIn(NSIS, NSIS.reinstall);
    NsisBlocksAreValid();
    ReinstallCanBeLeftOpen(NSIS);
    NoMarkInFront(NSIS.reinstall);
    assert script[0..] == script;
    CountOne(script, NSIS.marker);
    RunAgain(NSIS, script);
  }

  lemma WithinText(s: string, l: string, i: int)
    requires OccursAt(s, l, i)
    ensures 0 <= i <= |s| - |l|
  {
  }

  lemma EndsWithWhole(a: string, h: string)
    ensures EndsWith(a + h, h)
  {
    assert (a + h)[|a + h| - |h|..] == h;
  }

  lemma HeaderHasNoLine(h: string, l: string)
    requires IsLine(l) && forall i :: 0 <= i < |h| ==> h[i] != '\n'
    ensures !Has(h, l)
  {
    forall i
      ensures !OccursAt(h, l, i)
    {
      if OccursAt(h, l, i) { OccursChar(h, l, i, |l| - 1); }
    }
  }

  // ---- What the rewriting adds ----

  /** A text cut at the blocks that were put into it. */
  datatype Parts = Parts(before: string, p0: string, x: string, p1: string, z: string, p2: string, after: string)
  {
    function Whole(): string { before + p0 + x + p1 + z + p2 + after }
    function Kept(): string { p0 + p1 + p2 }
  }

  ghost predicate AllowedBlocks(b: Blocks, x: string, z: string)
  {
    x == "" || (x == b.Guard() && z == b.skip) || (x == b.skip && z == b.Guard())
  }

  lemma AfterTwoInsertions(b: Blocks, body: string) returns (d: Parts)
    requires b.Valid() && One(body, b.marker)
    ensures InsertAfter(InsertAfter(body, b.marker, b.Guard()), b.reinstall, b.skip) == d.Whole()
    ensures d.before == "" && d.after == "" && d.Kept() == body
    ensures AllowedBlocks(b, d.x, d.z) && d.z in {"", b.Guard(), b.skip}
  {
    hide Find, OccursAt, RStrip, One, Dangling, EndsWith;
    var s1 := InsertAfter(body, b.marker, b.Guard());
    if s1 == body {
      if InsertAfter(body, b.reinstall, b.skip) == body {
        d := Parts("", "", "", "", "", body, "");
      } else {
        var u, v := InsertAfterCut(body, b.reinstall, b.skip);
        d := Parts("", "", "", u, b.skip, v, "");
      }
    } else {
      var u, v := InsertAfterCut(body, b.marker, b.Guard());
      if InsertAfter(s1, b.reinstall, b.skip) == s1 {
        d := Parts("", "", "", u, b.Guard(), v, "");
      } else {
        d := SecondInsertion(b, u, v);
      }
    }
  }

  /** The skip line goes in before the guard or behind it, never into it. */
  lemma SkipOutsideGuard(b: Blocks, u: string, v: string) returns (u2: string, v2: string)
    requires b.Valid() && EndsWith(u, b.marker)
    requires var s := u + b.Guard() + v; Has(s, b.reinstall) && !Has(s, b.reinstall + b.skip)
    ensures u + b.Guard() + v == u2 + v2
    ensures InsertAfter(u + b.Guard() + v, b.reinstall, b.skip) == u2 + b.skip + v2
    ensures |u2| <= |u| || |u2| >= |u| + |b.Guard()|
  {
    hide Find, RStrip, One, Dangling;
    var s := u + b.Guard() + v;
    u2, v2 := InsertAfterCut(s, b.reinstall, b.skip);
    var i := |u2| - |b.reinstall|;
    assert OccursAt(s, b.reinstall, i) by { assert s[i..i + |b.reinstall|] == u2[i..]; }
    VisibleEnd(u, b.marker);
    GuardHasNo(b, b.reinstall);
    InsertedOccurrence(u, b.Guard(), v, b.reinstall, i);
  }

  lemma CutBefore(u: string, g: string, v: string, k: nat)
    requires k <= |u|
    ensures (u + g + v)[..k] == u[..k] && (u + g + v)[k..] == u[k..] + g + v
  {
  }

  lemma CutBehind(u: string, g: string, v: string, k: nat)
    requires |u| + |g| <= k <= |u| + |g| + |v|
    ensures (u + g + v)[..k] == u + g + v[..k - |u| - |g|] && (u + g + v)[k..] == v[k - |u| - |g|..]
  {
  }

  lemma Associate(a: string, c: string, d: string, e: string, f: string)
    ensures a + c + (d + e + f) == "" + a + c + d + e + f + ""
    ensures a + c + d + e + f == "" + a + c + d + e + f + ""
  {
  }

  lemma SecondInsertion(b: Blocks, u: string, v: string) returns (d: Parts)
    requires b.Valid() && EndsWith(u, b.marker)
    requires var s := u + b.Guard() + v; Has(s, b.reinstall) && !Has(s, b.reinstall + b.skip)
    ensures InsertAfter(u + b.Guard() + v, b.reinstall, b.skip) == d.Whole()
    ensures d.before == "" && d.after == "" && d.Kept() == u + v
    ensures AllowedBlocks(b, d.x, d.z) && d.z in {b.Guard(), b.skip}
  {
    hide Find, OccursAt, RStrip, One, Dangling, EndsWith, Blocks.Valid, InsertAfter, Has;
    var g := b.Guard();
    var u2, v2 := SkipOutsideGuard(b, u, v);
    var k := |u2|;
    assert (u + g + v)[..k] == u2 && (u + g + v)[k..] == v2;
    if k <= |u| {
      CutBefore(u, g, v, k);
      Associate(u2, b.skip, u[k..], g, v);
      d := Parts("", u2, b.skip, u[k..], g, v, "");
    } else {
      var j := k - |u| - |g|;
      CutBehind(u, g, v, k);
      Associate(u, g, v[..j], b.skip, v2);
      d := Parts("", u, g, v[..j], b.skip, v2, "");
      assert d.Kept() == u + v;
    }
  }

  /** Replacing trailing white space, seen behind the last inserted block. */
  function StripTail(v: string): string
  {
    if RStrip(v) == "" then "\n" else RStrip(v) + "\n\n"
  }

  lemma StripBehind(pre: string, v: string)
    requires EndsVisibly(pre) || !Blank(v)
    ensures RStrip(pre + v) + "\n\n" == pre + StripTail(v)
  {
    hide RStrip;
    RStripConcat(pre, v);
    VisibleStrip(v);
    if Blank(v) {
      RStripVisible(pre);
      assert pre[..|pre| - 1] + "\n\n" == pre + "\n";
    }
  }

  lemma StripTailKeeps(q: string, v: string)
    ensures RStrip(q + StripTail(v)) == RStrip(q + v)
  {
    hide RStrip, IsSpace, Blank;
    NewlinesAreBlank();
    RStripConcat(q, v);
    VisibleStrip(v);
    if Blank(v) {
      RStripConcat(q, "\n");
    } else {
      var w := q + RStrip(v);
      RStripConcat(w, "\n\n");
      assert w + "\n\n" == q + StripTail(v);
      StripStripped(w);
    }
  }

  lemma NewlinesAreBlank()
    ensures Blank("\n") && Blank("\n\n")
  {
  }

  lemma StripStripped(w: string)
    requires w != "" && !IsSpace(w[|w| - 1])
    ensures RStrip(w) == w
  {
  }

  lemma VisibleStrip(v: string)
    ensures RStrip(v) == "" <==> Blank(v)
    ensures RStrip(v) != "" ==> !IsSpace(RStrip(v)[|RStrip(v)| - 1])
  {
    hide IsSpace;
  }

  /** Deleting the inserted blocks gives back the original text: exactly, when nothing was
      appended, and up to trailing white space otherwise. */
  lemma DeletingBlocksRestores(b: Blocks, body: string) returns (d: Parts)
    requires b.Valid() && One(body, b.marker)
    ensures Rewrite(b, body) == d.Whole()
    ensures d.before in {"", b.abort} && d.after in {"", b.callbacks}
    ensures AllowedBlocks(b, d.x, d.z) && d.z in {"", b.Guard(), b.skip}
    ensures RStrip(d.Kept()) == RStrip(body)
    ensures d.after == "" ==> d.Kept() == body
  {
    hide Find, OccursAt, RStrip, Dangling, EndsWith, InsertAfter, Parts.Whole, Parts.Kept, IsSpace, AllowedBlocks;
    d := AfterTwoInsertions(b, body);
    var s2 := d.Whole();
    if WithAbort(b, s2) != s2 {
      PrependParts(d, b.abort);
      d := d.(before := b.abort);
    }
    assert d.Whole() == Inserted(b, body) && d.Kept() == body;
    if !Has(d.Whole(), b.callbacks) {
      HasVisible(body, b.marker);
      d := AppendParts(b, d);
    }
  }

  lemma PrependParts(d: Parts, a: string)
    requires d.before == ""
    ensures d.(before := a).Whole() == a + d.Whole() && d.(before := a).Kept() == d.Kept()
  {
  }

  lemma VisibleEndOf(a: string, z: string)
    requires EndsVisibly(z)
    ensures EndsVisibly(a + z)
  {
  }

  lemma BlockEndsVisibly(b: Blocks, z: string)
    requires b.Valid() && z in {b.Guard(), b.skip}
    ensures z != "" && EndsVisibly(z)
  {
  }

  /** Regrouping a text cut into parts. */
  lemma PartsRegroup(d: Parts)
    ensures d.after == "" ==> d.Whole() == (d.before + d.p0 + d.x + d.p1 + d.z) + d.p2
    ensures d.Kept() == (d.p0 + d.p1) + d.p2
    ensures d.x == "" && d.z == "" && d.after == "" ==> d.Whole() == d.before + d.Kept()
  {
  }

  lemma AppendParts(b: Blocks, d: Parts) returns (e: Parts)
    requires b.Valid() && d.after == "" && !Blank(d.Kept())
    requires AllowedBlocks(b, d.x, d.z) && d.z in {"", b.Guard(), b.skip}
    ensures RStrip(d.Whole()) + "\n\n" + b.callbacks == e.Whole()
    ensures e.before == d.before && e.after == b.callbacks
    ensures AllowedBlocks(b, e.x, e.z) && e.z in {"", b.Guard(), b.skip}
    ensures RStrip(e.Kept()) == RStrip(d.Kept())
  {
    hide *;
    if d.z == "" {
      e := AppendUncut(b, d);
    } else {
      BlockEndsVisibly(b, d.z);
      e := AppendBehind(b, d);
    }
  }

  lemma AppendUncut(b: Blocks, d: Parts) returns (e: Parts)
    requires b.Valid() && d.after == "" && !Blank(d.Kept()) && d.z == "" && AllowedBlocks(b, d.x, d.z)
    ensures RStrip(d.Whole()) + "\n\n" + b.callbacks == e.Whole()
    ensures e.before == d.before && e.after == b.callbacks && e.z == "" && AllowedBlocks(b, e.x, e.z)
    ensures RStrip(e.Kept()) == RStrip(d.Kept())
  {
    hide *;
    var k := d.Kept();
    assert d.x == "" by { EmptyBlocks(b, d.x); }
    PartsRegroup(d);
    StripBehind(d.before, k);
    StripTailKeeps("", k);
    assert "" + k == k && "" + StripTail(k) == StripTail(k);
    e := UncutParts(b, d.before, StripTail(k), b.callbacks);
  }

  lemma EmptyBlocks(b: Blocks, x: string)
    requires b.Valid() && AllowedBlocks(b, x, "")
    ensures x == ""
  {
  }

  lemma UncutParts(b: Blocks, before: string, k: string, after: string) returns (e: Parts)
    ensures e == Parts(before, "", "", "", "", k, after)
    ensures e.Whole() == before + k + after && e.Kept() == k && AllowedBlocks(b, e.x, e.z)
  {
    e := Parts(before, "", "", "", "", k, after);
  }

  lemma AppendBehind(b: Blocks, d: Parts) returns (e: Parts)
    requires b.Valid() && d.after == "" && EndsVisibly(d.z)
    ensures RStrip(d.Whole()) + "\n\n" + b.callbacks == e.Whole()
    ensures e == d.(p2 := StripTail(d.p2), after := b.callbacks)
    ensures RStrip(e.Kept()) == RStrip(d.Kept())
  {
    hide *;
    var pre := d.before + d.p0 + d.x + d.p1;
    VisibleEndOf(pre, d.z);
    PartsRegroup(d);
    StripBehind(pre + d.z, d.p2);
    StripTailKeeps(d.p0 + d.p1, d.p2);
    e := d.(p2 := StripTail(d.p2), after := b.callbacks);
    PartsRegroup(e);
    ReplaceTail(d, StripTail(d.p2), b.callbacks);
  }

  lemma ReplaceTail(d: Parts, w: string, after: string)
    ensures (d.before + d.p0 + d.x + d.p1 + d.z) + w + after == d.(p2 := w, after := after).Whole()
  {
  }
}
