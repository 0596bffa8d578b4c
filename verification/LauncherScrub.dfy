/** `_discard_retained_pe_resource_data`: overwrite with zeros every full copy of
    a stale launcher script that the executable still carries, without touching
    the one active script. */
module LauncherScrub {
  import opened Search

  type Byte = b: int | 0 <= b < 256

  datatype Outcome = Scrubbed | EmptyResource | Malformed | Overlaps | ActiveMissingOrAmbiguous

  ghost predicate Covered(offsets: seq<nat>, width: nat, k: int)
  {
    exists o :: o in offsets && o <= k < o + width
  }

  /** `file` with `width` zero bytes written at each offset. */
  ghost function Blank(file: seq<Byte>, offsets: seq<nat>, width: nat): seq<Byte>
  {
    seq(|file|, k requires 0 <= k < |file| => if Covered(offsets, width, k) then 0 else file[k])
  }

  /** What the scan and the writes do to a file that passes every check. */
  ghost function ScrubCopies(file: seq<Byte>, stale: seq<Byte>): seq<Byte>
    requires stale != []
  {
    Blank(file, Matches(file, stale, 0), |stale|)
  }

  /** The match at `o` shares a byte with the active script at `at`. */
  predicate Clash(o: int, width: nat, at: int, activeWidth: nat)
  {
    o < at + activeWidth && o + width > at
  }

  ghost predicate UniqueAt(file: seq<Byte>, active: seq<Byte>, at: int)
  {
    OccursAt(file, active, at) && forall i :: OccursAt(file, active, i) ==> i == at
  }

  ghost function Verdict(file: seq<Byte>, stale: seq<Byte>, active: seq<Byte>,
                         readable: seq<Byte> -> bool): Outcome
  {
    if stale == [] || active == [] then EmptyResource
    else if !readable(stale) || !readable(active) then Malformed
    else if stale == active then Scrubbed
    else if Has(active, stale) then Overlaps
    else if !exists at :: UniqueAt(file, active, at) then ActiveMissingOrAmbiguous
    else if exists o, at :: o in Matches(file, stale, 0) && UniqueAt(file, active, at)
                         && Clash(o, |stale|, at, |active|) then Overlaps
    else Scrubbed
  }

  class LauncherFile {
    var contents: seq<Byte>

    /** On any refusal, and when the script is already the active one, the file is
        left as it was; otherwise exactly the stale copies are zeroed. */
    method DiscardRetained(stale: seq<Byte>, active: seq<Byte>, readable: seq<Byte> -> bool)
      returns (outcome: Outcome)
      modifies this
      ensures outcome == Verdict(old(contents), stale, active, readable)
      ensures outcome == Scrubbed && stale != active ==>
                stale != [] && contents == ScrubCopies(old(contents), stale)
      ensures outcome != Scrubbed || stale == active ==> contents == old(contents)
    {
      if stale == [] || active == [] { return EmptyResource; }
      if !readable(stale) || !readable(active) { return Malformed; }
      if stale == active { return Scrubbed; }
      if Has(active, stale) { return Overlaps; }
      ghost var file := contents;
      var at := Find(contents, active, 0);
      if at < 0 || Find(contents, active, at + 1) >= 0 {
        assert !exists u :: UniqueAt(file, active, u);
        return ActiveMissingOrAmbiguous;
      }
      assert UniqueAt(file, active, at);
      var offsets, clash := Scan(contents, stale, at, |active|);
      if clash { return Overlaps; }
      if offsets != [] {
        var buffer := new Byte[|contents|](i requires 0 <= i < |contents| reads this => contents[i]);
        assert buffer[..] == file;
        MatchesAreDisjoint(file, stale, 0);
        ZeroFill(buffer, offsets, |stale|);
        contents := buffer[..];
      } else {
        assert ScrubCopies(file, stale) == file;
      }
      return Scrubbed;
    }
  }

  ghost predicate Within(k: int, at: int, width: nat) { at <= k < at + width }

  /** Some byte belongs both to a stretch of the offsets and to the one at `at`. */
  ghost predicate ShareByte(offsets: seq<nat>, width: nat, at: int, activeWidth: nat)
  {
    exists k :: Covered(offsets, width, k) && Within(k, at, activeWidth)
  }

  lemma ClashesShareByte(offsets: seq<nat>, width: nat, at: int, activeWidth: nat)
    requires width > 0 && activeWidth > 0
    ensures ShareByte(offsets, width, at, activeWidth) <==>
            exists o :: o in offsets && Clash(o, width, at, activeWidth)
  {
    if o :| o in offsets && Clash(o, width, at, activeWidth) {
      var k := if o < at then at else o;
      assert Covered(offsets, width, k) && Within(k, at, activeWidth);
    }
  }

  /** The scan: collects the non-overlapping copies, stopping at one that clashes. */
  method Scan(file: seq<Byte>, stale: seq<Byte>, at: int, activeWidth: nat)
    returns (offsets: seq<nat>, clash: bool)
    requires stale != []
    ensures clash <==> exists o :: o in Matches(file, stale, 0) && Clash(o, |stale|, at, activeWidth)
    ensures activeWidth > 0 ==> (clash <==> ShareByte(Matches(file, stale, 0), |stale|, at, activeWidth))
    ensures !clash ==> offsets == Matches(file, stale, 0)
  {
    hide Find, OccursAt, Clash, ShareByte;
    if activeWidth > 0 { ClashesShareByte(Matches(file, stale, 0), |stale|, at, activeWidth); }
    offsets := [];
    clash := false;
    var offset: int := 0;
    while true
      invariant 0 <= offset
      invariant Matches(file, stale, 0) == offsets + Matches(file, stale, offset)
      invariant forall o :: o in offsets ==> !Clash(o, |stale|, at, activeWidth)
      decreases |file| - offset
    {
      offset := Find(file, stale, offset);
      if offset < 0 { break; }
      assert offset in Matches(file, stale, 0);
      if Clash(offset, |stale|, at, activeWidth) {
        clash := true;
        return;
      }
      offsets := offsets + [offset];
      offset := offset + |stale|;
    }
  }

  lemma CoveredSnoc(offsets: seq<nat>, o: nat, width: nat, k: int)
    ensures Covered(offsets + [o], width, k) <==> Covered(offsets, width, k) || o <= k < o + width
  {
    if Covered(offsets, width, k) {
      var x :| x in offsets && x <= k < x + width;
      assert x in offsets + [o];
    }
    if o <= k < o + width { assert o in offsets + [o]; }
  }

  /** The writes, in place. */
  method ZeroFill(buffer: array<Byte>, offsets: seq<nat>, width: nat)
    requires forall k :: 0 <= k < |offsets| ==> offsets[k] + width <= buffer.Length
    modifies buffer
    ensures buffer[..] == Blank(old(buffer[..]), offsets, width)
  {
    for n := 0 to |offsets|
      invariant buffer[..] == Blank(old(buffer[..]), offsets[..n], width)
    {
      ghost var before := buffer[..];
      forall k | offsets[n] <= k < offsets[n] + width { buffer[k] := 0; }
      forall k | 0 <= k < buffer.Length
        ensures buffer[k] == Blank(old(buffer[..]), offsets[..n + 1], width)[k]
      {
        CoveredSnoc(offsets[..n], offsets[n], width, k);
        assert offsets[..n + 1] == offsets[..n] + [offsets[n]];
        assert buffer[k] == if offsets[n] <= k < offsets[n] + width then 0 else before[k];
      }
    }
    assert offsets[..|offsets|] == offsets;
  }

  // ---- What the scrub guarantees ----

  /** Nothing outside the matched copies changes, the length does not change, and the
      active script is still there, byte for byte, at the offset where it was. */
  lemma ScrubKeepsTheRest(file: seq<Byte>, stale: seq<Byte>, active: seq<Byte>,
                          readable: seq<Byte> -> bool, at: int)
    requires Verdict(file, stale, active, readable) == Scrubbed && stale != active
    requires UniqueAt(file, active, at)
    ensures |ScrubCopies(file, stale)| == |file|
    ensures OccursAt(ScrubCopies(file, stale), active, at)
    ensures forall k :: 0 <= k < |file| && !Covered(Matches(file, stale, 0), |stale|, k) ==>
              ScrubCopies(file, stale)[k] == file[k]
    ensures forall o, k :: o in Matches(file, stale, 0) && o <= k < o + |stale| && k < |file| ==>
              ScrubCopies(file, stale)[k] == 0
  {
    UntouchedStretch(file, stale, at, |active|);
  }

  lemma ScrubbedByte(file: seq<Byte>, stale: seq<Byte>, o: nat, k: int)
    requires stale != [] && o in Matches(file, stale, 0) && o <= k < o + |stale| && k < |file|
    ensures ScrubCopies(file, stale)[k] == 0
  {
    assert Covered(Matches(file, stale, 0), |stale|, k);
  }

  lemma OldPlaceCleared(file: seq<Byte>, stale: seq<Byte>, p: int)
    requires stale != [] && (stale[0] != 0 || stale[|stale| - 1] != 0)
    requires OccursAt(file, stale, p)
    ensures !OccursAt(ScrubCopies(file, stale), stale, p)
  {
    var o := OccurrencesBeginInMatches(file, stale, 0, p);
    MatchesAreDisjoint(file, stale, 0);
    // the first byte of the occurrence at p, and the last byte of the copy at o
    ScrubbedByte(file, stale, o, p);
    ScrubbedByte(file, stale, o, o + |stale| - 1);
    TwoZeros(file, ScrubCopies(file, stale), stale, o, p);
  }

  lemma TwoZeros(file: seq<Byte>, result: seq<Byte>, stale: seq<Byte>, o: int, p: int)
    requires stale != [] && (stale[0] != 0 || stale[|stale| - 1] != 0)
    requires OccursAt(file, stale, o) && OccursAt(file, stale, p) && o <= p < o + |stale|
    requires |result| == |file| && result[p] == 0 && result[o + |stale| - 1] == 0
    ensures !OccursAt(result, stale, p)
  {
    var m, k := |stale|, o + |stale| - 1;
    assert result[p..p + m][0] == 0 && result[p..p + m][k - p] == 0;
    assert file[k] == file[p..p + m][k - p] == stale[k - p];
    assert file[k] == file[o..o + m][m - 1];
  }

  lemma NoCopyLeft(file: seq<Byte>, stale: seq<Byte>, p: int)
    requires stale != [] && stale[0] != 0 && stale[|stale| - 1] != 0
    ensures !OccursAt(ScrubCopies(file, stale), stale, p)
  {
    var result, m := ScrubCopies(file, stale), |stale|;
    if OccursAt(file, stale, p) {
      OldPlaceCleared(file, stale, p);
    } else if 0 <= p && p + m <= |file| {
      if o: nat :| o in Matches(file, stale, 0) && Clash(o, m, p, m) {
        MatchesAreDisjoint(file, stale, 0);
        if o <= p { ScrubbedByte(file, stale, o, p); } else { ScrubbedByte(file, stale, o, p + m - 1); }
        assert result[p..p + m][0] == 0 || result[p..p + m][m - 1] == 0;
      } else {
        UntouchedStretch(file, stale, p, m);
      }
    }
  }

  lemma UntouchedStretch(file: seq<Byte>, stale: seq<Byte>, p: nat, width: nat)
    requires stale != [] && p + width <= |file|
    requires forall o :: o in Matches(file, stale, 0) ==> !Clash(o, |stale|, p, width)
    ensures ScrubCopies(file, stale)[p..p + width] == file[p..p + width]
  {
    forall k | p <= k < p + width
      ensures ScrubCopies(file, stale)[k] == file[k]
    {
      forall o | o in Matches(file, stale, 0)
        ensures !(o <= k < o + |stale|)
      {
        assert !Clash(o, |stale|, p, width);
      }
    }
  }

  /** A file with a second copy that shares one byte with the first. */
  ghost function Overlapped(stale: seq<Byte>): seq<Byte>
    requires stale != []
  {
    stale + stale[1..]
  }

  lemma ScrubOverlapped(stale: seq<Byte>)
    requires stale != []
    ensures Matches(Overlapped(stale), stale, 0) == [0]
    ensures |ScrubCopies(Overlapped(stale), stale)| == 2 * |stale| - 1
    ensures forall k :: 0 <= k < 2 * |stale| - 1 ==>
              ScrubCopies(Overlapped(stale), stale)[k] == if k < |stale| then 0 else stale[k - |stale| + 1]
  {
    var file, m := Overlapped(stale), |stale|;
    assert OccursAt(file, stale, 0);
    SingleMatch(file, stale, 0);
    forall k | 0 <= k < 2 * m - 1
      ensures Covered([0], m, k) <==> k < m
    {
      if k < m { assert 0 in [0 as nat] && 0 <= k < 0 + m; }
    }
  }

  lemma OverlappedSurvives(stale: seq<Byte>)
    requires stale != [] && stale[0] == 0
    ensures OccursAt(ScrubCopies(Overlapped(stale), stale), stale, |stale| - 1)
    ensures stale[|stale| - 1] == 0 ==> OccursAt(Overlapped(stale), stale, |stale| - 1)
  {
    var file, m := Overlapped(stale), |stale|;
    ScrubOverlapped(stale);
    var result := ScrubCopies(file, stale);
    assert result[m - 1..m - 1 + m] == stale;
    if stale[m - 1] == 0 { assert file[m - 1..m - 1 + m] == stale; }
  }

  /** The mirror image: the copy is preceded by all of itself but its last byte. */
  ghost function Preceded(stale: seq<Byte>): seq<Byte>
    requires stale != []
  {
    stale[..|stale| - 1] + stale
  }

  lemma PrecededMatch(stale: seq<Byte>)
    requires stale != [] && stale[0] != 0 && stale[|stale| - 1] == 0
    ensures Matches(Preceded(stale), stale, 0) == [|stale| - 1]
  {
    hide Find, Matches;
    var file, m := Preceded(stale), |stale|;
    assert OccursAt(file, stale, m - 1);
    forall q | 0 <= q < m - 1
      ensures !OccursAt(file, stale, q)
    {
      // such an occurrence would need stale[q] to be both its first byte and its last
      assert file[q..q + m][0] == stale[q] == file[q..q + m][m - 1];
    }
    SingleMatch(file, stale, m - 1);
  }

  lemma ScrubPreceded(stale: seq<Byte>)
    requires stale != [] && stale[0] != 0 && stale[|stale| - 1] == 0
    ensures OccursAt(ScrubCopies(Preceded(stale), stale), stale, 0)
  {
    var file, m := Preceded(stale), |stale|;
    PrecededMatch(stale);
    var result := ScrubCopies(file, stale);
    ScrubbedByte(file, stale, m - 1, m - 1);
    forall k | 0 <= k < m
      ensures result[k] == stale[k]
    {
      if k < m - 1 { assert !Covered([m - 1], m, k); }
    }
    assert result[0..m] == stale;
  }

  // ---- Files the program accepts ----

  /** Two scripts that pass every check made before the file is read. */
  ghost predicate Usable(stale: seq<Byte>, active: seq<Byte>, readable: seq<Byte> -> bool)
  {
    && stale != [] && active != [] && readable(stale) && readable(active)
    && stale != active && !Has(active, stale)
  }

  /** An executable whose front holds the one active script and no part of a stale one. */
  ghost predicate Hosts(front: seq<Byte>, at: nat, active: seq<Byte>, stale: seq<Byte>, tail: seq<Byte>)
  {
    && at + |active| <= |front| && UniqueAt(front + tail, active, at)
    && forall i :: OccursAt(front + tail, stale, i) ==> |front| <= i
  }

  /** Every verdict, by what a caller can see: empty or unreadable scripts are refused, an
      already active script is a success, a missing or ambiguous active one is a refusal, and
      otherwise the file is scrubbed if and only if no copy shares a byte with the active one. */
  lemma VerdictExactly(file: seq<Byte>, stale: seq<Byte>, active: seq<Byte>, readable: seq<Byte> -> bool)
    ensures var v, given := Verdict(file, stale, active, readable), stale != [] && active != [];
            && (v == EmptyResource <==> !given)
            && (v == Malformed <==> given && !(readable(stale) && readable(active)))
            && (given && readable(stale) && stale == active ==> v == Scrubbed)
            && (given && readable(stale) && readable(active) && stale != active && Has(active, stale) ==> v == Overlaps)
            && (v == ActiveMissingOrAmbiguous <==>
                  Usable(stale, active, readable) && forall at :: !UniqueAt(file, active, at))
    ensures forall at :: Usable(stale, active, readable) && UniqueAt(file, active, at) ==>
              Verdict(file, stale, active, readable) ==
              if ShareByte(Matches(file, stale, 0), |stale|, at, |active|) then Overlaps else Scrubbed
  {
    hide OccursAt, Find, Matches, Clash, ShareByte;
    forall at | Usable(stale, active, readable) && UniqueAt(file, active, at)
      ensures Verdict(file, stale, active, readable) ==
              if ShareByte(Matches(file, stale, 0), |stale|, at, |active|) then Overlaps else Scrubbed
    {
      ClashesShareByte(Matches(file, stale, 0), |stale|, at, |active|);
      assert forall u :: UniqueAt(file, active, u) ==> u == at;
    }
  }

  lemma HostedCovered(front: seq<Byte>, tail: seq<Byte>, stale: seq<Byte>, k: int)
    requires stale != [] && forall i :: OccursAt(front + tail, stale, i) ==> |front| <= i
    ensures Covered(Matches(front + tail, stale, 0), |stale|, k) <==>
            Covered(Matches(tail, stale, 0), |stale|, k - |front|)
  {
    hide Find, OccursAt, Matches;
    var ms, ns := Matches(front + tail, stale, 0), Matches(tail, stale, 0);
    MatchesSkip(front + tail, stale, |front|);
    MatchesShifted(front, tail, stale, 0);
    if o :| o in ms && o <= k < o + |stale| {
      var i :| 0 <= i < |ms| && ms[i] == o;
      assert ns[i] in ns && ns[i] == o - |front|;
    }
    if o :| o in ns && o <= k - |front| < o + |stale| {
      var i :| 0 <= i < |ns| && ns[i] == o;
      assert ms[i] in ms && ms[i] == o + |front|;
    }
  }

  /** Such a file is accepted, its front is untouched, and its tail is scrubbed by itself. */
  lemma HostedScrub(front: seq<Byte>, at: nat, active: seq<Byte>, stale: seq<Byte>, tail: seq<Byte>,
                    readable: seq<Byte> -> bool)
    requires Usable(stale, active, readable) && Hosts(front, at, active, stale, tail)
    ensures Verdict(front + tail, stale, active, readable) == Scrubbed
    ensures ScrubCopies(front + tail, stale) == front + ScrubCopies(tail, stale)
  {
    hide Find, OccursAt, Matches;
    var file := front + tail;
    MatchesAreDisjoint(file, stale, 0);
    forall o, u | o in Matches(file, stale, 0) && UniqueAt(file, active, u)
      ensures !Clash(o, |stale|, u, |active|)
    {
      assert u == at && OccursAt(file, stale, o);
    }
    MatchesAreDisjoint(tail, stale, 0);
    forall k | 0 <= k < |file|
      ensures ScrubCopies(file, stale)[k] == (front + ScrubCopies(tail, stale))[k]
    {
      HostedCovered(front, tail, stale, k);
    }
  }

  /** The scrub of an accepted file clears every place that held the stale script, even one
      the scan stepped over because it overlaps a copy already found. */
  ghost predicate ClearsEveryOldPlace(stale: seq<Byte>, active: seq<Byte>, readable: seq<Byte> -> bool)
    requires stale != []
  {
    forall file: seq<Byte>, p :: Verdict(file, stale, active, readable) == Scrubbed && OccursAt(file, stale, p) ==>
      !OccursAt(ScrubCopies(file, stale), stale, p)
  }

  /** The scrub of an accepted file leaves no copy anywhere. */
  ghost predicate LeavesNoCopy(stale: seq<Byte>, active: seq<Byte>, readable: seq<Byte> -> bool)
    requires stale != []
  {
    forall file: seq<Byte> :: Verdict(file, stale, active, readable) == Scrubbed ==>
      !Has(ScrubCopies(file, stale), stale)
  }

  /** Every old place is cleared in every accepted file exactly when the stale script does
      not both begin and end with a zero byte; given that some executable can carry the two
      scripts, which only the failing half needs. */
  lemma ClearsEveryOldPlaceExactly(stale: seq<Byte>, active: seq<Byte>, readable: seq<Byte> -> bool,
                                   front: seq<Byte>, at: nat)
    requires Usable(stale, active, readable) && Hosts(front, at, active, stale, Overlapped(stale))
    ensures ClearsEveryOldPlace(stale, active, readable) <==> stale[0] != 0 || stale[|stale| - 1] != 0
  {
    hide Verdict, ScrubCopies, OccursAt, Hosts, Overlapped;
    if stale[0] != 0 || stale[|stale| - 1] != 0 {
      forall file: seq<Byte>, p | OccursAt(file, stale, p)
        ensures !OccursAt(ScrubCopies(file, stale), stale, p)
      {
        OldPlaceCleared(file, stale, p);
      }
    } else {
      var tail, p := Overlapped(stale), |stale| - 1;
      OverlappedSurvives(stale);
      HostedScrub(front, at, active, stale, tail, readable);
      OccursShifted(front, tail, stale, p);
      OccursShifted(front, ScrubCopies(tail, stale), stale, p);
    }
  }

  /** The two ways a copy is left: behind an overlap, or completed by the zeros written. */
  ghost function Awkward(stale: seq<Byte>): seq<Byte>
    requires stale != []
  {
    if stale[0] == 0 then Overlapped(stale) else Preceded(stale)
  }

  /** No copy is left in any accepted file exactly when the stale script neither begins nor
      ends with a zero byte.  A ZIP without a comment ends in zero bytes, so zeroing one copy
      can complete another just before it. */
  lemma LeavesNoCopyExactly(stale: seq<Byte>, active: seq<Byte>, readable: seq<Byte> -> bool,
                            front: seq<Byte>, at: nat)
    requires Usable(stale, active, readable) && Hosts(front, at, active, stale, Awkward(stale))
    ensures LeavesNoCopy(stale, active, readable) <==> stale[0] != 0 && stale[|stale| - 1] != 0
  {
    hide Verdict, ScrubCopies, OccursAt, Hosts, Overlapped, Preceded;
    if stale[0] != 0 && stale[|stale| - 1] != 0 {
      forall file: seq<Byte>
        ensures !Has(ScrubCopies(file, stale), stale)
      {
        forall p ensures !OccursAt(ScrubCopies(file, stale), stale, p) { NoCopyLeft(file, stale, p); }
      }
    } else {
      var tail, p := Awkward(stale), if stale[0] == 0 then |stale| - 1 else 0;
      if stale[0] == 0 { OverlappedSurvives(stale); } else { ScrubPreceded(stale); }
      HostedScrub(front, at, active, stale, tail, readable);
      OccursShifted(front, ScrubCopies(tail, stale), stale, p);
      assert Has(ScrubCopies(front + tail, stale), stale);
    }
  }

  /** For any two scripts, the stale one like a ZIP in its first and last byte: the scrub
      reports success, and the script it was asked to discard sits where it did not before. */
  lemma CopyCanReappear(stale: seq<Byte>, active: seq<Byte>, readable: seq<Byte> -> bool, front: seq<Byte>, at: nat)
    requires Usable(stale, active, readable) && stale[0] != 0 && stale[|stale| - 1] == 0
    requires Hosts(front, at, active, stale, Preceded(stale))
    ensures var file := front + Preceded(stale);
            && Verdict(file, stale, active, readable) == Scrubbed
            && !OccursAt(file, stale, |front|)
            && OccursAt(ScrubCopies(file, stale), stale, |front|)
  {
    hide Verdict, ScrubCopies, OccursAt, Hosts, Preceded;
    var file := front + Preceded(stale);
    HostedScrub(front, at, active, stale, Preceded(stale), readable);
    ScrubPreceded(stale);
    OccursShifted(front, ScrubCopies(Preceded(stale), stale), stale, 0);
    if OccursAt(file, stale, |front|) { OldPlaceCleared(file, stale, |front|); }
  }

  // ---- Exactly when, file by file ----

  /** The copy found at o, once zeroed, completes another at p: the bytes from p to o are the
      script's beginning, the rest of the script is zeros, and no copy found covers p. */
  ghost predicate Completes(file: seq<Byte>, stale: seq<Byte>, p: int, o: nat)
    requires stale != []
  {
    && o in Matches(file, stale, 0) && 0 <= p < o < p + |stale| && o <= |file|
    && !Covered(Matches(file, stale, 0), |stale|, p)
    && file[p..o] == stale[..o - p]
    && forall k :: o - p <= k < |stale| ==> stale[k] == 0
  }

  /** Between p, which no copy covers, and a copy at o that begins within reach of p, nothing
      is covered. */
  lemma UncoveredUpTo(file: seq<Byte>, stale: seq<Byte>, p: int, o: nat, k: int)
    requires stale != [] && o in Matches(file, stale, 0) && 0 <= p <= k < o < p + |stale|
    requires !Covered(Matches(file, stale, 0), |stale|, p)
    ensures !Covered(Matches(file, stale, 0), |stale|, k)
  {
    hide Matches;
    var ms := Matches(file, stale, 0);
    MatchesAreDisjoint(file, stale, 0);
    forall o' | o' in ms
      ensures !(o' <= k < o' + |stale|)
    {
      var i :| 0 <= i < |ms| && ms[i] == o';
      var j :| 0 <= j < |ms| && ms[j] == o;
      assert !(o' <= p < o' + |stale|);
    }
  }

  lemma CompletedOccurs(file: seq<Byte>, stale: seq<Byte>, p: int, o: nat)
    requires stale != [] && Completes(file, stale, p, o)
    ensures OccursAt(ScrubCopies(file, stale), stale, p)
  {
    hide Matches;
    var result, m := ScrubCopies(file, stale), |stale|;
    MatchesAreDisjoint(file, stale, 0);
    assert OccursAt(file, stale, o);
    forall k | p <= k < p + m
      ensures result[k] == stale[k - p]
    {
      if k < o {
        UncoveredUpTo(file, stale, p, o, k);
        assert file[k] == file[p..o][k - p];
      } else {
        ScrubbedByte(file, stale, o, k);
      }
    }
    assert result[p..p + m] == stale;
  }

  lemma OccursCompleted(file: seq<Byte>, stale: seq<Byte>, p: int) returns (o: nat)
    requires stale != [] && stale[0] != 0 && OccursAt(ScrubCopies(file, stale), stale, p)
    ensures Completes(file, stale, p, o)
  {
    hide Matches;
    var result, m, ms := ScrubCopies(file, stale), |stale|, Matches(file, stale, 0);
    MatchesAreDisjoint(file, stale, 0);
    forall k | 0 <= k < m ensures result[p + k] == stale[k] { assert result[p..p + m][k] == stale[k]; }
    assert !Covered(ms, m, p);
    if forall q :: q in ms ==> !Clash(q, m, p, m) {
      UntouchedStretch(file, stale, p, m);
      assert OccursAt(file, stale, p);
      OldPlaceCleared(file, stale, p);
    }
    o :| o in ms && Clash(o, m, p, m);
    assert OccursAt(file, stale, o) && p < o;
    forall k | p <= k < o ensures file[k] == stale[k - p] { UncoveredUpTo(file, stale, p, o, k); }
    assert file[p..o] == stale[..o - p];
    forall k | o - p <= k < m ensures stale[k] == 0 { ScrubbedByte(file, stale, o, p + k); }
  }

  /** In any one file, for a script that begins as a ZIP does: after the scrub it occurs at p
      if and only if a copy that was found completes one there, which a caller can tell from
      the file beforehand. */
  lemma ReappearsExactly(file: seq<Byte>, stale: seq<Byte>, p: int)
    requires stale != [] && stale[0] != 0
    ensures OccursAt(ScrubCopies(file, stale), stale, p) <==> exists o :: Completes(file, stale, p, o)
    ensures OccursAt(ScrubCopies(file, stale), stale, p) ==> !OccursAt(file, stale, p)
  {
    hide Completes, ScrubCopies, OccursAt;
    if OccursAt(ScrubCopies(file, stale), stale, p) { var o := OccursCompleted(file, stale, p); }
    if o :| Completes(file, stale, p, o) { CompletedOccurs(file, stale, p, o); }
    if OccursAt(file, stale, p) { OldPlaceCleared(file, stale, p); }
  }
}
