/** `_build_eas_health_hook`: polls of many alert sources, interleaved, and the alert
    conditions that are recorded when a source's health changes. */
module HealthHook {

  datatype Poll = Poll(source: string, healthy: bool)

  /** One attempt to record an alert condition: raised when unhealthy, resolved when healthy. */
  datatype Write = Write(source: string, resolved: bool)

  datatype Hook = Hook(lastState: map<string, bool>, writes: seq<Write>)

  function OnPoll(h: Hook, p: Poll): Hook
  {
    if p.source in h.lastState && h.lastState[p.source] == p.healthy then h
    else
      var next := h.lastState[p.source := p.healthy];
      if p.source !in h.lastState && p.healthy then Hook(next, h.writes)
      else Hook(next, h.writes + [Write(p.source, p.healthy)])
  }

  function After(polls: seq<Poll>): Hook
  {
    if polls == [] then Hook(map[], []) else OnPoll(After(polls[..|polls| - 1]), polls[|polls| - 1])
  }

  /** The closure, with the dictionary it keeps.  Whether the write then fails does not matter:
      the state was already updated. */
  class EasHealthHook {
    var lastState: map<string, bool>
    var writes: seq<Write>
    ghost var polls: seq<Poll>

    ghost predicate Valid()
      reads this
    {
      Hook(lastState, writes) == After(polls)
    }

    constructor ()
      ensures Valid() && polls == []
    {
      lastState, writes, polls := map[], [], [];
    }

    method Notify(source: string, healthy: bool)
      requires Valid()
      modifies this
      ensures Valid() && polls == old(polls) + [Poll(source, healthy)]
      ensures old(writes) <= writes
    {
      polls := polls + [Poll(source, healthy)];
      assert polls[..|polls| - 1] == old(polls);
      if source in lastState && lastState[source] == healthy { return; }
      var first := source !in lastState;
      lastState := lastState[source := healthy];
      if first && healthy { return; }
      writes := writes + [Write(source, healthy)];
    }
  }

  // ---- One source at a time ----

  /** A source's own health reports, in order, and the writes made about it. */
  function Reports(polls: seq<Poll>, source: string): seq<bool>
  {
    if polls == [] then []
    else
      var n := |polls| - 1;
      Reports(polls[..n], source) + if polls[n].source == source then [polls[n].healthy] else []
  }

  function WritesFor(writes: seq<Write>, source: string): seq<bool>
  {
    if writes == [] then []
    else
      var n := |writes| - 1;
      WritesFor(writes[..n], source) + if writes[n].source == source then [writes[n].resolved] else []
  }

  /** The reference: starting from good health, note every change. */
  function Changes(reports: seq<bool>): seq<bool>
  {
    if reports == [] then []
    else
      var n := |reports| - 1;
      var before := n == 0 || reports[n - 1];
      Changes(reports[..n]) + if reports[n] != before then [reports[n]] else []
  }

  lemma WritesForSnoc(writes: seq<Write>, w: Write, source: string)
    ensures WritesFor(writes + [w], source) ==
            WritesFor(writes, source) + if w.source == source then [w.resolved] else []
  {
    assert (writes + [w])[..|writes|] == writes;
  }

  /** The dictionary holds each source's latest report. */
  lemma {:induction false} StateIsLatest(polls: seq<Poll>, source: string)
    ensures var r := Reports(polls, source);
            && (source in After(polls).lastState <==> r != [])
            && (r != [] ==> After(polls).lastState[source] == r[|r| - 1])
  {
    if polls != [] { StateIsLatest(polls[..|polls| - 1], source); }
  }

  lemma OneWrite(h: Hook, p: Poll, source: string)
    ensures WritesFor(OnPoll(h, p).writes, source) == WritesFor(h.writes, source) +
            if p.source == source && p.healthy != (source !in h.lastState || h.lastState[source]) then [p.healthy]
            else []
  {
    WritesForSnoc(h.writes, Write(p.source, p.healthy), source);
    assert WritesFor(h.writes, source) + [] == WritesFor(h.writes, source);
  }

  lemma ChangesSnoc(r: seq<bool>, x: bool)
    ensures Changes(r + [x]) == Changes(r) + if x != (r == [] || r[|r| - 1]) then [x] else []
  {
    assert (r + [x])[..|r|] == r;
  }

  /** The writes about a source are exactly the changes in its own reports, whatever other
      sources report in between. */
  lemma {:induction false} WritesAreChanges(polls: seq<Poll>, source: string)
    ensures WritesFor(After(polls).writes, source) == Changes(Reports(polls, source))
  {
    hide WritesFor, Changes, OnPoll;
    if polls == [] {
      NoWrites(source);
    } else {
      var n := |polls| - 1;
      var p, h, r := polls[n], After(polls[..n]), Reports(polls[..n], source);
      WritesAreChanges(polls[..n], source);
      StateIsLatest(polls[..n], source);
      OneWrite(h, p, source);
      ChangesSnoc(r, p.healthy);
      assert Reports(polls, source) == if p.source == source then r + [p.healthy] else r;
      assert Changes(r) + [] == Changes(r);
    }
  }

  lemma NoWrites(source: string)
    ensures WritesFor([], source) == Changes([]) == []
  {
  }

  lemma {:induction false} ChangesAlternate(reports: seq<bool>)
    ensures var c := Changes(reports);
            && (forall i :: 0 <= i < |c| ==> c[i] == (i % 2 == 1))
            && (reports != [] ==> reports[|reports| - 1] == (|c| % 2 == 0))
            && (c == [] <==> false !in reports)
            && (c != [] ==> c[|c| - 1] == reports[|reports| - 1])
  {
    hide Changes;
    if reports == [] {
      NoWrites("");
    } else {
      var n := |reports| - 1;
      var r, x := reports[..n], reports[n];
      ChangesAlternate(r);
      ChangesSnoc(r, x);
      assert reports == r + [x];
    }
  }

  /** For every interleaving: a source's writes alternate, first raised, then resolved; the
      last one tells its latest health; there is none while it has only been healthy. */
  lemma AlertsAlternate(polls: seq<Poll>, source: string)
    ensures var w, r := WritesFor(After(polls).writes, source), Reports(polls, source);
            && (forall i :: 0 <= i < |w| ==> w[i] == (i % 2 == 1))
            && (w != [] ==> r != [] && w[|w| - 1] == r[|r| - 1])
            && (w == [] <==> false !in r)
  {
    WritesAreChanges(polls, source);
    ChangesAlternate(Reports(polls, source));
  }

  /** Two interleavings that agree on one source agree on what is written about it. */
  lemma OthersDoNotMatter(one: seq<Poll>, other: seq<Poll>, source: string)
    requires Reports(one, source) == Reports(other, source)
    ensures WritesFor(After(one).writes, source) == WritesFor(After(other).writes, source)
  {
    WritesAreChanges(one, source);
    WritesAreChanges(other, source);
  }
}
