/** `acquire_ollama_pack_sources`: extract a fresh runtime, validate it, and put it in
    place of the cached one by renames, any step of which may fail. */
module CachePromotion {
  import opened Options

  // ---- The validity check of a runtime tree ----

  datatype Entry = Directory | File | Link | Special

  /** A directory: relative path to what is there. */
  type Tree = map<string, Entry>

  ghost predicate Acceptable(tree: Tree, casefold: string -> string)
  {
    && "ollama.exe" in tree && tree["ollama.exe"] == File
    && "models" !in tree
    && (forall p :: p in tree ==> tree[p] in {Directory, File})
    && (forall p, q :: p in tree && q in tree && tree[p] == File && tree[q] == File ==>
          casefold(p) == casefold(q) ==> p == q)
  }

  ghost predicate Lists(listing: seq<string>, tree: Tree)
  {
    && (forall i, j :: 0 <= i < j < |listing| ==> listing[i] != listing[j])
    && (forall p :: p in listing <==> p in tree)
  }

  /** `_runtime_sources`: whatever order the tree is walked in, it is accepted exactly when
      acceptable, and then its sources are its files. */
  method RuntimeSources(tree: Tree, listing: seq<string>, casefold: string -> string)
    returns (sources: Option<set<string>>)
    requires Lists(listing, tree)
    ensures sources.Some? <==> Acceptable(tree, casefold)
    ensures sources.Some? ==> sources.value == set p | p in tree && tree[p] == File
  {
    if "ollama.exe" !in tree || tree["ollama.exe"] != File { return None; }
    if "models" in tree && tree["models"] != Link { return None; }
    var found: set<string> := {};
    var folded: set<string> := {};
    for i := 0 to |listing|
      invariant forall j :: 0 <= j < i ==> tree[listing[j]] in {Directory, File}
      invariant forall p :: p in found <==> p in listing[..i] && tree[p] == File
      invariant forall c :: c in folded <==> exists p :: p in found && casefold(p) == c
      invariant forall p, q :: p in found && q in found && casefold(p) == casefold(q) ==> p == q
    {
      var p := listing[i];
      assert p in tree && p !in listing[..i];
      if tree[p] == Link { return None; }
      if tree[p] != Directory {
        if tree[p] != File { return None; }
        if casefold(p) in folded { return None; }
        folded := folded + {casefold(p)};
        found := found + {p};
      }
    }
    assert listing[..|listing|] == listing;
    return Some(found);
  }

  // ---- The protocol ----

  datatype Disk = Disk(
    destination: Option<Tree>, staged: Option<Tree>, holder: bool, previous: Option<Tree>)

  /** What goes wrong, and what a failed extraction or removal leaves behind. */
  datatype Faults = Faults(
    fetch: bool, archive: Tree, extract: bool, partial: Tree, makeHolder: bool, moveAside: bool,
    promote: bool, rollBack: bool, removeHolder: bool, removeBackup: bool, remains: Option<Tree>, cleanUp: bool)

  datatype Outcome = Acquired | Failed | PreviousPreserved

  /** Every state the disk passes through, and how the call ends. */
  datatype Run = Run(trail: seq<Disk>, outcome: Outcome) {
    function Last(): Disk requires trail != [] { trail[|trail| - 1] }

    function Then(d: Disk): Run { Run(trail + [d], outcome) }
  }

  /** Leaving the temporary directory; a failure there hides the outcome so far. */
  function CleanUp(r: Run, f: Faults): (r': Run)
    requires r.trail != []
    ensures r'.trail != []
  {
    if f.cleanUp then Run(r.trail, Failed) else r.Then(r.Last().(staged := None))
  }

  function DropHolder(d: Disk, f: Faults): Disk { if f.removeHolder then d else d.(holder := false) }

  /** The destination is free: move the fresh tree in, or the previous one back. */
  function SwapIn(d: Disk, f: Faults): (r: Run)
    ensures r.trail != []
  {
    if f.promote then
      if d.previous.None? then Run([d], Failed)
      else if f.rollBack then Run([d], PreviousPreserved)
      else
        var d1 := d.(destination := d.previous, previous := None);
        Run([d, d1, DropHolder(d1, f)], Failed)
    else
      var d1 := d.(destination := d.staged, staged := None);
      if !d.holder then Run([d, d1], Acquired)
      else if f.removeBackup then Run([d, d1, d1.(previous := f.remains)], Failed)
      else Run([d, d1, d1.(holder := false, previous := None)], Acquired)
  }

  /** From the validated fresh tree to the end of the temporary directory. */
  function Promote(d: Disk, f: Faults): (r: Run)
    ensures r.trail != []
  {
    if d.destination.None? then SwapIn(d, f)
    else if f.makeHolder then Run([d], Failed)
    else
      var d1 := d.(holder := true);
      if f.moveAside then Run([d, d1, DropHolder(d1, f)], Failed)
      else
        var rest := SwapIn(d1.(destination := None, previous := d.destination), f);
        Run([d, d1] + rest.trail, rest.outcome)
  }

  ghost function Acquire(cached: Option<Tree>, f: Faults, casefold: string -> string): (r: Run)
    ensures r.trail != []
  {
    var d := Disk(cached, None, false, None);
    if f.fetch then Run([d], Failed)
    else if f.extract then CleanUp(Run([d, d.(staged := Some(f.partial))], Failed), f)
    else
      var d1 := d.(staged := Some(f.archive));
      if !Acceptable(f.archive, casefold) then CleanUp(Run([d, d1], Failed), f)
      else
        var p := Promote(d1, f);
        CleanUp(Run([d] + p.trail, p.outcome), f)
  }

  // ---- The cache as it is changed ----

  class Cache {
    var destination: Option<Tree>
    var staged: Option<Tree>
    var holder: bool
    var previous: Option<Tree>
    ghost var trail: seq<Disk>

    ghost function View(): Disk
      reads this
    {
      Disk(destination, staged, holder, previous)
    }

    ghost method Note()
      modifies this`trail
      ensures trail == old(trail) + [View()]
    {
      trail := trail + [View()];
    }

    method AcquireSources(f: Faults, listing: seq<string>, casefold: string -> string) returns (outcome: Outcome)
      requires staged == None && !holder && previous == None
      requires Lists(listing, f.archive)
      modifies this
      ensures Run(trail, outcome) == Acquire(old(destination), f, casefold)
      ensures View() == Run(trail, outcome).Last()
    {
      hide Acceptable, Promote;
      trail := [View()];
      if f.fetch { return Failed; }
      outcome := Failed;
      if f.extract {
        staged := Some(f.partial);
        Note();
      } else {
        staged := Some(f.archive);
        var sources := RuntimeSources(f.archive, listing, casefold);
        if sources.None? {
          Note();
        } else {
          outcome := PromoteFresh(f);
        }
      }
      if f.cleanUp { return Failed; }
      staged := None;
      Note();
    }

    method PromoteFresh(f: Faults) returns (outcome: Outcome)
      requires previous == None && !holder
      modifies this
      ensures trail == old(trail) + Promote(old(View()), f).trail && outcome == Promote(old(View()), f).outcome
      ensures View() == Promote(old(View()), f).Last()
    {
      hide SwapIn;
      if destination.None? {
        outcome := SwapFresh(f);
        return;
      }
      Note();
      if f.makeHolder { return Failed; }
      holder := true;
      Note();
      if f.moveAside {
        if !f.removeHolder { holder := false; }
        Note();
        return Failed;
      }
      destination, previous := None, destination;
      outcome := SwapFresh(f);
    }

    method SwapFresh(f: Faults) returns (outcome: Outcome)
      modifies this
      ensures trail == old(trail) + SwapIn(old(View()), f).trail && outcome == SwapIn(old(View()), f).outcome
      ensures View() == SwapIn(old(View()), f).Last()
    {
      Note();
      if f.promote {
        if previous.None? { return Failed; }
        if f.rollBack { return PreviousPreserved; }
        destination, previous := previous, None;
        Note();
        if !f.removeHolder { holder := false; }
        Note();
        return Failed;
      }
      destination, staged := staged, None;
      Note();
      if !holder { return Acquired; }
      if f.removeBackup {
        previous := f.remains;
        Note();
        return Failed;
      }
      holder, previous := false, None;
      Note();
      return Acquired;
    }
  }

  // ---- What the protocol guarantees ----

  /** The old tree is whole at the destination or aside, or the new one is in place; and the
      destination never holds anything but the old tree or the new, validated one. */
  ghost predicate Safe(d: Disk, cached: Option<Tree>, archive: Tree, casefold: string -> string)
  {
    var promoted := d.destination == Some(archive) && Acceptable(archive, casefold);
    && (d.destination == cached || d.destination == None || promoted)
    && (d.destination == cached || d.previous == cached || promoted)
  }

  ghost predicate AllSafe(trail: seq<Disk>, cached: Option<Tree>, archive: Tree, casefold: string -> string)
  {
    forall i :: 0 <= i < |trail| ==> Safe(trail[i], cached, archive, casefold)
  }

  lemma SwapIsSafe(d: Disk, f: Faults, casefold: string -> string)
    requires d.destination == None && d.staged == Some(f.archive) && Acceptable(f.archive, casefold)
    ensures AllSafe(SwapIn(d, f).trail, d.previous, f.archive, casefold)
  {
    hide Acceptable;
  }

  lemma PromotionIsSafe(d: Disk, f: Faults, casefold: string -> string)
    requires d.previous == None && d.staged == Some(f.archive) && Acceptable(f.archive, casefold)
    ensures AllSafe(Promote(d, f).trail, d.destination, f.archive, casefold)
  {
    hide Acceptable, SwapIn;
    SwapIsSafe(d.(destination := None, holder := true, previous := d.destination), f, casefold);
    if d.destination.None? { SwapIsSafe(d, f, casefold); }
  }

  /** At every point, so also where the process might be cut short. */
  lemma NeverLost(cached: Option<Tree>, f: Faults, casefold: string -> string)
    ensures AllSafe(Acquire(cached, f, casefold).trail, cached, f.archive, casefold)
  {
    hide Acceptable, Promote;
    var d := Disk(cached, Some(f.archive), false, None);
    if Acceptable(f.archive, casefold) { PromotionIsSafe(d, f, casefold); }
  }

  /** How the call ends, and what the disk then holds, for every combination of faults. */
  lemma EndsExactly(cached: Option<Tree>, f: Faults, casefold: string -> string)
    ensures var r := Acquire(cached, f, casefold);
            var ready := !f.fetch && !f.extract && Acceptable(f.archive, casefold);
            var moved := cached.Some? ==> !f.makeHolder && !f.moveAside;
            var promoted := ready && moved && !f.promote;
            var stranded := ready && moved && f.promote && cached.Some? && f.rollBack;
            && (r.Last().destination == if promoted then Some(f.archive) else if stranded then None else cached)
            && (r.outcome == Acquired <==> promoted && !f.cleanUp && (cached.Some? ==> !f.removeBackup))
            && (r.outcome == PreviousPreserved <==> stranded && !f.cleanUp)
            && (stranded ==> r.Last().previous == cached)
            && (r.outcome == Acquired ==> r.Last() == Disk(Some(f.archive), None, false, None))
    ensures var r := Acquire(cached, f, casefold);
            var ready := !f.fetch && !f.extract && Acceptable(f.archive, casefold);
            var held := ready && cached.Some? && !f.makeHolder;
            && (r.Last().holder <==>
                  held && if f.moveAside then f.removeHolder
                          else if f.promote then f.rollBack || f.removeHolder else f.removeBackup)
            && r.Last().previous ==
               (if !held || f.moveAside then None
                else if f.promote then if f.rollBack then cached else None
                else if f.removeBackup then f.remains else None)
            && r.Last().staged ==
               (if f.fetch || !f.cleanUp then None
                else if f.extract then Some(f.partial)
                else if r.Last().destination == Some(f.archive) && ready && !f.promote
                        && (cached.Some? ==> !f.makeHolder && !f.moveAside) then None
                else Some(f.archive))
  {
    hide Acceptable;
  }

  /** The report that the previous tree is preserved can itself be lost: with a further
      fault on leaving the temporary directory the call fails without naming the place. */
  lemma PreservedUnreported(tree: Tree, f: Faults, casefold: string -> string)
    requires !f.fetch && !f.extract && Acceptable(f.archive, casefold) && !f.makeHolder && !f.moveAside
    requires f.promote && f.rollBack && f.cleanUp
    ensures var r := Acquire(Some(tree), f, casefold);
            r.outcome == Failed && r.Last().destination == None && r.Last().previous == Some(tree)
  {
    hide Acceptable;
  }

  /** One thing happens to the disk: a tree is unpacked or deleted, a directory is made or
      removed, or one tree is renamed. */
  ghost predicate OneStep(d: Disk, d': Disk)
  {
    || d' == d
    || d' == d.(staged := d'.staged)
    || d' == d.(holder := d'.holder)
    || (d.previous == None && d' == d.(destination := None, previous := d.destination))
    || (d.destination == None && d' == d.(destination := d.staged, staged := None))
    || (d.destination == None && d' == d.(destination := d.previous, previous := None))
    || (d'.destination.Some? && d' == d.(previous := d'.previous))
    || (d'.destination.Some? && d' == d.(holder := false, previous := None))
  }

  ghost predicate Stepwise(trail: seq<Disk>)
  {
    forall i :: 0 < i < |trail| ==> OneStep(trail[i - 1], trail[i])
  }

  lemma SwapIsStepwise(d: Disk, f: Faults)
    requires d.destination == None && d.staged.Some?
    ensures Stepwise(SwapIn(d, f).trail) && SwapIn(d, f).trail[0] == d
  {
  }

  lemma PromotionIsStepwise(d: Disk, f: Faults)
    requires d.staged.Some? && d.previous == None
    ensures Stepwise(Promote(d, f).trail) && Promote(d, f).trail[0] == d
  {
    hide SwapIn;
    if d.destination.None? {
      SwapIsStepwise(d, f);
    } else {
      SwapIsStepwise(d.(destination := None, holder := true, previous := d.destination), f);
    }
  }

  /** The trail misses nothing: it starts with the cache as it was, and between two of its
      states only one step lies. */
  lemma TrailIsStepwise(cached: Option<Tree>, f: Faults, casefold: string -> string)
    ensures var trail := Acquire(cached, f, casefold).trail;
            Stepwise(trail) && trail[0] == Disk(cached, None, false, None)
  {
    hide Acceptable, Promote;
    PromotionIsStepwise(Disk(cached, Some(f.archive), false, None), f);
  }
}
