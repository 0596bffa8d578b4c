/** The control plane's lifecycle over one lifespan: application state, storage wiring
    at boot or in the middle of serving, the middleware stack, the maintenance freeze,
    the one-shot startup hooks and the rebinding of the backup service. */
module ControlPlane {
  import opened Options
  import opened Lines

  // ---- Supervisor mode ----

  datatype Mode = Normal | Maintenance | Unknown {
    predicate Frozen() { this != Normal }
  }

  function LStrip(s: string): string
  {
    if s != "" && IsSpace(s[0]) then LStrip(s[1..]) else s
  }

  function Strip(s: string): string { LStrip(RStrip(s)) }

  /** Only letters A-Z can become letters of the two words compared below. */
  function Lower(s: string): string
  {
    seq(|s|, i requires 0 <= i < |s| => if 'A' <= s[i] <= 'Z' then (s[i] as int + 32) as char else s[i])
  }

  /** The text is the word, in any mixture of case, with nothing but white space around it. */
  ghost predicate Spells(text: string, word: string)
  {
    exists pre, post :: Around(text, pre, post) && SpelledAs(Inside(text, pre, post), word)
  }

  ghost function Inside(text: string, pre: string, post: string): string
  {
    if |pre| + |post| <= |text| then text[|pre|..|text| - |post|] else ""
  }

  ghost predicate Around(text: string, pre: string, post: string)
  {
    && |pre| + |post| <= |text| && text[..|pre|] == pre && text[|text| - |post|..] == post
    && Blank(pre) && Blank(post)
  }

  ghost predicate SpelledAs(u: string, word: string)
  {
    |u| == |word| && forall i :: 0 <= i < |u| ==>
      u[i] == word[i] || ('A' <= u[i] <= 'Z' && u[i] as int + 32 == word[i] as int)
  }

  /** A word in small letters. */
  ghost predicate IsWord(word: string)
  {
    word != "" && forall i :: 0 <= i < |word| ==> 'a' <= word[i] <= 'z'
  }

  lemma {:induction false} LStripSplits(s: string)
    ensures var t := LStrip(s);
            && |t| <= |s| && s[|s| - |t|..] == t && Blank(s[..|s| - |t|])
            && (t != "" ==> !IsSpace(t[0]))
  {
    hide IsSpace;
    if s != "" && IsSpace(s[0]) {
      LStripSplits(s[1..]);
      var t := LStrip(s);
      var n := |s| - |t|;
      assert s[1..][n - 1..] == s[n..];
      forall i | 0 <= i < n ensures IsSpace(s[i]) {
        if i > 0 { assert s[1..][..n - 1][i - 1] == s[i]; }
      }
    } else {
      assert s[0..] == s;
    }
  }

  /** Stripping takes off the white space at both ends, and no more. */
  lemma StripSplits(s: string)
    ensures exists pre, post :: Around(s, pre, post) && Inside(s, pre, post) == Strip(s)
    ensures Strip(s) != "" ==> !IsSpace(Strip(s)[0]) && !IsSpace(Strip(s)[|Strip(s)| - 1])
  {
    hide IsSpace, RStrip;
    var r := RStrip(s);
    LStripSplits(r);
    var t := LStrip(r);
    var pre, post := r[..|r| - |t|], s[|r|..];
    assert pre == s[..|pre|];
    assert Around(s, pre, post);
    assert Inside(s, pre, post) == r[|r| - |t|..] == t;
  }

  lemma SpelledLower(u: string, word: string)
    requires IsWord(word)
    ensures Lower(u) == word <==> SpelledAs(u, word)
  {
    if Lower(u) == word {
      forall i | 0 <= i < |u|
        ensures u[i] == word[i] || ('A' <= u[i] <= 'Z' && u[i] as int + 32 == word[i] as int)
      {
        assert Lower(u)[i] == word[i];
      }
    }
    if SpelledAs(u, word) {
      forall i | 0 <= i < |u| ensures Lower(u)[i] == word[i] {}
    }
  }

  lemma LettersAreVisible(u: string, word: string, i: nat)
    requires IsWord(word) && SpelledAs(u, word) && i < |u|
    ensures !IsSpace(u[i])
  {
  }

  /** Two ways to cut white space off the ends of a text, both down to something visible. */
  lemma SameCut(s: string, pre: string, post: string, pre': string, post': string)
    requires Around(s, pre, post) && Around(s, pre', post')
    requires |pre| + |post| < |s| && !IsSpace(s[|pre|]) && !IsSpace(s[|s| - |post| - 1])
    requires |pre'| + |post'| < |s| ==> !IsSpace(s[|pre'|]) && !IsSpace(s[|s| - |post'| - 1])
    ensures |pre| == |pre'| && |post| == |post'|
  {
    hide IsSpace;
    forall i | 0 <= i < |pre| ensures IsSpace(s[i]) { assert s[i] == pre[i]; }
    forall i | 0 <= i < |pre'| ensures IsSpace(s[i]) { assert s[i] == pre'[i]; }
    forall i | |s| - |post| <= i < |s| ensures IsSpace(s[i]) { assert s[i] == post[i - (|s| - |post|)]; }
    forall i | |s| - |post'| <= i < |s| ensures IsSpace(s[i]) { assert s[i] == post'[i - (|s| - |post'|)]; }
  }

  /** However visible text is cut out of its blanks, stripping gives the same. */
  lemma CutIsStripped(s: string, pre: string, post: string)
    requires Around(s, pre, post)
    requires |pre| + |post| < |s| && !IsSpace(s[|pre|]) && !IsSpace(s[|s| - |post| - 1])
    ensures Inside(s, pre, post) == Strip(s)
  {
    hide IsSpace, Strip, Around;
    StripSplits(s);
    var p, q :| Around(s, p, q) && Inside(s, p, q) == Strip(s);
    AroundFits(s, p, q);
    SameCut(s, pre, post, p, q);
  }

  lemma AroundFits(s: string, pre: string, post: string)
    requires Around(s, pre, post)
    ensures |pre| + |post| <= |s|
    ensures |pre| + |post| < |s| ==>
              var t := Inside(s, pre, post);
              t[0] == s[|pre|] && t[|t| - 1] == s[|s| - |post| - 1]
  {
  }

  /** Blanks around a word and its case do not matter, and nothing else is taken for it. */
  lemma SpellsExactly(text: string, word: string)
    requires IsWord(word)
    ensures Lower(Strip(text)) == word <==> Spells(text, word)
  {
    hide IsSpace, Strip, Lower, SpelledAs, Around;
    SpelledLower(Strip(text), word);
    if Lower(Strip(text)) == word {
      StripSplits(text);
    }
    if p, q :| Around(text, p, q) && SpelledAs(Inside(text, p, q), word) {
      AroundFits(text, p, q);
      var u := Inside(text, p, q);
      SameLength(u, word);
      LettersAreVisible(u, word, 0);
      LettersAreVisible(u, word, |u| - 1);
      CutIsStripped(text, p, q);
    }
  }

  lemma SameLength(u: string, word: string)
    requires SpelledAs(u, word)
    ensures |u| == |word|
  {
  }

  function SupervisorMode(raw: Option<string>, contract: Option<string>): (m: Mode)
    ensures m.Frozen() <==> raw.Some? && Lower(Strip(raw.value)) != "normal"
    ensures m == Maintenance ==> contract.Some? && Strip(contract.value) == "1"
  {
    if raw.None? then Normal
    else
      var mode := Lower(Strip(raw.value));
      if mode == "" then Unknown
      else if mode == "normal" then Normal
      else if mode == "maintenance" then
        if contract.None? || Strip(contract.value) != "1" then Unknown else Maintenance
      else Unknown
  }

  /** The contract in its own words. */
  lemma ModeExactly(raw: Option<string>, contract: Option<string>)
    ensures var m := SupervisorMode(raw, contract);
            && (m == Normal <==> raw.None? || Spells(raw.value, "normal"))
            && (m == Maintenance <==>
                  raw.Some? && Spells(raw.value, "maintenance") && contract.Some? && IsOne(contract.value))
  {
    hide Strip, Lower, Spells, IsOne;
    WordsAreWords();
    if raw.Some? {
      SpellsExactly(raw.value, "normal");
      SpellsExactly(raw.value, "maintenance");
    }
    if contract.Some? { StripsToOne(contract.value); }
  }

  lemma WordsAreWords()
    ensures IsWord("normal") && IsWord("maintenance") && "normal" != "maintenance"
  {
    assert |"normal"| == 6 && |"maintenance"| == 11;
  }

  /** A single "1" with nothing but white space around it. */
  ghost predicate IsOne(text: string)
  {
    exists pre, post :: Around(text, pre, post) && Inside(text, pre, post) == "1"
  }

  lemma StripsToOne(text: string)
    ensures Strip(text) == "1" <==> IsOne(text)
  {
    hide Strip, Around;
    StripSplits(text);
    if p, q :| Around(text, p, q) && Inside(text, p, q) == "1" {
      AroundFits(text, p, q);
      CutIsStripped(text, p, q);
    }
  }

  // ---- Application state ----

  /** One wiring of durable storage: which of its workers run inline, whether the guest
      recovery hook is configured, and the backup service a native station builds. */
  datatype Wiring = Wiring(inline: bool, supervisors: seq<bool>, guest: bool, backup: Option<nat>)

  datatype Worker = Worker(wiring: nat, index: nat)
  datatype Bound = Bound(worker: Worker, enabled: bool)
  datatype Kind = CaptionTier | Reconcile | Guest
  datatype Hook = Hook(wiring: nat, kind: Kind)

  datatype State = State(
    lifespan: bool,
    mode: Option<Mode>,
    storageActive: bool,
    history: seq<Wiring>,          // every wiring so far
    finalization: Option<Bound>,
    background: seq<Bound>,
    backup: Option<nat>,
    pending: seq<Hook>,
    launched: seq<Hook>,           // every hook launched so far
    registered: seq<Hook>,         // every hook appended so far
    running: set<Worker>,
    started: set<Worker>,          // every worker started so far
    backupRunning: set<nat>,
    backupStarted: set<nat>,
    youtubeRestored: bool)
  {
    predicate Holding(default: Mode)
    {
      (if mode.None? then default else mode.value).Frozen()
    }
  }

  const FRESH := State(false, None, false, [], None, [], None, [], [], [], {}, {}, {}, {}, false)

  function Enabled(ws: seq<Bound>): set<Worker> { set b | b in ws && b.enabled :: b.worker }
  function Workers(ws: seq<Bound>): set<Worker> { set b | b in ws :: b.worker }

  lemma NothingEnabled()
    ensures Enabled([]) == {} && Workers([]) == {}
  {
  }

  lemma Snoc(ws: seq<Bound>, i: nat)
    requires i < |ws|
    ensures Enabled(ws[..i + 1]) == Enabled(ws[..i]) + if ws[i].enabled then {ws[i].worker} else {}
    ensures Workers(ws[..i + 1]) == Workers(ws[..i]) + {ws[i].worker}
  {
    assert ws[..i + 1] == ws[..i] + [ws[i]];
  }

  function FinalizationOf(n: nat, w: Wiring): Bound { Bound(Worker(n, 0), w.inline) }

  function BackgroundOf(n: nat, w: Wiring): seq<Bound>
  {
    seq(|w.supervisors|, i requires 0 <= i < |w.supervisors| => Bound(Worker(n, i + 1), w.supervisors[i]))
  }

  function LateHooks(n: nat, w: Wiring): seq<Hook>
  {
    [Hook(n, Reconcile)] + if w.guest then [Hook(n, Guest)] else []
  }

  function StartWorkers(s: State, ws: seq<Bound>): State
  {
    s.(running := s.running + Enabled(ws), started := s.started + Enabled(ws))
  }

  function MaybeStartFinalization(s: State): State
  {
    if s.finalization.None? || !s.lifespan || s.Holding(Normal) then s
    else StartWorkers(s, [s.finalization.value])
  }

  function Drain(s: State): State
  {
    s.(launched := s.launched + s.pending, pending := [])
  }

  function MaybeStartBackground(s: State): State
  {
    if !s.lifespan || s.Holding(Normal) then s else Drain(StartWorkers(s, s.background))
  }

  function Append(s: State, hooks: seq<Hook>): State
  {
    s.(pending := s.pending + hooks, registered := s.registered + hooks)
  }

  function StartBackup(s: State): State
  {
    if s.backup.None? then s
    else s.(backupRunning := s.backupRunning + {s.backup.value}, backupStarted := s.backupStarted + {s.backup.value})
  }

  function StopBackup(s: State): State
  {
    if s.backup.None? then s else s.(backupRunning := s.backupRunning - {s.backup.value})
  }

  /** `_wire_station_backup_service`; `built` is absent off a native station. */
  function Rebind(s: State, built: Option<nat>): State
  {
    if built.None? || s.backup == built then s
    else
      var s1 := StopBackup(s).(backup := built);
      if s1.lifespan && !s1.Holding(Unknown) then StartBackup(s1) else s1
  }

  /** `_wire_finalization_worker`, with the flag set just before it. */
  function WireFinalization(s: State, w: Wiring): State
  {
    MaybeStartFinalization(
      s.(storageActive := true, history := s.history + [w],
         finalization := Some(FinalizationOf(|s.history| + 1, w))))
  }

  /** `_wire_stage_f_workers`: the list is replaced, one hook is appended, then the drain. */
  function WireStageF(s: State, w: Wiring): State
  {
    var n := |s.history|;
    MaybeStartBackground(Append(s.(background := BackgroundOf(n, w)), [Hook(n, CaptionTier)]))
  }

  /** `_install_durable_store_wiring` */
  function Wire(s: State, w: Wiring): State
  {
    var t := WireStageF(WireFinalization(s, w), w);
    Rebind(Append(t, LateHooks(|t.history|, w)), w.backup)
  }

  /** `create_app`: storage is wired when it is configured at boot. */
  function Boot(storage: Option<Wiring>): State
  {
    if storage.Some? then Wire(FRESH, storage.value) else FRESH
  }

  function LifespanStart(s: State, mode: Mode): State
  {
    var s1 := MaybeStartBackground(MaybeStartFinalization(s.(lifespan := true, mode := Some(mode))));
    if mode.Frozen() then s1 else StartBackup(s1.(youtubeRestored := true))
  }

  function LifespanStop(s: State): State
  {
    var s1 := StopBackup(s.(lifespan := false));
    var f := if s1.finalization.Some? then {s1.finalization.value.worker} else {};
    s1.(running := s1.running - f - Workers(s1.background))
  }

  /** `_sync_durable_storage`; `found` is the storage it would find now, if any. */
  function Sync(s: State, found: Option<Wiring>): State
  {
    if s.storageActive || found.None? then s else Wire(s, found.value)
  }

  // ---- Requests ----

  datatype Layer = SecurityHeaders | StaffAuth | MaintenanceGuard | TvCors | Cors | AnalyticsLimit | StorageSync

  /** Both ways of registering a middleware put it in front of those already there. */
  function Register(stack: seq<Layer>, layer: Layer): seq<Layer> { [layer] + stack }

  function Stack(cors: bool): seq<Layer>
  {
    var inner := Register(Register(Register(Register([], SecurityHeaders), StaffAuth), MaintenanceGuard), TvCors);
    Register(Register(if cors then Register(inner, Cors) else inner, AnalyticsLimit), StorageSync)
  }

  /** A request, with what each layer it may meet would decide about it. */
  datatype Request = Request(
    verb: string, preflight: bool, analyticsRefused: bool, authRejected: bool,
    storage: Option<Wiring>, activates: Option<Wiring>)

  predicate Mutating(verb: string) { verb in {"POST", "PUT", "PATCH", "DELETE"} }

  predicate Answers(layer: Layer, s: State, r: Request)
  {
    match layer
    case AnalyticsLimit => r.analyticsRefused
    case Cors => r.verb == "OPTIONS" && r.preflight
    case MaintenanceGuard => s.Holding(Normal) && Mutating(r.verb)
    case StaffAuth => r.authRejected
    case _ => false
  }

  /** What is left of the state once the request has come back from `layers` and, if no
      layer answered it, from its handler; and the layers it met. */
  datatype Trip = Trip(state: State, met: seq<Layer>, handled: bool)

  function Descend(layers: seq<Layer>, s: State, r: Request): Trip
  {
    if layers == [] then
      Trip(if r.activates.Some? then Wire(s, r.activates.value) else s, [], true)
    else
      var s1 := if layers[0] in {StorageSync, StaffAuth} then Sync(s, r.storage) else s;
      if Answers(layers[0], s1, r) then Trip(s1, [layers[0]], false)
      else
        var rest := Descend(layers[1..], s1, r);
        Trip(rest.state, [layers[0]] + rest.met, rest.handled)
  }

  function Serve(cors: bool, s: State, r: Request): Trip { Descend(Stack(cors), s, r) }

  /** The state after boot, start and a sequence of requests. */
  function Serving(cors: bool, boot: Option<Wiring>, mode: Mode, requests: seq<Request>): State
  {
    if requests == [] then LifespanStart(Boot(boot), mode)
    else
      var n := |requests| - 1;
      Serve(cors, Serving(cors, boot, mode, requests[..n]), requests[n]).state
  }

  ghost function Overdue(finishes: Hook -> bool, hooks: seq<Hook>): nat
  {
    if hooks == [] then 0 else (if finishes(hooks[0]) then 0 else 1) + Overdue(finishes, hooks[1..])
  }

  // ---- The application object ----

  /** `app.state` and the functions that update it, each against its specification above. */
  class App {
    var lifespan: bool
    var mode: Option<Mode>
    var storageActive: bool
    var history: seq<Wiring>
    var finalization: Option<Bound>
    var background: seq<Bound>
    var backup: Option<nat>
    var hooks: seq<Hook>
    var launched: seq<Hook>
    var registered: seq<Hook>
    var running: set<Worker>
    var started: set<Worker>
    var backupRunning: set<nat>
    var backupStarted: set<nat>
    var youtubeRestored: bool

    function View(): State
      reads this
    {
      State(lifespan, mode, storageActive, history, finalization, background, backup, hooks, launched,
            registered, running, started, backupRunning, backupStarted, youtubeRestored)
    }

    constructor Create(storage: Option<Wiring>, finishes: Hook -> bool)
      ensures View() == Boot(storage)
    {
      lifespan, mode, storageActive, history := false, None, false, [];
      finalization, background, backup := None, [], None;
      hooks, launched, registered := [], [], [];
      running, started, backupRunning, backupStarted, youtubeRestored := {}, {}, {}, {}, false;
      new;
      if storage.Some? { InstallDurableStoreWiring(storage.value, finishes); }
    }

    method StartAll(ws: seq<Bound>)
      modifies this`running, this`started
      ensures View() == StartWorkers(old(View()), ws)
    {
      NothingEnabled();
      hide Enabled;
      for i := 0 to |ws|
        invariant View() == StartWorkers(old(View()), ws[..i])
      {
        Snoc(ws, i);
        if ws[i].enabled {
          running, started := running + {ws[i].worker}, started + {ws[i].worker};
        }
      }
      assert ws[..|ws|] == ws;
    }

    method MaybeStartFinalizationWorker()
      modifies this`running, this`started
      ensures View() == MaybeStartFinalization(old(View()))
    {
      if finalization.None? || !lifespan { return; }
      if (if mode.None? then Normal else mode.value).Frozen() { return; }
      StartAll([finalization.value]);
    }

    /** The drain ends however many of the hooks never finish, and reports those. */
    method DrainHooks(finishes: Hook -> bool) returns (overdue: nat)
      modifies this`hooks, this`launched
      ensures View() == Drain(old(View()))
      ensures overdue == Overdue(finishes, old(hooks))
    {
      overdue := 0;
      while hooks != []
        invariant launched + hooks == old(launched + hooks)
        invariant overdue + Overdue(finishes, hooks) == Overdue(finishes, old(hooks))
        decreases |hooks|
      {
        var hook := hooks[0];
        hooks := hooks[1..];
        launched := launched + [hook];
        if !finishes(hook) { overdue := overdue + 1; }
      }
      assert launched + hooks == launched;
    }

    method MaybeStartBackgroundSupervisors(finishes: Hook -> bool)
      modifies this`running, this`started, this`hooks, this`launched
      ensures View() == MaybeStartBackground(old(View()))
    {
      hide StartWorkers, Drain;
      if !lifespan { return; }
      if (if mode.None? then Normal else mode.value).Frozen() { return; }
      StartAll(background);
      var overdue := DrainHooks(finishes);
    }

    method WireStationBackupService(built: Option<nat>)
      modifies this`backup, this`backupRunning, this`backupStarted
      ensures View() == Rebind(old(View()), built)
    {
      if built.None? || backup == built { return; }
      if backup.Some? { backupRunning := backupRunning - {backup.value}; }
      backup := built;
      if lifespan && !(if mode.None? then Unknown else mode.value).Frozen() {
        StartBackupWorker();
      }
    }

    method WireFinalizationWorker(w: Wiring)
      modifies this
      ensures View() == WireFinalization(old(View()), w)
    {
      hide MaybeStartFinalization, FinalizationOf;
      storageActive := true;
      history := history + [w];
      finalization := Some(FinalizationOf(|history|, w));
      MaybeStartFinalizationWorker();
    }

    method WireStageFWorkers(w: Wiring, finishes: Hook -> bool)
      modifies this
      ensures View() == WireStageF(old(View()), w)
    {
      hide MaybeStartBackground, BackgroundOf;
      background := BackgroundOf(|history|, w);
      AppendHooks([Hook(|history|, CaptionTier)]);
      MaybeStartBackgroundSupervisors(finishes);
    }

    method AppendHooks(more: seq<Hook>)
      modifies this`hooks, this`registered
      ensures View() == Append(old(View()), more)
    {
      hooks, registered := hooks + more, registered + more;
    }

    method InstallDurableStoreWiring(w: Wiring, finishes: Hook -> bool)
      modifies this
      ensures View() == Wire(old(View()), w)
    {
      hide WireFinalization, WireStageF, Append, Rebind, LateHooks;
      WireFinalizationWorker(w);
      WireStageFWorkers(w, finishes);
      assert history == View().history;
      AppendHooks(LateHooks(|history|, w));
      WireStationBackupService(w.backup);
    }

    method StartBackupWorker()
      modifies this`backupRunning, this`backupStarted
      ensures View() == StartBackup(old(View()))
    {
      if backup.Some? {
        backupRunning, backupStarted := backupRunning + {backup.value}, backupStarted + {backup.value};
      }
    }

    method SyncDurableStorage(found: Option<Wiring>, finishes: Hook -> bool)
      modifies this
      ensures View() == Sync(old(View()), found)
    {
      if storageActive || found.None? { return; }
      InstallDurableStoreWiring(found.value, finishes);
    }

    method EnterLifespan(raw: Option<string>, contract: Option<string>, finishes: Hook -> bool)
      modifies this
      ensures View() == LifespanStart(old(View()), SupervisorMode(raw, contract))
    {
      hide MaybeStartFinalization, MaybeStartBackground, SupervisorMode, StartBackup, Mode.Frozen;
      var resolved := SupervisorMode(raw, contract);
      lifespan, mode := true, Some(resolved);
      MaybeStartFinalizationWorker();
      MaybeStartBackgroundSupervisors(finishes);
      if !resolved.Frozen() { RestoreAndBackUp(); }
    }

    method RestoreAndBackUp()
      modifies this`youtubeRestored, this`backupRunning, this`backupStarted
      ensures View() == StartBackup(old(View()).(youtubeRestored := true))
    {
      youtubeRestored := true;
      StartBackupWorker();
    }

    /** A request on its way through the layers. */
    method Handle(layers: seq<Layer>, r: Request, finishes: Hook -> bool) returns (met: seq<Layer>, handled: bool)
      modifies this
      ensures Trip(View(), met, handled) == Descend(layers, old(View()), r)
      decreases |layers|
    {
      hide Sync, Wire, Answers;
      if layers == [] {
        if r.activates.Some? { InstallDurableStoreWiring(r.activates.value, finishes); }
        return [], true;
      }
      if layers[0] in {StorageSync, StaffAuth} { SyncDurableStorage(r.storage, finishes); }
      if Answers(layers[0], View(), r) { return [layers[0]], false; }
      met, handled := Handle(layers[1..], r, finishes);
      met := [layers[0]] + met;
    }

    method Answer(cors: bool, r: Request, finishes: Hook -> bool) returns (met: seq<Layer>, handled: bool)
      modifies this
      ensures Trip(View(), met, handled) == Serve(cors, old(View()), r)
    {
      hide Descend, Stack;
      met, handled := Handle(Stack(cors), r, finishes);
    }

    method StopAll(ws: seq<Bound>)
      modifies this`running
      ensures running == old(running) - Workers(ws)
    {
      NothingEnabled();
      for i := 0 to |ws|
        invariant running == old(running) - Workers(ws[..i])
      {
        Snoc(ws, i);
        running := running - {ws[i].worker};
      }
      assert ws[..|ws|] == ws;
    }

    method ExitLifespan()
      modifies this
      ensures View() == LifespanStop(old(View()))
    {
      hide Workers;
      lifespan := false;
      if backup.Some? { backupRunning := backupRunning - {backup.value}; }
      if finalization.Some? { running := running - {finalization.value.worker}; }
      StopAll(background);
    }
  }

  // ---- What every step keeps ----

  /** The hooks that a history of wirings has appended, in order. */
  ghost function HooksOf(h: seq<Wiring>): seq<Hook>
  {
    if h == [] then []
    else HooksOf(h[..|h| - 1]) + [Hook(|h|, CaptionTier)] + LateHooks(|h|, h[|h| - 1])
  }

  /** The workers of one wiring, and of every wiring, that are meant to run. */
  ghost function EnabledOf(n: nat, w: Wiring): set<Worker>
  {
    Enabled([FinalizationOf(n, w)]) + Enabled(BackgroundOf(n, w))
  }

  ghost function AllEnabled(h: seq<Wiring>): set<Worker>
  {
    if h == [] then {} else AllEnabled(h[..|h| - 1]) + EnabledOf(|h|, h[|h| - 1])
  }

  ghost predicate BoundToLast(s: State)
  {
    if s.history == [] then s.finalization == None && s.background == []
    else
      var n := |s.history|;
      && s.finalization == Some(FinalizationOf(n, s.history[n - 1]))
      && s.background == BackgroundOf(n, s.history[n - 1])
  }

  ghost predicate Consistent(s: State)
  {
    && (s.storageActive <==> s.history != [])
    && BoundToLast(s)
    && s.registered == HooksOf(s.history)
    && s.launched + s.pending == s.registered
  }

  /** Nothing has ever been started. */
  ghost predicate Idle(s: State)
  {
    && s.running == {} && s.started == {} && s.backupRunning == {} && s.backupStarted == {}
    && s.launched == [] && !s.youtubeRestored
  }

  ghost predicate Held(s: State)
  {
    s.lifespan && s.mode.Some? && s.mode.value.Frozen() && Idle(s) && Consistent(s)
  }

  /** Serving normally: everything that was ever enabled runs, the bound backup service and
      no other runs, and only the hooks appended behind the last drain wait. */
  ghost predicate Live(s: State, wiredAtBoot: nat)
  {
    && s.lifespan && s.mode == Some(Normal) && s.youtubeRestored && Consistent(s)
    && s.running == AllEnabled(s.history)
    && s.backupRunning == Bound1(s.backup)
    && wiredAtBoot <= |s.history|
    && s.pending == if |s.history| == wiredAtBoot then [] else LateHooks(|s.history|, s.history[|s.history| - 1])
  }

  ghost predicate Going(s: State) { s.lifespan && !s.Holding(Normal) }

  lemma RebindKeeps(s: State, built: Option<nat>)
    ensures var t := Rebind(s, built);
            t == s.(backup := t.backup, backupRunning := t.backupRunning, backupStarted := t.backupStarted)
  {
  }

  /** One wiring, field by field. */
  lemma WireFields(s: State, w: Wiring)
    ensures var t, n := Wire(s, w), |s.history| + 1;
            var added := if Going(s) then EnabledOf(n, w) else {};
            && t.lifespan == s.lifespan && t.mode == s.mode && t.youtubeRestored == s.youtubeRestored
            && t.storageActive && t.history == s.history + [w]
            && t.finalization == Some(FinalizationOf(n, w)) && t.background == BackgroundOf(n, w)
            && t.running == s.running + added && t.started == s.started + added
  {
    hide Enabled, BackgroundOf, LateHooks, Rebind, FinalizationOf;
    var t := WireStageF(WireFinalization(s, w), w);
    RebindKeeps(Append(t, LateHooks(|t.history|, w)), w.backup);
  }

  lemma WireHookFields(s: State, w: Wiring)
    ensures var t, n := Wire(s, w), |s.history| + 1;
            && t.registered == s.registered + ([Hook(n, CaptionTier)] + LateHooks(n, w))
            && t.launched == (if Going(s) then s.launched + (s.pending + [Hook(n, CaptionTier)]) else s.launched)
            && t.pending == (if Going(s) then LateHooks(n, w) else s.pending + [Hook(n, CaptionTier)] + LateHooks(n, w))
  {
    hide Enabled, BackgroundOf, LateHooks, Rebind, FinalizationOf;
    var n := |s.history| + 1;
    var t := WireStageF(WireFinalization(s, w), w);
    RebindKeeps(Append(t, LateHooks(|t.history|, w)), w.backup);
    assert s.registered + [Hook(n, CaptionTier)] + LateHooks(n, w)
        == s.registered + ([Hook(n, CaptionTier)] + LateHooks(n, w));
    assert [] + LateHooks(n, w) == LateHooks(n, w);
  }

  lemma WireBackupFields(s: State, w: Wiring)
    requires s.mode.Some?
    ensures var t := Wire(s, w);
            && t.backup == (if w.backup.None? then s.backup else w.backup)
            && (Going(s) && s.backupRunning == Bound1(s.backup) ==> t.backupRunning == Bound1(t.backup))
            && (!Going(s) ==> t.backupRunning <= s.backupRunning && t.backupStarted == s.backupStarted)
  {
    hide Enabled, BackgroundOf, LateHooks;
  }

  ghost function Bound1(backup: Option<nat>): set<nat> { if backup.None? then {} else {backup.value} }

  /** Rebinding: nothing at all for the same service; otherwise the old one is stopped, and the
      new one is started exactly in a lifespan known to be normal. */
  lemma RebindExactly(s: State, built: Option<nat>)
    ensures built.None? || built == s.backup ==> Rebind(s, built) == s
    ensures built.Some? && built != s.backup ==>
              var t, started := Rebind(s, built), if s.lifespan && s.mode == Some(Normal) then {built.value} else {};
              && t.backup == built
              && t.backupRunning == s.backupRunning - Bound1(s.backup) + started
              && t.backupStarted == s.backupStarted + started
  {
  }

  lemma WireHooks(s: State, w: Wiring)
    requires Consistent(s)
    ensures Consistent(Wire(s, w))
  {
    hide Wire, Enabled, EnabledOf, BackgroundOf, FinalizationOf, LateHooks;
    WireFields(s, w);
    WireHookFields(s, w);
    var t, h := Wire(s, w), s.history + [w];
    var n := |h|;
    assert h[..n - 1] == s.history && h[n - 1] == w;
    var late := [Hook(n, CaptionTier)] + LateHooks(n, w);
    assert HooksOf(h) == HooksOf(s.history) + late;
    Regroup(s.launched, s.pending, [Hook(n, CaptionTier)], LateHooks(n, w));
  }

  lemma Regroup(a: seq<Hook>, b: seq<Hook>, c: seq<Hook>, d: seq<Hook>)
    ensures a + (b + c + d) == a + b + (c + d) && a + (b + c) + d == a + b + (c + d)
  {
  }

  lemma WireHeld(s: State, w: Wiring)
    requires Held(s)
    ensures Held(Wire(s, w))
  {
    hide Wire, Enabled, BackgroundOf, LateHooks, Consistent;
    WireFields(s, w);
    WireHookFields(s, w);
    WireBackupFields(s, w);
    WireHooks(s, w);
  }

  lemma WireLive(s: State, w: Wiring, wiredAtBoot: nat)
    requires Live(s, wiredAtBoot)
    ensures Live(Wire(s, w), wiredAtBoot)
  {
    hide Wire, EnabledOf, LateHooks, Consistent;
    WireFields(s, w);
    WireHookFields(s, w);
    WireBackupFields(s, w);
    WireHooks(s, w);
    var h := s.history + [w];
    assert h[..|h| - 1] == s.history && h[|h| - 1] == w;
  }

  // ---- From steps to runs ----

  /** What wiring keeps, a request keeps, whichever layer answers it. */
  lemma {:induction false} DescendKeeps(P: State -> bool, layers: seq<Layer>, s: State, r: Request)
    requires P(s) && forall t, w :: P(t) ==> P(Wire(t, w))
    ensures P(Descend(layers, s, r).state)
  {
    if layers != [] {
      var s1 := if layers[0] in {StorageSync, StaffAuth} then Sync(s, r.storage) else s;
      if !Answers(layers[0], s1, r) { DescendKeeps(P, layers[1..], s1, r); }
    }
  }

  lemma {:induction false} ServingKeeps(P: State -> bool, cors: bool, boot: Option<Wiring>, mode: Mode,
                                        requests: seq<Request>)
    requires P(LifespanStart(Boot(boot), mode)) && forall t, w :: P(t) ==> P(Wire(t, w))
    ensures P(Serving(cors, boot, mode, requests))
  {
    if requests != [] {
      var n := |requests| - 1;
      ServingKeeps(P, cors, boot, mode, requests[..n]);
      DescendKeeps(P, Stack(cors), Serving(cors, boot, mode, requests[..n]), requests[n]);
    }
  }

  lemma BootConsistent(boot: Option<Wiring>)
    ensures Consistent(Boot(boot)) && Idle(Boot(boot)) && !Boot(boot).lifespan
    ensures Boot(boot).history == if boot.Some? then [boot.value] else []
  {
    hide LateHooks, EnabledOf;
    if boot.Some? {
      WireHooks(FRESH, boot.value);
      WireFields(FRESH, boot.value);
      WireHookFields(FRESH, boot.value);
    }
  }

  ghost function WiredAtBoot(boot: Option<Wiring>): nat { if boot.Some? then 1 else 0 }

  /** Starting normally on a consistent, idle application. */
  lemma StartFields(s: State)
    requires Consistent(s) && Idle(s) && s.mode == None && !s.lifespan && |s.history| <= 1
    ensures Live(LifespanStart(s, Normal), |s.history|)
  {
    hide LateHooks, BackgroundOf, Enabled, HooksOf;
    var t := LifespanStart(s, Normal);
    assert t.launched + t.pending == s.launched + s.pending;
    NothingEnabled();
    if s.history != [] {
      assert s.history[..0] == [];
      assert AllEnabled(s.history) == {} + EnabledOf(1, s.history[0]);
    }
  }

  lemma StartLive(boot: Option<Wiring>)
    ensures Live(LifespanStart(Boot(boot), Normal), WiredAtBoot(boot))
  {
    BootConsistent(boot);
    if boot.Some? { WireFields(FRESH, boot.value); }
    StartFields(Boot(boot));
  }

  lemma StartHeld(boot: Option<Wiring>, mode: Mode)
    requires mode.Frozen()
    ensures Held(LifespanStart(Boot(boot), mode))
  {
    BootConsistent(boot);
  }

  // ---- The maintenance freeze ----

  /** One layer of the descent. */
  lemma Peel(layer: Layer, rest: seq<Layer>, s: State, r: Request)
    ensures var s1 := if layer in {StorageSync, StaffAuth} then Sync(s, r.storage) else s;
            var below := Descend(rest, s1, r);
            Descend([layer] + rest, s, r) ==
            if Answers(layer, s1, r) then Trip(s1, [layer], false)
            else Trip(below.state, [layer] + below.met, below.handled)
  {
    hide Sync, Wire;
    assert ([layer] + rest)[1..] == rest;
  }

  /** The layers under the two outermost ones and the optional cross-origin layer. */
  lemma InnerTrip(s: State, r: Request)
    ensures var trip := Descend([TvCors] + ([MaintenanceGuard] + ([StaffAuth] + [SecurityHeaders])), s, r);
            var held := s.Holding(Normal) && Mutating(r.verb);
            && (StaffAuth in trip.met <==> !held)
            && (trip.handled <==> !held && !r.authRejected)
            && MaintenanceGuard in trip.met
  {
    hide Sync, Wire, Descend, Mutating;
    Peel(TvCors, [MaintenanceGuard] + ([StaffAuth] + [SecurityHeaders]), s, r);
    Peel(MaintenanceGuard, [StaffAuth] + [SecurityHeaders], s, r);
    Peel(StaffAuth, [SecurityHeaders], s, r);
    var s1 := Sync(s, r.storage);
    Peel(SecurityHeaders, [], s1, r);
    assert [SecurityHeaders] + [] == [SecurityHeaders];
    Handler(s1, r);
  }

  lemma Handler(s: State, r: Request)
    ensures Descend([], s, r).handled && Descend([], s, r).met == []
  {
  }

  /** Which requests get through the stack, and which reach the staff-auth layer.  The guard
      is not the outermost layer: storage is synchronised, and an analytics body is read,
      before it is asked. */
  lemma PassesExactly(cors: bool, s: State, r: Request)
    ensures var trip := Serve(cors, s, r);
            var early := r.analyticsRefused || (cors && r.verb == "OPTIONS" && r.preflight);
            var held := s.Holding(Normal) && Mutating(r.verb);
            && (StaffAuth in trip.met <==> !early && !held)
            && (trip.handled <==> !early && !held && !r.authRejected)
            && (MaintenanceGuard in trip.met <==> !early)
            && |trip.met| >= 2 && trip.met[0] == StorageSync && trip.met[1] == AnalyticsLimit
  {
    hide Sync, Wire, Descend, Mutating;
    var s1 := Sync(s, r.storage);
    SyncKeepsMode(s, r.storage);
    var tv := [TvCors] + ([MaintenanceGuard] + ([StaffAuth] + [SecurityHeaders]));
    var below := if cors then [Cors] + tv else tv;
    assert Stack(cors) == [StorageSync] + ([AnalyticsLimit] + below);
    Peel(StorageSync, [AnalyticsLimit] + below, s, r);
    Peel(AnalyticsLimit, below, s1, r);
    CorsTrip(cors, s1, r);
  }

  lemma CorsTrip(cors: bool, s: State, r: Request)
    ensures var tv := [TvCors] + ([MaintenanceGuard] + ([StaffAuth] + [SecurityHeaders]));
            var trip := Descend(if cors then [Cors] + tv else tv, s, r);
            var preflight := cors && r.verb == "OPTIONS" && r.preflight;
            var held := s.Holding(Normal) && Mutating(r.verb);
            && (StaffAuth in trip.met <==> !preflight && !held)
            && (MaintenanceGuard in trip.met <==> !preflight)
            && (trip.handled <==> !preflight && !held && !r.authRejected)
  {
    hide Sync, Wire, Descend, Mutating;
    InnerTrip(s, r);
    if cors { Peel(Cors, [TvCors] + ([MaintenanceGuard] + ([StaffAuth] + [SecurityHeaders])), s, r); }
  }

  lemma SyncKeepsMode(s: State, found: Option<Wiring>)
    ensures Sync(s, found).mode == s.mode
  {
    hide Wire;
    if found.Some? { WireFields(s, found.value); }
  }

  // ---- What gets wired ----

  lemma {:induction false} DescendWires(layers: seq<Layer>, s: State, r: Request)
    ensures var trip := Descend(layers, s, r);
            var found := !s.storageActive && (StorageSync in trip.met || StaffAuth in trip.met);
            trip.state.history == s.history + Given(found, r.storage) + Given(trip.handled, r.activates)
  {
    hide Wire, Answers;
    if layers == [] {
      if r.activates.Some? { WireFields(s, r.activates.value); }
    } else {
      var s1 := if layers[0] in {StorageSync, StaffAuth} then Sync(s, r.storage) else s;
      if r.storage.Some? { WireFields(s, r.storage.value); }
      if !Answers(layers[0], s1, r) { DescendWires(layers[1..], s1, r); }
    }
  }

  ghost function Given(when_: bool, w: Option<Wiring>): seq<Wiring>
  {
    if when_ && w.Some? then [w.value] else []
  }

  /** What one request wires: storage it finds while none is active, then what its handler
      activates, if it gets there. */
  lemma RequestWires(cors: bool, s: State, r: Request)
    ensures var trip := Serve(cors, s, r);
            trip.state.history == s.history + Given(!s.storageActive, r.storage) + Given(trip.handled, r.activates)
  {
    hide Descend, Given;
    DescendWires(Stack(cors), s, r);
    PassesExactly(cors, s, r);
  }

  /** Whether a request reaches its handler, from the request and the mode alone. */
  ghost predicate Passes(cors: bool, frozen: bool, r: Request)
  {
    && !r.analyticsRefused && !(cors && r.verb == "OPTIONS" && r.preflight)
    && !(frozen && Mutating(r.verb)) && !r.authRejected
  }

  ghost function WiringsOf(cors: bool, boot: Option<Wiring>, frozen: bool, requests: seq<Request>): seq<Wiring>
  {
    if requests == [] then Given(true, boot)
    else
      var n := |requests| - 1;
      var h, r := WiringsOf(cors, boot, frozen, requests[..n]), requests[n];
      h + Given(h == [], r.storage) + Given(Passes(cors, frozen, r), r.activates)
  }

  /** Over every run: what has been wired, from the requests alone. */
  lemma {:induction false} WiredExactly(cors: bool, boot: Option<Wiring>, mode: Mode, requests: seq<Request>)
    ensures Serving(cors, boot, mode, requests).history == WiringsOf(cors, boot, mode.Frozen(), requests)
  {
    hide LifespanStart, Boot, Wire, Serve, Given, Mutating;
    if requests == [] {
      StartWires(boot, mode);
    } else {
      var n := |requests| - 1;
      var s := Serving(cors, boot, mode, requests[..n]);
      WiredExactly(cors, boot, mode, requests[..n]);
      ModeStays(cors, boot, mode, requests[..n]);
      RequestWires(cors, s, requests[n]);
      PassesExactly(cors, s, requests[n]);
    }
  }

  lemma StartWires(boot: Option<Wiring>, mode: Mode)
    ensures var s := LifespanStart(Boot(boot), mode);
            && s.history == Given(true, boot) && s.mode == Some(mode)
            && (s.storageActive <==> s.history != [])
  {
    hide Wire;
    BootConsistent(boot);
  }

  lemma ModeStays(cors: bool, boot: Option<Wiring>, mode: Mode, requests: seq<Request>)
    ensures var s := Serving(cors, boot, mode, requests);
            s.mode == Some(mode) && (s.storageActive <==> s.history != [])
  {
    hide Wire, Serving, LifespanStart, Boot;
    var P := (t: State) => t.mode == Some(mode) && (t.storageActive <==> t.history != []);
    forall t, w | P(t) ensures P(Wire(t, w)) { WireFields(t, w); }
    StartWires(boot, mode);
    ServingKeeps(P, cors, boot, mode, requests);
  }

  /** Over every run whose mode is maintenance or unknown: nothing is ever started, every
      hook stays pending, no mutating request reaches the staff-auth layer or a handler, and
      every other request gets as far as it would in normal mode. */
  lemma FreezeHolds(cors: bool, boot: Option<Wiring>, mode: Mode, requests: seq<Request>)
    requires mode.Frozen()
    ensures var s := Serving(cors, boot, mode, requests);
            && Idle(s) && s.pending == HooksOf(s.history)
            && (forall r: Request :: r.verb in {"POST", "PUT", "PATCH", "DELETE"} ==>
                  !Serve(cors, s, r).handled && StaffAuth !in Serve(cors, s, r).met)
            && (forall r: Request :: r.verb !in {"POST", "PUT", "PATCH", "DELETE"} ==>
                  (Serve(cors, s, r).handled <==> Passes(cors, false, r)))
  {
    hide Wire, Serving, Serve, Boot, LifespanStart;
    var P := (t: State) => Held(t);
    forall t, w | P(t) ensures P(Wire(t, w)) { WireHeld(t, w); }
    StartHeld(boot, mode);
    ServingKeeps(P, cors, boot, mode, requests);
    var s := Serving(cors, boot, mode, requests);
    assert s.launched + s.pending == s.pending;
    forall r: Request
      ensures Mutating(r.verb) ==> !Serve(cors, s, r).handled && StaffAuth !in Serve(cors, s, r).met
      ensures !Mutating(r.verb) ==> (Serve(cors, s, r).handled <==> Passes(cors, false, r))
    {
      PassesExactly(cors, s, r);
    }
  }

  /** Over every normal run, at every point of it. */
  lemma NormalServes(cors: bool, boot: Option<Wiring>, requests: seq<Request>)
    ensures Live(Serving(cors, boot, Normal, requests), WiredAtBoot(boot))
  {
    hide Wire, Serving, Boot, LifespanStart, Live;
    var n := WiredAtBoot(boot);
    var P := (t: State) => Live(t, n);
    forall t, w | P(t) ensures P(Wire(t, w)) { WireLive(t, w, n); }
    StartLive(boot);
    ServingKeeps(P, cors, boot, Normal, requests);
  }

  // ---- Startup hooks ----

  ghost predicate NoDuplicates<T(!new)>(q: seq<T>)
  {
    forall i, j :: 0 <= i < j < |q| ==> q[i] != q[j]
  }

  lemma {:induction false} HooksOfDistinct(h: seq<Wiring>)
    ensures NoDuplicates(HooksOf(h))
    ensures forall i :: 0 <= i < |HooksOf(h)| ==> HooksOf(h)[i].wiring <= |h|
  {
    if h != [] { HooksOfDistinct(h[..|h| - 1]); }
  }

  /** At every point of every run the launched hooks, then the pending ones, are all that
      were registered, each once; a normal run that wires nothing after boot has launched
      them all, and one that does leaves pending exactly those appended behind the drain
      of its last wiring. */
  lemma HooksConserved(cors: bool, boot: Option<Wiring>, mode: Mode, requests: seq<Request>)
    ensures var s := Serving(cors, boot, mode, requests);
            && s.launched + s.pending == HooksOf(s.history)
            && NoDuplicates(s.launched + s.pending)
            && (mode.Frozen() ==> s.launched == [])
            && (mode == Normal ==> WiredAtBoot(boot) <= |s.history|)
            && (mode == Normal && |s.history| == WiredAtBoot(boot) ==> s.pending == [])
            && (mode == Normal && |s.history| > WiredAtBoot(boot) ==>
                  s.pending == LateHooks(|s.history|, s.history[|s.history| - 1]))
  {
    hide Serving, HooksOf, LateHooks;
    var s := Serving(cors, boot, mode, requests);
    if mode.Frozen() { FreezeHolds(cors, boot, mode, requests); } else { NormalServes(cors, boot, requests); }
    HooksOfDistinct(s.history);
    if mode.Frozen() { assert s.launched + s.pending == s.pending; }
  }

  // ---- Leaving the lifespan ----

  ghost predicate RunsNothing(w: Wiring) { !w.inline && true !in w.supervisors }

  lemma EnabledOfEmpty(n: nat, w: Wiring)
    ensures EnabledOf(n, w) == {} <==> RunsNothing(w)
  {
    var f, q := FinalizationOf(n, w), BackgroundOf(n, w);
    if w.inline { assert f in [f] && f.worker in Enabled([f]); }
    if i :| 0 <= i < |w.supervisors| && w.supervisors[i] { assert q[i] in q && q[i].worker in Enabled(q); }
    if RunsNothing(w) {
      assert forall b :: b in [f] ==> !b.enabled;
      assert forall b :: b in q ==> !b.enabled;
    }
  }

  lemma {:induction false} AllEnabledEmpty(h: seq<Wiring>)
    ensures AllEnabled(h) == {} <==> forall i :: 0 <= i < |h| ==> RunsNothing(h[i])
  {
    hide EnabledOf, RunsNothing;
    if h != [] {
      AllEnabledEmpty(h[..|h| - 1]);
      EnabledOfEmpty(|h|, h[|h| - 1]);
    }
  }

  lemma EnabledOfWiring(n: nat, w: Wiring)
    ensures forall x :: x in EnabledOf(n, w) ==> x.wiring == n
    ensures EnabledOf(n, w) <= {FinalizationOf(n, w).worker} + Workers(BackgroundOf(n, w))
    ensures forall x :: x in {FinalizationOf(n, w).worker} + Workers(BackgroundOf(n, w)) ==> x.wiring == n
  {
  }

  lemma {:induction false} AllEnabledWirings(h: seq<Wiring>)
    ensures forall x :: x in AllEnabled(h) ==> x.wiring <= |h|
  {
    hide EnabledOf;
    if h != [] {
      AllEnabledWirings(h[..|h| - 1]);
      EnabledOfWiring(|h|, h[|h| - 1]);
    }
  }

  /** Leaving a normal run stops the backup worker, and stops the workers of the last
      wiring only: those of every earlier wiring are left running. */
  lemma StopLeaves(cors: bool, boot: Option<Wiring>, requests: seq<Request>)
    ensures var s := Serving(cors, boot, Normal, requests);
            var t, n := LifespanStop(s), |s.history|;
            && t.backupRunning == {}
            && t.running == AllEnabled(if n == 0 then [] else s.history[..n - 1])
  {
    hide Serving, EnabledOf, HooksOf, LateHooks, BackgroundOf;
    var s := Serving(cors, boot, Normal, requests);
    NormalServes(cors, boot, requests);
    var h := s.history;
    if h != [] {
      EnabledOfWiring(|h|, h[|h| - 1]);
      AllEnabledWirings(h[..|h| - 1]);
    }
  }

  /** So a clean stop happens exactly when every wiring but the last had all its workers off,
      in particular when storage was wired at most once. */
  lemma StopIsCleanExactly(cors: bool, boot: Option<Wiring>, requests: seq<Request>)
    ensures var s := Serving(cors, boot, Normal, requests);
            LifespanStop(s).running == {} <==> forall i :: 0 <= i < |s.history| - 1 ==> RunsNothing(s.history[i])
  {
    hide Serving, AllEnabled, LifespanStop, RunsNothing;
    var h := Serving(cors, boot, Normal, requests).history;
    StopLeaves(cors, boot, requests);
    AllEnabledEmpty(if |h| == 0 then [] else h[..|h| - 1]);
  }

  /** The requests of one lifespan, one after another. */
  method ServeAll(app: App, cors: bool, ghost boot: Option<Wiring>, ghost mode: Mode,
                  requests: seq<Request>, finishes: Hook -> bool) returns (handled: seq<bool>)
    requires app.View() == LifespanStart(Boot(boot), mode)
    modifies app
    ensures app.View() == Serving(cors, boot, mode, requests)
    ensures |handled| == |requests|
    ensures mode.Frozen() ==> forall i :: 0 <= i < |requests| && Mutating(requests[i].verb) ==> !handled[i]
  {
    hide Descend, Stack, Serve, Serving, LifespanStart, Boot, Idle, App.View;
    handled := [];
    NoRequests(cors, boot, mode);
    assert requests[..0] == [];
    for i := 0 to |requests|
      invariant |handled| == i
      invariant app.View() == Serving(cors, boot, mode, requests[..i])
      invariant mode.Frozen() ==> forall j :: 0 <= j < i && Mutating(requests[j].verb) ==> !handled[j]
    {
      if mode.Frozen() { FreezeHolds(cors, boot, mode, requests[..i]); }
      assert requests[..i + 1][..i] == requests[..i];
      OneMore(cors, boot, mode, requests[..i + 1]);
      var met, done := app.Answer(cors, requests[i], finishes);
      handled := handled + [done];
    }
    assert requests[..|requests|] == requests;
  }

  /** A whole life of the application: boot, start, requests, stop. */
  method RunApp(cors: bool, boot: Option<Wiring>, raw: Option<string>, contract: Option<string>,
                requests: seq<Request>, finishes: Hook -> bool) returns (app: App, handled: seq<bool>)
    ensures fresh(app) && |handled| == |requests| && !app.lifespan
    ensures SupervisorMode(raw, contract).Frozen() ==>
              Idle(app.View()) && forall i :: 0 <= i < |requests| && Mutating(requests[i].verb) ==> !handled[i]
    ensures !SupervisorMode(raw, contract).Frozen() ==>
              && app.backupRunning == {}
              && app.running == AllEnabled(if app.history == [] then [] else app.history[..|app.history| - 1])
    ensures app.launched + app.hooks == HooksOf(app.history)
  {
    hide Serving, SupervisorMode, LifespanStart, LifespanStop, Boot, HooksOf, AllEnabled, Mutating, Idle;
    ghost var mode := SupervisorMode(raw, contract);
    app := new App.Create(boot, finishes);
    app.EnterLifespan(raw, contract, finishes);
    handled := ServeAll(app, cors, boot, mode, requests, finishes);
    AfterStop(cors, boot, mode, requests);
    app.ExitLifespan();
  }

  lemma AfterStop(cors: bool, boot: Option<Wiring>, mode: Mode, requests: seq<Request>)
    ensures var t := LifespanStop(Serving(cors, boot, mode, requests));
            && !t.lifespan && t.launched + t.pending == HooksOf(t.history)
            && (mode.Frozen() ==> Idle(t))
            && (!mode.Frozen() ==>
                  && t.backupRunning == {}
                  && t.running == AllEnabled(if t.history == [] then [] else t.history[..|t.history| - 1]))
  {
    hide Serving, HooksOf, AllEnabled, Mutating, Workers;
    HooksConserved(cors, boot, mode, requests);
    if mode.Frozen() { FreezeHolds(cors, boot, mode, requests); } else { StopLeaves(cors, boot, requests); }
  }

  lemma NoRequests(cors: bool, boot: Option<Wiring>, mode: Mode)
    ensures Serving(cors, boot, mode, []) == LifespanStart(Boot(boot), mode)
  {
  }

  lemma OneMore(cors: bool, boot: Option<Wiring>, mode: Mode, requests: seq<Request>)
    requires requests != []
    ensures var n := |requests| - 1;
            Serving(cors, boot, mode, requests) ==
            Serve(cors, Serving(cors, boot, mode, requests[..n]), requests[n]).state
  {
  }

  /** A station wired at boot whose storage is repaired once keeps its first worker. */
  lemma RepairLeavesWorker(w: Wiring)
    requires w.inline
    ensures var repair := Request("POST", false, false, false, None, Some(w));
            var s := Serving(false, Some(w), Normal, [repair]);
            s.history == [w, w] && Worker(1, 0) in LifespanStop(s).running
  {
    hide Wire, LifespanStop, Descend, Serving;
    var repair := Request("POST", false, false, false, None, Some(w));
    OneRepair(w);
    StopLeaves(false, Some(w), [repair]);
    var f := FinalizationOf(1, w);
    assert [w, w][..1] == [w] && [w][..0] == [];
    assert f in [f] && f.worker in Enabled([f]);
  }

  lemma OneRepair(w: Wiring)
    ensures var repair := Request("POST", false, false, false, None, Some(w));
            Serving(false, Some(w), Normal, [repair]).history == [w, w]
  {
    hide Wire, Descend;
    var repair := Request("POST", false, false, false, None, Some(w));
    var s0 := LifespanStart(Boot(Some(w)), Normal);
    assert [repair][..0] == [];
    WireFields(FRESH, w);
    assert s0.history == [w] && s0.storageActive && s0.mode == Some(Normal);
    RepairTrip(s0, repair);
    WireFields(s0, w);
  }

  lemma RepairTrip(s: State, r: Request)
    requires !s.Holding(Normal) && r.activates.Some? && r.storage.None?
    requires !r.preflight && !r.analyticsRefused && !r.authRejected
    ensures Serve(false, s, r).state == Wire(s, r.activates.value)
  {
    hide Wire, Descend, Mutating;
    assert Stack(false) ==
           [StorageSync] + ([AnalyticsLimit] + ([TvCors] + ([MaintenanceGuard] + ([StaffAuth] + [SecurityHeaders]))));
    Peel(StorageSync, [AnalyticsLimit] + ([TvCors] + ([MaintenanceGuard] + ([StaffAuth] + [SecurityHeaders]))), s, r);
    Peel(AnalyticsLimit, [TvCors] + ([MaintenanceGuard] + ([StaffAuth] + [SecurityHeaders])), s, r);
    Peel(TvCors, [MaintenanceGuard] + ([StaffAuth] + [SecurityHeaders]), s, r);
    Peel(MaintenanceGuard, [StaffAuth] + [SecurityHeaders], s, r);
    Peel(StaffAuth, [SecurityHeaders], s, r);
    Peel(SecurityHeaders, [], s, r);
    assert [SecurityHeaders] + [] == [SecurityHeaders];
    HandlerWires(s, r);
  }

  lemma HandlerWires(s: State, r: Request)
    requires r.activates.Some?
    ensures Descend([], s, r).state == Wire(s, r.activates.value)
  {
  }

  /** The backup service that was built last. */
  ghost function LastBackup(h: seq<Wiring>): Option<nat>
  {
    if h == [] then None
    else if h[|h| - 1].backup.Some? then h[|h| - 1].backup
    else LastBackup(h[..|h| - 1])
  }

  lemma WireBinds(s: State, w: Wiring)
    requires s.backup == LastBackup(s.history)
    ensures Wire(s, w).backup == LastBackup(Wire(s, w).history)
  {
    hide Wire, Rebind, WireStageF, WireFinalization, LateHooks;
    WireFields(s, w);
    WireRebinds(s, w);
    var t, h := WireStageF(WireFinalization(s, w), w), s.history + [w];
    RebindExactly(Append(t, LateHooks(|t.history|, w)), w.backup);
    assert h[..|h| - 1] == s.history;
  }

  /** Over every run the bound backup service is the one that was built last. */
  lemma BackupIsLast(cors: bool, boot: Option<Wiring>, mode: Mode, requests: seq<Request>)
    ensures var s := Serving(cors, boot, mode, requests);
            s.backup == LastBackup(s.history)
  {
    hide Wire, Serving, LifespanStart, LastBackup;
    var P := (t: State) => t.backup == LastBackup(t.history);
    forall t, w | P(t) ensures P(Wire(t, w)) { WireBinds(t, w); }
    NothingBuilt();
    if boot.Some? { WireBinds(FRESH, boot.value); }
    StartBinds(Boot(boot), mode);
    ServingKeeps(P, cors, boot, mode, requests);
  }

  lemma NothingBuilt()
    ensures LastBackup([]) == None
  {
  }

  lemma StartBinds(s: State, mode: Mode)
    ensures LifespanStart(s, mode).backup == s.backup && LifespanStart(s, mode).history == s.history
  {
  }

  // ---- What was started and what was registered ----

  ghost predicate Noted(s: State) { s.running <= s.started && s.backupRunning <= s.backupStarted }

  lemma WireNotes(s: State, w: Wiring)
    requires Noted(s)
    ensures Noted(Wire(s, w))
  {
    hide Wire, Rebind, WireStageF, WireFinalization, EnabledOf, LateHooks;
    WireFields(s, w);
    WireRebinds(s, w);
    var t := WireStageF(WireFinalization(s, w), w);
    RebindExactly(Append(t, LateHooks(|t.history|, w)), w.backup);
  }

  lemma WireRebinds(s: State, w: Wiring)
    ensures var t := WireStageF(WireFinalization(s, w), w);
            && Wire(s, w) == Rebind(Append(t, LateHooks(|t.history|, w)), w.backup) && t.backup == s.backup
            && t.backupRunning == s.backupRunning && t.backupStarted == s.backupStarted
  {
    hide Enabled, BackgroundOf, LateHooks, Rebind, FinalizationOf;
  }

  /** Over every run whatever runs was started; so where nothing was started nothing runs. */
  lemma RunningWasStarted(cors: bool, boot: Option<Wiring>, mode: Mode, requests: seq<Request>)
    ensures Noted(Serving(cors, boot, mode, requests))
  {
    hide Wire, Serving, Boot, LifespanStart;
    var P := (t: State) => Noted(t);
    forall t, w | P(t) ensures P(Wire(t, w)) { WireNotes(t, w); }
    StartNotes(boot, mode);
    ServingKeeps(P, cors, boot, mode, requests);
  }

  lemma StartNotes(boot: Option<Wiring>, mode: Mode)
    ensures Noted(LifespanStart(Boot(boot), mode))
  {
    hide Boot, Enabled;
    BootConsistent(boot);
  }

  /** Every wiring registers the caption-tier and the reconcile hook, and the guest hook exactly
      if it is configured. */
  lemma {:induction false} RegisteredExactly(h: seq<Wiring>, hook: Hook)
    ensures hook in HooksOf(h) <==> 1 <= hook.wiring <= |h| && (hook.kind == Guest ==> h[hook.wiring - 1].guest)
  {
    if h != [] {
      var n := |h|;
      RegisteredExactly(h[..n - 1], hook);
      assert hook in HooksOf(h) <==>
             hook in HooksOf(h[..n - 1]) || hook == Hook(n, CaptionTier) || hook in LateHooks(n, h[n - 1]);
    }
  }
}
