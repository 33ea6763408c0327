/**
 The capture gate beside hot reloads and the tray's pause switch, in every interleaving. Each blocklist check of one gate
 decision loads the active list anew, so a reload can fall between any two of them.
 */
module Gate {
  import opened Wrappers
  import opened Blocklists

  const SENSITIVE_ROLES: set<string> := {"password", "spinbutton"}

  function ProcessOnly(process: string): Window { Window(process, "", "", "") }

  /** How far a gate decision has come; `all` are the background processes seen, `next` the first one not yet checked. */
  datatype Pc =
    | Idle
    | Querying
    | CheckingForeground(w: Window)
    | ListingBackground(w: Window)
    | CheckingBackground(w: Window, all: seq<string>, next: nat)
    | CheckingRole(w: Window, all: seq<string>)
    | CheckingPause(w: Window, all: seq<string>)
    | Blocked
    | Passed(w: Window, all: seq<string>)

  datatype State = State(active: Compiled, paused: bool, pc: Pc)

  datatype Step =
    | Reload(file: File)
    | Pause
    | Resume
    | Begin
    | QueryFails
    | QueryAnswers(w: Window)
    | Foreground
    | ListProcesses(processes: seq<string>)
    | Background
    | Role
    | ReadPause

  predicate Enabled(s: State, step: Step) {
    match step
    case Reload(_) => true
    case Pause => true
    case Resume => true
    case Begin => s.pc.Idle? || s.pc.Blocked? || s.pc.Passed?
    case QueryFails => s.pc.Querying?
    case QueryAnswers(_) => s.pc.Querying?
    case Foreground => s.pc.CheckingForeground?
    case ListProcesses(_) => s.pc.ListingBackground?
    case Background => s.pc.CheckingBackground?
    case Role => s.pc.CheckingRole?
    case ReadPause => s.pc.CheckingPause?
  }

  function Next(e: Engine, defaults: Compiled, s: State, step: Step): State
    requires Enabled(s, step)
  {
    match step
    case Reload(file) => s.(active := Reloaded(e, s.active, defaults, file))
    case Pause => s.(paused := true)
    case Resume => s.(paused := false)
    case Begin => s.(pc := Querying)
    case QueryFails => s.(pc := Blocked)
    case QueryAnswers(w) => s.(pc := CheckingForeground(w))
    case Foreground => s.(pc := if Blocks(e, s.active, s.pc.w) then Blocked else ListingBackground(s.pc.w))
    case ListProcesses(processes) => s.(pc := CheckingBackground(s.pc.w, processes, 0))
    case Background =>
      if s.pc.next >= |s.pc.all| then s.(pc := CheckingRole(s.pc.w, s.pc.all))
      else if Blocks(e, s.active, ProcessOnly(s.pc.all[s.pc.next])) then s.(pc := Blocked)
      else s.(pc := s.pc.(next := s.pc.next + 1))
    case Role => s.(pc := if s.pc.w.role in SENSITIVE_ROLES then Blocked else CheckingPause(s.pc.w, s.pc.all))
    case ReadPause => s.(pc := if s.paused then Blocked else Passed(s.pc.w, s.pc.all))
  }

  predicate AllEnabled(e: Engine, defaults: Compiled, s: State, run: seq<Step>)
    decreases |run|
  {
    run == [] || (Enabled(s, run[0]) && AllEnabled(e, defaults, Next(e, defaults, s, run[0]), run[1..]))
  }

  function After(e: Engine, defaults: Compiled, s: State, run: seq<Step>): State
    requires AllEnabled(e, defaults, s, run)
    decreases |run|
  {
    if run == [] then s else After(e, defaults, Next(e, defaults, s, run[0]), run[1..])
  }

  function Initial(defaults: Compiled): State { State(defaults, false, Idle) }

  ghost predicate CoversDefaults(e: Engine, defaults: Compiled, active: Compiled) {
    forall w :: Blocks(e, defaults, w) ==> Blocks(e, active, w)
  }

  ghost predicate Clear(e: Engine, defaults: Compiled, processes: seq<string>) {
    forall i :: 0 <= i < |processes| ==> !Blocks(e, defaults, ProcessOnly(processes[i]))
  }

  /** What a decision has already established against the defaults, whatever list was active at each check. */
  ghost predicate PcOk(e: Engine, defaults: Compiled, pc: Pc) {
    match pc
    case ListingBackground(w) => !Blocks(e, defaults, w)
    case CheckingBackground(w, all, next) => !Blocks(e, defaults, w) && next <= |all| && Clear(e, defaults, all[..next])
    case CheckingRole(w, all) => !Blocks(e, defaults, w) && Clear(e, defaults, all)
    case CheckingPause(w, all) => !Blocks(e, defaults, w) && Clear(e, defaults, all) && w.role !in SENSITIVE_ROLES
    case Passed(w, all) => !Blocks(e, defaults, w) && Clear(e, defaults, all) && w.role !in SENSITIVE_ROLES
    case _ => true
  }

  lemma ReloadCovers(e: Engine, defaults: Compiled, active: Compiled, file: File)
    requires CoversDefaults(e, defaults, active)
    ensures CoversDefaults(e, defaults, Reloaded(e, active, defaults, file))
  {
    hide Blocks, CompileConfig, Merged;
    if file.Parsed? && CompileConfig(e, file.cfg).Some? {
      var c := CompileConfig(e, file.cfg).value;
      forall w
        ensures Blocks(e, defaults, w) ==> Blocks(e, Merged(c, defaults), w)
      {
        MergedBlocks(e, c, defaults, w);
      }
    }
  }

  lemma StepKeepsInv(e: Engine, defaults: Compiled, s: State, step: Step)
    requires CoversDefaults(e, defaults, s.active) && PcOk(e, defaults, s.pc) && Enabled(s, step)
    ensures var t := Next(e, defaults, s, step);
            CoversDefaults(e, defaults, t.active) && PcOk(e, defaults, t.pc)
  {
    hide Blocks, Reloaded;
    match step
    case Reload(file) => ReloadCovers(e, defaults, s.active, file);
    case Background =>
      var all, next := s.pc.all, s.pc.next;
      if next >= |all| {
        assert all[..next] == all;
      } else {
        assert all[..next + 1] == all[..next] + [all[next]];
      }
    case _ =>
  }

  /**
   In every interleaving of decisions, reloads, pauses and resumes: a decision that passes was about a foreground window and
   background processes none of which the defaults block, and no sensitive input had the focus.
   */
  lemma {:induction false} GateNeverPassesDefaults(e: Engine, defaults: Compiled, s: State, run: seq<Step>)
    requires CoversDefaults(e, defaults, s.active) && PcOk(e, defaults, s.pc) && AllEnabled(e, defaults, s, run)
    ensures var t := After(e, defaults, s, run);
            && CoversDefaults(e, defaults, t.active)
            && (t.pc.Passed? ==> !Blocks(e, defaults, t.pc.w) && Clear(e, defaults, t.pc.all) && t.pc.w.role !in SENSITIVE_ROLES)
    decreases |run|
  {
    hide CoversDefaults, Next, Enabled, Blocks, Clear;
    if run != [] {
      StepKeepsInv(e, defaults, s, run[0]);
      GateNeverPassesDefaults(e, defaults, Next(e, defaults, s, run[0]), run[1..]);
    }
  }

  /** In particular from the start, when only the defaults are active and nothing has been decided. */
  lemma GateFromStart(e: Engine, defaults: Compiled, run: seq<Step>)
    requires AllEnabled(e, defaults, Initial(defaults), run)
    ensures var t := After(e, defaults, Initial(defaults), run);
            t.pc.Passed? ==> !Blocks(e, defaults, t.pc.w) && Clear(e, defaults, t.pc.all) && t.pc.w.role !in SENSITIVE_ROLES
  {
    assert CoversDefaults(e, defaults, Initial(defaults).active);
    hide CoversDefaults, Next, Enabled, Blocks, Clear;
    GateNeverPassesDefaults(e, defaults, Initial(defaults), run);
  }

  lemma {:induction false} RunConcat(e: Engine, defaults: Compiled, s: State, a: seq<Step>, b: seq<Step>)
    ensures AllEnabled(e, defaults, s, a + b)
       <==> AllEnabled(e, defaults, s, a) && AllEnabled(e, defaults, After(e, defaults, s, a), b)
    ensures AllEnabled(e, defaults, s, a + b) ==>
              After(e, defaults, s, a + b) == After(e, defaults, After(e, defaults, s, a), b)
    decreases |a|
  {
    hide Next, Enabled;
    if a == [] {
      assert a + b == b;
    } else {
      assert (a + b)[1..] == a[1..] + b;
      if Enabled(s, a[0]) {
        RunConcat(e, defaults, Next(e, defaults, s, a[0]), a[1..], b);
      }
    }
  }

  lemma OneStep(e: Engine, defaults: Compiled, s: State, step: Step)
    ensures AllEnabled(e, defaults, s, [step]) <==> Enabled(s, step)
    ensures Enabled(s, step) ==> After(e, defaults, s, [step]) == Next(e, defaults, s, step)
  {
    hide Next, Enabled;
    assert [step][1..] == [];
  }

  lemma LastStep(e: Engine, defaults: Compiled, s: State, run: seq<Step>)
    requires run != [] && AllEnabled(e, defaults, s, run)
    ensures var init, last := run[..|run| - 1], run[|run| - 1];
            && AllEnabled(e, defaults, s, init) && Enabled(After(e, defaults, s, init), last)
            && After(e, defaults, s, run) == Next(e, defaults, After(e, defaults, s, init), last)
  {
    hide Next, Enabled, AllEnabled, After;
    var init, last := run[..|run| - 1], run[|run| - 1];
    assert init + [last] == run;
    RunConcat(e, defaults, s, init, [last]);
    OneStep(e, defaults, After(e, defaults, s, init), last);
  }

  /** The files reloaded in a run, in order. */
  function ReloadsOf(run: seq<Step>): seq<File> {
    if run == [] then []
    else
      var last := run[|run| - 1];
      ReloadsOf(run[..|run| - 1]) + if last.Reload? then [last.file] else []
  }

  /** A pause is in force: no resume came after it. */
  predicate PauseInForce(run: seq<Step>) {
    exists i :: 0 <= i < |run| && run[i] == Pause && forall k :: i < k < |run| ==> run[k] != Resume
  }

  lemma PausedAt(run: seq<Step>, i: nat)
    requires i + 1 == |run| && run[i] == Pause
    ensures PauseInForce(run)
  {
  }

  lemma PauseLast(run: seq<Step>)
    requires run != []
    ensures var last := run[|run| - 1];
            PauseInForce(run) <==> last == Pause || (last != Resume && PauseInForce(run[..|run| - 1]))
  {
    var n := |run| - 1;
    var init := run[..n];
    if run[n] == Pause {
      PausedAt(run, n);
    } else if i :| 0 <= i < |run| && run[i] == Pause && forall k :: i < k < |run| ==> run[k] != Resume {
      assert init[i] == Pause && forall k :: i < k < n ==> init[k] == run[k];
    }
    if run[n] != Resume && PauseInForce(init) {
      var i :| 0 <= i < n && init[i] == Pause && forall k :: i < k < n ==> init[k] != Resume;
      assert run[i] == Pause;
      forall k | i < k < |run|
        ensures run[k] != Resume
      {
        assert k < n ==> run[k] == init[k];
      }
    }
  }

  /** What is in force after a run: the list of all its reloads, and the pause switch as it was last set. */
  lemma {:induction false} InForce(e: Engine, defaults: Compiled, run: seq<Step>)
    requires AllEnabled(e, defaults, Initial(defaults), run)
    ensures var t := After(e, defaults, Initial(defaults), run);
            t.active == ReloadedAll(e, defaults, defaults, ReloadsOf(run)) && (t.paused <==> PauseInForce(run))
    decreases |run|
  {
    hide Enabled, AllEnabled, Reloaded, ReloadedAll, Blocks, PauseInForce, Next;
    if run == [] {
      NothingInForce(e, defaults);
    } else {
      LastStep(e, defaults, Initial(defaults), run);
      hide After;
      var init, last := run[..|run| - 1], run[|run| - 1];
      InForce(e, defaults, init);
      PauseLast(run);
      StepInForce(e, defaults, After(e, defaults, Initial(defaults), init), last);
      ReloadedMore(e, defaults, ReloadsOf(init), last);
    }
  }

  lemma NothingInForce(e: Engine, defaults: Compiled)
    ensures !PauseInForce([]) && ReloadedAll(e, defaults, defaults, []) == defaults
  {
  }

  lemma StepInForce(e: Engine, defaults: Compiled, s: State, step: Step)
    requires Enabled(s, step)
    ensures var t := Next(e, defaults, s, step);
            && t.active == (if step.Reload? then Reloaded(e, s.active, defaults, step.file) else s.active)
            && (t.paused <==> step == Pause || (step != Resume && s.paused))
  {
    hide Reloaded, Blocks;
  }

  lemma ReloadedMore(e: Engine, defaults: Compiled, files: seq<File>, last: Step)
    ensures last.Reload? ==> ReloadedAll(e, defaults, defaults, files + [last.file])
                             == Reloaded(e, ReloadedAll(e, defaults, defaults, files), defaults, last.file)
    ensures files + [] == files
  {
    hide Reloaded;
    if last.Reload? {
      assert (files + [last.file])[..|files|] == files;
    }
  }

  // ---- What a decision was about ----

  predicate HasWindow(pc: Pc) { pc.CheckingForeground? || pc.ListingBackground? || HasProcesses(pc) }

  predicate HasProcesses(pc: Pc) { pc.CheckingBackground? || pc.CheckingRole? || pc.CheckingPause? || pc.Passed? }

  /** Step i is the last of its kind, and no decision began after it. */
  predicate LastAnswer(run: seq<Step>, i: nat) {
    && i < |run|
    && forall k :: i < k < |run| ==>
         !run[k].Begin? && !run[k].QueryAnswers? && (run[i].ListProcesses? ==> !run[k].ListProcesses?)
  }

  lemma AnswersStep(e: Engine, defaults: Compiled, s: State, step: Step)
    requires Enabled(s, step) && HasWindow(Next(e, defaults, s, step).pc)
    ensures var t := Next(e, defaults, s, step);
            && !step.Begin?
            && (if step.QueryAnswers? then step == QueryAnswers(t.pc.w) && !HasProcesses(t.pc)
                else HasWindow(s.pc) && t.pc.w == s.pc.w)
            && (if step.ListProcesses? then HasProcesses(t.pc) && step == ListProcesses(t.pc.all)
                else HasProcesses(t.pc) ==> HasProcesses(s.pc) && t.pc.all == s.pc.all)
  {
    hide Blocks, Reloaded;
  }

  /** A decision is about the window of the last query and the processes listed after it. */
  lemma {:induction false} AnswersInHand(e: Engine, defaults: Compiled, run: seq<Step>) returns (i: nat, j: nat)
    requires AllEnabled(e, defaults, Initial(defaults), run)
    requires HasWindow(After(e, defaults, Initial(defaults), run).pc)
    ensures var pc := After(e, defaults, Initial(defaults), run).pc;
            && LastAnswer(run, i) && run[i] == QueryAnswers(pc.w)
            && (HasProcesses(pc) ==> i < j && LastAnswer(run, j) && run[j] == ListProcesses(pc.all))
    decreases |run|
  {
    hide Next, Enabled, AllEnabled;
    assert run != [];
    LastStep(e, defaults, Initial(defaults), run);
    hide After;
    var init, last := run[..|run| - 1], run[|run| - 1];
    AnswersStep(e, defaults, After(e, defaults, Initial(defaults), init), last);
    if last.QueryAnswers? {
      i, j := |init|, 0;
    } else {
      i, j := AnswersInHand(e, defaults, init);
      if last.ListProcesses? {
        j := |init|;
      }
    }
  }

  /**
   So from the start, whatever is reloaded meanwhile: behind every decision that passes lie, in this order, the query's answer
   and the list of background processes it was about, and no entry of the defaults covers any of them.
   */
  lemma PassedIsClear(e: Engine, defaults: Compiled, run: seq<Step>) returns (i: nat, j: nat)
    requires AllEnabled(e, defaults, Initial(defaults), run) && After(e, defaults, Initial(defaults), run).pc.Passed?
    ensures i < j < |run| && run[i].QueryAnswers? && run[j].ListProcesses? && LastAnswer(run, i) && LastAnswer(run, j)
    ensures var w, processes := run[i].w, run[j].processes;
            && e.lower(w.process) !in defaults.apps
            && (forall p, a: string, b: string :: p in defaults.authPatterns ==> e.lower(w.process) != a + p + b)
            && (w.url != "" ==> forall k :: 0 <= k < |defaults.urlRegexps| ==> !e.matches(defaults.urlRegexps[k], w.url))
            && (w.title != "" ==>
                  forall k :: 0 <= k < |defaults.titleRegexps| ==> !e.matches(defaults.titleRegexps[k], w.title))
            && (w.role != "" ==> e.lower(w.role) !in defaults.sensitiveInputs)
            && w.role != "password" && w.role != "spinbutton"
            && (forall k :: 0 <= k < |processes| ==> e.lower(processes[k]) !in defaults.apps)
            && (forall k, p, a: string, b: string :: 0 <= k < |processes| && p in defaults.authPatterns
                  ==> e.lower(processes[k]) != a + p + b)
  {
    hide AllEnabled, After, Blocks;
    GateFromStart(e, defaults, run);
    i, j := AnswersInHand(e, defaults, run);
    var w, processes := run[i].w, run[j].processes;
    BlocksExactly(e, defaults, w);
    forall k | 0 <= k < |processes|
      ensures e.lower(processes[k]) !in defaults.apps
      ensures forall p, a: string, b: string :: p in defaults.authPatterns ==> e.lower(processes[k]) != a + p + b
    {
      BlocksExactly(e, defaults, ProcessOnly(processes[k]));
    }
  }

  // ---- An undisturbed decision ----

  function Backgrounds(n: nat): seq<Step> { if n == 0 then [] else [Background] + Backgrounds(n - 1) }

  function Decision(w: Window, processes: seq<string>): seq<Step> {
    [Begin] + ([QueryAnswers(w)] + ([Foreground] + ([ListProcesses(processes)]
    + (Backgrounds(|processes| + 1) + ([Role] + [ReadPause])))))
  }

  lemma FirstStep(e: Engine, defaults: Compiled, s: State, step: Step, rest: seq<Step>)
    ensures AllEnabled(e, defaults, s, [step] + rest)
       <==> Enabled(s, step) && AllEnabled(e, defaults, Next(e, defaults, s, step), rest)
    ensures AllEnabled(e, defaults, s, [step] + rest) ==>
              After(e, defaults, s, [step] + rest) == After(e, defaults, Next(e, defaults, s, step), rest)
  {
    hide Next, Enabled;
    assert ([step] + rest)[1..] == rest;
  }

  lemma {:induction false} BackgroundRuns(e: Engine, defaults: Compiled, s: State, tail: seq<Step>)
    requires s.pc.CheckingBackground? && s.pc.next <= |s.pc.all| && tail != [] && tail[0] == Role
    ensures var all, next := s.pc.all, s.pc.next;
            var run := Backgrounds(|all| - next + 1) + tail;
            var t := s.(pc := CheckingRole(s.pc.w, all));
            && (AllEnabled(e, defaults, s, run)
                <==> Clear(e, s.active, all[next..]) && AllEnabled(e, defaults, t, tail))
            && (AllEnabled(e, defaults, s, run) ==> After(e, defaults, s, run) == After(e, defaults, t, tail))
    decreases |s.pc.all| - s.pc.next
  {
    hide Blocks, After, AllEnabled, Clear, Next;
    var all, next := s.pc.all, s.pc.next;
    var rest := Backgrounds(|all| - next) + tail;
    assert Backgrounds(|all| - next + 1) + tail == [Background] + rest;
    FirstStep(e, defaults, s, Background, rest);
    var u := Next(e, defaults, s, Background);
    BackgroundStep(e, defaults, s);
    if next == |all| {
      assert rest == tail;
      NothingToClear(e, s.active, all[next..]);
    } else {
      assert all[next..] == [all[next]] + all[next + 1..];
      ClearMore(e, s.active, all[next], all[next + 1..]);
      if u.pc.Blocked? {
        assert rest[0] == Background;
        Stuck(e, defaults, u, rest);
      } else {
        BackgroundRuns(e, defaults, u, tail);
      }
    }
  }

  lemma BackgroundStep(e: Engine, defaults: Compiled, s: State)
    requires s.pc.CheckingBackground?
    ensures Next(e, defaults, s, Background)
         == if s.pc.next >= |s.pc.all| then s.(pc := CheckingRole(s.pc.w, s.pc.all))
            else if Blocks(e, s.active, ProcessOnly(s.pc.all[s.pc.next])) then s.(pc := Blocked)
            else s.(pc := CheckingBackground(s.pc.w, s.pc.all, s.pc.next + 1))
  {
    hide Blocks;
  }

  lemma Stuck(e: Engine, defaults: Compiled, s: State, run: seq<Step>)
    requires run != [] && !Enabled(s, run[0])
    ensures !AllEnabled(e, defaults, s, run)
  {
    hide Enabled;
  }

  lemma NothingToClear(e: Engine, active: Compiled, processes: seq<string>)
    requires processes == []
    ensures Clear(e, active, processes)
  {
  }

  lemma ClearMore(e: Engine, active: Compiled, process: string, rest: seq<string>)
    ensures Clear(e, active, [process] + rest) <==> !Blocks(e, active, ProcessOnly(process)) && Clear(e, active, rest)
  {
    hide Blocks;
    assert ([process] + rest)[0] == process;
    assert forall i :: 0 <= i < |rest| ==> ([process] + rest)[i + 1] == rest[i];
  }

  /** Without a step of others in between it goes to its end exactly if nothing is blocked, and passes if it is not paused. */
  lemma UndisturbedDecision(e: Engine, defaults: Compiled, s: State, w: Window, processes: seq<string>)
    requires Enabled(s, Begin)
    ensures AllEnabled(e, defaults, s, Decision(w, processes))
       <==> !Blocks(e, s.active, w) && Clear(e, s.active, processes) && w.role != "password" && w.role != "spinbutton"
    ensures AllEnabled(e, defaults, s, Decision(w, processes)) ==>
              After(e, defaults, s, Decision(w, processes)).pc == if s.paused then Blocked else Passed(w, processes)
  {
    hide Blocks, AllEnabled, After, Backgrounds, Clear;
    var tail := [Role] + [ReadPause];
    var checks := Backgrounds(|processes| + 1) + tail;
    var s1 := s.(pc := Querying);
    var s2 := s.(pc := CheckingForeground(w));
    var s3 := s.(pc := ListingBackground(w));
    var s4 := s.(pc := CheckingBackground(w, processes, 0));
    FirstStep(e, defaults, s, Begin, [QueryAnswers(w)] + ([Foreground] + ([ListProcesses(processes)] + checks)));
    FirstStep(e, defaults, s1, QueryAnswers(w), [Foreground] + ([ListProcesses(processes)] + checks));
    FirstStep(e, defaults, s2, Foreground, [ListProcesses(processes)] + checks);
    FirstStep(e, defaults, Next(e, defaults, s2, Foreground), ListProcesses(processes), checks);
    BackgroundRuns(e, defaults, s4, tail);
    assert processes[0..] == processes;
    var s5 := s.(pc := CheckingRole(w, processes));
    FirstStep(e, defaults, s5, Role, [ReadPause]);
    OneStep(e, defaults, Next(e, defaults, s5, Role), ReadPause);
  }

  /** Once paused, no decision passes until capture is resumed. */
  lemma {:induction false} PausedNeverPasses(e: Engine, defaults: Compiled, s: State, run: seq<Step>)
    requires s.paused && !s.pc.Passed? && AllEnabled(e, defaults, s, run)
    requires forall i :: 0 <= i < |run| ==> !run[i].Resume?
    ensures var t := After(e, defaults, s, run); t.paused && !t.pc.Passed?
    decreases |run|
  {
    hide Blocks, Reloaded;
    if run != [] {
      assert !run[0].Resume?;
      PausedNeverPasses(e, defaults, Next(e, defaults, s, run[0]), run[1..]);
    }
  }

  /** So after a Pause and without a Resume, a decision that has passed had passed before, and none has begun since. */
  lemma PauseHolds(e: Engine, defaults: Compiled, s: State, later: seq<Step>)
    requires AllEnabled(e, defaults, s, [Pause] + later)
    requires forall i :: 0 <= i < |later| ==> !later[i].Resume?
    ensures After(e, defaults, s, [Pause] + later).pc.Passed? ==>
              s.pc.Passed? && forall i :: 0 <= i < |later| ==> !later[i].Begin?
  {
    hide AllEnabled, After;
    RunConcat(e, defaults, s, [Pause], later);
    OneStep(e, defaults, s, Pause);
    StaysPassed(e, defaults, Next(e, defaults, s, Pause), later);
  }

  lemma {:induction false} StaysPassed(e: Engine, defaults: Compiled, s: State, run: seq<Step>)
    requires s.paused && AllEnabled(e, defaults, s, run) && forall i :: 0 <= i < |run| ==> !run[i].Resume?
    ensures After(e, defaults, s, run).pc.Passed? ==>
              s.pc.Passed? && forall i :: 0 <= i < |run| ==> !run[i].Begin?
    decreases |run|
  {
    hide Blocks, Reloaded;
    if run != [] {
      assert !run[0].Resume?;
      StaysPassed(e, defaults, Next(e, defaults, s, run[0]), run[1..]);
    }
  }

  // ---- The gate object ----

  class CaptureGate {
    const blocklist: Blocklist
    var paused: bool

    constructor (blocklist: Blocklist)
      ensures this.blocklist == blocklist && !paused
    {
      this.blocklist := blocklist;
      paused := false;
    }

    method Pause()
      modifies this`paused
      ensures paused
    {
      paused := true;
    }

    method Resume()
      modifies this`paused
      ensures !paused
    {
      paused := false;
    }

    /** One decision without interference; `query` is None when the window metadata could not be had. */
    method Check(query: Option<Window>, processes: seq<string>) returns (blocked: bool)
      ensures !blocked <==>
                && !paused
                && query.Some?
                && blocklist.current.Some?
                && !Blocks(blocklist.e, blocklist.current.value, query.value)
                && Clear(blocklist.e, blocklist.current.value, processes)
                && query.value.role != "password" && query.value.role != "spinbutton"
    {
      hide Blocks;
      if query.None? {
        return true;
      }
      var w := query.value;
      var hit, _ := blocklist.Check(w);
      if hit {
        return true;
      }
      for i := 0 to |processes|
        invariant Clear(blocklist.e, blocklist.current.value, processes[..i])
      {
        var background, _ := blocklist.Check(ProcessOnly(processes[i]));
        if background {
          return true;
        }
        assert processes[..i + 1] == processes[..i] + [processes[i]];
      }
      assert processes[..|processes|] == processes;
      if w.role in SENSITIVE_ROLES {
        return true;
      }
      return paused;
    }
  }
}
