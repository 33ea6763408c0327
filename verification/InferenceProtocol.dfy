/**
 The inference goroutine, step by step, beside the refill ticker and the metrics goroutine, in every interleaving.

 One step is one channel operation, one atomic load or one decision of the loop.
 */
module InferenceProtocol {

  datatype ContentClass = Entertainment | SystemUi | Other

  datatype Frame = Frame(dwell: real, contentClass: ContentClass)

  datatype Config = Config(
    capacity: nat,
    cpuMax: int,
    gpuMax: int,
    minDwell: real,
    minScore: real,
    isolatedScore: real)

  datatype Pc =
    | Popping
    | Gating(frame: Frame)
    | LoadingCpu(frame: Frame)
    | LoadingGpu(frame: Frame, cpu: int)
    | Judging(frame: Frame, cpu: int, gpu: int)
    | Sleeping(frame: Frame)
    | Taking(frame: Frame, cpu: int, gpu: int)
    | Awaiting(frame: Frame, cpu: int, gpu: int)
    | Inferring(frame: Frame)
    | BackingOff
    | Draining(frame: Frame)
    | Scoring(frame: Frame)
    | Ended

  /** A stored node: its engagement score and whether it was found coherent. */
  datatype Stored = Stored(score: real, coherent: bool)

  datatype State = State(
    tokens: nat,
    cpu: int,
    gpu: int,
    fails: nat,
    pc: Pc,
    ticks: nat,
    accepted: nat,
    grants: nat,
    infers: nat,
    drained: nat,
    popped: nat,
    skipped: nat,
    writes: seq<Stored>)

  datatype Step =
    | Tick
    | Measure(cpu: int, gpu: int)
    | Pop(frame: Frame)
    | PopNothing
    | Gate
    | LoadCpu
    | LoadGpu
    | Judge
    | TimerFires
    | Grant
    | NoToken
    | Deadline
    | InferFails
    | InferSucceeds
    | BackoffEnds
    | StopInBackoff
    | DrainTake
    | DrainDone
    | Decide(score: real, embedded: bool, verdict: bool, idDrawn: bool)

  predicate PassesGates(cfg: Config, f: Frame) {
    f.dwell >= cfg.minDwell && f.contentClass != Entertainment && f.contentClass != SystemUi
  }

  predicate WithinLoad(cfg: Config, cpu: int, gpu: int) { cpu <= cfg.cpuMax && gpu <= cfg.gpuMax }

  predicate Enabled(s: State, step: Step) {
    match step
    case Tick => true
    case Measure(_, _) => true
    case Pop(_) => s.pc.Popping?
    case PopNothing => s.pc.Popping?
    case Gate => s.pc.Gating?
    case LoadCpu => s.pc.LoadingCpu?
    case LoadGpu => s.pc.LoadingGpu?
    case Judge => s.pc.Judging?
    case TimerFires => s.pc.Sleeping?
    case Grant => (s.pc.Taking? || s.pc.Awaiting?) && s.tokens > 0
    case NoToken => s.pc.Taking? && s.tokens == 0
    case Deadline => s.pc.Sleeping? || s.pc.Taking? || s.pc.Awaiting?
    case InferFails => s.pc.Inferring?
    case InferSucceeds => s.pc.Inferring?
    case BackoffEnds => s.pc.BackingOff?
    case StopInBackoff => s.pc.BackingOff?
    case DrainTake => s.pc.Draining? && s.tokens > 0
    case DrainDone => s.pc.Draining? && s.tokens == 0
    case Decide(_, _, _, _) => s.pc.Scoring?
  }

  function Next(cfg: Config, s: State, step: Step): State
    requires Enabled(s, step)
  {
    match step
    case Tick =>
      if s.tokens < cfg.capacity then s.(tokens := s.tokens + 1, accepted := s.accepted + 1, ticks := s.ticks + 1)
      else s.(ticks := s.ticks + 1)
    case Measure(cpu, gpu) => s.(cpu := cpu, gpu := gpu)
    case Pop(f) => s.(pc := Gating(f), popped := s.popped + 1)
    case PopNothing => s.(pc := Ended)
    case Gate =>
      if PassesGates(cfg, s.pc.frame) then s.(pc := LoadingCpu(s.pc.frame))
      else s.(pc := Popping, skipped := s.skipped + 1)
    case LoadCpu => s.(pc := LoadingGpu(s.pc.frame, s.cpu))
    case LoadGpu => s.(pc := Judging(s.pc.frame, s.pc.cpu, s.gpu))
    case Judge =>
      if WithinLoad(cfg, s.pc.cpu, s.pc.gpu) then s.(pc := Taking(s.pc.frame, s.pc.cpu, s.pc.gpu))
      else s.(pc := Sleeping(s.pc.frame))
    case TimerFires => s.(pc := LoadingCpu(s.pc.frame))
    case Grant => s.(tokens := s.tokens - 1, grants := s.grants + 1, pc := Inferring(s.pc.frame))
    case NoToken => s.(pc := Awaiting(s.pc.frame, s.pc.cpu, s.pc.gpu))
    case Deadline => s.(pc := Ended)
    case InferFails => s.(infers := s.infers + 1, fails := s.fails + 1, pc := BackingOff)
    case InferSucceeds =>
      s.(infers := s.infers + 1, pc := if s.fails > 0 then Draining(s.pc.frame) else Scoring(s.pc.frame))
    case BackoffEnds => s.(pc := Popping)
    case StopInBackoff => s.(pc := Ended)
    case DrainTake => s.(tokens := s.tokens - 1, drained := s.drained + 1)
    case DrainDone => s.(fails := 0, pc := Scoring(s.pc.frame))
    case Decide(score, embedded, verdict, idDrawn) =>
      var coherent := embedded && verdict;
      var required := if coherent then cfg.minScore else cfg.isolatedScore;
      if score < cfg.minScore || score < required || !idDrawn then s.(pc := Popping)
      else s.(pc := Popping, writes := s.writes + [Stored(score, coherent)])
  }

  predicate AllEnabled(cfg: Config, s: State, run: seq<Step>)
    decreases |run|
  {
    run == [] || (Enabled(s, run[0]) && AllEnabled(cfg, Next(cfg, s, run[0]), run[1..]))
  }

  function After(cfg: Config, s: State, run: seq<Step>): State
    requires AllEnabled(cfg, s, run)
    decreases |run|
  {
    if run == [] then s else After(cfg, Next(cfg, s, run[0]), run[1..])
  }

  /** The bucket starts with one token, not full. */
  const INITIAL := State(1, 0, 0, 0, Popping, 0, 0, 0, 0, 0, 0, 0, [])

  lemma {:induction false} RunConcat(cfg: Config, s: State, a: seq<Step>, b: seq<Step>)
    ensures AllEnabled(cfg, s, a + b) <==> AllEnabled(cfg, s, a) && AllEnabled(cfg, After(cfg, s, a), b)
    ensures AllEnabled(cfg, s, a + b) ==> After(cfg, s, a + b) == After(cfg, After(cfg, s, a), b)
    decreases |a|
  {
    hide Next, Enabled;
    if a == [] {
      assert a + b == b;
    } else {
      assert (a + b)[1..] == a[1..] + b;
      if Enabled(s, a[0]) {
        RunConcat(cfg, Next(cfg, s, a[0]), a[1..], b);
      }
    }
  }

  lemma OneStep(cfg: Config, s: State, step: Step)
    ensures AllEnabled(cfg, s, [step]) <==> Enabled(s, step)
    ensures Enabled(s, step) ==> After(cfg, s, [step]) == Next(cfg, s, step)
  {
    hide Next, Enabled;
    assert [step][1..] == [];
  }

  lemma LastStep(cfg: Config, run: seq<Step>)
    requires run != [] && AllEnabled(cfg, INITIAL, run)
    ensures var init, last := run[..|run| - 1], run[|run| - 1];
            && AllEnabled(cfg, INITIAL, init) && Enabled(After(cfg, INITIAL, init), last)
            && After(cfg, INITIAL, run) == Next(cfg, After(cfg, INITIAL, init), last)
  {
    hide Next, Enabled, AllEnabled, After;
    var init, last := run[..|run| - 1], run[|run| - 1];
    assert init + [last] == run;
    RunConcat(cfg, INITIAL, init, [last]);
    OneStep(cfg, After(cfg, INITIAL, init), last);
  }

  // ---- What the steps of a run add up to ----

  /** How many refill ticks, grants and Infer calls a run contains. */
  function Ticks(run: seq<Step>): nat {
    if run == [] then 0 else Ticks(run[..|run| - 1]) + (if run[|run| - 1] == Tick then 1 else 0)
  }

  function Grants(run: seq<Step>): nat {
    if run == [] then 0 else Grants(run[..|run| - 1]) + (if run[|run| - 1] == Grant then 1 else 0)
  }

  function Infers(run: seq<Step>): nat {
    if run == [] then 0
    else Infers(run[..|run| - 1]) + (if run[|run| - 1] in {InferFails, InferSucceeds} then 1 else 0)
  }

  /** How many Infer calls failed since the last one that succeeded. */
  function FailsSince(run: seq<Step>): nat {
    if run == [] || run[|run| - 1] == InferSucceeds then 0
    else FailsSince(run[..|run| - 1]) + (if run[|run| - 1] == InferFails then 1 else 0)
  }

  /** An Infer call failed and none has succeeded since. */
  predicate InOutage(run: seq<Step>) {
    exists k :: 0 <= k < |run| && run[k] == InferFails && forall j :: k < j < |run| ==> run[j] != InferSucceeds
  }

  /** What the decisions of a run store: whatever scored enough and got an id. */
  function StoredBy(cfg: Config, run: seq<Step>): seq<Stored> {
    if run == [] then []
    else
      var rest := StoredBy(cfg, run[..|run| - 1]);
      match run[|run| - 1]
      case Decide(score, embedded, verdict, idDrawn) =>
        if idDrawn && score >= cfg.minScore && ((embedded && verdict) || score >= cfg.isolatedScore)
        then rest + [Stored(score, embedded && verdict)] else rest
      case _ => rest
  }

  lemma {:induction false} CountsAdd(a: seq<Step>, b: seq<Step>)
    ensures Ticks(a + b) == Ticks(a) + Ticks(b)
    ensures Grants(a + b) == Grants(a) + Grants(b)
    ensures Infers(a + b) == Infers(a) + Infers(b)
    decreases |b|
  {
    if b == [] {
      assert a + b == a;
    } else {
      assert (a + b)[..|a + b| - 1] == a + b[..|b| - 1];
      CountsAdd(a, b[..|b| - 1]);
    }
  }

  lemma StepCounts(cfg: Config, s: State, step: Step)
    requires Enabled(s, step)
    ensures var t := Next(cfg, s, step);
            && t.ticks == s.ticks + (if step == Tick then 1 else 0)
            && t.grants == s.grants + (if step == Grant then 1 else 0)
            && t.infers == s.infers + (if step in {InferFails, InferSucceeds} then 1 else 0)
            && t.writes == s.writes + StoredBy(cfg, [step])
  {
    hide PassesGates, WithinLoad;
    assert [step][..0] == [];
    assert StoredBy(cfg, []) == [];
  }

  lemma StoredMore(cfg: Config, run: seq<Step>, last: Step)
    ensures StoredBy(cfg, run + [last]) == StoredBy(cfg, run) + StoredBy(cfg, [last])
  {
    assert (run + [last])[..|run|] == run && [last][..0] == [];
    assert StoredBy(cfg, []) == [];
  }

  /** The counters are those of the run, and what is stored is what its decisions allowed, all of it and in order. */
  lemma {:induction false} CountersAre(cfg: Config, run: seq<Step>)
    requires AllEnabled(cfg, INITIAL, run)
    ensures var t := After(cfg, INITIAL, run);
            t.ticks == Ticks(run) && t.grants == Grants(run) && t.infers == Infers(run) && t.writes == StoredBy(cfg, run)
    decreases |run|
  {
    hide Next, Enabled, AllEnabled, StoredBy;
    if run == [] {
      NothingStored(cfg);
    } else {
      LastStep(cfg, run);
      hide After;
      var init, last := run[..|run| - 1], run[|run| - 1];
      CountersAre(cfg, init);
      StepCounts(cfg, After(cfg, INITIAL, init), last);
      assert init + [last] == run;
      StoredMore(cfg, init, last);
    }
  }

  lemma NothingStored(cfg: Config)
    ensures StoredBy(cfg, []) == []
  {
  }

  /** The same from one moment of a run to a later one. */
  lemma CountersBetween(cfg: Config, before: seq<Step>, later: seq<Step>)
    requires AllEnabled(cfg, INITIAL, before + later)
    ensures AllEnabled(cfg, INITIAL, before)
    ensures var s, t := After(cfg, INITIAL, before), After(cfg, INITIAL, before + later);
            t.ticks - s.ticks == Ticks(later) && t.grants - s.grants == Grants(later) && t.infers - s.infers == Infers(later)
  {
    hide After, AllEnabled, Ticks, Grants, Infers, StoredBy;
    RunConcat(cfg, INITIAL, before, later);
    CountersAre(cfg, before);
    CountersAre(cfg, before + later);
    CountsAdd(before, later);
  }

  lemma {:induction false} OutageIs(run: seq<Step>)
    ensures FailsSince(run) > 0 <==> InOutage(run)
    decreases |run|
  {
    if run != [] {
      var n := |run| - 1;
      var init := run[..n];
      OutageIs(init);
      if run[n] == InferFails {
        OutageBegins(run);
      }
      if k :| 0 <= k < |run| && run[k] == InferFails && forall j :: k < j < |run| ==> run[j] != InferSucceeds {
        assert run[n] != InferSucceeds;
        assert k < n ==> init[k] == InferFails && forall j :: k < j < n ==> init[j] == run[j];
      }
      if run[n] != InferSucceeds && InOutage(init) {
        var k :| 0 <= k < n && init[k] == InferFails && forall j :: k < j < n ==> init[j] != InferSucceeds;
        assert run[k] == InferFails;
        forall j | k < j < |run|
          ensures run[j] != InferSucceeds
        {
          assert j < n ==> run[j] == init[j];
        }
      }
    }
  }

  lemma OutageBegins(run: seq<Step>)
    requires run != [] && run[|run| - 1] == InferFails
    ensures InOutage(run)
  {
  }

  lemma StepFails(cfg: Config, s: State, step: Step)
    requires Enabled(s, step)
    ensures var t := Next(cfg, s, step);
            && (step == InferFails ==> !s.pc.Draining? && !t.pc.Draining? && t.fails == s.fails + 1)
            && (step == InferSucceeds ==> (t.pc.Draining? <==> s.fails > 0) && t.fails == s.fails && !s.pc.Draining?)
            && (step == DrainDone ==> s.pc.Draining? && !t.pc.Draining? && t.fails == 0)
            && (step !in {InferFails, InferSucceeds, DrainDone} ==>
                  (t.pc.Draining? <==> s.pc.Draining?) && t.fails == s.fails)
  {
    hide PassesGates, WithinLoad;
  }

  /** The loop's count is the number of failures since the last success, except that a drain first throws the tokens away. */
  lemma {:induction false} FailsAre(cfg: Config, run: seq<Step>)
    requires AllEnabled(cfg, INITIAL, run)
    ensures var t := After(cfg, INITIAL, run);
            if t.pc.Draining? then FailsSince(run) == 0 else t.fails == FailsSince(run)
    decreases |run|
  {
    hide Next, Enabled, AllEnabled;
    if run != [] {
      LastStep(cfg, run);
      hide After;
      var init, last := run[..|run| - 1], run[|run| - 1];
      FailsAre(cfg, init);
      StepFails(cfg, After(cfg, INITIAL, init), last);
    }
  }

  /** A success starts a drain exactly if it ends an outage; else the tokens stay and the frame goes on to its score. */
  lemma DrainsAfterOutage(cfg: Config, run: seq<Step>)
    requires AllEnabled(cfg, INITIAL, run + [InferSucceeds])
    ensures AllEnabled(cfg, INITIAL, run)
    ensures var u, s := After(cfg, INITIAL, run), After(cfg, INITIAL, run + [InferSucceeds]);
            && s.tokens == u.tokens
            && u.pc.Inferring?
            && s.pc == (if InOutage(run) then Draining(u.pc.frame) else Scoring(u.pc.frame))
            && (u.fails > 0 <==> InOutage(run))
  {
    hide AllEnabled, After, InOutage, FailsSince;
    RunConcat(cfg, INITIAL, run, [InferSucceeds]);
    OneStep(cfg, After(cfg, INITIAL, run), InferSucceeds);
    FailsAre(cfg, run);
    OutageIs(run);
  }

  /** As long as nothing is granted or drained every tick is a token, up to the capacity. */
  lemma {:induction false} RefillsAreKept(cfg: Config, s: State, run: seq<Step>)
    requires s.tokens <= cfg.capacity && AllEnabled(cfg, s, run)
    requires forall k :: 0 <= k < |run| ==> run[k] != Grant && run[k] != DrainTake
    ensures var full := s.tokens + Ticks(run);
            After(cfg, s, run).tokens == if full < cfg.capacity then full else cfg.capacity
    decreases |run|
  {
    hide PassesGates, WithinLoad, Ticks;
    if run == [] {
      NoTicks();
    } else {
      assert run[0] != Grant && run[0] != DrainTake;
      FirstTick(run);
      RefillsAreKept(cfg, Next(cfg, s, run[0]), run[1..]);
    }
  }

  lemma NoTicks()
    ensures Ticks([]) == 0
  {
  }

  lemma FirstTick(run: seq<Step>)
    requires run != []
    ensures Ticks(run) == (if run[0] == Tick then 1 else 0) + Ticks(run[1..])
  {
    assert run == [run[0]] + run[1..];
    CountsAdd([run[0]], run[1..]);
    assert [run[0]][..0] == [];
    assert Ticks([]) == 0;
  }

  // ---- Invariant ----

  predicate HoldsFrame(pc: Pc) { !pc.Popping? && !pc.Ended? && !pc.BackingOff? }

  predicate BeforeGrant(pc: Pc) {
    pc.LoadingCpu? || pc.LoadingGpu? || pc.Judging? || pc.Sleeping? || pc.Taking? || pc.Awaiting?
  }

  /** Tokens come from the first one and from accepted refills and go to grants and drains; one grant, one inference. */
  ghost predicate TokensAddUp(cfg: Config, s: State) {
    && s.tokens <= cfg.capacity
    && 1 + s.accepted == s.tokens + s.grants + s.drained
    && s.accepted <= s.ticks
    && s.grants == s.infers + (if s.pc.Inferring? then 1 else 0)
  }

  /** Every popped frame is skipped, granted, still on its way, or the one the loop ended with. */
  ghost predicate FramesAddUp(s: State) {
    && s.skipped + s.grants <= s.popped
    && s.popped <= s.skipped + s.grants + (if s.pc.Gating? || BeforeGrant(s.pc) || s.pc.Ended? then 1 else 0)
    && (s.pc.Gating? || BeforeGrant(s.pc) ==> s.popped == s.skipped + s.grants + 1)
  }

  /** Whoever is past the gates passed them; whoever asks for a token has read both loads within their thresholds. */
  ghost predicate PlaceOk(cfg: Config, s: State) {
    && (HoldsFrame(s.pc) && !s.pc.Gating? ==> PassesGates(cfg, s.pc.frame))
    && (s.pc.Taking? || s.pc.Awaiting? ==> WithinLoad(cfg, s.pc.cpu, s.pc.gpu))
    && (s.pc.Draining? ==> s.fails > 0)
    && (s.pc.Scoring? ==> s.fails == 0)
  }

  ghost predicate WritesOk(cfg: Config, s: State) {
    forall w :: w in s.writes ==> w.score >= cfg.minScore && (!w.coherent ==> w.score >= cfg.isolatedScore)
  }

  ghost predicate Inv(cfg: Config, s: State) {
    TokensAddUp(cfg, s) && FramesAddUp(s) && PlaceOk(cfg, s) && WritesOk(cfg, s)
  }

  lemma StepKeepsCounts(cfg: Config, s: State, step: Step)
    requires TokensAddUp(cfg, s) && FramesAddUp(s) && Enabled(s, step)
    ensures TokensAddUp(cfg, Next(cfg, s, step)) && FramesAddUp(Next(cfg, s, step))
  {
    hide PassesGates, WithinLoad;
  }

  lemma StepKeepsPlace(cfg: Config, s: State, step: Step)
    requires PlaceOk(cfg, s) && Enabled(s, step)
    ensures PlaceOk(cfg, Next(cfg, s, step))
  {
    hide PassesGates, WithinLoad;
  }

  lemma StepKeepsWrites(cfg: Config, s: State, step: Step)
    requires WritesOk(cfg, s) && Enabled(s, step)
    ensures WritesOk(cfg, Next(cfg, s, step))
  {
    hide PassesGates, WithinLoad;
  }

  lemma StepKeepsInv(cfg: Config, s: State, step: Step)
    requires Inv(cfg, s) && Enabled(s, step)
    ensures Inv(cfg, Next(cfg, s, step))
  {
    hide TokensAddUp, FramesAddUp, PlaceOk, WritesOk, Next, Enabled;
    StepKeepsCounts(cfg, s, step);
    StepKeepsPlace(cfg, s, step);
    StepKeepsWrites(cfg, s, step);
  }

  lemma {:induction false} RunKeepsInv(cfg: Config, s: State, run: seq<Step>)
    requires Inv(cfg, s) && AllEnabled(cfg, s, run)
    ensures Inv(cfg, After(cfg, s, run))
    decreases |run|
  {
    hide Inv, Next, Enabled;
    if run != [] {
      StepKeepsInv(cfg, s, run[0]);
      RunKeepsInv(cfg, Next(cfg, s, run[0]), run[1..]);
    }
  }

  // ---- What a run can spend ----

  /** What the loop may still turn into grants: a drain that has begun will throw away the tokens there are. */
  function Spendable(s: State): nat { if s.pc.Draining? then 0 else s.tokens }

  lemma {:induction false} SpendingBounded(cfg: Config, s: State, run: seq<Step>)
    requires AllEnabled(cfg, s, run)
    ensures var t := After(cfg, s, run);
            && (t.grants - s.grants) + Spendable(t) <= Spendable(s) + (t.ticks - s.ticks)
            && t.ticks >= s.ticks && t.grants >= s.grants
    decreases |run|
  {
    if run != [] {
      var u := Next(cfg, s, run[0]);
      assert (u.grants - s.grants) + Spendable(u) <= Spendable(s) + (u.ticks - s.ticks);
      assert u.ticks >= s.ticks && u.grants >= s.grants;
      hide Next, Enabled;
      SpendingBounded(cfg, u, run[1..]);
    }
  }

  /**
   From the start, in every interleaving: the bucket never overflows, there are at most 1 + refills grants, each grant is one
   Infer call, and what is stored is what scored enough.
   */
  lemma RateFromStart(cfg: Config, run: seq<Step>)
    requires cfg.capacity >= 1 && AllEnabled(cfg, INITIAL, run)
    ensures var t := After(cfg, INITIAL, run);
            && t.tokens <= cfg.capacity
            && Grants(run) <= 1 + Ticks(run)
            && Infers(run) <= Grants(run) <= Infers(run) + 1
            && (!t.pc.Inferring? ==> Grants(run) == Infers(run))
            && t.skipped + t.grants <= t.popped <= t.skipped + t.grants + 1
            && t.ticks == Ticks(run) && t.grants == Grants(run) && t.infers == Infers(run)
            && t.writes == StoredBy(cfg, run)
            && forall w :: w in t.writes ==> w.score >= cfg.minScore && (!w.coherent ==> w.score >= cfg.isolatedScore)
  {
    InitialInv(cfg);
    hide Next, Enabled, AllEnabled, After, StoredBy, Ticks, Grants, Infers;
    RunKeepsInv(cfg, INITIAL, run);
    CountersAre(cfg, run);
  }

  lemma InitialInv(cfg: Config)
    requires cfg.capacity >= 1
    ensures Inv(cfg, INITIAL)
  {
    hide TokensAddUp, FramesAddUp, PlaceOk, WritesOk;
    InitialCounts(cfg);
    InitialPlace(cfg);
  }

  lemma InitialCounts(cfg: Config)
    requires cfg.capacity >= 1
    ensures TokensAddUp(cfg, INITIAL) && FramesAddUp(INITIAL)
  {
  }

  lemma InitialPlace(cfg: Config)
    ensures PlaceOk(cfg, INITIAL) && WritesOk(cfg, INITIAL)
  {
  }

  /** In any window of any run there are at most capacity + refills grants. */
  lemma RateInWindow(cfg: Config, before: seq<Step>, window: seq<Step>)
    requires cfg.capacity >= 1 && AllEnabled(cfg, INITIAL, before + window)
    ensures AllEnabled(cfg, INITIAL, before)
    ensures var s := After(cfg, INITIAL, before);
            var t := After(cfg, INITIAL, before + window);
            t.grants - s.grants == Grants(window) <= cfg.capacity + Ticks(window)
  {
    InitialInv(cfg);
    hide Next, Enabled, AllEnabled, After, Ticks, Grants, Infers;
    CountersBetween(cfg, before, window);
    RunConcat(cfg, INITIAL, before, window);
    RunKeepsInv(cfg, INITIAL, before);
    SpendingBounded(cfg, After(cfg, INITIAL, before), window);
  }

  /**
   After the success that ends an outage, whatever filled up meanwhile, later Infer calls never outnumber the refills
   that came after that success.
   */
  lemma NoBurstAfterOutage(cfg: Config, before: seq<Step>, later: seq<Step>)
    requires cfg.capacity >= 1 && AllEnabled(cfg, INITIAL, before + [InferSucceeds] + later)
    requires InOutage(before)
    ensures Infers(later) <= Ticks(later)
  {
    InitialInv(cfg);
    hide AllEnabled, After, InOutage, Ticks, Grants, Infers;
    var run := before + [InferSucceeds];
    RunConcat(cfg, INITIAL, run, later);
    DrainsAfterOutage(cfg, before);
    RunKeepsInv(cfg, INITIAL, run);
    RunKeepsInv(cfg, INITIAL, run + later);
    SpendingBounded(cfg, After(cfg, INITIAL, run), later);
    CountersBetween(cfg, run, later);
  }

  /** While a drain lasts nothing is inferred: the loop leaves it only by emptying the bucket. */
  lemma {:induction false} DrainingInfersNothing(cfg: Config, s: State, run: seq<Step>)
    requires AllEnabled(cfg, s, run) && s.pc.Draining?
    requires forall k :: 0 <= k < |run| ==> run[k] != DrainDone
    ensures After(cfg, s, run).pc.Draining? && After(cfg, s, run).infers == s.infers
    decreases |run|
  {
    if run != [] {
      assert run[0] != DrainDone;
      DrainingInfersNothing(cfg, Next(cfg, s, run[0]), run[1..]);
    }
  }

  /**
   The refills that the drain throws away do not count either: between the success that ends an outage and the end of the
   drain there is no Infer call, and from the end of the drain on there are no more than refills that came after it.
   */
  lemma NoBurstAfterDrain(cfg: Config, before: seq<Step>, drain: seq<Step>, later: seq<Step>)
    requires cfg.capacity >= 1
    requires AllEnabled(cfg, INITIAL, before + [InferSucceeds] + drain + [DrainDone] + later)
    requires forall k :: 0 <= k < |drain| ==> drain[k] != DrainDone
    requires InOutage(before)
    ensures AllEnabled(cfg, INITIAL, before + [InferSucceeds] + drain + [DrainDone])
    ensures After(cfg, INITIAL, before + [InferSucceeds] + drain + [DrainDone]).tokens == 0
    ensures Infers(drain) == 0 && Infers(later) <= Ticks(later)
  {
    InitialInv(cfg);
    hide AllEnabled, After, Inv, InOutage, Ticks, Grants, Infers;
    var run1 := before + [InferSucceeds];
    var run2 := run1 + drain;
    var run3 := run2 + [DrainDone];
    RunConcat(cfg, INITIAL, run3, later);
    RunConcat(cfg, INITIAL, run2, [DrainDone]);
    RunConcat(cfg, INITIAL, run1, drain);
    OneStep(cfg, After(cfg, INITIAL, run2), DrainDone);
    DrainsAfterOutage(cfg, before);
    RunKeepsInv(cfg, INITIAL, run3);
    RunKeepsInv(cfg, INITIAL, run3 + later);
    InvCounts(cfg, After(cfg, INITIAL, run3));
    InvCounts(cfg, After(cfg, INITIAL, run3 + later));
    SpendingBounded(cfg, After(cfg, INITIAL, run3), later);
    DrainingInfersNothing(cfg, After(cfg, INITIAL, run1), drain);
    CountersBetween(cfg, run1, drain);
    CountersBetween(cfg, run3, later);
  }

  lemma InvCounts(cfg: Config, s: State)
    requires Inv(cfg, s)
    ensures s.infers <= s.grants && (!s.pc.Inferring? ==> s.infers == s.grants)
  {
    hide PlaceOk, FramesAddUp, WritesOk;
  }

  // ---- Readings and grants ----

  predicate Quiet(run: seq<Step>, from: nat) {
    forall k :: from < k < |run| ==> !run[k].Pop? && run[k] != Grant
  }

  lemma FrameStep(cfg: Config, s: State, step: Step)
    requires Enabled(s, step)
    requires var pc := Next(cfg, s, step).pc; pc.Gating? || BeforeGrant(pc)
    ensures if step.Pop? then step == Pop(Next(cfg, s, step).pc.frame)
            else step != Grant && (s.pc.Gating? || BeforeGrant(s.pc)) && s.pc.frame == Next(cfg, s, step).pc.frame
  {
    hide PassesGates, WithinLoad;
  }

  /** Who is on the way to a grant holds the frame of the last Pop, and nothing was granted since. */
  lemma {:induction false} FrameInHand(cfg: Config, run: seq<Step>) returns (p: nat)
    requires AllEnabled(cfg, INITIAL, run)
    requires var pc := After(cfg, INITIAL, run).pc; pc.Gating? || BeforeGrant(pc)
    ensures p < |run| && run[p] == Pop(After(cfg, INITIAL, run).pc.frame) && Quiet(run, p)
    decreases |run|
  {
    hide Next, Enabled, AllEnabled;
    assert run != [];
    LastStep(cfg, run);
    hide After;
    var init, last := run[..|run| - 1], run[|run| - 1];
    FrameStep(cfg, After(cfg, INITIAL, init), last);
    if last.Pop? {
      p := |init|;
    } else {
      p := FrameInHand(cfg, init);
    }
  }

  predicate LastReading(run: seq<Step>, i: nat, reading: Step) {
    i < |run| && run[i] == reading && forall k :: i < k < |run| ==> run[k] != reading
  }

  predicate CpuInHand(pc: Pc) { pc.LoadingGpu? || GpuInHand(pc) }

  predicate GpuInHand(pc: Pc) { pc.Judging? || pc.Taking? || pc.Awaiting? }

  lemma LoadsStep(cfg: Config, s: State, step: Step)
    requires Enabled(s, step) && CpuInHand(Next(cfg, s, step).pc)
    ensures var t := Next(cfg, s, step);
            && !step.Pop? && step != Grant
            && (if step.LoadCpu? then t.pc.LoadingGpu? && t.pc.cpu == s.cpu else CpuInHand(s.pc) && t.pc.cpu == s.pc.cpu)
            && (step.LoadGpu? ==> GpuInHand(t.pc) && t.pc.gpu == s.gpu)
            && (!step.LoadGpu? && GpuInHand(t.pc) ==> GpuInHand(s.pc) && t.pc.gpu == s.pc.gpu)
  {
    hide PassesGates, WithinLoad;
  }

  /** The two loads in hand are the governor's own values at the last two readings. */
  lemma {:induction false} LoadsInHand(cfg: Config, run: seq<Step>) returns (i: nat, j: nat)
    requires AllEnabled(cfg, INITIAL, run)
    requires CpuInHand(After(cfg, INITIAL, run).pc)
    ensures var s := After(cfg, INITIAL, run);
            && LastReading(run, i, LoadCpu) && Quiet(run, i)
            && AllEnabled(cfg, INITIAL, run[..i]) && After(cfg, INITIAL, run[..i]).cpu == s.pc.cpu
            && (GpuInHand(s.pc) ==>
                  && i < j && LastReading(run, j, LoadGpu)
                  && AllEnabled(cfg, INITIAL, run[..j]) && After(cfg, INITIAL, run[..j]).gpu == s.pc.gpu)
    decreases |run|
  {
    hide Next, Enabled, AllEnabled;
    assert run != [];
    LastStep(cfg, run);
    hide After;
    var init, last := run[..|run| - 1], run[|run| - 1];
    LoadsStep(cfg, After(cfg, INITIAL, init), last);
    if last.LoadCpu? {
      i, j := |init|, 0;
    } else {
      i, j := LoadsInHand(cfg, init);
      assert run[..i] == init[..i];
      if last.LoadGpu? {
        j := |init|;
      } else if GpuInHand(After(cfg, INITIAL, run).pc) {
        assert run[..j] == init[..j];
      }
    }
  }

  /**
   Behind every grant there are, in this order, the Pop of a frame that passes both gates, a reading of the CPU load and
   one of the GPU load, each the last of its kind, with nothing popped or granted since the Pop; and at the moment of each
   reading the governor's own value was within its threshold.
   */
  lemma GrantFollowsReading(cfg: Config, run: seq<Step>) returns (p: nat, i: nat, j: nat)
    requires cfg.capacity >= 1 && AllEnabled(cfg, INITIAL, run + [Grant])
    ensures p < i < j < |run| && AllEnabled(cfg, INITIAL, run[..i]) && AllEnabled(cfg, INITIAL, run[..j])
    ensures run[p].Pop? && Quiet(run, p)
    ensures var f := run[p].frame;
            f.dwell >= cfg.minDwell && f.contentClass != Entertainment && f.contentClass != SystemUi
    ensures LastReading(run, i, LoadCpu) && LastReading(run, j, LoadGpu)
    ensures After(cfg, INITIAL, run[..i]).cpu <= cfg.cpuMax && After(cfg, INITIAL, run[..j]).gpu <= cfg.gpuMax
    ensures AllEnabled(cfg, INITIAL, run) && After(cfg, INITIAL, run).tokens > 0
  {
    InitialInv(cfg);
    hide Next, AllEnabled, After;
    RunConcat(cfg, INITIAL, run, [Grant]);
    OneStep(cfg, After(cfg, INITIAL, run), Grant);
    RunKeepsInv(cfg, INITIAL, run);
    p := FrameInHand(cfg, run);
    i, j := LoadsInHand(cfg, run);
  }

  /** The gates let a popped frame on exactly if it was looked at long enough and is neither entertainment nor system UI. */
  lemma GateDecides(cfg: Config, run: seq<Step>) returns (p: nat)
    requires AllEnabled(cfg, INITIAL, run + [Gate])
    ensures p < |run| && run[p].Pop? && Quiet(run, p)
    ensures var f := run[p].frame;
            After(cfg, INITIAL, run + [Gate]).pc
            == if f.dwell >= cfg.minDwell && f.contentClass != Entertainment && f.contentClass != SystemUi
               then LoadingCpu(f) else Popping
  {
    hide AllEnabled, After;
    RunConcat(cfg, INITIAL, run, [Gate]);
    OneStep(cfg, After(cfg, INITIAL, run), Gate);
    p := FrameInHand(cfg, run);
  }

  /** The governor goes on to take a token exactly if both loads it read were within their thresholds; else it sleeps. */
  lemma JudgeDecides(cfg: Config, run: seq<Step>) returns (i: nat, j: nat)
    requires AllEnabled(cfg, INITIAL, run + [Judge])
    ensures i < j && LastReading(run, i, LoadCpu) && LastReading(run, j, LoadGpu)
    ensures AllEnabled(cfg, INITIAL, run[..i]) && AllEnabled(cfg, INITIAL, run[..j])
    ensures var within := && After(cfg, INITIAL, run[..i]).cpu <= cfg.cpuMax
                          && After(cfg, INITIAL, run[..j]).gpu <= cfg.gpuMax;
            var pc := After(cfg, INITIAL, run + [Judge]).pc;
            if within then pc.Taking? else pc.Sleeping?
  {
    hide AllEnabled, After;
    RunConcat(cfg, INITIAL, run, [Judge]);
    OneStep(cfg, After(cfg, INITIAL, run), Judge);
    i, j := LoadsInHand(cfg, run);
  }

  predicate LastMeasure(run: seq<Step>, m: nat) {
    m < |run| && run[m].Measure? && forall k :: m < k < |run| ==> !run[k].Measure?
  }

  lemma {:induction false} LoadsKept(cfg: Config, s: State, run: seq<Step>)
    requires AllEnabled(cfg, s, run) && forall k :: 0 <= k < |run| ==> !run[k].Measure?
    ensures After(cfg, s, run).cpu == s.cpu && After(cfg, s, run).gpu == s.gpu
    decreases |run|
  {
    if run != [] {
      assert !run[0].Measure?;
      LoadsKept(cfg, Next(cfg, s, run[0]), run[1..]);
    }
  }

  lemma LoadsSince(cfg: Config, run: seq<Step>, i: nat)
    requires i <= |run| && AllEnabled(cfg, INITIAL, run)
    requires forall k :: i <= k < |run| ==> !run[k].Measure?
    ensures AllEnabled(cfg, INITIAL, run[..i])
    ensures var u, t := After(cfg, INITIAL, run[..i]), After(cfg, INITIAL, run); t.cpu == u.cpu && t.gpu == u.gpu
  {
    hide Next, Enabled, AllEnabled, After;
    assert run[..i] + run[i..] == run;
    RunConcat(cfg, INITIAL, run[..i], run[i..]);
    LoadsKept(cfg, After(cfg, INITIAL, run[..i]), run[i..]);
  }

  lemma LoadsMeasured(cfg: Config, run: seq<Step>, m: nat)
    requires AllEnabled(cfg, INITIAL, run) && LastMeasure(run, m)
    ensures After(cfg, INITIAL, run).cpu == run[m].cpu && After(cfg, INITIAL, run).gpu == run[m].gpu
  {
    hide AllEnabled, After;
    LoadsSince(cfg, run, m + 1);
    LastStep(cfg, run[..m + 1]);
    assert run[..m + 1][m] == run[m];
  }

  /**
   When a grant is fresh: the loads of the moment are within their thresholds exactly when, since the reading of the CPU
   load that led to the grant, the loads were not measured again or the last measurement was within them.
   */
  lemma GrantIsFreshWhen(cfg: Config, run: seq<Step>, i: nat)
    requires cfg.capacity >= 1 && AllEnabled(cfg, INITIAL, run + [Grant]) && LastReading(run, i, LoadCpu)
    ensures AllEnabled(cfg, INITIAL, run)
    ensures var s := After(cfg, INITIAL, run);
            WithinLoad(cfg, s.cpu, s.gpu)
            <==> forall m :: i < m < |run| && LastMeasure(run, m) ==> WithinLoad(cfg, run[m].cpu, run[m].gpu)
  {
    hide Next, Enabled, AllEnabled, After;
    var _, i', j := GrantFollowsReading(cfg, run);
    assert i' == i;
    if forall k :: i < k < |run| ==> !run[k].Measure? {
      LoadsSince(cfg, run, i);
      LoadsSince(cfg, run, j);
    } else {
      var m := LatestMeasure(run, i);
      LoadsMeasured(cfg, run, m);
    }
  }

  lemma LatestMeasure(run: seq<Step>, i: nat) returns (m: nat)
    requires exists k :: i < k < |run| && run[k].Measure?
    ensures i < m && LastMeasure(run, m)
  {
    m := |run| - 1;
    while !run[m].Measure?
      invariant i < m < |run|
      invariant forall k :: m < k < |run| ==> !run[k].Measure?
      decreases m
    {
      m := m - 1;
    }
  }

  lemma FirstStep(cfg: Config, s: State, step: Step, rest: seq<Step>)
    requires Enabled(s, step)
    ensures AllEnabled(cfg, s, [step] + rest) <==> AllEnabled(cfg, Next(cfg, s, step), rest)
    ensures AllEnabled(cfg, s, [step] + rest) ==> After(cfg, s, [step] + rest) == After(cfg, Next(cfg, s, step), rest)
  {
    hide Next, Enabled;
    assert ([step] + rest)[1..] == rest;
  }

  /** From the Pop to the decision to ask for a token. */
  function Approach(f: Frame): seq<Step> { [Pop(f)] + ([Gate] + ([LoadCpu] + ([LoadGpu] + [Judge]))) }

  lemma ApproachRuns(cfg: Config, s: State, f: Frame)
    requires s.pc.Popping? && PassesGates(cfg, f) && WithinLoad(cfg, s.cpu, s.gpu)
    ensures AllEnabled(cfg, s, Approach(f))
    ensures After(cfg, s, Approach(f)) == s.(pc := Taking(f, s.cpu, s.gpu), popped := s.popped + 1)
  {
    hide AllEnabled, After, PassesGates, WithinLoad;
    var s1 := Next(cfg, s, Pop(f));
    var s2 := Next(cfg, s1, Gate);
    var s3 := Next(cfg, s2, LoadCpu);
    var s4 := Next(cfg, s3, LoadGpu);
    OneStep(cfg, s4, Judge);
    FirstStep(cfg, s3, LoadGpu, [Judge]);
    FirstStep(cfg, s2, LoadCpu, [LoadGpu] + [Judge]);
    FirstStep(cfg, s1, Gate, [LoadCpu] + ([LoadGpu] + [Judge]));
    FirstStep(cfg, s, Pop(f), [Gate] + ([LoadCpu] + ([LoadGpu] + [Judge])));
  }

  function Block(cpu: int, gpu: int): seq<Step> { [NoToken] + ([Measure(cpu, gpu)] + [Tick]) }

  function Spend(): seq<Step> { [Grant] + ([InferSucceeds] + [Decide(0.0, false, false, false)]) }

  lemma BlockRuns(cfg: Config, s: State, cpu: int, gpu: int)
    requires s.pc.Taking? && s.tokens == 0 && cfg.capacity >= 1
    ensures AllEnabled(cfg, s, Block(cpu, gpu))
    ensures var t := After(cfg, s, Block(cpu, gpu)); t.pc.Awaiting? && t.tokens == 1 && t.cpu == cpu && t.gpu == gpu
  {
    hide AllEnabled, After;
    var s1 := Next(cfg, s, NoToken);
    var s2 := Next(cfg, s1, Measure(cpu, gpu));
    OneStep(cfg, s2, Tick);
    FirstStep(cfg, s1, Measure(cpu, gpu), [Tick]);
    FirstStep(cfg, s, NoToken, [Measure(cpu, gpu)] + [Tick]);
  }

  lemma SpendRuns(cfg: Config, s: State)
    requires s.pc.Taking? && s.tokens > 0 && s.fails == 0
    ensures AllEnabled(cfg, s, Spend())
    ensures var t := After(cfg, s, Spend()); t.pc.Popping? && t.tokens == s.tokens - 1 && t.cpu == s.cpu && t.gpu == s.gpu
  {
    hide AllEnabled, After;
    var decision := Decide(0.0, false, false, false);
    var s1 := Next(cfg, s, Grant);
    var s2 := Next(cfg, s1, InferSucceeds);
    OneStep(cfg, s2, decision);
    FirstStep(cfg, s1, InferSucceeds, [decision]);
    FirstStep(cfg, s, Grant, [InferSucceeds] + [decision]);
  }

  /** One frame spends the first token; the next one finds the bucket empty and blocks; then the load changes. */
  function StaleRun(f: Frame, low: Step, cpu: int, gpu: int): seq<Step> {
    [low] + (Approach(f) + (Spend() + (Approach(f) + Block(cpu, gpu))))
  }

  /**
   The reading may be stale: whatever the thresholds and whatever the loads by then, there is a run from the start that ends
   in a grant at those loads.
   */
  lemma GrantMayBeStale(cfg: Config, cpu: int, gpu: int)
    requires cfg.capacity >= 1
    ensures var run := StaleRun(Frame(cfg.minDwell, Other), Measure(cfg.cpuMax, cfg.gpuMax), cpu, gpu);
            && AllEnabled(cfg, INITIAL, run) && AllEnabled(cfg, INITIAL, run + [Grant])
            && After(cfg, INITIAL, run).cpu == cpu && After(cfg, INITIAL, run).gpu == gpu
  {
    var f := Frame(cfg.minDwell, Other);
    var low := Measure(cfg.cpuMax, cfg.gpuMax);
    var s1 := Next(cfg, INITIAL, low);
    assert PassesGates(cfg, f) && WithinLoad(cfg, s1.cpu, s1.gpu);
    hide AllEnabled, After, PassesGates, WithinLoad, Approach, Spend, Block;
    var approach, spend, block := Approach(f), Spend(), Block(cpu, gpu);
    ApproachRuns(cfg, s1, f);
    var s2 := After(cfg, s1, approach);
    SpendRuns(cfg, s2);
    var s3 := After(cfg, s2, spend);
    ApproachRuns(cfg, s3, f);
    BlockRuns(cfg, After(cfg, s3, approach), cpu, gpu);
    RunConcat(cfg, s3, approach, block);
    RunConcat(cfg, s2, spend, approach + block);
    RunConcat(cfg, s1, approach, spend + (approach + block));
    FirstStep(cfg, INITIAL, low, approach + (spend + (approach + block)));
    var run := StaleRun(f, low, cpu, gpu);
    RunConcat(cfg, INITIAL, run, [Grant]);
    OneStep(cfg, After(cfg, INITIAL, run), Grant);
  }
}
