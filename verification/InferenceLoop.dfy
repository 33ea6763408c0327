/** The governor and the inference loop as code; whatever they do is a run of the protocol. */
module InferenceLoops {
  import opened InferenceProtocol

  ghost predicate Reaches(cfg: Config, s: State, t: State) {
    exists run :: AllEnabled(cfg, s, run) && After(cfg, s, run) == t
  }

  lemma ReachesSelf(cfg: Config, s: State)
    ensures Reaches(cfg, s, s)
  {
    assert AllEnabled(cfg, s, []) && After(cfg, s, []) == s;
  }

  lemma ReachesOn(cfg: Config, s: State, t: State, step: Step)
    requires Reaches(cfg, s, t) && Enabled(t, step)
    ensures Reaches(cfg, s, Next(cfg, t, step))
  {
    hide Next, Enabled;
    var run :| AllEnabled(cfg, s, run) && After(cfg, s, run) == t;
    OneStep(cfg, t, step);
    RunConcat(cfg, s, run, [step]);
    assert AllEnabled(cfg, s, run + [step]);
  }

  lemma ReachesThrough(cfg: Config, s: State, t: State, u: State)
    requires Reaches(cfg, s, t) && Reaches(cfg, t, u)
    ensures Reaches(cfg, s, u)
  {
    hide Next, Enabled;
    var a :| AllEnabled(cfg, s, a) && After(cfg, s, a) == t;
    var b :| AllEnabled(cfg, t, b) && After(cfg, t, b) == u;
    RunConcat(cfg, s, a, b);
    assert AllEnabled(cfg, s, a + b);
  }

  /** Only the ticker and the metrics goroutine moved. */
  ghost predicate OnlyBackground(s: State, t: State) {
    t == s.(tokens := t.tokens, cpu := t.cpu, gpu := t.gpu, ticks := t.ticks, accepted := t.accepted)
  }

  class Governor {
    const cfg: Config
    var tokens: nat
    var cpu: int
    var gpu: int

    ghost predicate Matches(s: State)
      reads this
    {
      tokens == s.tokens && cpu == s.cpu && gpu == s.gpu
    }

    constructor (cfg: Config)
      requires cfg.capacity >= 1
      ensures this.cfg == cfg && Matches(INITIAL)
    {
      this.cfg := cfg;
      tokens := 1;
      cpu, gpu := 0, 0;
    }

    /** One firing of the refill ticker: a full bucket skips it. */
    method Refill(ghost s: State) returns (ghost t: State)
      requires Matches(s)
      modifies this`tokens
      ensures t == Next(cfg, s, Tick) && Matches(t)
    {
      t := Next(cfg, s, Tick);
      if tokens < cfg.capacity {
        tokens := tokens + 1;
      }
    }

    /** Anything the background goroutines may do between two steps of the loop. */
    method Background(ghost s: State) returns (ghost t: State)
      requires Matches(s)
      modifies this`tokens, this`cpu, this`gpu
      ensures Reaches(cfg, s, t) && Matches(t) && OnlyBackground(s, t)
    {
      hide Reaches;
      t := s;
      ReachesSelf(cfg, s);
      var n: int := *;
      var events := if n < 0 then 0 else n;
      for i := 0 to events
        invariant Reaches(cfg, s, t) && Matches(t) && OnlyBackground(s, t)
      {
        var tick: bool := *;
        if tick {
          ReachesOn(cfg, s, t, Tick);
          t := Refill(t);
        } else {
          var c: int, g: int := *, *;
          cpu, gpu := c, g;
          ReachesOn(cfg, s, t, Measure(c, g));
          t := Next(cfg, t, Measure(c, g));
        }
      }
    }

    /** `timers` is how many five-second waits fit before the context's deadline. */
    method Acquire(ghost s: State, timers: nat) returns (ok: bool, ghost t: State)
      requires Matches(s) && s.pc.LoadingCpu?
      modifies this`tokens, this`cpu, this`gpu
      ensures Reaches(cfg, s, t) && Matches(t)
      ensures t == s.(tokens := t.tokens, cpu := t.cpu, gpu := t.gpu, ticks := t.ticks, accepted := t.accepted,
                      grants := t.grants, pc := t.pc)
      ensures t.pc == if ok then Inferring(s.pc.frame) else Ended
      ensures t.grants == s.grants + (if ok then 1 else 0)
    {
      hide Reaches;
      t := s;
      ReachesSelf(cfg, s);
      var left := timers;
      while true
        invariant Reaches(cfg, s, t) && Matches(t)
        invariant t.pc == LoadingCpu(s.pc.frame)
        invariant OnlyBackground(s, t)
        decreases left
      {
        var c := cpu;
        ReachesOn(cfg, s, t, LoadCpu);
        t := Next(cfg, t, LoadCpu);
        t := Pause(s, t);
        var g := gpu;
        ReachesOn(cfg, s, t, LoadGpu);
        t := Next(cfg, t, LoadGpu);
        ReachesOn(cfg, s, t, Judge);
        t := Next(cfg, t, Judge);
        if c > cfg.cpuMax || g > cfg.gpuMax {
          t := Pause(s, t);
          if left == 0 {
            ReachesOn(cfg, s, t, Deadline);
            t := Next(cfg, t, Deadline);
            return false, t;
          }
          left := left - 1;
          ReachesOn(cfg, s, t, TimerFires);
          t := Next(cfg, t, TimerFires);
        } else {
          ok, t := TakeToken(s, t);
          return;
        }
      }
    }

    method Pause(ghost s: State, ghost t0: State) returns (ghost t: State)
      requires Matches(t0) && Reaches(cfg, s, t0)
      modifies this`tokens, this`cpu, this`gpu
      ensures Matches(t) && Reaches(cfg, s, t) && OnlyBackground(t0, t)
    {
      t := Background(t0);
      ReachesThrough(cfg, s, t0, t);
    }

    /** The two selects: a token at once if there is one, else wait for one or for the deadline. */
    method TakeToken(ghost s: State, ghost t0: State) returns (ok: bool, ghost t: State)
      requires Matches(t0) && Reaches(cfg, s, t0) && t0.pc.Taking?
      modifies this`tokens, this`cpu, this`gpu
      ensures Reaches(cfg, s, t) && Matches(t)
      ensures t == t0.(tokens := t.tokens, cpu := t.cpu, gpu := t.gpu, ticks := t.ticks, accepted := t.accepted,
                       grants := t.grants, pc := t.pc)
      ensures t.pc == if ok then Inferring(t0.pc.frame) else Ended
      ensures t.grants == t0.grants + (if ok then 1 else 0)
    {
      hide Reaches;
      t := Pause(s, t0);
      var expired: bool := *;
      if tokens == 0 && !expired {
        ReachesOn(cfg, s, t, NoToken);
        t := Next(cfg, t, NoToken);
        t := Pause(s, t);
        expired := *;
      }
      // With both ready either may win; with no token only the deadline can end the wait.
      if tokens == 0 || expired {
        ReachesOn(cfg, s, t, Deadline);
        t := Next(cfg, t, Deadline);
        return false, t;
      }
      tokens := tokens - 1;
      ReachesOn(cfg, s, t, Grant);
      t := Next(cfg, t, Grant);
      return true, t;
    }

    /** Takes tokens until the bucket is seen empty; refills may slip in between, `slips` of them at most. */
    method DrainBucket(ghost s: State, slips: nat) returns (ghost t: State)
      requires Matches(s) && s.pc.Draining?
      modifies this`tokens
      ensures Reaches(cfg, s, t) && Matches(t)
      ensures t.tokens == 0
      ensures t == s.(tokens := 0, ticks := t.ticks, accepted := t.accepted, drained := t.drained)
    {
      hide Reaches;
      t := s;
      ReachesSelf(cfg, s);
      var left := slips;
      while tokens > 0
        invariant Reaches(cfg, s, t) && Matches(t)
        invariant t == s.(tokens := t.tokens, ticks := t.ticks, accepted := t.accepted, drained := t.drained)
        invariant 0 <= left
        decreases left, tokens
      {
        tokens := tokens - 1;
        ReachesOn(cfg, s, t, DrainTake);
        t := Next(cfg, t, DrainTake);
        var slip: bool := *;
        if slip && left > 0 {
          left := left - 1;
          ReachesOn(cfg, s, t, Tick);
          t := Refill(t);
        }
      }
    }
  }

  /** What the outside world answers during one frame. */
  datatype Answers = Answers(
    timers: nat,
    inferOk: bool,
    stopInBackoff: bool,
    slips: nat,
    score: real,
    embedded: bool,
    verdict: bool,
    idDrawn: bool)

  class InferenceLoop {
    const cfg: Config
    const gov: Governor
    var consecutiveFails: nat
    var stored: seq<Stored>

    ghost predicate Matches(s: State)
      reads this, gov
    {
      && gov.cfg == cfg
      && gov.Matches(s)
      && consecutiveFails == s.fails
      && stored == s.writes
    }

    constructor (gov: Governor)
      ensures this.gov == gov && this.cfg == gov.cfg && consecutiveFails == 0 && stored == []
    {
      this.cfg := gov.cfg;
      this.gov := gov;
      consecutiveFails := 0;
      stored := [];
    }

    /** What a frame with these answers adds to the store. */
    function StoredFor(a: Answers): seq<Stored> {
      var coherent := a.embedded && a.verdict;
      if a.idDrawn && a.score >= cfg.minScore && (coherent || a.score >= cfg.isolatedScore) then [Stored(a.score, coherent)]
      else []
    }

    /**
     One iteration for one popped frame; false when the loop ends. A frame that fails a gate costs nothing. The others wait
     for a grant or for the deadline; a grant leads to one Infer call, whose failure is counted and backed off, and whose
     success ends the count and stores the node if it scored enough.
     */
    method Iterate(frame: Frame, a: Answers, ghost s: State) returns (alive: bool, ghost t: State)
      requires Matches(s) && s.pc.Popping?
      modifies this`consecutiveFails, this`stored, gov`tokens, gov`cpu, gov`gpu
      ensures Reaches(cfg, s, t) && Matches(t)
      ensures t.pc == if alive then Popping else Ended
      ensures t.popped == s.popped + 1
      ensures var gated := frame.dwell >= cfg.minDwell && frame.contentClass != Entertainment
                           && frame.contentClass != SystemUi;
              && (!gated ==> alive && t.skipped == s.skipped + 1)
              && t.grants - s.grants == t.infers - s.infers
              && (if t.grants == s.grants
                  then alive == !gated && consecutiveFails == old(consecutiveFails) && stored == old(stored)
                  else
                    && gated && t.grants == s.grants + 1 && t.skipped == s.skipped
                    && alive == (a.inferOk || !a.stopInBackoff)
                    && consecutiveFails == (if a.inferOk then 0 else old(consecutiveFails) + 1)
                    && stored == if a.inferOk then old(stored) + StoredFor(a) else old(stored))
    {
      hide Reaches;
      ReachesSelf(cfg, s);
      ReachesOn(cfg, s, s, Pop(frame));
      t := Next(cfg, s, Pop(frame));
      ReachesOn(cfg, s, t, Gate);
      t := Next(cfg, t, Gate);
      if frame.dwell < cfg.minDwell {
        return true, t;
      }
      if frame.contentClass == Entertainment || frame.contentClass == SystemUi {
        return true, t;
      }
      ghost var t1: State;
      var ok: bool;
      ok, t1 := gov.Acquire(t, a.timers);
      ReachesThrough(cfg, s, t, t1);
      t := t1;
      if !ok {
        return false, t;
      }
      t := gov.Pause(s, t);
      if !a.inferOk {
        alive, t := BackOff(a, s, t);
      } else {
        alive := true;
        t := Finish(a, s, t);
      }
    }

    method BackOff(a: Answers, ghost s: State, ghost t0: State) returns (alive: bool, ghost t: State)
      requires Matches(t0) && t0.pc.Inferring? && Reaches(cfg, s, t0)
      modifies this`consecutiveFails, gov`tokens, gov`cpu, gov`gpu
      ensures Reaches(cfg, s, t) && Matches(t)
      ensures t.pc == if alive then Popping else Ended
      ensures t.popped == t0.popped && t.grants == t0.grants && t.infers == t0.infers + 1 && t.skipped == t0.skipped
      ensures alive == !a.stopInBackoff && consecutiveFails == old(consecutiveFails) + 1
    {
      hide Reaches;
      consecutiveFails := consecutiveFails + 1;
      ReachesOn(cfg, s, t0, InferFails);
      t := Next(cfg, t0, InferFails);
      t := gov.Pause(s, t);
      if a.stopInBackoff {
        ReachesOn(cfg, s, t, StopInBackoff);
        t := Next(cfg, t, StopInBackoff);
        return false, t;
      }
      ReachesOn(cfg, s, t, BackoffEnds);
      t := Next(cfg, t, BackoffEnds);
      return true, t;
    }

    /** After a successful inference: drain if this ends an outage, then decide and store. */
    method Finish(a: Answers, ghost s: State, ghost t0: State) returns (ghost t: State)
      requires Matches(t0) && t0.pc.Inferring? && Reaches(cfg, s, t0)
      modifies this`consecutiveFails, this`stored, gov`tokens
      ensures Reaches(cfg, s, t) && Matches(t)
      ensures t.pc == Popping
      ensures t.popped == t0.popped && t.grants == t0.grants && t.infers == t0.infers + 1 && t.skipped == t0.skipped
      ensures consecutiveFails == 0 && stored == old(stored) + StoredFor(a)
      ensures old(consecutiveFails) > 0 ==> gov.tokens == 0
    {
      hide Reaches;
      ReachesOn(cfg, s, t0, InferSucceeds);
      t := Next(cfg, t0, InferSucceeds);
      if consecutiveFails > 0 {
        ghost var t1 := gov.DrainBucket(t, a.slips);
        ReachesThrough(cfg, s, t, t1);
        t := t1;
        consecutiveFails := 0;
        ReachesOn(cfg, s, t, DrainDone);
        t := Next(cfg, t, DrainDone);
      }
      ghost var decide := Decide(a.score, a.embedded, a.verdict, a.idDrawn);
      ReachesOn(cfg, s, t, decide);
      t := Next(cfg, t, decide);
      if a.score < cfg.minScore {
        return;
      }
      var coherent := a.embedded && a.verdict;
      var requiredScore := cfg.minScore;
      if !coherent {
        requiredScore := cfg.isolatedScore;
      }
      if a.score < requiredScore {
        return;
      }
      if !a.idDrawn {
        return;
      }
      stored := stored + [Stored(a.score, coherent)];
    }

    /** The loop over the frames the queue delivers until it is stopped; all it ever does is a run of the protocol. */
    method Run(frames: seq<(Frame, Answers)>) returns (ghost t: State)
      requires Matches(INITIAL)
      modifies this`consecutiveFails, this`stored, gov`tokens, gov`cpu, gov`gpu
      ensures Reaches(cfg, INITIAL, t) && Matches(t) && t.pc.Ended?
      ensures forall w :: w in stored ==> w.score >= cfg.minScore && (!w.coherent ==> w.score >= cfg.isolatedScore)
    {
      hide Reaches;
      t := INITIAL;
      ReachesSelf(cfg, INITIAL);
      var i := 0;
      while i < |frames|
        invariant 0 <= i <= |frames|
        invariant Reaches(cfg, INITIAL, t) && Matches(t) && t.pc.Popping?
      {
        var (frame, answers) := frames[i];
        ghost var t1: State;
        var alive: bool;
        alive, t1 := Iterate(frame, answers, t);
        ReachesThrough(cfg, INITIAL, t, t1);
        t := t1;
        i := i + 1;
        if !alive {
          ReachedWritesOk(cfg, t);
          return;
        }
      }
      ReachesOn(cfg, INITIAL, t, PopNothing);
      t := Next(cfg, t, PopNothing);
      ReachedWritesOk(cfg, t);
    }
  }

  lemma ReachedWritesOk(cfg: Config, t: State)
    requires Reaches(cfg, INITIAL, t)
    ensures WritesOk(cfg, t)
  {
    var run :| AllEnabled(cfg, INITIAL, run) && After(cfg, INITIAL, run) == t;
    RunKeepsWrites(cfg, INITIAL, run);
  }

  lemma {:induction false} RunKeepsWrites(cfg: Config, s: State, run: seq<Step>)
    requires WritesOk(cfg, s) && AllEnabled(cfg, s, run)
    ensures WritesOk(cfg, After(cfg, s, run))
    decreases |run|
  {
    hide WritesOk, Next, Enabled;
    if run != [] {
      StepKeepsWrites(cfg, s, run[0]);
      RunKeepsWrites(cfg, Next(cfg, s, run[0]), run[1..]);
    }
  }
}
