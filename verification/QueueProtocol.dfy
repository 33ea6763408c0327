/**
 The queue shared by producers and consumers: every interleaving of pushes and of the two halves of Pop, the locked look
 at the buffer and the wait on the signal channel.
 */
module QueueProtocol {
  import opened FrameQueue

  /** Where a consumer stands: about to lock, waiting in the select, or back with a frame or with nothing. */
  datatype Consumer<T> = Checking | Waiting | Returned(frame: T) | Stopped

  datatype Fate = Popped | Dropped

  /** `pushed` lists every frame ever pushed; `fates` says what became of those that left, in the order they were pushed. */
  datatype State<T> = State(
    cap: nat,
    queue: seq<T>,
    signal: bool,
    stopped: bool,
    consumers: seq<Consumer<T>>,
    pushed: seq<T>,
    fates: seq<Fate>,
    popped: seq<T>)

  datatype Step<T> =
    | Push(frame: T)
    | Stop
    | Call(c: nat)
    | Check(c: nat)
    | Wake(c: nat)
    | GiveUp(c: nat)

  predicate Enabled<T>(s: State<T>, step: Step<T>) {
    match step
    case Push(_) => true
    case Stop => true
    case Call(c) => c < |s.consumers| && s.consumers[c].Returned?
    case Check(c) => c < |s.consumers| && s.consumers[c].Checking?
    case Wake(c) => c < |s.consumers| && s.consumers[c].Waiting? && s.signal
    case GiveUp(c) => c < |s.consumers| && s.consumers[c].Waiting? && s.stopped
  }

  function Next<T>(s: State<T>, step: Step<T>): State<T>
    requires Enabled(s, step)
  {
    match step
    case Push(x) =>
      s.(queue := Pushed(s.queue, x, s.cap), signal := true, pushed := s.pushed + [x],
         fates := if s.queue != [] && |s.queue| == s.cap then s.fates + [Dropped] else s.fates)
    case Stop => s.(stopped := true)
    case Call(c) => s.(consumers := s.consumers[c := Checking])
    case Check(c) =>
      if s.queue == [] then s.(consumers := s.consumers[c := Waiting])
      else s.(queue := s.queue[1..], consumers := s.consumers[c := Returned(s.queue[0])],
              fates := s.fates + [Fate.Popped], popped := s.popped + [s.queue[0]])
    case Wake(c) => s.(signal := false, consumers := s.consumers[c := Checking])
    case GiveUp(c) => s.(consumers := s.consumers[c := Stopped])
  }

  predicate AllEnabled<T>(s: State<T>, run: seq<Step<T>>)
    decreases |run|
  {
    run == [] || (Enabled(s, run[0]) && AllEnabled(Next(s, run[0]), run[1..]))
  }

  function After<T>(s: State<T>, run: seq<Step<T>>): State<T>
    requires AllEnabled(s, run)
    decreases |run|
  {
    if run == [] then s else After(Next(s, run[0]), run[1..])
  }

  function Initial<T>(cap: nat, consumers: nat): State<T> {
    State(cap, [], false, false, seq(consumers, _ => Checking), [], [], [])
  }

  // ---- Conservation ----

  /** The frames with a given fate, in order. */
  function Select<T>(xs: seq<T>, fates: seq<Fate>, fate: Fate): seq<T>
    requires |xs| == |fates|
    decreases |xs|
  {
    if xs == [] then []
    else
      var rest := Select(xs[..|xs| - 1], fates[..|xs| - 1], fate);
      if fates[|xs| - 1] == fate then rest + [xs[|xs| - 1]] else rest
  }

  lemma SelectAppend<T>(xs: seq<T>, fates: seq<Fate>, x: T, f: Fate, fate: Fate)
    requires |xs| == |fates|
    ensures Select(xs + [x], fates + [f], fate)
         == if f == fate then Select(xs, fates, fate) + [x] else Select(xs, fates, fate)
  {
    assert (xs + [x])[..|xs|] == xs && (fates + [f])[..|xs|] == fates;
  }

  lemma {:induction false} SelectPartitions<T>(xs: seq<T>, fates: seq<Fate>)
    requires |xs| == |fates|
    ensures |Select(xs, fates, Popped)| + |Select(xs, fates, Dropped)| == |xs|
    ensures multiset(Select(xs, fates, Popped)) + multiset(Select(xs, fates, Dropped)) == multiset(xs)
    decreases |xs|
  {
    if xs != [] {
      var n := |xs| - 1;
      SelectPartitions(xs[..n], fates[..n]);
      assert xs == xs[..n] + [xs[n]];
    }
  }

  /** What was pushed is what left, in order, followed by what is queued; what was popped is a subsequence of what left. */
  ghost predicate Conserved<T>(s: State<T>) {
    && |s.queue| <= s.cap
    && |s.fates| + |s.queue| == |s.pushed|
    && s.queue == s.pushed[|s.fates|..]
    && s.popped == Select(s.pushed[..|s.fates|], s.fates, Popped)
  }

  /** A waiting consumer with frames in the queue has a signal pending. */
  ghost predicate NoLostWakeUp<T>(s: State<T>) {
    forall c: nat :: c < |s.consumers| && s.consumers[c].Waiting? && s.queue != [] ==> s.signal
  }

  /** The oldest frame leaves with fate f. */
  lemma LeavingConserves<T>(s: State<T>, f: Fate)
    requires Conserved(s) && s.queue != []
    ensures Conserved(s.(queue := s.queue[1..], fates := s.fates + [f],
                         popped := if f == Popped then s.popped + [s.queue[0]] else s.popped))
  {
    hide Select;
    var gone, x := s.pushed[..|s.fates|], s.queue[0];
    SelectAppend(gone, s.fates, x, f, Popped);
    assert s.pushed[|s.fates|] == x;
    assert s.pushed[..|s.fates| + 1] == gone + [x];
    assert s.pushed[|s.fates| + 1..] == s.queue[1..];
  }

  lemma ArrivingConserves<T>(s: State<T>, x: T)
    requires Conserved(s) && |s.queue| < s.cap
    ensures Conserved(s.(queue := s.queue + [x], pushed := s.pushed + [x]))
  {
    hide Select;
    assert (s.pushed + [x])[..|s.fates|] == s.pushed[..|s.fates|];
    assert (s.pushed + [x])[|s.fates|..] == s.queue + [x];
  }

  lemma SameFramesConserve<T>(s: State<T>, t: State<T>)
    requires Conserved(s)
    requires t == s.(signal := t.signal, stopped := t.stopped, consumers := t.consumers)
    ensures Conserved(t)
  {
  }

  lemma StepConserves<T>(s: State<T>, step: Step<T>)
    requires s.cap > 0 && Conserved(s) && Enabled(s, step)
    ensures Conserved(Next(s, step))
  {
    hide Conserved;
    var t := Next(s, step);
    match step
    case Push(x) =>
      ConservedFits(s);
      if s.queue != [] && |s.queue| == s.cap {
        LeavingConserves(s, Dropped);
        var u := s.(queue := s.queue[1..], fates := s.fates + [Dropped], popped := s.popped);
        ArrivingConserves(u, x);
        SameFramesConserve(u.(queue := u.queue + [x], pushed := u.pushed + [x]), t);
      } else {
        ArrivingConserves(s, x);
        SameFramesConserve(s.(queue := s.queue + [x], pushed := s.pushed + [x]), t);
      }
    case Check(_) =>
      if s.queue == [] {
        SameFramesConserve(s, t);
      } else {
        LeavingConserves(s, Popped);
        SameFramesConserve(s.(queue := s.queue[1..], fates := s.fates + [Fate.Popped], popped := s.popped + [s.queue[0]]), t);
      }
    case _ => SameFramesConserve(s, t);
  }

  lemma ConservedFits<T>(s: State<T>)
    requires Conserved(s)
    ensures |s.queue| <= s.cap
  {
  }

  lemma StepKeepsWakeUp<T>(s: State<T>, step: Step<T>)
    requires |s.consumers| <= 1 && NoLostWakeUp(s) && Enabled(s, step)
    ensures NoLostWakeUp(Next(s, step))
  {
  }

  /**
   Every run, with any number of producers and consumers: each pushed frame is exactly one of popped, dropped or queued,
   the popped ones come out in the order they were pushed, and with one consumer no wake-up is lost.
   */
  lemma {:induction false} RunConserves<T>(s: State<T>, run: seq<Step<T>>)
    requires s.cap > 0 && Conserved(s) && AllEnabled(s, run)
    ensures var t := After(s, run);
            && Conserved(t)
            && t.cap == s.cap && |t.consumers| == |s.consumers|
            && (|s.consumers| <= 1 && NoLostWakeUp(s) ==> NoLostWakeUp(t))
    decreases |run|
  {
    hide Conserved, NoLostWakeUp;
    if run != [] {
      StepConserves(s, run[0]);
      if |s.consumers| <= 1 && NoLostWakeUp(s) {
        StepKeepsWakeUp(s, run[0]);
      }
      RunConserves(Next(s, run[0]), run[1..]);
    }
  }

  /** The frames of the pushes of a run, in order. */
  function PushesOf<T>(run: seq<Step<T>>): seq<T>
    decreases |run|
  {
    if run == [] then [] else (if run[0].Push? then [run[0].frame] else []) + PushesOf(run[1..])
  }

  lemma StepPushes<T>(s: State<T>, step: Step<T>)
    requires Enabled(s, step)
    ensures Next(s, step).pushed == s.pushed + PushesOf([step])
  {
    hide Pushed;
    assert [step][1..] == [];
    assert PushesOf<T>([]) == [];
  }

  lemma FirstPush<T>(run: seq<Step<T>>)
    requires run != []
    ensures PushesOf(run) == PushesOf([run[0]]) + PushesOf(run[1..])
  {
    assert [run[0]][1..] == [];
    assert PushesOf<T>([]) == [];
  }

  /** Every push is on record, and nothing else. */
  lemma {:induction false} PushedAre<T>(s: State<T>, run: seq<Step<T>>)
    requires AllEnabled(s, run)
    ensures After(s, run).pushed == s.pushed + PushesOf(run)
    decreases |run|
  {
    hide Next, Enabled, PushesOf;
    if run == [] {
      NothingPushed(s.pushed);
    } else {
      StepPushes(s, run[0]);
      FirstPush(run);
      PushedAre(Next(s, run[0]), run[1..]);
      assert (s.pushed + PushesOf([run[0]])) + PushesOf(run[1..]) == s.pushed + (PushesOf([run[0]]) + PushesOf(run[1..]));
    }
  }

  lemma NothingPushed<T>(pushed: seq<T>)
    ensures pushed + PushesOf<T>([]) == pushed
  {
  }

  lemma EachFrameHasOneFate<T>(cap: nat, consumers: nat, run: seq<Step<T>>)
    requires cap > 0 && AllEnabled(Initial<T>(cap, consumers), run)
    ensures var t := After(Initial<T>(cap, consumers), run); |t.fates| + |t.queue| == |t.pushed|
    ensures var t := After(Initial<T>(cap, consumers), run);
            var gone := t.pushed[..|t.fates|];
            var dropped := Select(gone, t.fates, Dropped);
            && t.pushed == PushesOf(run)
            && t.pushed == gone + t.queue && |t.queue| <= cap
            && t.popped == Select(gone, t.fates, Popped)
            && |t.popped| + |dropped| + |t.queue| == |t.pushed|
            && multiset(t.popped) + multiset(dropped) + multiset(t.queue) == multiset(t.pushed)
  {
    hide Next, Enabled, AllEnabled, After, PushesOf;
    var s := Initial<T>(cap, consumers);
    assert Select<T>([], [], Popped) == [];
    RunConserves(s, run);
    PushedAre(s, run);
    assert [] + PushesOf(run) == PushesOf(run);
    var t := After(s, run);
    var gone := t.pushed[..|t.fates|];
    SelectPartitions(gone, t.fates);
    assert t.pushed == gone + t.queue;
  }

  /** One consumer: whenever it waits with a frame queued, a signal is pending. */
  lemma SingleConsumerNeverSleepsOnFrames<T>(cap: nat, run: seq<Step<T>>)
    requires cap > 0 && AllEnabled(Initial<T>(cap, 1), run)
    ensures var t := After(Initial<T>(cap, 1), run);
            |t.consumers| == 1 && (t.consumers[0].Waiting? && t.queue != [] ==> t.signal)
  {
    var s := Initial<T>(cap, 1);
    assert Select<T>([], [], Popped) == [];
    RunConserves(s, run);
  }

  /** The guarantee needs the single consumer: with two, a frame can lie in the queue while a consumer sleeps unsignalled. */
  lemma TwoConsumersLoseAWakeUp<T>(cap: nat, a: T, b: T)
    requires cap >= 2
    ensures var run := [Check(0), Check(1), Push(a), Push(b), Wake(0), Check(0)];
            && AllEnabled(Initial<T>(cap, 2), run)
            && After(Initial<T>(cap, 2), run).queue == [b]
            && After(Initial<T>(cap, 2), run).consumers == [Returned(a), Waiting]
            && !After(Initial<T>(cap, 2), run).signal
  {
    var s0 := Initial<T>(cap, 2);
    assert s0.consumers == [Checking, Checking];
    var s1 := Next(s0, Check(0));
    var s2 := Next(s1, Check(1));
    var s3 := Next(s2, Push(a));
    var s4 := Next(s3, Push(b));
    var s5 := Next(s4, Wake(0));
    var s6 := Next(s5, Check(0));
    assert s6.queue == [b] && s6.consumers == [Returned(a), Waiting] && !s6.signal;
    Unfold1(s5, Check(0), []);
    Unfold1(s4, Wake(0), [Check(0)]);
    Unfold1(s3, Push(b), [Wake(0), Check(0)]);
    Unfold1(s2, Push(a), [Push(b), Wake(0), Check(0)]);
    Unfold1(s1, Check(1), [Push(a), Push(b), Wake(0), Check(0)]);
    Unfold1(s0, Check(0), [Check(1), Push(a), Push(b), Wake(0), Check(0)]);
    assert [Check(0), Check(1), Push(a), Push(b), Wake(0), Check(0)]
        == [Check(0)] + [Check(1), Push(a), Push(b), Wake(0), Check(0)];
  }

  lemma Unfold1<T>(s: State<T>, step: Step<T>, rest: seq<Step<T>>)
    requires Enabled(s, step) && AllEnabled(Next(s, step), rest)
    ensures AllEnabled(s, [step] + rest) && After(s, [step] + rest) == After(Next(s, step), rest)
  {
    assert ([step] + rest)[1..] == rest;
  }

  predicate NobodyStopped<T>(s: State<T>) {
    !s.stopped && forall c :: 0 <= c < |s.consumers| ==> !s.consumers[c].Stopped?
  }

  lemma StepStopsNobody<T>(s: State<T>, step: Step<T>)
    requires Enabled(s, step) && !step.Stop? && NobodyStopped(s)
    ensures NobodyStopped(Next(s, step))
  {
    hide Pushed;
  }

  /** Nobody comes back with nothing unless the queue was stopped. */
  lemma {:induction false} OnlyStopGivesUp<T>(s: State<T>, run: seq<Step<T>>)
    requires AllEnabled(s, run) && NobodyStopped(s)
    requires forall i :: 0 <= i < |run| ==> !run[i].Stop?
    ensures NobodyStopped(After(s, run))
    decreases |run|
  {
    hide Next, Enabled, NobodyStopped;
    if run != [] {
      StepStopsNobody(s, run[0]);
      OnlyStopGivesUp(Next(s, run[0]), run[1..]);
    }
  }

  // ---- Progress of a Pop ----

  /** How many more steps a consumer can take on its own within one call. */
  function Rank<T>(s: State<T>, c: nat): nat
    requires c < |s.consumers|
  {
    var pending := if s.signal then 2 else 0;
    match s.consumers[c]
    case Checking => pending + 2
    case Waiting => pending + 1
    case Returned(_) => 0
    case Stopped => 0
  }

  predicate OwnStep<T>(step: Step<T>, c: nat) { step == Check(c) || step == Wake(c) || step == GiveUp(c) }

  function OwnSteps<T(==)>(run: seq<Step<T>>, c: nat): nat {
    if run == [] then 0 else (if OwnStep(run[0], c) then 1 else 0) + OwnSteps(run[1..], c)
  }

  /**
   With no further push one Pop looks at most twice more: whatever stops, wake-ups and checks of others come between, it
   takes at most four steps of its own before it returns or stays asleep.
   */
  lemma {:induction false} PopIsFinite<T>(s: State<T>, c: nat, run: seq<Step<T>>)
    requires c < |s.consumers| && AllEnabled(s, run)
    requires forall i :: 0 <= i < |run| ==> !run[i].Push? && run[i] != Call(c)
    ensures OwnSteps(run, c) <= Rank(s, c) <= 4
    decreases |run|
  {
    if run != [] {
      assert !run[0].Push? && run[0] != Call(c);
      PopIsFinite(Next(s, run[0]), c, run[1..]);
    }
  }

  /** A consumer that waits while frames are queued comes back with the oldest frame in two steps of its own. */
  lemma WaitingConsumerGetsOldest<T>(s: State<T>)
    requires |s.consumers| == 1 && NoLostWakeUp(s) && s.consumers[0].Waiting? && s.queue != []
    ensures AllEnabled(s, [Wake(0), Check(0)])
    ensures After(s, [Wake(0), Check(0)]).consumers == [Returned(s.queue[0])]
  {
    var s1 := Next(s, Wake(0));
    assert s1.consumers == [Checking];
    assert Next(s1, Check(0)).consumers == [Returned(s.queue[0])];
    Unfold1(s1, Check(0), []);
    Unfold1(s, Wake(0), [Check(0)]);
    var rest: seq<Step<T>> := [Check(0)];
    assert [Wake(0), Check(0)] == [Wake(0)] + rest;
  }
}
