/** Runs of the barrier end, and they end with all threads returned exactly when the target is the number of threads. */
module BarrierTarget {
  import opened Options
  import opened Barrier

  // ----- Every run ends -----

  /** Steps a thread may still take. */
  function StepsLeft(p: Pc): nat {
    match p
    case Start => 9
    case Locked => 8
    case Counted => 7
    case ResetCount => 6
    case ResetTarget => 5
    case Broadcast => 4
    case Waiting => 3
    case Woken => 2
    case Leaving => 1
    case Done => 0
  }

  function TotalLeft(pc: seq<Pc>, k: nat): nat
    requires k <= |pc|
  {
    if k == 0 then 0 else TotalLeft(pc, k - 1) + StepsLeft(pc[k - 1])
  }

  lemma {:induction false} TotalUpdate(pc: seq<Pc>, k: nat, t: nat, p: Pc)
    requires k <= |pc| && t < |pc|
    ensures TotalLeft(pc[t := p], k) == TotalLeft(pc, k) + if t < k then StepsLeft(p) - StepsLeft(pc[t]) else 0
    decreases k
  {
    hide StepsLeft;
    if k > 0 { TotalUpdate(pc, k - 1, t, p); }
  }

  lemma {:induction false} TotalWake(pc: seq<Pc>, k: nat)
    requires k <= |pc|
    ensures TotalLeft(WakeAll(pc), k) <= TotalLeft(pc, k)
    decreases k
  {
    if k > 0 { TotalWake(pc, k - 1); }
  }

  /** Each step of any thread brings the end nearer. */
  lemma StepNearsEnd(num: nat, s: State, t: nat)
    requires CanStep(num, s, t)
    ensures var s' := Step(num, s, t).value;
            |s'.pc| == |s.pc| && TotalLeft(s'.pc, |s'.pc|) < TotalLeft(s.pc, |s.pc|)
  {
    var s' := Step(num, s, t).value;
    if s.pc[t] == Broadcast {
      TotalUpdate(s.pc, |s.pc|, t, Leaving);
      TotalWake(s.pc[t := Leaving], |s.pc|);
    } else {
      TotalUpdate(s.pc, |s.pc|, t, s'.pc[t]);
      assert s'.pc == s.pc[t := s'.pc[t]];
    }
  }

  lemma {:induction false} RunBounded(num: nat, s: State, schedule: seq<nat>)
    requires Run(num, s, schedule).Some?
    ensures var s' := Run(num, s, schedule).value;
            |s'.pc| == |s.pc| && |schedule| + TotalLeft(s'.pc, |s'.pc|) <= TotalLeft(s.pc, |s.pc|)
    decreases |schedule|
  {
    hide Step;
    if schedule != [] {
      RunBounded(num, s, schedule[..|schedule| - 1]);
      StepNearsEnd(num, Run(num, s, schedule[..|schedule| - 1]).value, schedule[|schedule| - 1]);
    }
  }

  lemma {:induction false} InitialTotal(pc: seq<Pc>, k: nat)
    requires k <= |pc| && forall i {:trigger pc[i]} :: 0 <= i < |pc| ==> pc[i] == Start
    ensures TotalLeft(pc, k) == 9 * k
    decreases k
  {
    if k > 0 { InitialTotal(pc, k - 1); }
  }

  /** No schedule has more than nine steps a thread. */
  lemma RunsEnd(threads: nat, num: nat, schedule: seq<nat>)
    requires Run(num, Initial(threads), schedule).Some?
    ensures |schedule| <= 9 * (threads + 1)
  {
    RunBounded(num, Initial(threads), schedule);
    InitialTotal(Initial(threads).pc, threads + 1);
  }

  // ----- Runs that do not end well -----

  /** Every state that cannot go on has all threads returned. */
  ghost predicate AlwaysFinishes(threads: nat, num: nat) {
    forall s {:trigger Reachable(threads, num, s)} :: Reachable(threads, num, s) && Stuck(num, s) ==> AllDone(s)
  }

  lemma RunStep(num: nat, s: State, schedule: seq<nat>, t: nat)
    requires Run(num, s, schedule).Some? && CanStep(num, Run(num, s, schedule).value, t)
    ensures Run(num, s, schedule + [t]) == Step(num, Run(num, s, schedule).value, t)
  {
    assert (schedule + [t])[..|schedule|] == schedule;
  }

  lemma ReachStep(threads: nat, num: nat, s: State, t: nat)
    requires Reachable(threads, num, s) && CanStep(num, s, t)
    ensures Reachable(threads, num, Step(num, s, t).value)
  {
    hide Step;
    var schedule :| Run(num, Initial(threads), schedule) == Some(s);
    RunStep(num, Initial(threads), schedule, t);
  }

  lemma ReachInitial(threads: nat, num: nat)
    ensures Reachable(threads, num, Initial(threads))
  {
    assert Run(num, Initial(threads), []) == Some(Initial(threads));
  }

  /** Some fact that all steps keep, and that some thread has not returned in. */
  ghost predicate Doomed(threads: nat, num: nat, s: State) {
    |s.pc| == threads + 1 && (TooMany(threads, num, s) || LeftBehind(threads, s))
  }

  /** The target is out of reach: nobody will be released. */
  ghost predicate TooMany(threads: nat, num: nat, s: State) {
    && |s.pc| == threads + 1 && num > threads && Gathering(num, s)
  }

  /** The release is over, and the last blocking thread has not taken part. */
  ghost predicate LeftBehind(threads: nat, s: State) {
    && threads > 0 && |s.pc| == threads + 1 && s.waitFor == 0
    && s.pc[threads] !in {Start, Locked, Counted}
    && s.pc[threads - 1] in {Start, Locked, Counted, Waiting}
    && forall t {:trigger s.pc[t]} :: 0 <= t < |s.pc| ==> s.pc[t] !in {ResetCount, ResetTarget, Broadcast}
  }

  lemma TooManyStays(threads: nat, num: nat, s: State, t: nat)
    requires TooMany(threads, num, s) && CanStep(num, s, t)
    ensures TooMany(threads, num, Step(num, s, t).value)
  {
    var s' := Step(num, s, t).value;
    assert s.pc[t] in {Start, Locked, Counted, Waiting};
    CountUpdate(s.pc, threads, t, s'.pc[t]);
    hide CountedBelow;
    assert s'.pc == s.pc[t := s'.pc[t]];
  }

  lemma LeftBehindStays(threads: nat, num: nat, s: State, t: nat)
    requires LeftBehind(threads, s) && CanStep(num, s, t)
    ensures LeftBehind(threads, Step(num, s, t).value)
  {
    var s' := Step(num, s, t).value;
    assert s.pc[t] !in {ResetCount, ResetTarget, Broadcast};
    assert s'.pc == s.pc[t := s'.pc[t]];
  }

  lemma DoomedNotDone(threads: nat, num: nat, s: State)
    requires Doomed(threads, num, s)
    ensures !AllDone(s)
  {
    if TooMany(threads, num, s) { assert s.pc[threads] in {Start, Locked, Counted, Waiting}; }
  }

  /** A doomed state leads to one that cannot go on. */
  lemma {:induction false} DoomedGetsStuck(threads: nat, num: nat, s: State)
    requires Reachable(threads, num, s) && Doomed(threads, num, s)
    ensures !AlwaysFinishes(threads, num)
    decreases TotalLeft(s.pc, |s.pc|)
  {
    hide Step, TooMany, LeftBehind, Reachable;
    if Stuck(num, s) {
      DoomedNotDone(threads, num, s);
    } else {
      var t :| CanStep(num, s, t);
      var s' := Step(num, s, t).value;
      StepNearsEnd(num, s, t);
      ReachStep(threads, num, s, t);
      if TooMany(threads, num, s) { TooManyStays(threads, num, s, t); } else { LeftBehindStays(threads, num, s, t); }
      DoomedGetsStuck(threads, num, s');
    }
  }

  // ----- A target below the number of threads -----

  /** The releaser waits, and so do the first k of the others. */
  ghost predicate FirstWait(threads: nat, num: nat, k: nat, s: State) {
    && |s.pc| == threads + 1 && k <= threads && s.holder == -1 && s.n == k && s.waitFor == num
    && s.pc[threads] == Waiting
    && (forall i {:trigger s.pc[i]} :: 0 <= i < k ==> s.pc[i] == Waiting)
    && forall i {:trigger s.pc[i]} :: k <= i < threads ==> s.pc[i] == Start
  }

  lemma ReleaserFirst(threads: nat, num: nat) returns (s: State)
    requires 0 < num
    ensures Reachable(threads, num, s) && FirstWait(threads, num, 0, s)
  {
    hide Reachable;
    ReachInitial(threads, num);
    var s0 := Initial(threads);
    assert CanStep(num, s0, threads);
    var s1 := Step(num, s0, threads).value;
    ReachStep(threads, num, s0, threads);
    assert CanStep(num, s1, threads);
    s := Step(num, s1, threads).value;
    ReachStep(threads, num, s1, threads);
  }

  /** Thread k locks and is counted. */
  lemma NextCounted(threads: nat, num: nat, k: nat, s: State) returns (s2: State)
    requires Reachable(threads, num, s) && FirstWait(threads, num, k, s) && k < threads
    ensures Reachable(threads, num, s2) && s2 == State(s.pc[k := Counted], k + 1, num, k)
  {
    hide Reachable;
    assert s.pc[k] == Start;
    assert CanStep(num, s, k);
    var s1 := Step(num, s, k).value;
    ReachStep(threads, num, s, k);
    assert CanStep(num, s1, k);
    s2 := Step(num, s1, k).value;
    ReachStep(threads, num, s1, k);
    assert s.pc[k := Locked][k := Counted] == s.pc[k := Counted];
  }

  lemma NextWaits(threads: nat, num: nat, k: nat, s: State) returns (s3: State)
    requires Reachable(threads, num, s) && FirstWait(threads, num, k, s) && k < threads && k + 1 < num
    ensures Reachable(threads, num, s3) && FirstWait(threads, num, k + 1, s3)
  {
    hide Reachable;
    var s2 := NextCounted(threads, num, k, s);
    assert CanStep(num, s2, k);
    s3 := Step(num, s2, k).value;
    ReachStep(threads, num, s2, k);
    assert s3.pc == s.pc[k := Waiting] by { assert s.pc[k := Counted][k := Waiting] == s.pc[k := Waiting]; }
  }

  lemma {:induction false} FirstComers(threads: nat, num: nat, k: nat) returns (s: State)
    requires k < num <= threads
    ensures Reachable(threads, num, s) && FirstWait(threads, num, k, s)
    decreases k
  {
    hide Reachable, FirstWait;
    if k == 0 {
      s := ReleaserFirst(threads, num);
    } else {
      var s0 := FirstComers(threads, num, k - 1);
      s := NextWaits(threads, num, k - 1, s0);
    }
  }

  /** The three steps of a release by thread t, which leave the last blocking thread out. */
  lemma ReleaseWithout(threads: nat, num: nat, s: State, t: nat)
    requires Reachable(threads, num, s) && |s.pc| == threads + 1 && threads > 0 && t < |s.pc| && t != threads - 1
    requires s.pc[t] == ResetCount && s.pc[threads - 1] == Start
    requires t == threads || s.pc[threads] == Waiting
    requires forall u {:trigger s.pc[u]} :: 0 <= u < |s.pc| && u != t ==> s.pc[u] == Start || s.pc[u] == Waiting
    ensures !AlwaysFinishes(threads, num)
  {
    hide Reachable, AlwaysFinishes;
    assert CanStep(num, s, t);
    var s1 := Step(num, s, t).value;
    ReachStep(threads, num, s, t);
    assert CanStep(num, s1, t);
    var s2 := Step(num, s1, t).value;
    ReachStep(threads, num, s1, t);
    assert CanStep(num, s2, t);
    var s3 := Step(num, s2, t).value;
    ReachStep(threads, num, s2, t);
    assert s2.pc[t := Leaving] == s.pc[t := Leaving];
    assert s3.pc == WakeAll(s.pc[t := Leaving]) && s3.waitFor == 0;
    assert s3.pc[threads - 1] == Start;
    DoomedGetsStuck(threads, num, s3);
  }

  lemma TargetTooSmall(threads: nat, num: nat)
    requires num < threads
    ensures !AlwaysFinishes(threads, num)
  {
    hide Reachable, AlwaysFinishes;
    if num == 0 {
      ReachInitial(threads, num);
      var s0 := Initial(threads);
      assert CanStep(num, s0, threads);
      var s1 := Step(num, s0, threads).value;
      ReachStep(threads, num, s0, threads);
      assert CanStep(num, s1, threads);
      var s2 := Step(num, s1, threads).value;
      ReachStep(threads, num, s1, threads);
      ReleaseWithout(threads, num, s2, threads);
    } else {
      var s0 := FirstComers(threads, num, num - 1);
      var s1 := NextCounted(threads, num, num - 1, s0);
      assert CanStep(num, s1, num - 1);
      var s2 := Step(num, s1, num - 1).value;
      ReachStep(threads, num, s1, num - 1);
      ReleaseWithout(threads, num, s2, num - 1);
    }
  }

  lemma TargetTooLarge(threads: nat, num: nat)
    requires num > threads
    ensures !AlwaysFinishes(threads, num)
  {
    ReachInitial(threads, num);
    CountNone(Initial(threads).pc, threads);
    assert TooMany(threads, num, Initial(threads));
    DoomedGetsStuck(threads, num, Initial(threads));
  }

  /** Every interleaving ends with all threads returned exactly when releaseThreads is given the number of threads
      that block. */
  lemma RightTarget(threads: nat, num: nat)
    ensures AlwaysFinishes(threads, num) <==> num == threads
  {
    hide Reachable, Stuck;
    if num == threads {
      forall s | Reachable(threads, num, s) && Stuck(num, s) ensures AllDone(s) { NeverStuck(threads, s); }
    } else if num < threads {
      TargetTooSmall(threads, num);
    } else {
      TargetTooLarge(threads, num);
    }
  }
}
