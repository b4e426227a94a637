/** How often a loop body runs. Two three-step programs, a fixed loop
    `LOOP_START{times: n, max_iterations: m}; WAIT{ms: 0}; END_LOOP` and a
    condition loop `LOOP_START{mode: until_text, max_iterations: m}; WAIT{ms:
    0}; END_LOOP`, are run through `Interpreter.Run`; the body is the WAIT
    at position 1, so the number of its visits is the number of passes. */
module LoopCounts {
  import opened Wrappers
  import opened Geometry
  import opened Values
  import opened LoopIds
  import opened Jump
  import opened Interpreter
  import opened Text

  const Body: nat := 1

  function FixedLoop(n: int, m: int): seq<Step>
  {
    [Step(LoopStart, map["times" := Int(n), "max_iterations" := Int(m)]),
     Step("WAIT", map["ms" := Int(0)]),
     Step(EndLoop, map[])]
  }

  function UntilTextLoop(m: int): seq<Step>
  {
    [Step(LoopStart, map["mode" := Str("until_text"), "max_iterations" := Int(m)]),
     Step("WAIT", map["ms" := Int(0)]),
     Step(EndLoop, map[])]
  }

  predicate NoStop(obs: seq<Obs>)
  {
    forall k :: 0 <= k < |obs| ==> !obs[k].stop
  }

  /** No stop request and a loop-exit condition that is never met. */
  predicate Quiet(obs: seq<Obs>)
  {
    forall k :: 0 <= k < |obs| ==> !obs[k].stop && !obs[k].condition
  }

  /** How often position `pc` occurs among the executed steps. */
  function Visits(vs: seq<nat>, pc: nat): (c: nat)
    ensures c <= |vs|
  {
    if |vs| == 0 then 0 else (if vs[0] == pc then 1 else 0) + Visits(vs[1..], pc)
  }

  lemma {:induction false} VisitsAppend(a: seq<nat>, b: seq<nat>, pc: nat)
    ensures Visits(a + b, pc) == Visits(a, pc) + Visits(b, pc)
  {
    if |a| == 0 {
      assert a + b == b;
    } else {
      assert (a + b)[0] == a[0] && (a + b)[1..] == a[1..] + b;
      VisitsAppend(a[1..], b, pc);
    }
  }

  /** The passes a fixed loop still makes once revisited with `r` passes
      left and `i` counted: each revisit below the safety valve `m` with a
      pass left makes one more. */
  function Remaining(r: int, i: int, m: int): (k: nat)
    decreases Max(r, 0)
  {
    if i >= m || r <= 0 then 0 else 1 + Remaining(r - 1, i + 1, m)
  }

  /** The fixed loop stops at the valve or when no passes are left,
      whichever comes first. */
  lemma {:induction false} RemainingIsMin(r: int, i: int, m: int)
    ensures Remaining(r, i, m) == if i >= m || r <= 0 then 0 else Min(r, m - i)
    decreases Max(r, 0)
  {
    if i < m && r > 0 {
      RemainingIsMin(r - 1, i + 1, m);
    }
  }

  /** The three actions of both programs; the loop's END_LOOP is the last
      step, so a finished or skipped loop continues past the end. */
  lemma ExitPastEnd(steps: seq<Step>)
    requires |steps| == 3 && steps[0].action == LoopStart && steps[1].action == "WAIT"
    requires steps[2].action == EndLoop
    ensures SkipLoop(Actions(steps), 0) == 3
  {
    var acts := Actions(steps);
    assert acts == [LoopStart, "WAIT", EndLoop];
    assert RStripChar(LoopStart, '_') == LoopStart;
    assert !Opens(acts[1], LoopStart) && !Opens(acts[2], LoopStart);
  }

  /** The WAIT of both programs moves on to the END_LOOP. */
  lemma BodyStep(env: Env, s: State, o: Obs)
    requires |s.steps| == 3 && s.steps[1] == Step("WAIT", map["ms" := Int(0)]) && s.pc == Body && !o.stop
    ensures Exec(env, s, o) == StepOutcome(s.(pc := 2), [], None)
  {
    DispatchWait(env, s, o);
    WaitNothing(s, map["ms" := Int(0)], o.waitStop);
  }

  /** Entering the fixed loop pushes its frame with `n` passes left. */
  lemma FixedEnterStep(env: Env, s: State, o: Obs, n: int, m: int)
    requires s.steps == FixedLoop(n, m) && s.pc == 0 && s.loops == [] && !o.stop
    ensures var r := Exec(env, s, o);
      n >= 1 ==> r.halt.None? && r.s.steps == s.steps && r.s.pc == Body
                 && r.s.loops == [Frame(0, n, Id(0, 0), Fixed, 0, m)]
    ensures var r := Exec(env, s, o);
      n <= 0 ==> r.halt.None? && r.s.steps == s.steps && r.s.pc == 3
  {
    DispatchLoopStart(env, s, o);
    ExitPastEnd(s.steps);
    var p := s.steps[0].params;
    assert Get(p, "mode", Str("fixed")) == Str("fixed");
    assert ToInt(Get(p, "max_iterations", Int(DefaultMaxIterations))) == Some(m);
    assert ToInt(Get(p, "times", Int(1))) == Some(n);
  }

  /** The fixed loop's frame with `r` passes left and `i` counted. */
  function FixedFrame(m: int, r: int, i: int): seq<Frame>
  {
    [Frame(0, r, Id(0, 0), Fixed, i, m)]
  }

  /** The fixed-loop program is at `pc` inside its loop, with `r` passes
      left and `i` counted. */
  predicate FixedAt(s: State, n: int, m: int, r: int, i: int, pc: nat)
  {
    s.steps == FixedLoop(n, m) && s.pc == pc && s.loops == FixedFrame(m, r, i)
  }

  lemma NoStopTail(obs: seq<Obs>)
    requires |obs| > 0 && NoStop(obs)
    ensures !obs[0].stop && NoStop(obs[1..])
  {
    assert forall k :: 0 <= k < |obs| - 1 ==> obs[1..][k] == obs[k + 1];
  }

  /** At the valve or with no passes left, the fixed loop's revisit
      continues past its END_LOOP. */
  lemma FixedRevisitEnds(env: Env, s: State, o: Obs, n: int, m: int, r: int, i: int)
    requires FixedAt(s, n, m, r, i, 0) && !o.stop
    requires i >= m || r <= 0
    ensures var x := Exec(env, s, o);
      x.halt.None? && x.s.steps == s.steps && x.s.pc == 3
  {
    DispatchLoopStart(env, s, o);
    ExitPastEnd(s.steps);
  }

  /** Below the valve with passes left, the revisit starts a pass,
      counting it. */
  lemma FixedRevisitGoesOn(env: Env, s: State, o: Obs, n: int, m: int, r: int, i: int)
    requires FixedAt(s, n, m, r, i, 0) && !o.stop
    requires i < m && r > 0
    ensures Exec(env, s, o) == StepOutcome(s.(pc := Body, loops := FixedFrame(m, r - 1, i + 1)), [], None)
  {
    DispatchLoopStart(env, s, o);
  }

  /** END_LOOP of a fixed loop goes back to its start, without a check. */
  lemma FixedEndStep(env: Env, s: State, o: Obs, n: int, m: int, r: int, i: int)
    requires FixedAt(s, n, m, r, i, 2) && !o.stop
    ensures Exec(env, s, o) == StepOutcome(s.(pc := 0), [], None) && !ConsultsCondition(s)
  {
    DispatchEndLoop(env, s, o);
  }

  /** At the fixed loop's revisit with `r` passes left and `i` counted, the
      body runs `k = Remaining(r, i, m)` more times and the run finishes. */
  lemma {:induction false} FixedAtRevisit(env: Env, s: State, obs: seq<Obs>, n: int, m: int, r: int, i: int, k: nat)
    requires FixedAt(s, n, m, r, i, 0)
    requires k == Remaining(r, i, m) && NoStop(obs) && |obs| >= 3 * k + 1
    ensures Run(env, s, obs).ending == Finished && Run(env, s, obs).checks == 0
    ensures Visits(Run(env, s, obs).visited, Body) == k
    decreases |obs|, 1
  {
    if i >= m || r <= 0 {
      FixedLastRevisit(env, s, obs, n, m, r, i);
    } else {
      FixedNextRevisit(env, s, obs, n, m, r, i, k - 1);
    }
  }

  /** The revisit that ends the fixed loop: at the valve or with no passes
      left, it continues past the END_LOOP, which is the end. */
  lemma FixedLastRevisit(env: Env, s: State, obs: seq<Obs>, n: int, m: int, r: int, i: int)
    requires FixedAt(s, n, m, r, i, 0)
    requires |obs| >= 1 && !obs[0].stop && (i >= m || r <= 0)
    ensures Run(env, s, obs).visited == [0] && Run(env, s, obs).ending == Finished
    ensures Run(env, s, obs).checks == 0
  {
    FixedRevisitEnds(env, s, obs[0], n, m, r, i);
    RunStep(env, s, obs);
    RunPastEnd(env, Exec(env, s, obs[0]).s, obs[1..]);
  }

  /** The run through a revisit that starts a pass: it goes on from the
      body with one pass fewer left and one more counted. */
  lemma FixedRevisitRun(env: Env, s: State, s1: State, obs: seq<Obs>, n: int, m: int, r: int, i: int)
    requires FixedAt(s, n, m, r, i, 0) && s1 == s.(pc := Body, loops := FixedFrame(m, r - 1, i + 1))
    requires |obs| > 0 && !obs[0].stop && i < m && r > 0
    ensures var t := Run(env, s, obs);
      var u := Run(env, s1, obs[1..]);
      t.visited == [0] + u.visited && t.ending == u.ending && t.checks == u.checks
  {
    FixedRevisitGoesOn(env, s, obs[0], n, m, r, i);
    RunStep(env, s, obs);
  }

  /** A revisit below the valve with passes left starts one more pass, and
      `k` follow it. */
  lemma {:induction false} FixedNextRevisit(env: Env, s: State, obs: seq<Obs>, n: int, m: int, r: int, i: int, k: nat)
    requires FixedAt(s, n, m, r, i, 0)
    requires i < m && r > 0 && k == Remaining(r - 1, i + 1, m)
    requires NoStop(obs) && |obs| >= 3 * k + 4
    ensures Run(env, s, obs).ending == Finished && Run(env, s, obs).checks == 0
    ensures Visits(Run(env, s, obs).visited, Body) == k + 1
    decreases |obs|, 0
  {
    var s1 := s.(pc := Body, loops := FixedFrame(m, r - 1, i + 1));
    NextPassReady(s, s1, obs, n, m, r, i, k);
    FixedAtBody(env, s1, obs[1..], n, m, r - 1, i + 1, k);
    FixedRevisitRun(env, s, s1, obs, n, m, r, i);
    VisitsAppend([0], Run(env, s1, obs[1..]).visited, Body);
  }

  /** At the fixed loop's body with `k` more passes to come and enough
      observations for them. */
  predicate BodyReady(s: State, obs: seq<Obs>, n: int, m: int, r: int, i: int, k: nat)
  {
    FixedAt(s, n, m, r, i, Body) && k == Remaining(r, i, m) && NoStop(obs) && |obs| >= 3 * k + 3
  }

  /** The revisit's pass leaves the program at the body, ready for the
      passes that follow. */
  lemma NextPassReady(s: State, s1: State, obs: seq<Obs>, n: int, m: int, r: int, i: int, k: nat)
    requires FixedAt(s, n, m, r, i, 0) && s1 == s.(pc := Body, loops := FixedFrame(m, r - 1, i + 1))
    requires k == Remaining(r - 1, i + 1, m) && NoStop(obs) && |obs| >= 3 * k + 4
    ensures !obs[0].stop && BodyReady(s1, obs[1..], n, m, r - 1, i + 1, k)
  {
    NoStopTail(obs);
  }

  /** At the fixed loop's body: this pass and `k = Remaining(r, i, m)`
      more. */
  lemma {:induction false} FixedAtBody(env: Env, s: State, obs: seq<Obs>, n: int, m: int, r: int, i: int, k: nat)
    requires BodyReady(s, obs, n, m, r, i, k)
    ensures Run(env, s, obs).ending == Finished && Run(env, s, obs).checks == 0
    ensures Visits(Run(env, s, obs).visited, Body) == 1 + k
    decreases |obs|, 2
  {
    NoStopTail(obs);
    BodyStep(env, s, obs[0]);
    RunStep(env, s, obs);
    var s1 := s.(pc := 2);
    FixedAtEnd(env, s1, obs[1..], n, m, r, i, k);
    VisitsAppend([Body], Run(env, s1, obs[1..]).visited, Body);
  }

  /** At the fixed loop's END_LOOP: back to the revisit. */
  lemma {:induction false} FixedAtEnd(env: Env, s: State, obs: seq<Obs>, n: int, m: int, r: int, i: int, k: nat)
    requires FixedAt(s, n, m, r, i, 2)
    requires k == Remaining(r, i, m) && NoStop(obs) && |obs| >= 3 * k + 2
    ensures Run(env, s, obs).ending == Finished && Run(env, s, obs).checks == 0
    ensures Visits(Run(env, s, obs).visited, Body) == k
    decreases |obs|, 2
  {
    NoStopTail(obs);
    FixedEndStep(env, s, obs[0], n, m, r, i);
    RunStep(env, s, obs);
    var s1 := s.(pc := 0);
    FixedAtRevisit(env, s1, obs[1..], n, m, r, i, k);
    VisitsAppend([2], Run(env, s1, obs[1..]).visited, Body);
  }

  /** A fixed loop of `n >= 1` passes under a safety valve of `m` runs its
      body `1 + min(n, max(m, 0))` times: once on entry and once per revisit
      with passes left, each revisit counting one pass against the valve.
      It never consults a loop-exit condition. */
  lemma FixedLoopBodyRuns(env: Env, n: int, m: int, lastPos: Option<Point>, clipboard: string, obs: seq<Obs>)
    requires n >= 1 && NoStop(obs) && |obs| >= 3 * (1 + Min(n, Max(m, 0))) + 1
    ensures var t := Execute(env, FixedLoop(n, m), lastPos, clipboard, obs);
      t.ending == Finished && Visits(t.visited, Body) == 1 + Min(n, Max(m, 0)) && t.checks == 0
  {
    var s := Initial(FixedLoop(n, m), lastPos, clipboard);
    NoStopTail(obs);
    FixedEnterStep(env, s, obs[0], n, m);
    RunStep(env, s, obs);
    var s1 := Exec(env, s, obs[0]).s;
    RemainingIsMin(n, 0, m);
    FixedAtBody(env, s1, obs[1..], n, m, n, 0, Remaining(n, 0, m));
    VisitsAppend([0], Run(env, s1, obs[1..]).visited, Body);
  }

  /** A fixed loop of `times <= 0` is skipped whole: its body never runs. */
  lemma FixedLoopSkipped(env: Env, n: int, m: int, lastPos: Option<Point>, clipboard: string, obs: seq<Obs>)
    requires n <= 0 && |obs| >= 1 && !obs[0].stop
    ensures var t := Execute(env, FixedLoop(n, m), lastPos, clipboard, obs);
      t.ending == Finished && t.visited == [0]
  {
    var s := Initial(FixedLoop(n, m), lastPos, clipboard);
    FixedEnterStep(env, s, obs[0], n, m);
    RunStep(env, s, obs);
    RunPastEnd(env, Exec(env, s, obs[0]).s, obs[1..]);
  }

  /** The condition loop's frame with `i` passes counted. */
  function UntilFrame(m: int, i: int): seq<Frame>
  {
    [Frame(0, m, Id(0, 0), UntilText, i, m)]
  }

  lemma QuietTail(obs: seq<Obs>)
    requires |obs| > 0 && Quiet(obs)
    ensures !obs[0].stop && !obs[0].condition && Quiet(obs[1..])
  {
    assert forall k :: 0 <= k < |obs| - 1 ==> obs[1..][k] == obs[k + 1];
  }

  /** Entering the condition loop pushes its frame, nothing counted. */
  lemma UntilEnterStep(env: Env, s: State, o: Obs, m: int)
    requires s.steps == UntilTextLoop(m) && s.pc == 0 && s.loops == [] && !o.stop
    ensures var r := Exec(env, s, o);
      r.halt.None? && r.s.steps == s.steps && r.s.pc == Body && r.s.loops == UntilFrame(m, 0)
  {
    DispatchLoopStart(env, s, o);
    var p := s.steps[0].params;
    assert Get(p, "mode", Str("fixed")) == Str("until_text");
    assert ToInt(Get(p, "max_iterations", Int(DefaultMaxIterations))) == Some(m);
  }

  /** END_LOOP of the condition loop: the pass is counted; the valve or a
      met condition ends the loop, otherwise it goes back to its start. */
  lemma UntilEndStep(env: Env, s: State, o: Obs, m: int, i: int)
    requires s.steps == UntilTextLoop(m) && s.pc == 2 && !o.stop && s.loops == UntilFrame(m, i)
    ensures var x := Exec(env, s, o);
      && x.halt.None? && x.s.steps == s.steps
      && (ConsultsCondition(s) <==> i + 1 < m)
      && (i + 1 >= m || o.condition ==> x.s.pc == 3)
      && (i + 1 < m && !o.condition ==> x == StepOutcome(s.(pc := 0, loops := UntilFrame(m, i + 1)), [], None))
  {
    DispatchEndLoop(env, s, o);
  }

  /** The condition loop's revisit starts the next pass, counting nothing. */
  lemma UntilRevisitStep(env: Env, s: State, o: Obs, m: int, i: int)
    requires s.steps == UntilTextLoop(m) && s.pc == 0 && !o.stop && i < m && s.loops == UntilFrame(m, i)
    ensures Exec(env, s, o) == StepOutcome(s.(pc := Body), [], None)
  {
    DispatchLoopStart(env, s, o);
  }

  /** From the body of the condition loop with `i` passes counted: at most
      `max(m, 1) - i` more passes and `max(m - 1, 0) - i` more condition
      checks, whatever is observed; exactly that many, and then the run
      finishes, when nobody stops it and the condition is never met. */
  lemma {:induction false} UntilAtBody(env: Env, s: State, obs: seq<Obs>, m: int, i: int)
    requires s.steps == UntilTextLoop(m) && s.pc == Body && s.loops == UntilFrame(m, i)
    requires 0 <= i && (i == 0 || i < m)
    ensures Visits(Run(env, s, obs).visited, Body) <= Max(m, 1) - i
    ensures Run(env, s, obs).checks <= Max(m - 1, 0) - i
    ensures Quiet(obs) && |obs| >= 3 * (Max(m, 1) - i) - 1 ==>
      && Run(env, s, obs).ending == Finished
      && Visits(Run(env, s, obs).visited, Body) == Max(m, 1) - i
      && Run(env, s, obs).checks == Max(m - 1, 0) - i
    decreases |obs|
  {
    if |obs| > 0 && !obs[0].stop {
      BodyStep(env, s, obs[0]);
      RunStep(env, s, obs);
      var s1 := s.(pc := 2);
      if Quiet(obs) { QuietTail(obs); }
      UntilAtEnd(env, s1, obs[1..], m, i);
      VisitsAppend([Body], Run(env, s1, obs[1..]).visited, Body);
    }
  }

  /** At the condition loop's END_LOOP, the pass at `i` already run. */
  lemma {:induction false} UntilAtEnd(env: Env, s: State, obs: seq<Obs>, m: int, i: int)
    requires s.steps == UntilTextLoop(m) && s.pc == 2 && s.loops == UntilFrame(m, i)
    requires 0 <= i && (i == 0 || i < m)
    ensures Visits(Run(env, s, obs).visited, Body) <= Max(m, 1) - i - 1
    ensures Run(env, s, obs).checks <= Max(m - 1, 0) - i
    ensures Quiet(obs) && |obs| >= 3 * (Max(m, 1) - i) - 2 ==>
      && Run(env, s, obs).ending == Finished
      && Visits(Run(env, s, obs).visited, Body) == Max(m, 1) - i - 1
      && Run(env, s, obs).checks == Max(m - 1, 0) - i
    decreases |obs|, 1
  {
    if |obs| > 0 && !obs[0].stop {
      if i + 1 >= m || obs[0].condition {
        UntilLastEnd(env, s, obs, m, i);
      } else {
        UntilNextEnd(env, s, obs, m, i);
      }
    }
  }

  /** END_LOOP at the valve or with the condition met ends the loop and the
      run. */
  lemma UntilLastEnd(env: Env, s: State, obs: seq<Obs>, m: int, i: int)
    requires s.steps == UntilTextLoop(m) && s.pc == 2 && s.loops == UntilFrame(m, i)
    requires |obs| > 0 && !obs[0].stop && (i + 1 >= m || obs[0].condition)
    ensures Run(env, s, obs).visited == [2] && Run(env, s, obs).ending == Finished
    ensures Run(env, s, obs).checks == if i + 1 < m then 1 else 0
  {
    UntilEndStep(env, s, obs[0], m, i);
    RunStep(env, s, obs);
    RunPastEnd(env, Exec(env, s, obs[0]).s, obs[1..]);
  }

  /** END_LOOP below the valve with the condition unmet: one check, then
      back to the revisit with one more pass counted. */
  lemma {:induction false} UntilNextEnd(env: Env, s: State, obs: seq<Obs>, m: int, i: int)
    requires s.steps == UntilTextLoop(m) && s.pc == 2 && s.loops == UntilFrame(m, i)
    requires 0 <= i && |obs| > 0 && !obs[0].stop && i + 1 < m && !obs[0].condition
    ensures Visits(Run(env, s, obs).visited, Body) <= Max(m, 1) - i - 1
    ensures Run(env, s, obs).checks <= Max(m - 1, 0) - i
    ensures Quiet(obs) && |obs| >= 3 * (Max(m, 1) - i) - 2 ==>
      && Run(env, s, obs).ending == Finished
      && Visits(Run(env, s, obs).visited, Body) == Max(m, 1) - i - 1
      && Run(env, s, obs).checks == Max(m - 1, 0) - i
    decreases |obs|, 0
  {
    var s1 := s.(pc := 0, loops := UntilFrame(m, i + 1));
    if Quiet(obs) { QuietTail(obs); }
    UntilAtRevisit(env, s1, obs[1..], m, i + 1);
    UntilEndStep(env, s, obs[0], m, i);
    RunStep(env, s, obs);
    VisitsAppend([2], Run(env, s1, obs[1..]).visited, Body);
  }

  /** At the condition loop's revisit with `i` passes counted. */
  lemma {:induction false} UntilAtRevisit(env: Env, s: State, obs: seq<Obs>, m: int, i: int)
    requires s.steps == UntilTextLoop(m) && s.pc == 0 && s.loops == UntilFrame(m, i)
    requires 0 < i < m
    ensures Visits(Run(env, s, obs).visited, Body) <= Max(m, 1) - i
    ensures Run(env, s, obs).checks <= Max(m - 1, 0) - i
    ensures Quiet(obs) && |obs| >= 3 * (Max(m, 1) - i) ==>
      && Run(env, s, obs).ending == Finished
      && Visits(Run(env, s, obs).visited, Body) == Max(m, 1) - i
      && Run(env, s, obs).checks == Max(m - 1, 0) - i
    decreases |obs|
  {
    if |obs| > 0 && !obs[0].stop {
      UntilRevisitStep(env, s, obs[0], m, i);
      RunStep(env, s, obs);
      var s1 := s.(pc := Body);
      if Quiet(obs) { QuietTail(obs); }
      UntilAtBody(env, s1, obs[1..], m, i);
      VisitsAppend([0], Run(env, s1, obs[1..]).visited, Body);
    }
  }

  /** A condition loop under a safety valve of `m` runs its body at most
      `max(m, 1)` times and consults its condition at most `m - 1` times,
      whatever the screen shows; when the condition is never met it runs
      exactly that often: the pass that reaches the valve ends the loop
      without a check. */
  lemma UntilLoopBounds(env: Env, m: int, lastPos: Option<Point>, clipboard: string, obs: seq<Obs>)
    ensures var t := Execute(env, UntilTextLoop(m), lastPos, clipboard, obs);
      Visits(t.visited, Body) <= Max(m, 1) && t.checks <= Max(m - 1, 0)
    ensures Quiet(obs) && |obs| >= 3 * Max(m, 1) ==>
      var t := Execute(env, UntilTextLoop(m), lastPos, clipboard, obs);
      t.ending == Finished && Visits(t.visited, Body) == Max(m, 1) && t.checks == Max(m - 1, 0)
  {
    var s := Initial(UntilTextLoop(m), lastPos, clipboard);
    if |obs| > 0 && !obs[0].stop {
      UntilEnterStep(env, s, obs[0], m);
      RunStep(env, s, obs);
      var s1 := Exec(env, s, obs[0]).s;
      if Quiet(obs) { QuietTail(obs); }
      UntilAtBody(env, s1, obs[1..], m, 0);
      VisitsAppend([0], Run(env, s1, obs[1..]).visited, Body);
    }
  }
}
