/**
 The control skeleton of the fixed-rate game loop.

 Each iteration updates the game state, renders it, samples the state's
 `gameOver` flag and then sleeps off whatever is left of the 1000 / FPS
 millisecond period. The loop's own flag starts false, so the body always
 runs once, and one more render follows the loop.

 The game state, the canvas, the clock and the sleep are outside the model.
 What the loop observes of them in its i-th iteration is `obs[i]`: the
 milliseconds the iteration took before the sleep, the `gameOver` flag as
 read after the render, and whether the sleep was interrupted. What the
 loop does is a trace of `Update`, `Render` and `Sleep` events.
 */
module GameLoop {
  import opened JavaInt

  /** Frames per second the loop aims for. */
  const FPS: int := 60

  /** The period of one frame in whole milliseconds, by Java's integer division. */
  function TargetPeriod(): (p: int)
    ensures p == 16
    ensures p * FPS <= 1000 < (p + 1) * FPS
  {
    1000 / FPS
  }

  /** What one iteration observes of the world outside the loop. */
  datatype Observation = Observation(elapsed: Int64, gameOver: bool, interrupted: bool)

  /** What the loop does: call `update`, call `render`, or sleep `ms` milliseconds. */
  datatype Event = Update | Render | Sleep(ms: Int64, interrupted: bool)

  /**
   Where the loop is once the observations run out: it has stopped, after
   its final render, or it is still running and would iterate again.
   */
  datatype Outcome = Stopped(trace: seq<Event>) | Running(trace: seq<Event>)

  function Prepend(events: seq<Event>, r: Outcome): Outcome
  {
    match r
    case Stopped(t) => Stopped(events + t)
    case Running(t) => Running(events + t)
  }

  /**
   The `long` delay of an iteration that took `elapsed` milliseconds. It is
   positive exactly when the iteration finished early, and then it is the
   rest of the period; the subtraction overflows only for readings more
   negative than any clock produces, and then the delay is negative.
   */
  function Delay(elapsed: Int64): (d: Int64)
    ensures d > 0 <==> LONG_MIN + 16 < elapsed < TargetPeriod()
    ensures d > 0 ==> elapsed + d == TargetPeriod()
  {
    Wrap64(TargetPeriod() - elapsed)
  }

  /** The sleep an iteration ends with, if any. */
  function SleepAfter(o: Observation): (s: seq<Event>)
    ensures |s| <= 1
    ensures |s| == 1 <==> Delay(o.elapsed) > 0
    ensures forall i :: 0 <= i < |s| ==> s[i] == Sleep(Delay(o.elapsed), o.interrupted)
  {
    var delay := Delay(o.elapsed);
    if delay > 0 then [Sleep(delay, o.interrupted)] else []
  }

  /**
   The events of one pass through the loop body: one update, one render,
   and a sleep only when the iteration finished inside the period.
   */
  function Iteration(o: Observation): (es: seq<Event>)
    ensures |es| == 2 || |es| == 3
    ensures es[0] == Update && es[1] == Render
    ensures o.elapsed >= TargetPeriod() || o.elapsed <= LONG_MIN + TargetPeriod() ==> es == [Update, Render]
    ensures LONG_MIN + TargetPeriod() < o.elapsed < TargetPeriod() ==>
              es == [Update, Render, Sleep(TargetPeriod() - o.elapsed, o.interrupted)]
  {
    [Update, Render] + SleepAfter(o)
  }

  /**
   The loop from the point where its flag is `gameOver` and the iterations
   still to come observe `obs`: while the flag is false, run the body and
   take the flag from the state; after the loop, render once more.
   */
  function Loop(gameOver: bool, obs: seq<Observation>): (r: Outcome)
    ensures gameOver ==> r == Stopped([Render])
    ensures !gameOver && |obs| == 0 ==> r == Running([])
    ensures !gameOver && |obs| > 0 ==> |r.trace| >= 2 && r.trace[0] == Update && r.trace[1] == Render
    decreases |obs|
  {
    if gameOver then Stopped([Render])
    else if |obs| == 0 then Running([])
    else Prepend(Iteration(obs[0]), Loop(obs[0].gameOver, obs[1..]))
  }

  /** A stopped loop's last event is the render after the loop. */
  lemma {:induction false} LoopEndsWithRender(gameOver: bool, obs: seq<Observation>)
    ensures Loop(gameOver, obs).Stopped? ==>
              |Loop(gameOver, obs).trace| > 0 && Loop(gameOver, obs).trace[|Loop(gameOver, obs).trace| - 1] == Render
    decreases |obs|
  {
    if !gameOver && |obs| > 0 {
      LoopEndsWithRender(obs[0].gameOver, obs[1..]);
    }
  }

  lemma PrependTwice(a: seq<Event>, b: seq<Event>, r: Outcome)
    ensures Prepend(a, Prepend(b, r)) == Prepend(a + b, r)
  {
  }

  /** The loop as `run` starts it: the local flag is false whatever the state says. */
  function Run(obs: seq<Observation>): (r: Outcome)
    ensures |obs| == 0 ==> r == Running([])
    ensures |obs| > 0 ==> |r.trace| >= 2 && r.trace[0] == Update && r.trace[1] == Render
    ensures r.Stopped? ==> |obs| > 0 && |r.trace| >= 3 && r.trace[|r.trace| - 1] == Render
  {
    LoopEndsWithRender(false, obs);
    Loop(false, obs)
  }

  /**
   The loop as the Java method writes it, one statement per event. It
   computes the same run as the functional model.
   */
  method RunLoop(obs: seq<Observation>) returns (r: Outcome)
    ensures r == Run(obs)
  {
    var gameOver := false;
    var trace: seq<Event> := [];
    var i := 0;
    while !gameOver && i < |obs|
      invariant 0 <= i <= |obs|
      invariant Prepend(trace, Loop(gameOver, obs[i..])) == Loop(false, obs)
    {
      var o := obs[i];
      assert obs[i..][0] == o && obs[i..][1..] == obs[i + 1..];
      assert Loop(gameOver, obs[i..]) == Prepend(Iteration(o), Loop(o.gameOver, obs[i + 1..]));
      ghost var before := trace;
      trace := trace + [Update];
      trace := trace + [Render];
      gameOver := o.gameOver;
      var delay := Delay(o.elapsed);
      if delay > 0 {
        trace := trace + [Sleep(delay, o.interrupted)];
      }
      i := i + 1;
      assert trace == before + Iteration(o);
      PrependTwice(before, Iteration(o), Loop(gameOver, obs[i..]));
    }
    if gameOver {
      trace := trace + [Render];
      r := Stopped(trace);
    } else {
      r := Running(trace);
    }
  }

  // ---------------------------------------------------------------------
  // A closed form of the run

  /** The events of running the body once per observation, in order. */
  function Iterations(obs: seq<Observation>): seq<Event>
  {
    if |obs| == 0 then [] else Iteration(obs[0]) + Iterations(obs[1..])
  }

  /** The index of the first iteration that sees `gameOver`, or |obs| if none does. */
  function FirstOver(obs: seq<Observation>): (k: nat)
    ensures k <= |obs|
    ensures forall j :: 0 <= j < k ==> !obs[j].gameOver
    ensures k < |obs| ==> obs[k].gameOver
    decreases |obs|
  {
    if |obs| == 0 then 0
    else if obs[0].gameOver then 0
    else 1 + FirstOver(obs[1..])
  }

  /**
   The run is the body once for every iteration up to and including the
   first that sees `gameOver`, followed by the final render; if no iteration
   sees it, the loop is still running after all of them.
   */
  lemma {:induction false} RunClosedForm(obs: seq<Observation>)
    ensures FirstOver(obs) < |obs| ==> Run(obs) == Stopped(Iterations(obs[..FirstOver(obs) + 1]) + [Render])
    ensures FirstOver(obs) == |obs| ==> Run(obs) == Running(Iterations(obs))
    decreases |obs|
  {
    if |obs| > 0 {
      var it := Iteration(obs[0]);
      if obs[0].gameOver {
        assert Loop(true, obs[1..]) == Stopped([Render]);
        assert Run(obs) == Stopped(it + [Render]);
        assert obs[..1] == [obs[0]];
        assert Iterations(obs[..1]) == it + Iterations([]);
        assert Iterations(obs[..1]) == it;
      } else {
        var rest := obs[1..];
        RunClosedForm(rest);
        var k := FirstOver(rest);
        if k < |rest| {
          assert obs[..k + 2][0] == obs[0];
          assert obs[..k + 2][1..] == rest[..k + 1];
        } else {
          assert Run(obs) == Prepend(it, Run(rest));
        }
      }
    }
  }

  /** The loop stops exactly when some iteration sees `gameOver`. */
  lemma StopsIffSomeIterationSeesGameOver(obs: seq<Observation>)
    ensures Run(obs).Stopped? <==> exists i :: 0 <= i < |obs| && obs[i].gameOver
  {
    RunClosedForm(obs);
  }

  // ---------------------------------------------------------------------
  // Counting events

  function Count(t: seq<Event>, e: Event): nat
  {
    if |t| == 0 then 0 else (if t[0] == e then 1 else 0) + Count(t[1..], e)
  }

  lemma {:induction false} CountAppend(a: seq<Event>, b: seq<Event>, e: Event)
    ensures Count(a + b, e) == Count(a, e) + Count(b, e)
    decreases |a|
  {
    if |a| == 0 {
      assert a + b == b;
    } else {
      assert (a + b)[0] == a[0];
      assert (a + b)[1..] == a[1..] + b;
      CountAppend(a[1..], b, e);
    }
  }

  lemma {:induction false} IterationsCount(obs: seq<Observation>)
    ensures Count(Iterations(obs), Update) == |obs|
    ensures Count(Iterations(obs), Render) == |obs|
    decreases |obs|
  {
    if |obs| > 0 {
      var it := Iteration(obs[0]);
      CountAppend(it, Iterations(obs[1..]), Update);
      CountAppend(it, Iterations(obs[1..]), Render);
      CountAppend([Update, Render], SleepAfter(obs[0]), Update);
      CountAppend([Update, Render], SleepAfter(obs[0]), Render);
      IterationsCount(obs[1..]);
    }
  }

  /**
   The body runs once per iteration up to and including the first that
   sees `gameOver`, and never after it. A stopped run renders once more than
   it updates; a running one has rendered as often as it updated.
   */
  lemma {:induction false} UpdateAndRenderCounts(obs: seq<Observation>)
    ensures Run(obs).Stopped? ==> Count(Run(obs).trace, Update) == FirstOver(obs) + 1
    ensures Run(obs).Running? ==> Count(Run(obs).trace, Update) == |obs|
    ensures Run(obs).Stopped? ==> Count(Run(obs).trace, Render) == Count(Run(obs).trace, Update) + 1
    ensures Run(obs).Running? ==> Count(Run(obs).trace, Render) == Count(Run(obs).trace, Update)
  {
    RunClosedForm(obs);
    var k := FirstOver(obs);
    if k < |obs| {
      var body := Iterations(obs[..k + 1]);
      IterationsCount(obs[..k + 1]);
      CountAppend(body, [Render], Update);
      CountAppend(body, [Render], Render);
    } else {
      IterationsCount(obs);
    }
  }

  lemma {:induction false} IterationsSnoc(obs: seq<Observation>, o: Observation)
    ensures Iterations(obs + [o]) == Iterations(obs) + Iteration(o)
    decreases |obs|
  {
    if |obs| == 0 {
      assert Iterations([o]) == Iteration(o) + Iterations([]);
    } else {
      assert (obs + [o])[0] == obs[0];
      assert (obs + [o])[1..] == obs[1..] + [o];
      IterationsSnoc(obs[1..], o);
    }
  }

  /**
   The last iteration of a stopped run is the one that saw `gameOver`: its
   update and render, then its sleep if it finished early (the flag is read
   before the sleep), then the final render.
   */
  lemma {:induction false} StoppedRunEnding(obs: seq<Observation>)
    requires Run(obs).Stopped?
    ensures FirstOver(obs) < |obs|
    ensures Run(obs).trace == Iterations(obs[..FirstOver(obs)]) + [Update, Render] + SleepAfter(obs[FirstOver(obs)]) + [Render]
  {
    RunClosedForm(obs);
    var k := FirstOver(obs);
    assert k < |obs|;
    var last := obs[k];
    assert obs[..k + 1] == obs[..k] + [last];
    IterationsSnoc(obs[..k], last);
    var before := Iterations(obs[..k]);
    calc {
      Run(obs).trace;
      Iterations(obs[..k + 1]) + [Render];
      before + Iteration(last) + [Render];
      before + ([Update, Render] + SleepAfter(last)) + [Render];
      before + [Update, Render] + SleepAfter(last) + [Render];
    }
  }

  /**
   The body runs at least once, whatever the game state: even when the
   very first iteration already sees `gameOver`, it updates and renders,
   sleeps if early, and renders again, so the game is rendered twice.
   */
  lemma GameOverAtFirstIteration(obs: seq<Observation>)
    requires |obs| > 0 && obs[0].gameOver
    ensures Run(obs) == Stopped([Update, Render] + SleepAfter(obs[0]) + [Render])
    ensures Count(Run(obs).trace, Render) == 2
  {
    assert Loop(true, obs[1..]) == Stopped([Render]);
    assert Run(obs) == Stopped(Iteration(obs[0]) + [Render]);
    CountAppend([Update, Render] + SleepAfter(obs[0]), [Render], Render);
    CountAppend([Update, Render], SleepAfter(obs[0]), Render);
  }

  // ---------------------------------------------------------------------
  // Ordering of events

  /** Every update is immediately followed by a render. */
  predicate UpdateThenRender(t: seq<Event>)
  {
    forall i :: 0 <= i < |t| && t[i] == Update ==> i + 1 < |t| && t[i + 1] == Render
  }

  /** Every sleep is positive and immediately follows a render. */
  predicate SleepsAfterRender(t: seq<Event>)
  {
    forall i :: 0 <= i < |t| && t[i].Sleep? ==> 0 < i && t[i - 1] == Render && t[i].ms > 0
  }

  lemma ConcatKeepsOrdering(a: seq<Event>, b: seq<Event>)
    requires UpdateThenRender(a) && UpdateThenRender(b)
    requires SleepsAfterRender(a) && SleepsAfterRender(b)
    requires |b| > 0 ==> !b[0].Sleep?
    ensures UpdateThenRender(a + b) && SleepsAfterRender(a + b)
  {
  }

  lemma {:induction false} IterationsOrdered(obs: seq<Observation>)
    ensures UpdateThenRender(Iterations(obs)) && SleepsAfterRender(Iterations(obs))
    ensures |Iterations(obs)| > 0 ==> !Iterations(obs)[0].Sleep?
    decreases |obs|
  {
    if |obs| > 0 {
      IterationsOrdered(obs[1..]);
      ConcatKeepsOrdering(Iteration(obs[0]), Iterations(obs[1..]));
    }
  }

  /**
   In every run each update is followed at once by its render, and each
   sleep is positive and comes straight after a render.
   */
  lemma RunOrdered(obs: seq<Observation>)
    ensures UpdateThenRender(Run(obs).trace)
    ensures SleepsAfterRender(Run(obs).trace)
  {
    RunClosedForm(obs);
    var k := FirstOver(obs);
    if k < |obs| {
      IterationsOrdered(obs[..k + 1]);
      ConcatKeepsOrdering(Iterations(obs[..k + 1]), [Render]);
    } else {
      IterationsOrdered(obs);
    }
  }

  // ---------------------------------------------------------------------
  // Interrupted sleeps

  /** An event with the interruption of a sleep forgotten. */
  function Erase(e: Event): Event
  {
    match e
    case Sleep(ms, _) => Sleep(ms, false)
    case _ => e
  }

  function EraseAll(t: seq<Event>): (u: seq<Event>)
    ensures |u| == |t|
    ensures forall i :: 0 <= i < |t| ==> u[i] == Erase(t[i])
  {
    seq(|t|, i requires 0 <= i < |t| => Erase(t[i]))
  }

  lemma EraseAllAppend(a: seq<Event>, b: seq<Event>)
    ensures EraseAll(a + b) == EraseAll(a) + EraseAll(b)
  {
  }

  /** Two observation sequences that differ at most in which sleeps were interrupted. */
  predicate SameButInterrupts(obs: seq<Observation>, obs': seq<Observation>)
  {
    && |obs| == |obs'|
    && forall i :: 0 <= i < |obs| ==> obs[i].elapsed == obs'[i].elapsed && obs[i].gameOver == obs'[i].gameOver
  }

  lemma {:induction false} LoopIgnoresInterrupts(gameOver: bool, obs: seq<Observation>, obs': seq<Observation>)
    requires SameButInterrupts(obs, obs')
    ensures Loop(gameOver, obs).Stopped? == Loop(gameOver, obs').Stopped?
    ensures EraseAll(Loop(gameOver, obs).trace) == EraseAll(Loop(gameOver, obs').trace)
    decreases |obs|
  {
    if !gameOver && |obs| > 0 {
      assert obs[0].gameOver == obs'[0].gameOver;
      LoopIgnoresInterrupts(obs[0].gameOver, obs[1..], obs'[1..]);
      var it, it' := Iteration(obs[0]), Iteration(obs'[0]);
      var t, t' := Loop(obs[0].gameOver, obs[1..]).trace, Loop(obs'[0].gameOver, obs'[1..]).trace;
      EraseAllAppend(it, t);
      EraseAllAppend(it', t');
      assert EraseAll(it) == EraseAll(it') by {
        assert |it| == |it'|;
        forall i | 0 <= i < |it| ensures Erase(it[i]) == Erase(it'[i]) {
        }
      }
    }
  }

  /**
   An interrupted sleep is swallowed: whether any sleep was cut short
   changes neither when the loop stops nor what it does, apart from the
   interruption itself. The flag was read before the sleep, so it is never lost.
   */
  lemma InterruptsDoNotMatter(obs: seq<Observation>, obs': seq<Observation>)
    requires SameButInterrupts(obs, obs')
    ensures Run(obs).Stopped? == Run(obs').Stopped?
    ensures EraseAll(Run(obs).trace) == EraseAll(Run(obs').trace)
  {
    LoopIgnoresInterrupts(false, obs, obs');
  }
}
