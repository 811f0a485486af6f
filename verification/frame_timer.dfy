/** The adaptive frame timer `GL.Timer`. The wall clock is the parameter
    `now` (milliseconds, an integer as `Date.getTime` returns). The speed
    coefficient is kept in hundredths, so gameling.js's rounding to two
    decimals is exact integer arithmetic: 100 stands for a coefficient of 1. */
module FrameTimer {
  import opened Maybe

  /** A coefficient scaled by 100. */
  type Hundredths = int

  /** The coefficient a timer holds after `reset`: 1.00. */
  const Neutral: Hundredths := 100

  /** The fields of `GL.Timer` the model keeps: the target frame rate, the
      derived `interval`, the aggregations `count` and `total_coefficient`,
      the `paused` flag, the current `coefficient`, `last_time`, and the
      last measured `elapsed` (unset until the first measurement). */
  datatype Timer = Timer(
    idealFps: int,
    interval: real,
    count: nat,
    totalCoefficient: Hundredths,
    paused: bool,
    coefficient: Hundredths,
    lastTime: int,
    elapsed: Option<int>)

  /** `interval` is always `1000 / ideal_fps`. */
  ghost predicate Valid(t: Timer) {
    t.idealFps != 0 && t.interval == 1000.0 / t.idealFps as real
  }

  /** The value `Math.round(ideal_fps / fps * 100)` takes, with
      `fps = 1000 / elapsed`, stated over the reals: `c` is the integer
      nearest to 100 times the ratio, halves going up. When `elapsed` is 0
      gameling.js's `fps` is infinite and the ratio is 0. */
  ghost predicate IsRoundedCoefficient(c: Hundredths, idealFps: int, elapsed: int) {
    var ratio := if elapsed == 0 then 0.0 else idealFps as real / (1000.0 / elapsed as real);
    c as real - 0.5 <= ratio * 100.0 < c as real + 0.5
  }

  /** The coefficient, in hundredths, of a frame that took `elapsed`
      milliseconds against a target of `idealFps` frames per second. */
  function Coefficient(idealFps: int, elapsed: int): (c: Hundredths)
    ensures IsRoundedCoefficient(c, idealFps, elapsed)
  {
    var n := idealFps * elapsed;
    var c := (n + 5) / 10;
    RatioTimesHundred(idealFps, elapsed);
    RoundHalfUp(n, c);
    c
  }

  /** `new GL.Timer(ideal_fps)` at time `now`: paused, with empty
      aggregations and the state `reset` leaves. */
  function NewTimer(idealFps: int, now: int): (t: Timer)
    requires idealFps != 0
    ensures Valid(t)
    ensures t.idealFps == idealFps && t.paused
    ensures t.count == 0 && t.totalCoefficient == 0
    ensures t.coefficient == Neutral && t.lastTime == now && t.elapsed.None?
  {
    Reset(Timer(idealFps, 1000.0 / idealFps as real, 0, 0, true, 0, 0, None), now)
  }

  /** `pause`: only the flag changes. */
  function Pause(t: Timer): (r: Timer)
    ensures r.paused
    ensures r.(paused := t.paused) == t
  {
    t.(paused := true)
  }

  /** `reset`: the coefficient returns to 1 and `last_time` to `now`. */
  function Reset(t: Timer, now: int): (r: Timer)
    ensures r.coefficient == Neutral && r.lastTime == now
    ensures r.(coefficient := t.coefficient, lastTime := t.lastTime) == t
  {
    t.(coefficient := Neutral, lastTime := now)
  }

  /** `process` at time `now`. A paused timer is reset and unpaused without
      measuring anything; a running one measures the time since `last_time`,
      stores the rounded coefficient and adds it to the aggregations. */
  function Process(t: Timer, now: int): (r: Timer)
    ensures Valid(t) ==> Valid(r)
    ensures r.idealFps == t.idealFps && r.interval == t.interval
    ensures !r.paused && r.lastTime == now
    ensures t.paused ==>
      && r.coefficient == Neutral
      && r.count == t.count
      && r.totalCoefficient == t.totalCoefficient
      && r.elapsed == t.elapsed
    ensures !t.paused ==>
      && r.count == t.count + 1
      && r.elapsed == Some(now - t.lastTime)
      && IsRoundedCoefficient(r.coefficient, t.idealFps, now - t.lastTime)
      && r.totalCoefficient == t.totalCoefficient + r.coefficient
  {
    if t.paused then
      Reset(t, now).(paused := false)
    else
      var elapsed := now - t.lastTime;
      var c := Coefficient(t.idealFps, elapsed);
      t.(lastTime := now, count := t.count + 1,
         coefficient := c, totalCoefficient := t.totalCoefficient + c,
         elapsed := Some(elapsed))
  }

  /** `process` called once per timestamp of `nows`, in order. */
  function Run(t: Timer, nows: seq<int>): Timer
    decreases |nows|
  {
    if |nows| == 0 then t else Run(Process(t, nows[0]), nows[1..])
  }

  /** The coefficients a running timer whose `last_time` is `last` measures
      at the timestamps `nows`. */
  function Measured(idealFps: int, last: int, nows: seq<int>): seq<Hundredths>
    decreases |nows|
  {
    if |nows| == 0 then []
    else [Coefficient(idealFps, nows[0] - last)] + Measured(idealFps, nows[0], nows[1..])
  }

  function Sum(xs: seq<int>): int
    decreases |xs|
  {
    if |xs| == 0 then 0 else xs[0] + Sum(xs[1..])
  }

  // ---- arithmetic helpers ----

  lemma RatioTimesHundred(idealFps: int, elapsed: int)
    ensures var ratio := if elapsed == 0 then 0.0 else idealFps as real / (1000.0 / elapsed as real);
      ratio * 100.0 == (idealFps * elapsed) as real / 10.0
  {
    if elapsed != 0 {
      var i, e := idealFps as real, elapsed as real;
      var fps := 1000.0 / e;
      assert fps * e == 1000.0;
      var ratio := i / fps;
      assert ratio * fps == i;
      assert ratio * 1000.0 == i * e by {
        calc {
          ratio * 1000.0;
          ratio * (fps * e);
          (ratio * fps) * e;
          i * e;
        }
      }
      assert (idealFps * elapsed) as real == i * e;
    }
  }

  lemma RoundHalfUp(n: int, c: int)
    requires c == (n + 5) / 10
    ensures c as real - 0.5 <= n as real / 10.0 < c as real + 0.5
  {
    var rem := (n + 5) % 10;
    assert n + 5 == 10 * c + rem && 0 <= rem < 10;
    assert n as real / 10.0 == c as real + (rem - 5) as real / 10.0;
  }

  // ---- properties ----

  /** The rounding predicate pins the coefficient down: `Coefficient` is the
      only value satisfying it. */
  lemma CoefficientIsTheRounding(c: Hundredths, idealFps: int, elapsed: int)
    ensures IsRoundedCoefficient(c, idealFps, elapsed) <==> c == Coefficient(idealFps, elapsed)
  {
  }

  /** Worked values for a 30 fps target: a frame of 33 ms gives 0.99, 34 ms
      gives 1.02, a full second gives 30.00 and two seconds 60.00; two measurements in the
      same millisecond give 0. */
  lemma CoefficientExamples()
    ensures Coefficient(30, 33) == 99
    ensures Coefficient(30, 34) == 102
    ensures Coefficient(30, 1000) == 3000
    ensures Coefficient(30, 2000) == 6000
    ensures Coefficient(30, 0) == 0
    ensures Coefficient(60, 25) == 150
  {
  }

  /** A frame that takes exactly the ideal interval's worth of milliseconds
      scaled by `k` yields coefficient `k`: at 25 fps (40 ms frames), a
      frame of `40 * k` ms gives `k`. */
  lemma CoefficientOfWholeFrames(k: int)
    ensures Coefficient(25, 40 * k) == 100 * k
  {
  }

  /** A longer frame never yields a smaller coefficient. */
  lemma CoefficientMonotonic(idealFps: int, e1: int, e2: int)
    requires idealFps > 0 && e1 <= e2
    ensures Coefficient(idealFps, e1) <= Coefficient(idealFps, e2)
  {
    assert idealFps * e1 <= idealFps * e2 by {
      assert idealFps * e2 - idealFps * e1 == idealFps * (e2 - e1);
    }
  }

  /** After `pause`, the next `process` is a reset: the coefficient is pinned
      to 1 whatever time has passed, and nothing is counted. */
  lemma PauseThenProcess(t: Timer, now: int)
    ensures var r := Process(Pause(t), now);
      && r.coefficient == Neutral
      && !r.paused
      && r.lastTime == now
      && r.count == t.count
      && r.totalCoefficient == t.totalCoefficient
      && r.interval == t.interval
  {
  }

  /** On a running timer, each `process` counts one frame and
      `total_coefficient` accumulates exactly the coefficients measured
      between consecutive timestamps. */
  lemma {:induction false} RunAccumulates(t: Timer, nows: seq<int>)
    requires !t.paused
    ensures var r := Run(t, nows);
      && r.count == t.count + |nows|
      && r.totalCoefficient == t.totalCoefficient + Sum(Measured(t.idealFps, t.lastTime, nows))
      && r.interval == t.interval
      && !r.paused
      && (|nows| > 0 ==> r.lastTime == nows[|nows| - 1])
      && (|nows| == 0 ==> r == t)
    decreases |nows|
  {
    if |nows| > 0 {
      var t' := Process(t, nows[0]);
      CoefficientIsTheRounding(t'.coefficient, t.idealFps, nows[0] - t.lastTime);
      RunAccumulates(t', nows[1..]);
      if |nows| > 1 {
        assert nows[1..][|nows[1..]| - 1] == nows[|nows| - 1];
      }
    }
  }

  /** A 30 fps timer created at 0 ms and processed at 0, 33 and 67 ms: the
      first call only unpauses it, the next two measure frames of 33 and
      34 ms, i.e. 0.99 and then 1.02. */
  lemma ThirtyFpsRun()
    ensures var t := Run(NewTimer(30, 0), [0, 33, 67]);
      && t.coefficient == 102
      && t.count == 2
      && t.totalCoefficient == 201
      && t.elapsed == Some(34)
  {
    var t1 := Process(NewTimer(30, 0), 0);
    assert t1.coefficient == 100 && t1.count == 0 && t1.lastTime == 0 && !t1.paused;
    CoefficientExamples();
    RunAccumulates(t1, [33, 67]);
    assert [0, 33, 67][1..] == [33, 67];
    assert Measured(30, 0, [33, 67]) == [99, 102] by {
      assert [33, 67][1..] == [67];
      assert Measured(30, 33, [67]) == [102];
    }
    var t3 := Process(Process(t1, 33), 67);
    assert Run(t1, [33, 67]) == t3 by {
      assert [33, 67][1..] == [67];
      assert [67][1..] == [];
    }
  }
}
