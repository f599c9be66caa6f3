/**
  The control numerics of the buck converter: a PI controller whose output is
  saturated to a duty cycle in [0, 1], and the wind-speed to target-voltage
  table with linear interpolation between breakpoints.

  Python floats are modelled as exact reals.
*/
module Controller {
  import opened Results
  import opened Numerics

  // ---------------------------------------------------------------------------
  // PI controller
  // ---------------------------------------------------------------------------

  const DefaultKp: real := 0.35
  const DefaultKi: real := 0.01

  /** Gains and the integral accumulator, which persists from one update to the next. */
  datatype PIController = PIController(kp: real, ki: real, integral: real)

  /** A freshly constructed controller starts with an empty integral. */
  function NewController(kp: real, ki: real): (c: PIController)
    ensures c.kp == kp && c.ki == ki
    ensures c.integral == 0.0
  {
    PIController(kp, ki, 0.0)
  }

  /** The controller after one update and the duty cycle it returned. */
  datatype Step = Step(next: PIController, duty: real)

  /**
    `update(Vref, Vout, Ts)`: the integral grows by `error * Ts` whatever the
    output does, and only the returned duty is saturated.
  */
  function Update(c: PIController, vref: real, vout: real, ts: real): (s: Step)
    ensures s.next.kp == c.kp && s.next.ki == c.ki
    ensures s.next.integral - c.integral == (vref - vout) * ts
    ensures 0.0 <= s.duty <= 1.0
    ensures var u := c.kp * (vref - vout) + c.ki * s.next.integral;
            && (0.0 <= u <= 1.0 ==> s.duty == u)
            && (u <= 0.0 ==> s.duty == 0.0)
            && (u >= 1.0 ==> s.duty == 1.0)
  {
    var error := vref - vout;
    var integral := c.integral + error * ts;
    var u := c.kp * error + c.ki * integral;
    Step(c.(integral := integral), Clamp01(u))
  }

  /** One control period's inputs: target voltage, measured voltage and period. */
  datatype Sample = Sample(vref: real, vout: real, ts: real)

  /** The running sum of `error * Ts` over a sequence of periods. */
  function ErrorArea(samples: seq<Sample>): real {
    if |samples| == 0 then 0.0
    else (samples[0].vref - samples[0].vout) * samples[0].ts + ErrorArea(samples[1..])
  }

  /** The controller after a run of updates and the duty returned by each. */
  datatype Trace = Trace(final: PIController, duties: seq<real>)

  /** Successive calls to `update` on one controller. */
  function Run(c: PIController, samples: seq<Sample>): (t: Trace)
    ensures |t.duties| == |samples|
    ensures t.final.kp == c.kp && t.final.ki == c.ki
    ensures forall i :: 0 <= i < |t.duties| ==> 0.0 <= t.duties[i] <= 1.0
    decreases |samples|
  {
    if |samples| == 0 then Trace(c, [])
    else
      var s := Update(c, samples[0].vref, samples[0].vout, samples[0].ts);
      var rest := Run(s.next, samples[1..]);
      Trace(rest.final, [s.duty] + rest.duties)
  }

  /** The integral is never clamped: after any run it is the start value plus the whole error area. */
  lemma {:induction false} RunIntegral(c: PIController, samples: seq<Sample>)
    ensures Run(c, samples).final.integral == c.integral + ErrorArea(samples)
    decreases |samples|
  {
    if |samples| > 0 {
      var s := Update(c, samples[0].vref, samples[0].vout, samples[0].ts);
      RunIntegral(s.next, samples[1..]);
    }
  }

  function Repeat(sample: Sample, n: nat): (samples: seq<Sample>)
    ensures |samples| == n
  {
    if n == 0 then [] else [sample] + Repeat(sample, n - 1)
  }

  /**
    Wind-up: while the proportional term alone saturates the output, repeated
    updates keep the duty pinned at 1 and the integral keeps growing by
    `error * Ts` per period.
  */
  lemma SaturatedWindup(c: PIController, sample: Sample, n: nat)
    requires sample.vref - sample.vout > 0.0 && sample.ts > 0.0
    requires c.kp * (sample.vref - sample.vout) >= 1.0 && c.ki >= 0.0 && c.integral >= 0.0
    ensures var t := Run(c, Repeat(sample, n));
            && (forall i :: 0 <= i < n ==> t.duties[i] == 1.0)
            && t.final.integral == c.integral + (n as real) * ((sample.vref - sample.vout) * sample.ts)
  {
    SaturatedDuties(c, sample, n);
    RunIntegral(c, Repeat(sample, n));
    RepeatArea(sample, n);
  }

  lemma {:induction false} SaturatedDuties(c: PIController, sample: Sample, n: nat)
    requires sample.vref - sample.vout > 0.0 && sample.ts > 0.0
    requires c.kp * (sample.vref - sample.vout) >= 1.0 && c.ki >= 0.0 && c.integral >= 0.0
    ensures forall i :: 0 <= i < n ==> Run(c, Repeat(sample, n)).duties[i] == 1.0
    decreases n
  {
    if n > 0 {
      var s := Update(c, sample.vref, sample.vout, sample.ts);
      SaturatedStep(c, sample);
      assert Repeat(sample, n)[1..] == Repeat(sample, n - 1);
      SaturatedDuties(s.next, sample, n - 1);
      assert Run(c, Repeat(sample, n)).duties == [s.duty] + Run(s.next, Repeat(sample, n - 1)).duties;
    }
  }

  /** `n` identical periods add up to `n` times one period's error area. */
  lemma {:induction false} RepeatArea(sample: Sample, n: nat)
    ensures ErrorArea(Repeat(sample, n)) == (n as real) * ((sample.vref - sample.vout) * sample.ts)
    decreases n
  {
    if n > 0 {
      var area := (sample.vref - sample.vout) * sample.ts;
      assert Repeat(sample, n)[1..] == Repeat(sample, n - 1);
      RepeatArea(sample, n - 1);
      AddOnePeriod(0.0, (n - 1) as real, area);
    }
  }

  lemma SaturatedStep(c: PIController, sample: Sample)
    requires sample.vref - sample.vout > 0.0 && sample.ts > 0.0
    requires c.kp * (sample.vref - sample.vout) >= 1.0 && c.ki >= 0.0 && c.integral >= 0.0
    ensures var s := Update(c, sample.vref, sample.vout, sample.ts);
            s.duty == 1.0 && s.next.integral >= 0.0
  {
    var e, ts := sample.vref - sample.vout, sample.ts;
    var s := Update(c, sample.vref, sample.vout, ts);
    SignOfFactor(e, ts);
    assert s.next.integral >= 0.0;
    MulNonNegative(c.ki, s.next.integral);
    assert c.kp * e + c.ki * s.next.integral >= 1.0;
  }

  lemma AddOnePeriod(start: real, k: real, area: real)
    ensures (start + area) + k * area == start + (k + 1.0) * area
  {
  }

  /** Kp = 0.35, Ki = 0.01, Vref = 10, Vout = 0, Ts = 0.001: saturated at 1 while the integral grows. */
  lemma SaturationExample()
    ensures var s1 := Update(NewController(DefaultKp, DefaultKi), 10.0, 0.0, 0.001);
            && s1.duty == 1.0 && s1.next.integral == 0.01
            && var s2 := Update(s1.next, 10.0, 0.0, 0.001);
            && s2.duty == 1.0 && s2.next.integral == 0.02
  {
  }

  // ---------------------------------------------------------------------------
  // Wind-speed lookup
  // ---------------------------------------------------------------------------

  /** One (wind speed, target voltage) entry of the lookup table. */
  datatype Breakpoint = Breakpoint(speed: real, voltage: real)

  datatype LookupError =
    | UnsortedTable  // the `assert speeds == sorted(speeds)` fails
    | EmptyTable     // `lookup_table[0]` on an empty table

  function Speeds(table: seq<Breakpoint>): (speeds: seq<real>)
    ensures |speeds| == |table|
    ensures forall i :: 0 <= i < |table| ==> speeds[i] == table[i].speed
  {
    seq(|table|, i requires 0 <= i < |table| => table[i].speed)
  }

  function Voltages(table: seq<Breakpoint>): (voltages: seq<real>)
    ensures |voltages| == |table|
    ensures forall i :: 0 <= i < |table| ==> voltages[i] == table[i].voltage
  {
    seq(|table|, i requires 0 <= i < |table| => table[i].voltage)
  }

  /** A list equal to its own sorted copy: no element exceeds a later one. */
  predicate Sorted(xs: seq<real>) {
    forall i, j :: 0 <= i < j < |xs| ==> xs[i] <= xs[j]
  }

  lemma SortedPair(xs: seq<real>, i: nat, j: nat)
    requires Sorted(xs) && i <= j < |xs|
    ensures xs[i] <= xs[j]
  {
  }

  /**
    The position of the first element that is at least `x`, or `|xs|` if there
    is none. On a sorted list this is the index `bisect.bisect_left` returns.
  */
  function FirstAtLeast(xs: seq<real>, x: real): (i: nat)
    ensures i <= |xs|
    ensures forall j :: 0 <= j < i ==> xs[j] < x
    ensures i < |xs| ==> xs[i] >= x
  {
    if |xs| == 0 || xs[0] >= x then 0 else 1 + FirstAtLeast(xs[1..], x)
  }

  /** The first position at least `x` is characterised by everything before it being below `x`. */
  lemma FirstAtLeastUnique(xs: seq<real>, x: real, i: nat)
    requires i <= |xs|
    requires forall j :: 0 <= j < i ==> xs[j] < x
    requires i < |xs| ==> xs[i] >= x
    ensures FirstAtLeast(xs, x) == i
  {
    var k := FirstAtLeast(xs, x);
    assert k < |xs| ==> xs[k] >= x;
  }

  /** `bisect.bisect_left`: binary search for the leftmost insertion point of `x` in a sorted list. */
  method BisectLeft(xs: seq<real>, x: real) returns (lo: nat)
    requires Sorted(xs)
    ensures lo == FirstAtLeast(xs, x)
  {
    lo := 0;
    var hi := |xs|;
    while lo < hi
      invariant 0 <= lo <= hi <= |xs|
      invariant forall j :: 0 <= j < lo ==> xs[j] < x
      invariant forall j :: hi <= j < |xs| ==> xs[j] >= x
    {
      var mid := (lo + hi) / 2;
      if xs[mid] < x {
        lo := mid + 1;
      } else {
        hi := mid;
      }
    }
    FirstAtLeastUnique(xs, x, lo);
  }

  /** The point at `speed` on the straight line through (s0, v0) and (s1, v1). */
  function Interpolate(s0: real, v0: real, s1: real, v1: real, speed: real): (v: real)
    requires s1 != s0
    ensures (v - v0) * (s1 - s0) == (speed - s0) * (v1 - v0)
    ensures speed == s0 ==> v == v0
    ensures speed == s1 ==> v == v1
  {
    var frac := (speed - s0) / (s1 - s0);
    QuotientTimes(speed - s0, s1 - s0, v1 - v0);
    assert speed == s0 ==> frac == 0.0;
    assert speed == s1 ==> frac == 1.0 by {
      if speed == s1 {
        DivSelf(s1 - s0);
      }
    }
    v0 + frac * (v1 - v0)
  }

  /** Inside a segment the interpolated voltage lies between the segment's end voltages and meets v1 at s1. */
  lemma InterpolateBetween(s0: real, v0: real, s1: real, v1: real, speed: real)
    requires s0 < speed <= s1
    ensures Min(v0, v1) <= Interpolate(s0, v0, s1, v1, speed) <= Max(v0, v1)
    ensures speed == s1 ==> Interpolate(s0, v0, s1, v1, speed) == v1
  {
    var frac := (speed - s0) / (s1 - s0);
    FractionBounds(speed - s0, s1 - s0);
    var p := frac * (v1 - v0);
    FractionOfDifference(frac, v1 - v0);
    assert Interpolate(s0, v0, s1, v1, speed) == v0 + p;
    BetweenEnds(v0, v1, p);
  }

  /** A fraction of a difference has the difference's sign and is no larger in size. */
  lemma FractionOfDifference(frac: real, d: real)
    requires 0.0 <= frac <= 1.0
    ensures d >= 0.0 ==> 0.0 <= frac * d <= d
    ensures d <= 0.0 ==> d <= frac * d <= 0.0
  {
    if d >= 0.0 {
      MulMonotone(0.0, frac, d);
      MulMonotone(frac, 1.0, d);
    } else {
      MulAntitone(0.0, frac, d);
      MulAntitone(frac, 1.0, d);
    }
  }

  /** A step from v0 towards v1 that does not overshoot lands between them. */
  lemma BetweenEnds(v0: real, v1: real, p: real)
    requires v1 - v0 >= 0.0 ==> 0.0 <= p <= v1 - v0
    requires v1 - v0 <= 0.0 ==> v1 - v0 <= p <= 0.0
    ensures Min(v0, v1) <= v0 + p <= Max(v0, v1)
  {
  }

  /** Along a rising segment the interpolated voltage does not fall as the speed grows. */
  lemma InterpolateMonotone(s0: real, v0: real, s1: real, v1: real, x: real, y: real)
    requires s0 < s1 && v0 <= v1 && x <= y
    ensures Interpolate(s0, v0, s1, v1, x) <= Interpolate(s0, v0, s1, v1, y)
  {
    var fx, fy := (x - s0) / (s1 - s0), (y - s0) / (s1 - s0);
    DivMonotone(x - s0, y - s0, s1 - s0);
    MulMonotone(fx, fy, v1 - v0);
    assert Interpolate(s0, v0, s1, v1, x) == v0 + fx * (v1 - v0);
    assert Interpolate(s0, v0, s1, v1, y) == v0 + fy * (v1 - v0);
  }

  /** `get_voltage_target`: clamp outside the table, interpolate linearly inside it. */
  function VoltageTarget(speed: real, table: seq<Breakpoint>): (r: Result<real, LookupError>)
    ensures r.Failure? <==> !Sorted(Speeds(table)) || |table| == 0
    ensures !Sorted(Speeds(table)) ==> r == Failure(UnsortedTable)
    ensures r.Success? && speed <= table[0].speed ==> r.value == table[0].voltage
    ensures r.Success? && speed > table[|table| - 1].speed ==> r.value == table[|table| - 1].voltage
  {
    var speeds := Speeds(table);
    if !Sorted(speeds) then Failure(UnsortedTable)
    else
      var idx := FirstAtLeast(speeds, speed);
      if idx == 0 then
        if |table| == 0 then Failure(EmptyTable) else Success(table[0].voltage)
      else if idx >= |table| then
        Success(table[|table| - 1].voltage)
      else
        var s0, v0 := table[idx - 1].speed, table[idx - 1].voltage;
        var s1, v1 := table[idx].speed, table[idx].voltage;
        if s1 == s0 then Success(v0)
        else Success(Interpolate(s0, v0, s1, v1, speed))
  }

  /**
    Strictly inside the table, the breakpoints bracketing the speed satisfy
    s0 < speed <= s1; so s0 < s1, the `s1 == s0` guard is never taken and the
    division is always defined, and the result lies between v0 and v1.
  */
  lemma InteriorBracket(speed: real, table: seq<Breakpoint>)
    requires Sorted(Speeds(table)) && |table| > 0
    requires table[0].speed < speed <= table[|table| - 1].speed
    ensures var k := FirstAtLeast(Speeds(table), speed);
            && 0 < k < |table|
            && table[k - 1].speed < speed <= table[k].speed
            && table[k - 1].speed < table[k].speed
            && Min(table[k - 1].voltage, table[k].voltage) <= VoltageTarget(speed, table).value
            && VoltageTarget(speed, table).value <= Max(table[k - 1].voltage, table[k].voltage)
  {
    var speeds := Speeds(table);
    var k := FirstAtLeast(speeds, speed);
    assert speeds[0] < speed;
    assert speeds[|table| - 1] >= speed;
    InterpolateBetween(table[k - 1].speed, table[k - 1].voltage, table[k].speed, table[k].voltage, speed);
  }

  /**
    At a breakpoint's own speed the target is that breakpoint's voltage, when it
    is the first breakpoint with that speed.
  */
  lemma AtBreakpoint(table: seq<Breakpoint>, k: nat)
    requires Sorted(Speeds(table)) && k < |table|
    requires k > 0 ==> table[k - 1].speed < table[k].speed
    ensures VoltageTarget(table[k].speed, table) == Success(table[k].voltage)
  {
    var speeds := Speeds(table);
    var speed := table[k].speed;
    forall j | 0 <= j < k
      ensures speeds[j] < speed
    {
      assert speeds[j] <= speeds[k - 1];
    }
    FirstAtLeastUnique(speeds, speed, k);
    if k > 0 {
      InterpolateBetween(table[k - 1].speed, table[k - 1].voltage, speed, table[k].voltage, speed);
    }
  }

  /** The target as a function of the index `bisect_left` finds: an end voltage or a point of that segment. */
  lemma SegmentBounds(speed: real, table: seq<Breakpoint>)
    requires Sorted(Speeds(table)) && Sorted(Voltages(table)) && |table| > 0
    ensures var k := FirstAtLeast(Speeds(table), speed);
            var v := VoltageTarget(speed, table).value;
            && (k == 0 ==> v == table[0].voltage)
            && (k == |table| ==> v == table[|table| - 1].voltage)
            && (0 < k < |table| ==> table[k - 1].voltage <= v <= table[k].voltage)
            && table[if k == 0 then 0 else k - 1].voltage <= v
            && v <= table[if k == |table| then |table| - 1 else k].voltage
  {
    var speeds := Speeds(table);
    var k := FirstAtLeast(speeds, speed);
    if 0 < k < |table| {
      assert Voltages(table)[k - 1] <= Voltages(table)[k];
      InteriorBracket(speed, table);
    }
  }

  /** Strictly inside the table the target is the interpolation on the segment `bisect_left` selects. */
  lemma InteriorValue(speed: real, table: seq<Breakpoint>)
    requires Sorted(Speeds(table)) && |table| > 0
    ensures var k := FirstAtLeast(Speeds(table), speed);
            0 < k < |table| ==>
              && table[k - 1].speed < table[k].speed
              && VoltageTarget(speed, table)
                 == Success(Interpolate(table[k - 1].speed, table[k - 1].voltage, table[k].speed, table[k].voltage, speed))
  {
    var k := FirstAtLeast(Speeds(table), speed);
    if 0 < k < |table| {
      InteriorBracket(speed, table);
    }
  }

  /** With rising speeds and voltages the target voltage never decreases as the wind speed rises. */
  lemma VoltageTargetMonotone(table: seq<Breakpoint>, x: real, y: real)
    requires Sorted(Speeds(table)) && Sorted(Voltages(table)) && |table| > 0
    requires x <= y
    ensures VoltageTarget(x, table).value <= VoltageTarget(y, table).value
  {
    var speeds, n := Speeds(table), |table|;
    var i, j := FirstAtLeast(speeds, x), FirstAtLeast(speeds, y);
    assert i <= j by {
      assert j < n ==> speeds[j] >= y;
    }
    if i == j && 0 < i < n {
      SameSegmentMonotone(table, x, y);
    } else {
      AcrossSegmentsMonotone(table, x, y);
    }
  }

  /** Two speeds on the same interior segment: interpolation is monotone. */
  lemma SameSegmentMonotone(table: seq<Breakpoint>, x: real, y: real)
    requires Sorted(Speeds(table)) && Sorted(Voltages(table)) && |table| > 0
    requires x <= y
    requires var i := FirstAtLeast(Speeds(table), x);
             0 < i < |table| && FirstAtLeast(Speeds(table), y) == i
    ensures VoltageTarget(x, table).value <= VoltageTarget(y, table).value
  {
    var i := FirstAtLeast(Speeds(table), x);
    var s0, v0, s1, v1 := table[i - 1].speed, table[i - 1].voltage, table[i].speed, table[i].voltage;
    assert v0 <= v1 by {
      SortedPair(Voltages(table), i - 1, i);
    }
    InteriorValue(x, table);
    InteriorValue(y, table);
    InterpolateMonotone(s0, v0, s1, v1, x, y);
  }

  /**
    Two speeds in different segments, or on a clamped end: the lower one's
    target lies below its segment's top voltage, the higher one's above its
    segment's bottom voltage, and those two voltages are in table order.
  */
  lemma AcrossSegmentsMonotone(table: seq<Breakpoint>, x: real, y: real)
    requires Sorted(Speeds(table)) && Sorted(Voltages(table)) && |table| > 0
    requires var i, j := FirstAtLeast(Speeds(table), x), FirstAtLeast(Speeds(table), y);
             i <= j && (i == j ==> i == 0 || i == |table|)
    ensures VoltageTarget(x, table).value <= VoltageTarget(y, table).value
  {
    var n := |table|;
    var i, j := FirstAtLeast(Speeds(table), x), FirstAtLeast(Speeds(table), y);
    var upper := if i == n then n - 1 else i;
    var lower := if j == 0 then 0 else j - 1;
    assert VoltageTarget(x, table).value <= table[upper].voltage by {
      SegmentBounds(x, table);
    }
    assert table[lower].voltage <= VoltageTarget(y, table).value by {
      SegmentBounds(y, table);
    }
    assert upper <= lower;
    SortedPair(Voltages(table), upper, lower);
  }

  /** The converter's table: clamped below and above, exact at a breakpoint, interpolated between. */
  lemma WindTableExample()
    ensures var table := [Breakpoint(5.0, 50.0), Breakpoint(10.0, 55.0),
                          Breakpoint(15.0, 60.0), Breakpoint(20.0, 65.0)];
            && VoltageTarget(0.0, table) == Success(50.0)
            && VoltageTarget(10.0, table) == Success(55.0)
            && VoltageTarget(12.5, table) == Success(57.5)
            && VoltageTarget(25.0, table) == Success(65.0)
  {
    var table := [Breakpoint(5.0, 50.0), Breakpoint(10.0, 55.0),
                  Breakpoint(15.0, 60.0), Breakpoint(20.0, 65.0)];
    var speeds := Speeds(table);
    assert speeds == [5.0, 10.0, 15.0, 20.0];
    assert Sorted(speeds);
    assert VoltageTarget(10.0, table) == Success(55.0) by {
      AtBreakpoint(table, 1);
    }
    assert VoltageTarget(12.5, table) == Success(57.5) by {
      FirstAtLeastUnique(speeds, 12.5, 2);
      assert Interpolate(10.0, 55.0, 15.0, 60.0, 12.5) == 57.5;
    }
  }
}
