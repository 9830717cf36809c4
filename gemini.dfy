/** Slew-rate control of the Gemini 2 driver: the symmetric clamp, the acceleration and
    per-call rate-step limits, rate/divisor quantisation, the RA start/stop-movement rule for
    divisor commands, the single-shot `slew` path with its cached divisor and time per axis,
    `stop_motion`, and one iteration of the per-axis slew-rate loop with its "safe" flag.
    Rates are in degrees per second and times in seconds, both exact reals; the clock and the
    backend are parameters. */
module Gemini {
  import opened Common

  /** The quantisation constant 12e6 / 6400. */
  const K: real := 1875.0

  function Abs(x: real): real
  {
    if x < 0.0 then -x else x
  }

  function Min(a: real, b: real): real
  {
    if a <= b then a else b
  }

  function Max(a: real, b: real): real
  {
    if a >= b then a else b
  }

  /** `clamp(val, limit)`: `val` limited to [-limit, +limit]. */
  function Clamp(val: real, limit: real): (r: real)
    ensures limit >= 0.0 ==> -limit <= r <= limit
    ensures Abs(val) <= limit ==> r == val
    ensures limit >= 0.0 && val > limit ==> r == limit
    ensures limit >= 0.0 && val < -limit ==> r == -limit
  {
    Max(Min(limit, val), -limit)
  }

  /** Why a slew call raised. */
  datatype SlewError =
    | BadAxis             // ValueError: axis other than 'ra' or 'dec'
    | ZeroElapsed         // ZeroDivisionError in the acceleration limit (no time elapsed)
    | BackendFailure      // a Gemini2Exception from sending the divisor commands (caught and retried)

  /** The three configured limits; `None` disables one. */
  datatype Limits = Limits(rate: Option<real>, step: Option<real>, accel: Option<real>)

  /** The constructor's defaults: 4 deg/s, 0.5 deg/s per call, 20 deg/s^2. */
  const DEFAULT_LIMITS: Limits := Limits(Some(4.0), Some(0.5), Some(20.0))

  /** `_apply_rate_accel_limit`: limit the change from the last commanded rate to
      accel * elapsed time. With no time elapsed the source divides by zero. */
  function ApplyAccelLimit(accel: Option<real>, rateDesired: real, timeCurrent: real,
                           rateLast: real, timeLast: real): (r: Result<real, SlewError>)
    ensures r.Err? <==> accel.Some? && timeCurrent == timeLast
    ensures r.Err? ==> r.error == ZeroElapsed
    ensures accel.None? ==> r == Ok(rateDesired)
  {
    if accel.None? then Ok(rateDesired)
    else
      var dt := timeCurrent - timeLast;
      if dt == 0.0 then Err(ZeroElapsed)
      else
        var change := rateDesired - rateLast;
        if Abs(change) / dt > accel.value then Ok(rateLast + Clamp(change, accel.value * dt))
        else Ok(rateDesired)
  }

  /** For positive elapsed time, `|x| / dt > a` is `|x| > a * dt`. */
  lemma DivCompare(x: real, dt: real, a: real)
    requires dt > 0.0 && x >= 0.0
    ensures x / dt > a <==> x > a * dt
  {
    assert x == (x / dt) * dt;
    if x / dt > a {
      assert (x / dt) * dt > a * dt;
    } else {
      assert (x / dt) * dt <= a * dt;
    }
  }

  /** With the limit enabled and time elapsed, the commanded change never exceeds
      accel * dt, and the desired rate passes unchanged when its change already complies. */
  lemma AccelLimitBound(accel: real, rateDesired: real, timeCurrent: real, rateLast: real, timeLast: real)
    requires accel >= 0.0 && timeCurrent > timeLast
    ensures var r := ApplyAccelLimit(Some(accel), rateDesired, timeCurrent, rateLast, timeLast);
            r.Ok? &&
            Abs(r.value - rateLast) <= accel * (timeCurrent - timeLast) &&
            (Abs(rateDesired - rateLast) <= accel * (timeCurrent - timeLast) ==> r.value == rateDesired) &&
            Abs(rateDesired - r.value) <= Abs(rateDesired - rateLast)
  {
    var dt := timeCurrent - timeLast;
    assert accel * dt >= 0.0;
    DivCompare(Abs(rateDesired - rateLast), dt, accel);
  }

  /** `_apply_rate_step_limit`: limit the change from the last commanded rate to the step
      limit. */
  function ApplyStepLimit(step: Option<real>, rateDesired: real, rateLast: real): (r: real)
    ensures step.None? ==> r == rateDesired
    ensures step.Some? && step.value >= 0.0 ==> Abs(r - rateLast) <= step.value
    ensures step.Some? && Abs(rateDesired - rateLast) <= step.value ==> r == rateDesired
    ensures step.Some? && step.value >= 0.0 ==> Abs(rateDesired - r) <= Abs(rateDesired - rateLast)
    ensures step.Some? && step.value >= 0.0 ==> Abs(r - rateLast) <= Abs(rateDesired - rateLast)
  {
    if step.None? then rateDesired
    else
      var change := rateDesired - rateLast;
      if Abs(change) > step.value then rateLast + Clamp(change, step.value) else rateDesired
  }

  // ---------------------------------------------------------------------------------------------
  // Quantisation

  /** Python's `int()` of a float: truncation toward zero. */
  function Trunc(x: real): (n: int)
    ensures x >= 0.0 ==> 0 <= n && n as real <= x < n as real + 1.0
    ensures x < 0.0 ==> n <= 0 && n as real - 1.0 < x <= n as real
  {
    if x >= 0.0 then x.Floor else -((-x).Floor)
  }

  /** `slew_rate_to_div`: the divisor nearest K / rate on the side of zero, with the sign of
      the rate. */
  function RateToDiv(rate: real): (d: int)
    ensures rate == 0.0 ==> d == 0
    ensures rate != 0.0 ==> Abs(d as real) <= Abs(K / rate) < Abs(d as real) + 1.0
    ensures d != 0 ==> (d > 0 <==> rate > 0.0)
  {
    if rate == 0.0 then 0
    else
      assert (K / rate) * rate == K;
      Trunc(K / rate)
  }

  /** `div_to_slew_rate`: the rate whose product with a nonzero divisor is K. */
  function DivToRate(div: int): (rate: real)
    ensures rate == 0.0 <==> div == 0
    ensures div != 0 ==> rate * div as real == K
  {
    if div == 0 then 0.0 else K / div as real
  }

  /** A rate reported back to the caller: the rate of the divisor actually chosen. */
  function Quantize(rate: real): real
  {
    DivToRate(RateToDiv(rate))
  }

  /** Each divisor is recovered exactly from its rate. */
  lemma DivRateRoundTrip(div: int)
    ensures RateToDiv(DivToRate(div)) == div
  {
    if div != 0 {
      var d := div as real;
      var r := K / d;
      assert r * d == K;
      assert r != 0.0;
      assert K / r == d;
    }
  }

  /** Quantising a quantised rate changes nothing. */
  lemma QuantizeIdempotent(rate: real)
    ensures Quantize(Quantize(rate)) == Quantize(rate)
  {
    DivRateRoundTrip(RateToDiv(rate));
  }

  /** Zero maps to zero both ways, and a zero rate is reported only for a zero divisor. */
  lemma QuantizeZero(rate: real, div: int)
    ensures RateToDiv(0.0) == 0 && DivToRate(0) == 0.0
    ensures DivToRate(div) == 0.0 <==> div == 0
    ensures RateToDiv(rate) == 0 <==> rate == 0.0 || Abs(rate) > K
  {
    if div != 0 {
      assert DivToRate(div) * div as real == K;
    }
    if rate != 0.0 {
      var q := K / rate;
      assert q * rate == K;
      AbsMul(q, rate);
      assert Abs(q) == K / Abs(rate);
      if Abs(rate) > K {
        DivAntitone(K, Abs(rate));
      } else {
        DivAntitone(Abs(rate), K);
      }
    }
  }

  lemma AbsMul(x: real, y: real)
    ensures Abs(x * y) == Abs(x) * Abs(y)
  {
    if x < 0.0 && y < 0.0 {
      assert x * y == (-x) * (-y);
    } else if x < 0.0 {
      assert -(x * y) == (-x) * y;
    } else if y < 0.0 {
      assert -(x * y) == x * (-y);
    }
  }

  /** K divided by a larger positive number is smaller. */
  lemma DivAntitone(x: real, y: real)
    requires 0.0 < x <= y
    ensures K / y <= K / x
    ensures x < y ==> K / y < K / x
  {
    assert x * y > 0.0;
    assert K / x - K / y == K * (y - x) / (x * y);
  }

  /** Within one quantisation step: a nonzero rate quantised to divisor d keeps its sign, and
      its magnitude lies in (K/(|d|+1), K/|d|], the upper end being the rate reported. Rounding
      the divisor toward zero rounds the rate away from zero. */
  lemma QuantizeStep(rate: real)
    requires rate != 0.0 && RateToDiv(rate) != 0
    ensures var d := RateToDiv(rate);
            (rate > 0.0 <==> d > 0) && (rate > 0.0 <==> Quantize(rate) > 0.0) &&
            K / (Abs(d as real) + 1.0) < Abs(rate) <= Abs(Quantize(rate)) == K / Abs(d as real)
  {
    var d := RateToDiv(rate);
    var q := K / rate;
    var a := Abs(d as real);
    assert q * rate == K;
    AbsMul(q, rate);
    assert a <= Abs(q) < a + 1.0;
    assert a > 0.0;
    assert Abs(rate) == K / Abs(q);
    DivAntitone(a, Abs(q));
    DivAntitone(Abs(q), a + 1.0);
    assert Abs(Quantize(rate)) == K / a by {
      assert Quantize(rate) == K / d as real;
    }
  }

  /** The limits act on the requested rate, before quantisation: requesting exactly the
      default rate limit of 4.0 reports 1875/468 > 4.0. */
  lemma QuantizedRateAboveLimit()
    ensures var limit := DEFAULT_LIMITS.rate.value;
            RateToDiv(limit) == 468 && Quantize(limit) == 1875.0 / 468.0 && Quantize(limit) > limit
  {
    assert K / 4.0 == 468.75;
  }

  // ---------------------------------------------------------------------------------------------
  // Divisor commands

  datatype Axis = Ra | Dec

  /** The commands `_set_divisor` issues through the backend. */
  datatype MountCommand =
    | RaStopMovement
    | RaStartMovement
    | SetRaDivisor(raDiv: int)
    | SetDecDivisor(decDiv: int)

  /** `_set_divisor(axis, div, div_last_commanded)`: on RA, stop or start movement on the
      transitions to and from zero, and send only nonzero divisors, negated; on Dec, send the
      divisor unchanged. `last` is `None` when the last divisor is unknown. */
  function SetDivisor(axis: Axis, div: int, last: Option<int>): (cmds: seq<MountCommand>)
    ensures axis == Ra ==> (RaStopMovement in cmds <==> div == 0 && (last.None? || last.value != 0))
    ensures axis == Ra ==> (RaStartMovement in cmds <==> div != 0 && (last.None? || last.value == 0))
    ensures axis == Ra ==> (SetRaDivisor(-div) in cmds <==> div != 0)
    ensures axis == Ra ==> forall c :: c in cmds ==> !c.SetDecDivisor? && (c.SetRaDivisor? ==> c.raDiv == -div != 0)
    ensures axis == Dec ==> cmds == [SetDecDivisor(div)]
  {
    match axis
    case Ra =>
      (if div == 0 && (last.None? || last.value != 0) then [RaStopMovement]
       else if div != 0 && (last.None? || last.value == 0) then [RaStartMovement]
       else [])
      + (if div != 0 then [SetRaDivisor(-div)] else [])
    case Dec => [SetDecDivisor(div)]
  }

  /** Whether RA is started after issuing `cmds`, having been `started` before. */
  function RaStartedAfter(started: bool, cmds: seq<MountCommand>): bool
    decreases |cmds|
  {
    if cmds == [] then started
    else RaStartedAfter(if cmds[0] == RaStopMovement then false
                        else if cmds[0] == RaStartMovement then true
                        else started, cmds[1..])
  }

  /** The invariant the RA rule keeps: if RA is started exactly when the last divisor is
      nonzero, then afterwards it is started exactly when the new divisor is nonzero; from an
      unknown state the rule always establishes that. A divisor is sent only once RA is
      started. */
  lemma SetDivisorKeepsRaMovement(div: int, last: Option<int>, started: bool)
    requires last.Some? ==> started == (last.value != 0)
    ensures RaStartedAfter(started, SetDivisor(Ra, div, last)) == (div != 0)
    ensures var cmds := SetDivisor(Ra, div, last);
            forall i :: 0 <= i < |cmds| && cmds[i].SetRaDivisor? ==> RaStartedAfter(started, cmds[..i])
  {
    var cmds := SetDivisor(Ra, div, last);
    if div == 0 {
      if last.None? || last.value != 0 {
        assert cmds == [RaStopMovement];
        assert RaStartedAfter(started, cmds) == RaStartedAfter(false, []);
      } else {
        assert cmds == [];
      }
    } else {
      if last.None? || last.value == 0 {
        assert cmds == [RaStartMovement, SetRaDivisor(-div)];
        assert cmds[1..] == [SetRaDivisor(-div)];
        assert RaStartedAfter(true, [SetRaDivisor(-div)]) == RaStartedAfter(true, []);
        assert cmds[..1] == [RaStartMovement];
        assert RaStartedAfter(started, [RaStartMovement]) == RaStartedAfter(true, []);
      } else {
        assert cmds == [SetRaDivisor(-div)];
        assert RaStartedAfter(started, cmds) == RaStartedAfter(started, []);
        assert cmds[..0] == [];
      }
    }
  }

  /** The next divisor from the last one: acceleration limit, step limit, quantisation.
      Returns the divisor and the rate it was derived from. */
  function NextDivisor(limits: Limits, rateDesired: real, timeCurrent: real,
                       divLast: int, timeLast: real): (r: Result<(int, real), SlewError>)
    ensures r.Err? <==> limits.accel.Some? && timeCurrent == timeLast
    ensures r.Err? ==> r.error == ZeroElapsed
    ensures r.Ok? ==> r.value.0 == RateToDiv(r.value.1)
    ensures limits.accel.None? && limits.step.None? ==> r == Ok((RateToDiv(rateDesired), rateDesired))
  {
    var rateLast := DivToRate(divLast);
    match ApplyAccelLimit(limits.accel, rateDesired, timeCurrent, rateLast, timeLast)
    case Err(e) => Err(e)
    case Ok(rateAccel) =>
      var rate := ApplyStepLimit(limits.step, rateAccel, rateLast);
      Ok((RateToDiv(rate), rate))
  }

  /** Both limits hold between the last commanded rate and the rate the next divisor is
      derived from. */
  lemma NextDivisorLimits(limits: Limits, rateDesired: real, timeCurrent: real, divLast: int, timeLast: real)
    requires limits.accel.Some? ==> limits.accel.value >= 0.0 && timeCurrent > timeLast
    requires limits.step.Some? ==> limits.step.value >= 0.0
    ensures var n := NextDivisor(limits, rateDesired, timeCurrent, divLast, timeLast);
            n.Ok? &&
            (limits.step.Some? ==> Abs(n.value.1 - DivToRate(divLast)) <= limits.step.value) &&
            (limits.accel.Some? ==> Abs(n.value.1 - DivToRate(divLast)) <= limits.accel.value * (timeCurrent - timeLast)) &&
            n.value.0 == RateToDiv(n.value.1)
  {
    LimitsFromLast(limits, rateDesired, timeCurrent, DivToRate(divLast), timeLast);
    NextDivisorOk(limits, rateDesired, timeCurrent, divLast, timeLast);
  }

  /** Both limits applied in turn keep the change from the last rate within each bound. */
  lemma LimitsFromLast(limits: Limits, rateDesired: real, timeCurrent: real, rateLast: real, timeLast: real)
    requires limits.accel.Some? ==> limits.accel.value >= 0.0 && timeCurrent > timeLast
    requires limits.step.Some? ==> limits.step.value >= 0.0
    ensures var accelLimited := ApplyAccelLimit(limits.accel, rateDesired, timeCurrent, rateLast, timeLast);
            accelLimited.Ok? &&
            var rate := ApplyStepLimit(limits.step, accelLimited.value, rateLast);
            (limits.step.Some? ==> Abs(rate - rateLast) <= limits.step.value) &&
            (limits.accel.Some? ==> Abs(rate - rateLast) <= limits.accel.value * (timeCurrent - timeLast))
  {
    var accelBound := if limits.accel.Some? then Some(limits.accel.value * (timeCurrent - timeLast)) else None;
    var accelLimited := ApplyAccelLimit(limits.accel, rateDesired, timeCurrent, rateLast, timeLast);
    assert accelLimited.Ok? && (accelBound.Some? ==> Abs(accelLimited.value - rateLast) <= accelBound.value) by {
      if limits.accel.Some? {
        AccelLimitBound(limits.accel.value, rateDesired, timeCurrent, rateLast, timeLast);
      }
    }
    StepAfterAccel(limits.step, accelBound, accelLimited.value, rateLast);
  }

  /** The step limit keeps every bound the change already met. */
  lemma StepAfterAccel(step: Option<real>, bound: Option<real>, rate: real, rateLast: real)
    requires step.Some? ==> step.value >= 0.0
    requires bound.Some? ==> Abs(rate - rateLast) <= bound.value
    ensures var r := ApplyStepLimit(step, rate, rateLast);
            (step.Some? ==> Abs(r - rateLast) <= step.value) &&
            (bound.Some? ==> Abs(r - rateLast) <= bound.value)
  {
  }

  /** When the acceleration limit passes, the divisor is that of the step-limited rate. */
  lemma NextDivisorOk(limits: Limits, rateDesired: real, timeCurrent: real, divLast: int, timeLast: real)
    requires ApplyAccelLimit(limits.accel, rateDesired, timeCurrent, DivToRate(divLast), timeLast).Ok?
    ensures var rateLast := DivToRate(divLast);
            var rate := ApplyStepLimit(limits.step,
              ApplyAccelLimit(limits.accel, rateDesired, timeCurrent, rateLast, timeLast).value, rateLast);
            NextDivisor(limits, rateDesired, timeCurrent, divLast, timeLast) == Ok((RateToDiv(rate), rate))
  {
  }

  /** The rate limit of `slew`: a request above the limit in magnitude is clamped to it,
      keeping its sign, and reported as exceeded; any other request passes unchanged. */
  function LimitRate(limits: Limits, rate: real): (r: (real, bool))
    ensures r.1 <==> limits.rate.Some? && Abs(rate) > limits.rate.value
    ensures !r.1 ==> r.0 == rate
    ensures r.1 && limits.rate.value >= 0.0 ==>
              Abs(r.0) == limits.rate.value && (rate > 0.0 ==> r.0 >= 0.0) && (rate < 0.0 ==> r.0 <= 0.0)
  {
    var exceeded := limits.rate.Some? && Abs(rate) > limits.rate.value;
    (if exceeded then Clamp(rate, limits.rate.value) else rate, exceeded)
  }

  function ParseAxis(name: string): (axis: Option<Axis>)
    ensures axis == Some(Ra) <==> name == "ra"
    ensures axis == Some(Dec) <==> name == "dec"
  {
    if name == "ra" then Some(Ra) else if name == "dec" then Some(Dec) else None
  }

  /** The attempt schedule `stop_motion` is run against: for each pass, the clock reading and
      whether the backend accepted the commands, for the RA call and then the Dec call. */
  datatype StopAttempt = StopAttempt(timeRa: real, raOk: bool, timeDec: real, decOk: bool)

  datatype StopOutcome =
    | Stopped              // both axes reported 0.0
    | Raised(e: SlewError) // an exception not derived from Gemini2Exception escaped
    | ScheduleExhausted    // the source would go on retrying

  /** One `slew(axis, 0.0)` of a `stop_motion` pass at time `now` on the cache `divLast` /
      `timeLast`: the rate reported or the error raised, and the cache afterwards. */
  function SlewToZero(limits: Limits, axis: Axis, now: real, sendOk: bool,
                      divLast: map<Axis, int>, timeLast: map<Axis, real>)
    : (r: (Result<real, SlewError>, map<Axis, int>, map<Axis, real>))
    requires axis in divLast && axis in timeLast
    ensures r.0.Err? <==> !sendOk || (limits.accel.Some? && now == timeLast[axis])
    ensures r.0.Err? ==> r.1 == divLast && r.2 == timeLast &&
                         r.0.error == if limits.accel.Some? && now == timeLast[axis] then ZeroElapsed
                                      else BackendFailure
    ensures r.0.Ok? ==> axis in r.1 && r.1 == divLast[axis := r.1[axis]] &&
                        r.2 == timeLast[axis := now]
  {
    var n := NextDivisor(limits, LimitRate(limits, 0.0).0, now, divLast[axis], timeLast[axis]);
    if n.Err? then (Err(n.error), divLast, timeLast)
    else if !sendOk then (Err(BackendFailure), divLast, timeLast)
    else (Ok(DivToRate(n.value.0)), divLast[axis := n.value.0], timeLast[axis := now])
  }

  /** One pass of the `stop_motion` loop: RA then Dec toward 0.0. `None` means go round again
      (a backend failure, or a rate still nonzero); otherwise how `stop_motion` ends. */
  function StopPass(limits: Limits, attempt: StopAttempt,
                    divLast: map<Axis, int>, timeLast: map<Axis, real>)
    : (r: (Option<StopOutcome>, map<Axis, int>, map<Axis, real>))
    requires Ra in divLast && Dec in divLast && Ra in timeLast && Dec in timeLast
    ensures Ra in r.1 && Dec in r.1 && Ra in r.2 && Dec in r.2
    ensures r.0 != Some(ScheduleExhausted)
    ensures r.0 == Some(Stopped) ==> attempt.raOk && attempt.decOk && r.1[Ra] == 0 && r.1[Dec] == 0
    ensures r.0.Some? && r.0.value.Raised? ==> r.0.value.e == ZeroElapsed
    ensures !attempt.raOk ==> r.1 == divLast && r.2 == timeLast
  {
    var (ra, d1, t1) := SlewToZero(limits, Ra, attempt.timeRa, attempt.raOk, divLast, timeLast);
    if ra.Err? then (if ra.error == BackendFailure then None else Some(Raised(ra.error)), d1, t1)
    else
      var (dec, d2, t2) := SlewToZero(limits, Dec, attempt.timeDec, attempt.decOk, d1, t1);
      if dec.Err? then (if dec.error == BackendFailure then None else Some(Raised(dec.error)), d2, t2)
      else if ra.value == 0.0 && dec.value == 0.0 then (Some(Stopped), d2, t2)
      else (None, d2, t2)
  }

  /** `stop_motion` in single-shot mode over the passes of `schedule`: how it ends, how many
      passes it used, and the cache it leaves. */
  function StopSpec(limits: Limits, divLast: map<Axis, int>, timeLast: map<Axis, real>,
                    schedule: seq<StopAttempt>)
    : (r: (StopOutcome, nat, map<Axis, int>, map<Axis, real>))
    requires Ra in divLast && Dec in divLast && Ra in timeLast && Dec in timeLast
    ensures Ra in r.2 && Dec in r.2 && Ra in r.3 && Dec in r.3
    ensures r.1 <= |schedule|
    ensures r.0.ScheduleExhausted? ==> r.1 == |schedule|
    ensures !r.0.ScheduleExhausted? ==> r.1 >= 1
    ensures r.0.Stopped? ==> r.2[Ra] == 0 && r.2[Dec] == 0
    ensures r.0.Raised? ==> r.0.e == ZeroElapsed
    decreases |schedule|, 1
  {
    if schedule == [] then (ScheduleExhausted, 0, divLast, timeLast)
    else StopAfterPass(limits, StopPass(limits, schedule[0], divLast, timeLast), schedule[1..])
  }

  /** How `stop_motion` goes on after a pass that ended as `pass`, over the passes `rest`. */
  function StopAfterPass(limits: Limits, pass: (Option<StopOutcome>, map<Axis, int>, map<Axis, real>),
                         rest: seq<StopAttempt>)
    : (r: (StopOutcome, nat, map<Axis, int>, map<Axis, real>))
    requires Ra in pass.1 && Dec in pass.1 && Ra in pass.2 && Dec in pass.2
    requires pass.0 != Some(ScheduleExhausted)
    requires pass.0 == Some(Stopped) ==> pass.1[Ra] == 0 && pass.1[Dec] == 0
    requires pass.0.Some? && pass.0.value.Raised? ==> pass.0.value.e == ZeroElapsed
    ensures Ra in r.2 && Dec in r.2 && Ra in r.3 && Dec in r.3
    ensures 1 <= r.1 <= |rest| + 1
    ensures r.0.ScheduleExhausted? ==> r.1 == |rest| + 1
    ensures r.0.Stopped? ==> r.2[Ra] == 0 && r.2[Dec] == 0
    ensures r.0.Raised? ==> r.0.e == ZeroElapsed
    decreases |rest| + 1, 0
  {
    if pass.0.Some? then (pass.0.value, 1, pass.1, pass.2)
    else
      var s := StopSpec(limits, pass.1, pass.2, rest);
      (s.0, s.1 + 1, s.2, s.3)
  }

  /** The loop of `stop_motion` reaches `StopSpec`: if the passes before `i` led from the
      starting cache to `divLast` / `timeLast` and pass `i` ended as `pass`, then `StopSpec`
      is how `stop_motion` goes on from there. */
  lemma StopSpecStep(limits: Limits, spec: (StopOutcome, nat, map<Axis, int>, map<Axis, real>),
                     schedule: seq<StopAttempt>, i: nat,
                     divLast: map<Axis, int>, timeLast: map<Axis, real>,
                     pass: (Option<StopOutcome>, map<Axis, int>, map<Axis, real>))
    requires Ra in divLast && Dec in divLast && Ra in timeLast && Dec in timeLast
    requires i < |schedule|
    requires var s := StopSpec(limits, divLast, timeLast, schedule[i..]); spec == (s.0, s.1 + i, s.2, s.3)
    requires pass == StopPass(limits, schedule[i], divLast, timeLast)
    ensures Ra in pass.1 && Dec in pass.1 && Ra in pass.2 && Dec in pass.2
    ensures pass.0.Some? ==> spec == (pass.0.value, i + 1, pass.1, pass.2)
    ensures pass.0.None? ==>
              var s := StopSpec(limits, pass.1, pass.2, schedule[i + 1..]); spec == (s.0, s.1 + (i + 1), s.2, s.3)
  {
    assert schedule[i..][0] == schedule[i];
    assert schedule[i..][1..] == schedule[i + 1..];
  }

  /** A backend that fails every RA command, with time elapsing when acceleration is limited,
      never stops the mount and never changes the cache: every pass is retried. */
  lemma {:induction false} StopRetriesFailures(limits: Limits, divLast: map<Axis, int>,
                                               timeLast: map<Axis, real>, schedule: seq<StopAttempt>)
    requires Ra in divLast && Dec in divLast && Ra in timeLast && Dec in timeLast
    requires forall i :: 0 <= i < |schedule| ==> !schedule[i].raOk
    requires limits.accel.Some? ==> forall i :: 0 <= i < |schedule| ==> schedule[i].timeRa != timeLast[Ra]
    ensures StopSpec(limits, divLast, timeLast, schedule) == (ScheduleExhausted, |schedule|, divLast, timeLast)
    decreases |schedule|
  {
    if schedule != [] {
      var (end, d, t) := StopPass(limits, schedule[0], divLast, timeLast);
      assert end.None? && d == divLast && t == timeLast;
      StopRetriesFailures(limits, divLast, timeLast, schedule[1..]);
    }
  }

  /** With the step and acceleration limits disabled, the first pass in which the backend
      accepts both commands stops the mount, zeroing both cached divisors. */
  lemma StopsWhenSent(limits: Limits, divLast: map<Axis, int>, timeLast: map<Axis, real>,
                      schedule: seq<StopAttempt>)
    requires Ra in divLast && Dec in divLast && Ra in timeLast && Dec in timeLast
    requires limits.step.None? && limits.accel.None?
    requires limits.rate.Some? ==> limits.rate.value >= 0.0
    requires schedule != [] && schedule[0].raOk && schedule[0].decOk
    ensures StopSpec(limits, divLast, timeLast, schedule) ==
            (Stopped, 1, divLast[Ra := 0][Dec := 0], timeLast[Ra := schedule[0].timeRa][Dec := schedule[0].timeDec])
  {
    assert LimitRate(limits, 0.0).0 == 0.0;
  }

  /** The `Gemini2` driver in single-shot mode: the configured limits and the divisor and time
      last commanded on each axis. */
  class Gemini2 {
    const limits: Limits
    var divLast: map<Axis, int>
    var timeLast: map<Axis, real>

    ghost predicate Valid()
      reads this
    {
      forall axis: Axis :: axis in divLast && axis in timeLast
    }

    constructor (limits: Limits, now: real)
      ensures Valid() && this.limits == limits
      ensures divLast == map[Ra := 0, Dec := 0] && timeLast == map[Ra := now, Dec := now]
    {
      this.limits := limits;
      divLast := map[Ra := 0, Dec := 0];
      timeLast := map[Ra := now, Dec := now];
      new;
      forall axis: Axis
        ensures axis in divLast && axis in timeLast
      {
        match axis
        case Ra =>
        case Dec =>
      }
    }

    /** `get_slew_rate`: the rate of the cached divisor, from which that divisor is recovered. */
    function GetSlewRate(axis: Axis): (rate: real)
      requires Valid()
      reads this
      ensures RateToDiv(rate) == divLast[axis]
      ensures rate == 0.0 <==> divLast[axis] == 0
    {
      DivRateRoundTrip(divLast[axis]);
      QuantizeZero(0.0, divLast[axis]);
      DivToRate(divLast[axis])
    }

    /** `_slew_rate_single`: one divisor command toward `rateDesired` at time `now`; on success
        the cache of this axis only is updated and the achieved rate returned with whether a
        limit changed the desired rate. `sendOk` is whether the backend raised. */
    method SlewRateSingle(axis: Axis, rateDesired: real, now: real, sendOk: bool)
        returns (r: Result<(real, bool), SlewError>, issued: seq<MountCommand>)
      requires Valid()
      modifies this
      ensures Valid()
      ensures var n := NextDivisor(limits, rateDesired, now, old(divLast)[axis], old(timeLast)[axis]);
              if n.Err? then r == Err(n.error) && issued == [] && unchanged(this)
              else issued == SetDivisor(axis, n.value.0, Some(old(divLast)[axis])) &&
                   if !sendOk then r == Err(BackendFailure) && unchanged(this)
                   else r == Ok((DivToRate(n.value.0), n.value.1 != rateDesired)) &&
                        divLast == old(divLast)[axis := n.value.0] &&
                        timeLast == old(timeLast)[axis := now]
    {
      var rateLast := DivToRate(divLast[axis]);
      var accelLimited := ApplyAccelLimit(limits.accel, rateDesired, now, rateLast, timeLast[axis]);
      if accelLimited.Err? {
        return Err(accelLimited.error), [];
      }
      var rateToCommand := ApplyStepLimit(limits.step, accelLimited.value, rateLast);
      var div := RateToDiv(rateToCommand);
      issued := SetDivisor(axis, div, Some(divLast[axis]));
      if !sendOk {
        return Err(BackendFailure), issued;
      }
      divLast := divLast[axis := div];
      timeLast := timeLast[axis := now];
      r := Ok((DivToRate(div), rateToCommand != rateDesired));
    }

    /** `slew` in single-shot mode: reject an unknown axis, apply the rate limit (noting when
        it clamps), then one `SlewRateSingle`, OR-ing its flag into the result. */
    method Slew(axisName: string, rate: real, now: real, sendOk: bool)
        returns (r: Result<(real, bool), SlewError>, issued: seq<MountCommand>)
      requires Valid()
      modifies this
      ensures Valid()
      ensures ParseAxis(axisName).None? ==> r == Err(BadAxis) && issued == [] && unchanged(this)
      ensures ParseAxis(axisName).Some? ==>
                var axis := ParseAxis(axisName).value;
                var (rateWanted, exceeded) := LimitRate(limits, rate);
                var n := NextDivisor(limits, rateWanted, now, old(divLast)[axis], old(timeLast)[axis]);
                if n.Err? then r == Err(n.error) && issued == [] && unchanged(this)
                else issued == SetDivisor(axis, n.value.0, Some(old(divLast)[axis])) &&
                     if !sendOk then r == Err(BackendFailure) && unchanged(this)
                     else r == Ok((DivToRate(n.value.0), exceeded || n.value.1 != rateWanted)) &&
                          divLast == old(divLast)[axis := n.value.0] &&
                          timeLast == old(timeLast)[axis := now]
      ensures r.Ok? ==> var axis := ParseAxis(axisName).value; r.value.0 == GetSlewRate(axis)
      ensures r.Err? ==> divLast == old(divLast) && timeLast == old(timeLast)
    {
      var axis := ParseAxis(axisName);
      if axis.None? {
        return Err(BadAxis), [];
      }
      var rateWanted, limitsExceeded := LimitRate(limits, rate).0, LimitRate(limits, rate).1;
      var single;
      single, issued := SlewRateSingle(axis.value, rateWanted, now, sendOk);
      if single.Err? {
        return single, issued;
      }
      r := Ok((single.value.0, limitsExceeded || single.value.1));
    }

    /** `stop_motion` in single-shot mode: slew both axes toward 0.0 pass after pass, retrying
        after a backend failure, until both report 0.0. The source retries forever; here the
        passes are those of `schedule`. */
    method StopMotion(schedule: seq<StopAttempt>) returns (outcome: StopOutcome, passes: nat)
      requires Valid()
      modifies this
      ensures Valid()
      ensures (outcome, passes, divLast, timeLast) == StopSpec(limits, old(divLast), old(timeLast), schedule)
      ensures passes <= |schedule|
      ensures outcome.Stopped? ==> GetSlewRate(Ra) == 0.0 && GetSlewRate(Dec) == 0.0 &&
                                   divLast[Ra] == 0 && divLast[Dec] == 0
      ensures outcome.Raised? ==> outcome.e == ZeroElapsed
      ensures outcome.ScheduleExhausted? ==> passes == |schedule|
    {
      ghost var spec := StopSpec(limits, divLast, timeLast, schedule);
      outcome, passes := ScheduleExhausted, 0;
      var ended := false;
      while passes < |schedule| && !ended
        invariant Valid()
        invariant passes <= |schedule|
        invariant ended ==> spec == (outcome, passes, divLast, timeLast)
        invariant !ended ==> outcome == ScheduleExhausted &&
                             var s := StopSpec(limits, divLast, timeLast, schedule[passes..]);
                             spec == (s.0, s.1 + passes, s.2, s.3)
      {
        ghost var divBefore, timeBefore := divLast, timeLast;
        var end := StopMotionPass(schedule[passes]);
        StopSpecStep(limits, spec, schedule, passes, divBefore, timeBefore, (end, divLast, timeLast));
        passes := passes + 1;
        if end.Some? {
          outcome, ended := end.value, true;
        }
      }
      if !ended {
        assert schedule[passes..] == [];
      }
    }

    /** One pass of the `stop_motion` loop: `slew('ra', 0.0)`, then `slew('dec', 0.0)`; a
        backend failure ends the pass early, a division by zero escapes. */
    method StopMotionPass(attempt: StopAttempt) returns (end: Option<StopOutcome>)
      requires Valid()
      modifies this
      ensures Valid()
      ensures (end, divLast, timeLast) == StopPass(limits, attempt, old(divLast), old(timeLast))
    {
      assert ParseAxis("ra") == Some(Ra) && ParseAxis("dec") == Some(Dec);
      ghost var raStep := SlewToZero(limits, Ra, attempt.timeRa, attempt.raOk, divLast, timeLast);
      var ra, _ := Slew("ra", 0.0, attempt.timeRa, attempt.raOk);
      assert raStep == (if ra.Ok? then Ok(ra.value.0) else Err(ra.error), divLast, timeLast);
      if ra.Err? {
        return if ra.error == BackendFailure then None else Some(Raised(ra.error));
      }
      ghost var decStep := SlewToZero(limits, Dec, attempt.timeDec, attempt.decOk, divLast, timeLast);
      var dec, _ := Slew("dec", 0.0, attempt.timeDec, attempt.decOk);
      assert decStep == (if dec.Ok? then Ok(dec.value.0) else Err(dec.error), divLast, timeLast);
      if dec.Err? {
        return if dec.error == BackendFailure then None else Some(Raised(dec.error));
      }
      end := if ra.value.0 == 0.0 && dec.value.0 == 0.0 then Some(Stopped) else None;
    }
  }

  /** `slew` in multiprocessing mode, before the pipe: the rate limit, then quantisation. The
      loop recovers from the posted rate exactly the divisor of the rate-limited request. */
  function PipeTarget(limits: Limits, rate: real): (r: (real, bool))
    ensures r.1 == LimitRate(limits, rate).1
    ensures var limited := LimitRate(limits, rate).0;
            RateToDiv(r.0) == RateToDiv(limited) && r.0 == Quantize(limited)
  {
    var (limited, exceeded) := LimitRate(limits, rate);
    DivRateRoundTrip(RateToDiv(limited));
    (DivToRate(RateToDiv(limited)), exceeded)
  }

  /** What one pass of the per-axis loop did. */
  datatype LoopStep =
    | Returned                        // shut down with the last divisor zero: the loop ends
    | Blocked                         // waiting on the pipe: nothing to do
    | Skipped                         // new target equals the last divisor: next pass
    | Attempted(div: int, ok: bool)   // divisor commands sent; `ok` when no exception
    | Crashed(e: SlewError)           // an exception the loop does not catch

  /** The state of one axis's slew-rate loop (`_slew_rate_process`): the pipe of pending
      targets (`None` is the shutdown sentinel), the target divisor, the last commanded divisor
      (with its shared-memory copy) and time, the shutdown flag and the "safe" event. */
  class SlewAxisLoop {
    const axis: Axis
    const limits: Limits
    var pending: seq<Option<real>>
    var divTarget: int
    var divLast: int
    var divShared: int
    var timeLast: real
    var shutdown: bool
    var safe: bool

    /** The shared copy follows the local one, "safe" means the last divisor commanded is
        zero, and after shutdown the target is zero. */
    ghost predicate Valid()
      reads this
    {
      divShared == divLast && (safe ==> divLast == 0) && (shutdown ==> divTarget == 0)
    }

    constructor (axis: Axis, limits: Limits, now: real)
      ensures Valid() && this.axis == axis && this.limits == limits
      ensures pending == [] && divTarget == 0 && divLast == 0 && safe && !shutdown
      ensures timeLast == now - 0.001
    {
      this.axis := axis;
      this.limits := limits;
      pending := [];
      divTarget := 0;
      divLast := 0;
      divShared := 0;
      timeLast := now - 0.001;
      shutdown := false;
      safe := true;
    }

    /** A rate target (or the shutdown sentinel) arriving on the pipe. */
    method Post(target: Option<real>)
      modifies this
      ensures pending == old(pending) + [target]
      ensures divTarget == old(divTarget) && divLast == old(divLast) && divShared == old(divShared)
      ensures timeLast == old(timeLast) && shutdown == old(shutdown) && safe == old(safe)
    {
      pending := pending + [target];
    }

    /** The divisor a target read from the pipe asks for: zero for the shutdown sentinel. */
    static function TargetDiv(target: Option<real>): int
    {
      if target.None? then 0 else RateToDiv(target.value)
    }

    /** One pass of the loop at time `now`; `sendOk` is whether `_set_divisor` raised. A pass
        reads the pipe exactly when not shutting down and a target is pending, or blocks when
        none is pending and the target is reached; after shutdown it ends once the last
        divisor is zero. */
    method Iterate(now: real, sendOk: bool) returns (step: LoopStep, issued: seq<MountCommand>)
      requires Valid()
      modifies this
      ensures Valid()
      ensures step.Returned? <==> old(shutdown) && old(divLast) == 0
      ensures step.Blocked? <==> !old(shutdown) && old(pending) == [] && old(divLast) == old(divTarget)
      ensures step.Returned? || step.Blocked? ==> unchanged(this)
      // the pipe: one target consumed per read, none otherwise
      ensures !old(shutdown) && old(pending) != [] ==>
                pending == old(pending)[1..] && divTarget == TargetDiv(old(pending)[0]) &&
                shutdown == old(pending)[0].None?
      ensures old(shutdown) || old(pending) == [] ==>
                pending == old(pending) && divTarget == old(divTarget) && shutdown == old(shutdown)
      ensures step.Skipped? <==> !old(shutdown) && old(pending) != [] && old(pending)[0].Some? &&
                                 divTarget == old(divLast)
      // past the pipe, the acceleration limit raising is the only uncaught exception
      ensures var accel := ApplyAccelLimit(limits.accel, DivToRate(divTarget), now, DivToRate(old(divLast)), old(timeLast));
              step.Crashed? <==> !step.Returned? && !step.Blocked? && !step.Skipped? && accel.Err?
      ensures step.Crashed? ==> step.e == ZeroElapsed
      ensures step.Attempted? ==> step.ok == sendOk
      ensures !step.Attempted? || (!step.ok && step.div == 0) ==> safe == old(safe)
      ensures step.Attempted? ==>
                ApplyAccelLimit(limits.accel, DivToRate(divTarget), now, DivToRate(old(divLast)), old(timeLast)).Ok? &&
                step.div == RateToDiv(ApplyStepLimit(limits.step,
                  ApplyAccelLimit(limits.accel, DivToRate(divTarget), now, DivToRate(old(divLast)), old(timeLast)).value,
                  DivToRate(old(divLast)))) &&
                issued == SetDivisor(axis, step.div, Some(old(divLast)))
      // the safe flag is cleared before any nonzero divisor is sent
      ensures step.Attempted? && step.div != 0 ==> !safe
      // it is set only after a zero divisor was sent without exception
      ensures safe && !old(safe) ==> step == Attempted(0, true)
      // a failed send leaves the cached divisor and time unchanged
      ensures step.Attempted? && !step.ok ==> divLast == old(divLast) && timeLast == old(timeLast)
      ensures step.Attempted? && step.ok ==> divLast == step.div && divShared == step.div && timeLast == now &&
                                              (safe <==> step.div == 0)
      ensures !step.Attempted? ==> issued == [] && divLast == old(divLast) && timeLast == old(timeLast)
    {
      issued := [];
      if shutdown {
        if divLast == 0 {
          return Returned, [];
        }
      } else if |pending| > 0 || divLast == divTarget {
        if |pending| == 0 {
          return Blocked, [];
        }
        var target := pending[0];
        pending := pending[1..];
        if target.None? {
          divTarget := 0;
          shutdown := true;
        } else {
          divTarget := RateToDiv(target.value);
          if divTarget == divLast {
            return Skipped, [];
          }
        }
      }
      var rateTarget := DivToRate(divTarget);
      var rateLast := DivToRate(divLast);
      var accelLimited := ApplyAccelLimit(limits.accel, rateTarget, now, rateLast, timeLast);
      if accelLimited.Err? {
        return Crashed(accelLimited.error), [];
      }
      var rateToCommand := ApplyStepLimit(limits.step, accelLimited.value, rateLast);
      var div := RateToDiv(rateToCommand);
      if div != 0 {
        safe := false;
      }
      issued := SetDivisor(axis, div, Some(divLast));
      if !sendOk {
        return Attempted(div, false), issued;
      }
      divShared := div;
      divLast := div;
      timeLast := now;
      if divLast == 0 {
        safe := true;
      }
      step := Attempted(div, true);
    }
  }
}
