/** Motor_control.c: starting, ramping and stopping the motor on commands and on the ticks of the modulator. */
module Motor {
  import opened Words

  /** START_FREQ and MIN_FREQ */
  const START_FREQ := 5
  const MIN_FREQ := 4

  /** Ticks in a tenth of a second at PWM_FREQ. */
  const TICKS := 1600

  const WORD := 0x1_0000_0000
  const HALF := 0x8000_0000
  const LONG := 0x1_0000_0000_0000_0000

  datatype Action = Idle | Start | Stop | Uniform

  datatype Direction = Up | Down

  // ---- Ramps, frequencies being held with 32 binary places ----

  /** The step of a ramp over n ticks. */
  function StepFor(current: nat, target: nat, n: nat): int
    requires n > 0
  {
    TruncDiv((target - current) * WORD, n)
  }

  /** The frequency after k ticks, before rounding. */
  function Fine(current: nat, step: int, k: nat): int {
    current * WORD + k * step
  }

  /** Rounding to the nearest whole frequency. */
  function Rounded(fine: int): int {
    (fine + HALF) / WORD
  }

  lemma Products(k: nat, j: nat, s: nat)
    requires k <= j
    ensures k * s <= j * s
  {}

  lemma DivMod(a: nat, n: nat)
    requires n > 0
    ensures a % n < n && a == a / n * n + a % n
  {}

  /** q is the quotient of a by n, rounded down. */
  predicate IsQuotient(a: int, n: int, q: int) {
    q >= 0 && a - n < n * q <= a
  }

  lemma Quotient(a: nat, n: int)
    requires n > 0
    ensures IsQuotient(a, n, a / n)
  {
    DivMod(a, n);
  }

  lemma Mirrored(a: int, n: int, q: int)
    requires IsQuotient(-a, n, q)
    ensures -q <= 0 && a <= n * -q < a + n
  {
    assert n * -q == -(n * q);
  }

  lemma TruncBounds(a: int, n: nat, s: int)
    requires n > 0 && s == TruncDiv(a, n)
    ensures if a >= 0 then IsQuotient(a, n, s) else s <= 0 && a <= n * s < a + n
  {
    hide IsQuotient;
    if a >= 0 {
      Quotient(a, n);
    } else {
      Quotient(-a, n);
      Mirrored(a, n, -a / n);
    }
  }

  /** The steps of a ramp make up its height but for less than one unit a tick. */
  lemma StepsMakeUp(current: nat, target: nat, n: nat)
    requires n > 0
    ensures var s, d := StepFor(current, target, n), (target - current) * WORD;
            if d >= 0 then 0 <= s && d - n < n * s <= d else s <= 0 && d <= n * s < d + n
  {
    TruncBounds((target - current) * WORD, n, StepFor(current, target, n));
  }

  /** All through a ramp the frequency lies between start and target, rounded or not. */
  lemma StaysBetween(current: nat, target: nat, n: nat, k: nat)
    requires 0 < n && k <= n
    ensures var s := StepFor(current, target, n);
            var f := Fine(current, s, k);
            if current <= target then current * WORD <= f <= target * WORD && current <= Rounded(f) <= target
            else target * WORD <= f <= current * WORD && target <= Rounded(f) <= current
  {
    var s := StepFor(current, target, n);
    StepsMakeUp(current, target, n);
    if current <= target {
      Products(k, n, s);
      Products(0, k, s);
      RoundedBetween(Fine(current, s, k), current, target);
    } else {
      Products(k, n, -s);
      Products(0, k, -s);
      assert k * s == -(k * -s) && n * s == -(n * -s);
      RoundedBetween(Fine(current, s, k), target, current);
    }
  }

  lemma RoundedBetween(f: int, a: nat, b: nat)
    requires a * WORD <= f <= b * WORD
    ensures a <= Rounded(f) <= b
  {}

  /** The rounded frequency only goes towards the target. */
  lemma Monotone(current: nat, target: nat, n: nat, k: nat)
    requires 0 < n && k < n
    ensures var s := StepFor(current, target, n);
            var f, g := Rounded(Fine(current, s, k)), Rounded(Fine(current, s, k + 1));
            if current <= target then f <= g else g <= f
  {
    var s := StepFor(current, target, n);
    StepsMakeUp(current, target, n);
    assert Fine(current, s, k + 1) == Fine(current, s, k) + s;
  }

  /** After exactly its number of ticks, if that is below 2^31, a ramp has reached its target. */
  lemma Arrives(current: nat, target: nat, n: nat)
    requires 0 < n < HALF
    ensures Rounded(Fine(current, StepFor(current, target, n), n)) == target
  {
    StepsMakeUp(current, target, n);
    var f := Fine(current, StepFor(current, target, n), n);
    assert target * WORD - HALF < f < target * WORD + HALF;
  }

  // ---- The control block ----

  /** The 64-bit sum the tick computes, and the frequency it shows. */
  function Advance(llMotFreq: nat, llStep: int): (r: nat)
    ensures r < LONG
  {
    (llMotFreq + llStep) % LONG
  }

  function Shown(llMotFreq: nat): (f: nat)
    ensures f < WORD
  {
    (llMotFreq + HALF) % LONG / WORD
  }

  /** Within a ramp between 32-bit frequencies nothing wraps. */
  lemma NoWrap(llMotFreq: nat, llStep: int, f: nat)
    requires 0 <= llMotFreq + llStep <= f * WORD && f < WORD
    ensures Advance(llMotFreq, llStep) == llMotFreq + llStep
    ensures Shown(llMotFreq + llStep) == Rounded(llMotFreq + llStep)
  {}

  /** What a command may carry: 32-bit values, and a time whose number of ticks fits its field. */
  predicate Fits(targetFreq: nat, time: nat) {
    targetFreq < WORD && TICKS * time < WORD
  }

  /** The number of ticks of a change that takes a time in tenths of a second. */
  function Duration(time: nat): (n: nat)
    ensures n > 0
  {
    if time == 0 then 1 else TICKS * time
  }

  /** Where a stop ends: going up it ends at a running speed, a higher one under a heavy load. */
  function StopTarget(direction: Direction, time: nat, heavy: bool): nat {
    if direction == Up && time != 0 then if heavy then 15 else 5 else 0
  }

  datatype Motion = Motion(pwmOn: bool, action: Action, direction: Direction, skewCnt: nat, motFreq: nat, llMotFreq: nat, llStep: int)

  /** A change of speed towards a target; none if what was asked for is the frequency already. */
  function Changed(m: Motion, act: Action, asked: nat, target: nat, time: nat): Motion {
    if asked == m.motFreq then m else
      m.(action := act, skewCnt := Duration(time),
         llStep := if time == 0 then SignedLong((target - m.motFreq) % WORD * WORD) else StepFor(m.motFreq, target, Duration(time)))
  }

  /** A tick: a ramp goes on, and the motor stops at its end if it was to, and at the least frequency. */
  function Ticked(m: Motion): Motion {
    var ll := Advance(m.llMotFreq, m.llStep);
    if m.skewCnt == 0 then m
    else if (m.skewCnt == 1 && m.action == Stop) || Shown(ll) <= MIN_FREQ then Motion(false, Idle, m.direction, 0, 0, 0, 0)
    else m.(llMotFreq := ll, motFreq := Shown(ll), skewCnt := m.skewCnt - 1, action := if m.skewCnt == 1 then Uniform else m.action)
  }

  /** What an event makes of the motion. */
  function Next(m: Motion, e: Event): Motion {
    match e
    case StartCommand(dir, target, time, closed) =>
      if m.pwmOn || !closed then m
      else Changed(m.(pwmOn := true, direction := dir, motFreq := START_FREQ, llMotFreq := START_FREQ * WORD), Start, target, target, time)
    case StopCommand(time, heavy) =>
      if m.pwmOn then Changed(m, Stop, 0, StopTarget(m.direction, time, heavy), time) else m
    case Emergency => Motion(false, Idle, m.direction, 0, 0, 0, 0)
    case Interrupt => Ticked(m)
  }

  /** What a series of events makes of it. */
  function After(m: Motion, events: seq<Event>): Motion
    decreases |events|
  {
    if events == [] then m else Next(After(m, events[..|events| - 1]), events[|events| - 1])
  }

  class Control {
    var pwmOn: bool
    var action: Action
    var direction: Direction
    var skewCnt: nat
    var motFreq: nat
    var llMotFreq: nat
    var llStep: int

    /** Everything is at rest. */
    predicate AtRest()
      reads this
    {
      !pwmOn && action == Idle && motFreq == 0 && llMotFreq == 0 && llStep == 0 && skewCnt == 0
    }

    /** Either the motor is at rest, or it is driven and faster than the least frequency. */
    ghost predicate Valid()
      reads this
    {
      && llMotFreq < LONG && motFreq == Shown(llMotFreq) && (AtRest() || (pwmOn && motFreq > MIN_FREQ))
      && (action == Stop ==> skewCnt > 0)
    }

    constructor ()
      ensures Valid() && AtRest()
    {
      pwmOn, action, direction, skewCnt, motFreq, llMotFreq, llStep := false, Idle, Up, 0, 0, 0, 0;
    }

    /** MC_emergency_stop_motor, with PWM_stop */
    method EmergencyStop()
      modifies this
      ensures AtRest() && direction == old(direction)
    {
      pwmOn := false;
      motFreq, llMotFreq, skewCnt, llStep := 0, 0, 0, 0;
      action := Idle;
    }

    /** PWM_start */
    method PwmStart(dir: Direction, freq: nat)
      requires freq < WORD
      modifies this
      ensures pwmOn && direction == dir && motFreq == freq && llMotFreq == freq * WORD
      ensures action == old(action) && skewCnt == old(skewCnt) && llStep == old(llStep)
    {
      motFreq := freq;
      direction := dir;
      llMotFreq := motFreq * WORD;
      pwmOn := true;
    }

    /** MC_init_speed_change for a start or a stop; nothing is changed if the frequency is the target already. */
    method InitSpeedChange(act: Action, targetFreq: nat, time: nat, heavy: bool)
      requires Fits(targetFreq, time) && motFreq < WORD && (act == Start || act == Stop)
      modifies this`action, this`skewCnt, this`llStep
      ensures targetFreq == motFreq ==> action == old(action) && skewCnt == old(skewCnt) && llStep == old(llStep)
      ensures targetFreq != motFreq ==> action == act && skewCnt == Duration(time)
      ensures targetFreq != motFreq ==>
        var target := if act == Stop && direction == Up && time != 0 then StopTarget(direction, time, heavy) else targetFreq;
        llStep == if time == 0 then SignedLong((target - motFreq) % WORD * WORD) else StepFor(motFreq, target, Duration(time))
    {
      var target := targetFreq;
      if target != motFreq {
        action := act;
        if time != 0 {
          if direction == Up && act == Stop {
            target := if heavy then 15 else 5;
          }
          skewCnt := TICKS * time;
          llStep := TruncDiv((target - motFreq) * WORD, skewCnt);
        } else {
          skewCnt := 1;
          llStep := SignedLong((target - motFreq) % WORD * WORD);
        }
      }
    }

    /** MC_start_motor_moving: ignored while the motor is driven or the safety circuit is open. */
    method StartMotorMoving(dir: Direction, targetFreq: nat, time: nat, circuitClosed: bool)
      requires Valid() && Fits(targetFreq, time)
      modifies this
      ensures Valid()
      ensures old(pwmOn) || !circuitClosed ==> View() == old(View())
      ensures !old(pwmOn) && circuitClosed ==> pwmOn && motFreq == START_FREQ && llMotFreq == START_FREQ * WORD && direction == dir
      ensures !old(pwmOn) && circuitClosed && targetFreq != START_FREQ ==> action == Start && skewCnt == Duration(time)
      ensures !old(pwmOn) && circuitClosed && targetFreq != START_FREQ ==>
        llStep == if time == 0 then SignedLong((targetFreq - START_FREQ) % WORD * WORD) else StepFor(START_FREQ, targetFreq, skewCnt)
      ensures !old(pwmOn) && circuitClosed && targetFreq == START_FREQ ==> action == Idle && skewCnt == 0 && llStep == 0
    {
      if !pwmOn && circuitClosed {
        PwmStart(dir, START_FREQ);
        InitSpeedChange(Start, targetFreq, time, false);
      }
    }

    /** MC_stop_motor_moving */
    method StopMotorMoving(time: nat, heavy: bool)
      requires Valid() && Fits(0, time)
      modifies this`action, this`skewCnt, this`llStep
      ensures Valid()
      ensures pwmOn ==> action == Stop && skewCnt == Duration(time)
      ensures pwmOn && time != 0 ==> llStep == StepFor(motFreq, StopTarget(direction, time, heavy), skewCnt)
      ensures pwmOn && time == 0 ==> llStep == SignedLong((0 - motFreq) % WORD * WORD)
      ensures !pwmOn ==> AtRest() && View() == old(View())
    {
      if pwmOn {
        InitSpeedChange(Stop, 0, time, heavy);
      }
    }

    /** All fields at once. */
    function View(): Motion
      reads this
    {
      Motion(pwmOn, action, direction, skewCnt, motFreq, llMotFreq, llStep)
    }

    /** The part of the ramp in Motor_ISR_task: a stop that has run down stops the motor, and then marks uniform motion. */
    method RampTick()
      requires skewCnt > 0
      modifies this
      ensures old(skewCnt) == 1 && old(action) == Stop ==>
        !pwmOn && motFreq == 0 && llMotFreq == 0 && llStep == 0 && skewCnt == 0 && action == Uniform
      ensures !(old(skewCnt) == 1 && old(action) == Stop) ==>
        && llMotFreq == Advance(old(llMotFreq), old(llStep)) && motFreq == Shown(llMotFreq) && llStep == old(llStep)
        && pwmOn == old(pwmOn) && skewCnt == old(skewCnt) - 1 && action == if skewCnt == 0 then Uniform else old(action)
      ensures direction == old(direction)
    {
      llMotFreq := (llMotFreq + llStep) % LONG;
      motFreq := (llMotFreq + HALF) % LONG / WORD;
      skewCnt := skewCnt - 1;
      if skewCnt == 0 {
        if action == Stop {
          EmergencyStop();
        }
        action := Uniform;
      }
    }

    /** The tick body of Motor_ISR_task. */
    method Tick()
      requires Valid()
      modifies this
      ensures Valid() && (AtRest() || motFreq > MIN_FREQ) && direction == old(direction)
      ensures old(skewCnt) == 0 ==> View() == old(View())
      ensures old(skewCnt) > 0 ==>
        var ll := Advance(old(llMotFreq), old(llStep));
        if (old(skewCnt) == 1 && old(action) == Stop) || Shown(ll) <= MIN_FREQ then AtRest()
        else && pwmOn == old(pwmOn) && llMotFreq == ll && motFreq == Shown(ll) && llStep == old(llStep)
             && skewCnt == old(skewCnt) - 1 && action == if skewCnt == 0 then Uniform else old(action)
    {
      if skewCnt != 0 {
        RampTick();
      }
      if motFreq <= MIN_FREQ {
        EmergencyStop();
      }
    }

    /**
     * Whatever commands and ticks come, in whatever order, they are carried out one after the other, and the motor is at rest or
     * driven above the least frequency.
     */
    method Run(events: seq<Event>)
      requires Valid() && forall i :: 0 <= i < |events| ==> Possible(events[i])
      modifies this
      ensures Valid() && View() == After(old(View()), events)
    {
      for i := 0 to |events|
        invariant Valid() && View() == After(old(View()), events[..i])
      {
        assert events[..i + 1][..i] == events[..i];
        Do(events[i]);
      }
      assert events[..|events|] == events;
    }

    method Do(e: Event)
      requires Valid() && Possible(e)
      modifies this
      ensures Valid() && View() == Next(old(View()), e)
      ensures e.StartCommand? && old(pwmOn) ==> View() == old(View())
      ensures e == Interrupt && old(pwmOn) && old(action) == Stop && old(skewCnt) > 0 ==>
        !pwmOn || (action == Stop && skewCnt == old(skewCnt) - 1 && skewCnt > 0)
      ensures e == Emergency ==> !pwmOn
    {
      match e
      case StartCommand(dir, target, time, closed) => StartMotorMoving(dir, target, time, closed);
      case StopCommand(time, heavy) => StopMotorMoving(time, heavy);
      case Emergency => EmergencyStop();
      case Interrupt => Tick();
    }

    /**
     * A stop command and then anything but a further stop: the motor is off before more ticks have passed than the stop
     * was to take. Start commands do not matter as long as it is still driven.
     */
    method StopTakesEffect(time: nat, heavy: bool, events: seq<Event>) returns (k: nat)
      requires Valid() && Fits(0, time)
      requires forall i :: 0 <= i < |events| ==> Possible(events[i]) && !events[i].StopCommand?
      requires Interrupts(events) >= Duration(time)
      modifies this
      ensures Valid() && !pwmOn && k <= |events| && Interrupts(events[..k]) <= Duration(time)
    {
      StopMotorMoving(time, heavy);
      k := 0;
      while pwmOn
        invariant Valid() && k <= |events|
        invariant Interrupts(events[..k]) <= Duration(time)
        invariant pwmOn ==> action == Stop && skewCnt == Duration(time) - Interrupts(events[..k]) && skewCnt > 0
        decreases |events| - k
      {
        assert events[..|events|] == events;
        assert events[..k + 1][..k] == events[..k];
        Do(events[k]);
        k := k + 1;
      }
    }

    /**
     * A stop with time when the motor goes up: it is driven until the last of the ticks and off with it, and until then the
     * frequency comes down to 5, under a heavy load to 15, but never below; a slower one comes up to 15.
     */
    method StopUp(time: nat, heavy: bool) returns (shown: seq<nat>)
      requires Valid() && pwmOn && direction == Up && time > 0 && Fits(0, time)
      modifies this
      ensures AtRest() && |shown| == 1600 * time - 1
      ensures forall k :: 0 <= k < |shown| ==> Between(old(motFreq), if heavy then 15 else 5, shown[k])
    {
      hide StepFor, Moved;
      ghost var from, start := motFreq, llMotFreq;
      var n := TICKS * time;
      StopMotorMoving(time, heavy);
      MovedNext(start, llStep, 0);
      shown := [];
      for k := 0 to n - 1
        invariant Stopping(from, start, if heavy then 15 else 5, n, k) && |shown| == k
        invariant forall i :: 0 <= i < k ==> Between(from, if heavy then 15 else 5, shown[i])
      {
        StoppingTick(from, start, if heavy then 15 else 5, n, k);
        shown := shown + [motFreq];
      }
      Tick();
    }

    /** A stop that began at a frequency shown as from is k ticks on its way. */
    ghost predicate Stopping(from: nat, start: nat, target: nat, n: nat, k: nat)
      reads this
    {
      && Valid() && pwmOn && action == Stop && k < n && skewCnt == n - k && target > MIN_FREQ
      && from * WORD <= start + HALF < from * WORD + WORD && MIN_FREQ < from < WORD && llStep == StepFor(from, target, n)
      && llMotFreq == Moved(start, llStep, k)
    }

    method StoppingTick(ghost from: nat, ghost start: nat, ghost target: nat, ghost n: nat, ghost k: nat)
      requires Stopping(from, start, target, n, k) && k + 1 < n && MIN_FREQ < target < WORD
      modifies this
      ensures Stopping(from, start, target, n, k + 1) && Between(from, target, motFreq)
    {
      ShownBetween(from, start, target, n, k + 1);
      MovedNext(start, llStep, k);
      InLong(llMotFreq, llStep);
      hide StepFor, Moved, Advance, Shown;
      Tick();
    }

    /** Ramping up or down after a start command: k ticks of it have passed. */
    ghost predicate Ramping(target: nat, n: nat, k: nat)
      reads this
    {
      && Valid() && pwmOn && action == Start && k < n && skewCnt == n - k
      && MIN_FREQ < target < WORD && llStep == StepFor(START_FREQ, target, n)
      && llMotFreq == Fine(START_FREQ, llStep, k) && motFreq == Rounded(llMotFreq)
    }

    /** A tick in the middle of a ramp. */
    method RampingTick(target: nat, ghost n: nat, ghost k: nat)
      requires Ramping(target, n, k)
      modifies this
      ensures motFreq == Rounded(Fine(START_FREQ, StepFor(START_FREQ, target, n), k + 1))
      ensures old(motFreq) <= motFreq <= target && direction == old(direction)
      ensures if k + 1 < n then Ramping(target, n, k + 1) else Valid() && pwmOn && action == Uniform && skewCnt == 0
    {
      var s := llStep;
      assert Fine(START_FREQ, s, k + 1) == llMotFreq + s;
      StaysBetween(START_FREQ, target, n, k + 1);
      Monotone(START_FREQ, target, n, k);
      NoWrap(llMotFreq, s, target);
      Tick();
    }

    /**
     * A start to a frequency above the least one arrives there after exactly its number of ticks, and goes on at it. A start
     * without time takes one tick, and one to the start frequency none.
     */
    method StartArrives(dir: Direction, target: nat, time: nat) returns (ticks: nat)
      requires Valid() && !pwmOn && Fits(target, time) && target > MIN_FREQ && TICKS * time < HALF
      modifies this
      ensures ticks == if target == START_FREQ then 0 else Duration(time)
      ensures Valid() && pwmOn && motFreq == target && skewCnt == 0 && direction == dir
      ensures action == if target == START_FREQ then Idle else Uniform
    {
      StartMotorMoving(dir, target, time, true);
      ticks := skewCnt;
      if target != START_FREQ {
        if time == 0 {
          AtOnce(START_FREQ, target);
          Tick();
        } else {
          RunRamp(dir, target, time);
        }
      }
    }

    /** The ticks of a start with time. */
    method RunRamp(dir: Direction, target: nat, time: nat)
      requires 0 < TICKS * time < HALF && direction == dir && Ramping(target, TICKS * time, 0)
      modifies this
      ensures Valid() && pwmOn && motFreq == target && action == Uniform && skewCnt == 0 && direction == dir
    {
      var n := skewCnt;
      assert Fine(START_FREQ, llStep, 0) == llMotFreq;
      for k := 0 to n
        invariant direction == dir && n == TICKS * time
        invariant k < n ==> Ramping(target, n, k)
        invariant k == n ==> Valid() && pwmOn && action == Uniform && skewCnt == 0
        invariant k == n ==> motFreq == Rounded(Fine(START_FREQ, StepFor(START_FREQ, target, n), n))
      {
        RampingTick(target, n, k);
      }
      Arrives(START_FREQ, target, n);
    }
  }

  /** A 64-bit value read as a signed one. */
  function SignedLong(x: nat): (y: int)
    ensures -LONG <= 2 * y < LONG && (x - y) % LONG == 0
  {
    var z := x % LONG;
    if z >= LONG / 2 then z - LONG else z
  }

  datatype Event = StartCommand(dir: Direction, target: nat, time: nat, circuitClosed: bool) | StopCommand(time: nat, heavy: bool)
                 | Emergency | Interrupt

  predicate Possible(e: Event) {
    match e
    case StartCommand(_, target, time, _) => Fits(target, time)
    case StopCommand(time, _) => Fits(0, time)
    case _ => true
  }

  /** The number of ticks in a series of events. */
  function Interrupts(events: seq<Event>): nat
    decreases |events|
  {
    if events == [] then 0 else Interrupts(events[..|events| - 1]) + if events[|events| - 1] == Interrupt then 1 else 0
  }

  predicate Between(a: nat, b: nat, x: nat) {
    if a <= b then a <= x <= b else b <= x <= a
  }

  /** Where k ticks of a ramp lead that starts between two frequencies. */
  function Moved(start: nat, step: int, k: nat): int {
    start + k * step
  }

  lemma MovedNext(start: nat, step: int, k: nat)
    ensures Moved(start, step, 0) == start && Moved(start, step, k + 1) == Moved(start, step, k) + step
  {}

  lemma InLong(llMotFreq: nat, llStep: int)
    ensures 0 <= llMotFreq + llStep < LONG ==> Advance(llMotFreq, llStep) == llMotFreq + llStep
  {}

  lemma OffsetBetween(fine: int, d: int, lo: nat, hi: nat)
    requires 0 < lo && hi < WORD && lo * WORD <= fine <= hi * WORD && 0 <= d + HALF < WORD
    ensures 0 <= fine + d < LONG && lo <= Shown(fine + d) <= hi
  {}

  /** A ramp that starts within half a unit of the frequency shown stays between that and its target as well. */
  lemma ShownBetween(from: nat, start: nat, target: nat, n: nat, k: nat)
    requires 0 < n && k <= n && 0 < target < WORD && 0 < from < WORD && from * WORD <= start + HALF < from * WORD + WORD
    ensures var ll := Moved(start, StepFor(from, target, n), k); 0 <= ll < LONG && Between(from, target, Shown(ll))
  {
    var s, d := StepFor(from, target, n), start - from * WORD;
    hide StepFor;
    StaysBetween(from, target, n, k);
    OffsetBetween(Fine(from, s, k), d, if from <= target then from else target, if from <= target then target else from);
  }

  /** A change without time takes one tick, and the wrapping of its step does not show in the frequency it leads to. */
  lemma AtOnce(current: nat, target: nat)
    requires current < WORD && target < WORD
    ensures var step := SignedLong((target - current) % WORD * WORD);
            Shown(Advance(current * WORD, step)) == target
  {
    var d := (target - current) % WORD;
    Wrapped(target - current, d);
    var step := SignedLong(d * WORD);
    assert step == d * WORD || step == d * WORD - LONG;
    ShownOf(current * WORD + step, target);
  }

  lemma Wrapped(x: int, d: nat)
    requires -WORD < x < WORD && d == x % WORD
    ensures d == x || d == x + WORD
  {}

  lemma ShownOf(sum: int, target: nat)
    requires target < WORD && (sum == target * WORD || sum == target * WORD + LONG || sum == target * WORD - LONG)
    ensures Shown(sum % LONG) == target
  {
    assert sum % LONG == target * WORD;
  }
}
