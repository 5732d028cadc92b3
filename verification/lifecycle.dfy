/**
 Sequences of calls to the three entry points of softPWM.cpp, made one at a
 time from one caller, and what they keep true of the slot table; plus what
 the worker of a pin does with the values the table holds.
 */
module Lifecycle {
  import opened Gpio
  import opened Worker
  import opened SoftPwm

  /** One call into the library, with the collaborators' answers for a create. */
  datatype Op =
    | CreateOp(pin: nat, initialValue: int, pwmRange: int, env: Env)
    | WriteOp(pin: nat, value: int)
    | StopOp(pin: nat)

  /** Effect of one call: the caller goes on, or is stuck inside create for good. */
  datatype Step =
    | Continues(reg: Registry, events: seq<Event>)
    | Stuck(reg: Registry, events: seq<Event>)

  /** Effect of a whole sequence of calls; `blocked` when one create never returned. */
  datatype Run = Run(reg: Registry, events: seq<Event>, blocked: bool)

  /** One call applied to the table. */
  function Apply(reg: Registry, op: Op): Step {
    match op
    case CreateOp(p, v, rng, env) =>
      (match Create(reg, p, v, rng, env)
       case Returned(_, reg', ev) => Continues(reg', ev)
       case Blocked(reg', ev) => Stuck(reg', ev))
    case WriteOp(p, v) => Continues(Write(reg, p, v), [])
    case StopOp(p) => var e := Stop(reg, p); Continues(e.reg, e.events)
  }

  /** The calls of `ops` in order, up to the first one that does not return. */
  function Execute(reg: Registry, ops: seq<Op>): Run
    decreases |ops|
  {
    if |ops| == 0 then Run(reg, [], false)
    else
      match Apply(reg, ops[0])
      case Stuck(reg', ev) => Run(reg', ev, true)
      case Continues(reg', ev) =>
        var rest := Execute(reg', ops[1..]);
        Run(rest.reg, ev + rest.events, rest.blocked)
  }

  /** No slot has a negative range. */
  ghost predicate RangesNonNegative(reg: Registry) {
    forall i :: 0 <= i < MAX_PINS ==> 0 <= reg.slots[i].range
  }

  /** No range is negative, and every active slot holds a duty inside its range. */
  ghost predicate DutyInRange(reg: Registry) {
    && RangesNonNegative(reg)
    && forall i :: 0 <= i < MAX_PINS && reg.slots[i].Active() ==> 0 <= reg.slots[i].mark <= reg.slots[i].range
  }

  /** Every create in `ops` asks for an initial duty inside its range. */
  ghost predicate CreatesInRange(ops: seq<Op>) {
    forall i :: 0 <= i < |ops| && ops[i].CreateOp? ==> 0 <= ops[i].initialValue <= ops[i].pwmRange
  }

  /** `ops` never stops `pin`. */
  ghost predicate NeverStops(ops: seq<Op>, pin: nat) {
    forall i :: 0 <= i < |ops| ==> ops[i] != StopOp(pin)
  }

  lemma InitialDutyInRange()
    ensures DutyInRange(Initial)
    ensures Initial.newPin == NO_PIN
    ensures forall i :: 0 <= i < MAX_PINS ==> !Initial.slots[i].Active()
  {
  }

  /** Each call keeps the duty invariant, given an in-range initial duty for a create. */
  lemma ApplyKeepsDutyInRange(reg: Registry, op: Op)
    requires DutyInRange(reg)
    requires op.CreateOp? ==> 0 <= op.initialValue <= op.pwmRange
    ensures DutyInRange(Apply(reg, op).reg)
    ensures Apply(reg, op).Continues? && reg.newPin == NO_PIN ==> Apply(reg, op).reg.newPin == NO_PIN
  {
  }

  /**
   If every create starts with a duty inside its range, every active slot
   keeps its duty inside its range across any sequence of calls, and the
   handoff cell is back to "no pin" whenever every create has returned.
   */
  lemma {:induction false} RunKeepsDutyInRange(reg: Registry, ops: seq<Op>)
    requires DutyInRange(reg)
    requires CreatesInRange(ops)
    ensures DutyInRange(Execute(reg, ops).reg)
    ensures !Execute(reg, ops).blocked && reg.newPin == NO_PIN ==> Execute(reg, ops).reg.newPin == NO_PIN
    decreases |ops|
  {
    if |ops| > 0 {
      ApplyKeepsDutyInRange(reg, ops[0]);
      match Apply(reg, ops[0])
      case Stuck(_, _) =>
      case Continues(reg', _) =>
        assert CreatesInRange(ops[1..]) by {
          forall i | 0 <= i < |ops[1..]| && ops[1..][i].CreateOp?
            ensures 0 <= ops[1..][i].initialValue <= ops[1..][i].pwmRange
          {
            assert ops[1..][i] == ops[i + 1];
          }
        }
        RunKeepsDutyInRange(reg', ops[1..]);
    }
  }

  /**
   Whatever the duties asked for, no run makes a range negative: create
   stores only a positive range and stop only 0.
   */
  lemma {:induction false} RunKeepsRangesNonNegative(reg: Registry, ops: seq<Op>)
    requires RangesNonNegative(reg)
    ensures RangesNonNegative(Execute(reg, ops).reg)
    decreases |ops|
  {
    if |ops| > 0 {
      match Apply(reg, ops[0])
      case Stuck(_, _) =>
      case Continues(reg', _) =>
        RunKeepsRangesNonNegative(reg', ops[1..]);
    }
  }

  /** A call other than a stop of `pin` leaves the range of `pin` as it was, if that was non-zero. */
  lemma ApplyKeepsActive(reg: Registry, op: Op, pin: nat)
    requires pin < MAX_PINS && reg.slots[pin].Active()
    requires op != StopOp(pin)
    ensures Apply(reg, op).reg.slots[pin].range == reg.slots[pin].range
  {
  }

  /** An active slot stays active, with the same range, until it is stopped. */
  lemma {:induction false} ActiveUntilStopped(reg: Registry, ops: seq<Op>, pin: nat)
    requires pin < MAX_PINS && reg.slots[pin].Active()
    requires NeverStops(ops, pin)
    ensures Execute(reg, ops).reg.slots[pin].range == reg.slots[pin].range
    decreases |ops|
  {
    if |ops| > 0 {
      ApplyKeepsActive(reg, ops[0], pin);
      match Apply(reg, ops[0])
      case Stuck(_, _) =>
      case Continues(reg', _) =>
        assert NeverStops(ops[1..], pin) by {
          forall i | 0 <= i < |ops[1..]| ensures ops[1..][i] != StopOp(pin) {
            assert ops[1..][i] == ops[i + 1];
          }
        }
        ActiveUntilStopped(reg', ops[1..], pin);
    }
  }

  /**
   After a successful create on `pin`, any later create on `pin` fails with
   -1 and changes nothing, for as long as no stop of `pin` intervenes.
   */
  lemma SecondCreateFails(reg: Registry, pin: nat, v: int, rng: int, env: Env,
                          ops: seq<Op>, v2: int, rng2: int, env2: Env)
    requires Create(reg, pin, v, rng, env).Returned? && Create(reg, pin, v, rng, env).code == 0
    requires NeverStops(ops, pin)
    ensures var later := Execute(Create(reg, pin, v, rng, env).reg, ops).reg;
            Create(later, pin, v2, rng2, env2) == Returned(-1, later, [])
  {
    ActiveUntilStopped(Create(reg, pin, v, rng, env).reg, ops, pin);
  }

  /** A stop makes the slot reusable: a create that passes its checks then succeeds. */
  lemma StopThenCreate(reg: Registry, pin: nat, v: int, rng: int, h: ThreadId)
    requires pin < MAX_PINS && rng > 0
    ensures var c := Create(Stop(reg, pin).reg, pin, v, rng, Env(true, true, Spawned(h)));
            c.Returned? && c.code == 0 && c.reg.slots[pin].range == rng && c.reg.slots[pin].mark == v
  {
  }

  /**
   After a write on an active pin, the worker's next cycle keeps the pin high
   for the clamped duty, low for the rest of the period, with no negative
   delay; the braced cycle gives the pin the same high time.
   */
  lemma WriteThenCycle(reg: Registry, pin: nat, value: int, lv: Level)
    requires RangesNonNegative(reg)
    requires pin < MAX_PINS && reg.slots[pin].Active()
    ensures var s := Write(reg, pin, value).slots[pin];
            && NearestIn(s.mark, value, s.range)
            && HighTime(pin, lv, Cycle(pin, s.mark, s.range)) == s.mark * PULSE_TIME
            && TotalDelay(Cycle(pin, s.mark, s.range)) == s.range * PULSE_TIME
            && DelaysNonNegative(Cycle(pin, s.mark, s.range))
            && HighTime(pin, lv, CycleBraced(pin, s.mark, s.range)) == s.mark * PULSE_TIME
  {
    var s := Write(reg, pin, value).slots[pin];
    CycleTiming(pin, s.mark, s.range, lv);
    CycleBracedTiming(pin, s.mark, s.range, lv);
    CycleDelaysNonNegative(pin, s.mark, s.range);
  }

  /**
   The lifecycle of pin 4 with range 100: at duty 50 the pin is high half of
   each 10 ms period; a write of -5 stores 0 and the pin is never driven
   high; a write of 200 stores 100 and the pin is high the whole period, yet
   (as written) is still driven low once per period; a stop drives it low
   and frees the slot.
   */
  lemma Pin4Scenario(h: ThreadId)
    ensures var c := Create(Initial, 4, 50, 100, Env(true, true, Spawned(h)));
            && c.Returned? && c.code == 0
            && HighTime(4, Low, Cycle(4, c.reg.slots[4].mark, c.reg.slots[4].range)) == 5000
            && TotalDelay(Cycle(4, c.reg.slots[4].mark, c.reg.slots[4].range)) == 10000
            && var off := Write(c.reg, 4, -5);
               && off.slots[4].mark == 0
               && GpioWrite(4, High) !in Cycle(4, off.slots[4].mark, off.slots[4].range)
               && var on := Write(off, 4, 200);
                  && on.slots[4].mark == 100
                  && HighTime(4, Low, Cycle(4, on.slots[4].mark, on.slots[4].range)) == 10000
                  && Edges(4, Low, Cycle(4, on.slots[4].mark, on.slots[4].range)) == 2
                  && var s := Stop(on, 4);
                     && s.events == [GpioWrite(4, Low)]
                     && !s.reg.slots[4].Active()
  {
    var c := Create(Initial, 4, 50, 100, Env(true, true, Spawned(h)));
    CycleTiming(4, 50, 100, Low);
    var off := Write(c.reg, 4, -5);
    var on := Write(off, 4, 200);
    assert on.slots[4].mark == 100 by {
      assert NearestIn(on.slots[4].mark, 200, 100);
      assert Dist(on.slots[4].mark, 200) <= Dist(100, 200);
    }
    CycleTiming(4, 100, 100, Low);
    FullDutyGlitch(4, 100);
  }

  /**
   As written, a create whose worker fails to start never returns: pin 4 is
   left active with `newPin` still 4. The rolled-back create returns the
   thread library's error (11 here) and leaves the table as it was.
   */
  lemma SpawnFailureBlocks()
    ensures var c := Create(Initial, 4, 50, 100, Env(true, true, SpawnFailed(11)));
            c.Blocked? && c.reg.slots[4].Active() && c.reg.newPin == 4
    ensures CreateRollback(Initial, 4, 50, 100, Env(true, true, SpawnFailed(11)))
            == Returned(11, Initial, [SetOutput(4)])
  {
  }

  /**
   As written, create stores an initial duty above its range: a create of
   duty 150 with range 100 succeeds, breaks the duty invariant, and the
   worker's next cycle asks for a delay of -5000 µs, which as an unsigned
   32-bit argument is 4294962296 µs, over 71 minutes.
   */
  lemma UnclampedCreateStalls(h: ThreadId)
    ensures var c := Create(Initial, 4, 150, 100, Env(true, true, Spawned(h)));
            && c.Returned? && c.code == 0
            && c.reg.slots[4].mark == 150
            && !DutyInRange(c.reg)
            && Delay(-5000) in Cycle(4, c.reg.slots[4].mark, c.reg.slots[4].range)
            && AsUnsigned(-5000) == 4294962296
  {
  }

  /** With the initial duty clamped, every create keeps the duty invariant, whatever duty it is given. */
  lemma CreateClampedKeepsDutyInRange(reg: Registry, pin: nat, v: int, rng: int, env: Env)
    requires DutyInRange(reg)
    ensures DutyInRange(CreateClamped(reg, pin, v, rng, env).reg)
  {
  }
}
