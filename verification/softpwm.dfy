/**
 The process-wide pin-slot table of softPWM.cpp and its three transitions,
 softPwmCreate, softPwmWrite and softPwmStop, as pure functions from one
 table to the next. The calls the code makes into the driver and into the
 thread library are outcomes handed in as `Env`; the GPIO calls a
 transition makes are returned as a trace.
 */
module SoftPwm {
  import opened Gpio

  /** Capacity of the slot table (the `MAX_PINS` of the code). */
  const MAX_PINS := 30

  /** The value of `newPin` when no worker is waiting to learn its pin. */
  const NO_PIN := -1

  /** An opaque thread handle (`pthread_t`); the static table starts at 0. */
  type ThreadId = nat

  /**
   One slot: `marks[pin]`, `range[pin]` and `threads[pin]` of the code.
   A slot with `range == 0` is inactive and free for a create.
   */
  datatype Slot = Slot(mark: int, range: int, thread: ThreadId) {
    predicate Active() { range != 0 }
  }

  /** The slot table together with the `newPin` handoff cell. */
  datatype Table = Table(slots: seq<Slot>, newPin: int)

  /** A table with exactly `MAX_PINS` slots. */
  type Registry = t: Table | |t.slots| == MAX_PINS
    witness Table(seq(MAX_PINS, _ => Slot(0, 0, 0)), NO_PIN)

  /** Static storage before any call: every slot zero, no handoff pending. */
  const Initial: Registry := Table(seq(MAX_PINS, _ => Slot(0, 0, 0)), NO_PIN)

  /** Distance between two integers. */
  function Dist(a: int, b: int): nat {
    if a <= b then b - a else a - b
  }

  /** `m` is the point of `[0, hi]` nearest to `v`. */
  ghost predicate NearestIn(m: int, v: int, hi: int) {
    && 0 <= m <= hi
    && forall y :: 0 <= y <= hi ==> Dist(m, v) <= Dist(y, v)
  }

  /** Every slot other than `pin`, and the handoff cell, agree in `a` and `b`. */
  ghost predicate OthersUnchanged(a: Registry, b: Registry, pin: int) {
    && a.newPin == b.newPin
    && forall i :: 0 <= i < MAX_PINS && i != pin ==> a.slots[i] == b.slots[i]
  }

  /**
   The clamp of softPwmWrite: negative values become 0, values above `hi`
   become `hi`. For `hi >= 0` this is the point of `[0, hi]` nearest to `value`.
   */
  function Clamp(value: int, hi: int): (m: int)
    ensures hi >= 0 ==> NearestIn(m, value, hi)
  {
    if value < 0 then 0 else if value > hi then hi else value
  }

  /**
   softPwmWrite: on an in-bounds pin, store `value` clamped into
   `[0, range[pin]]` as the pin's duty; on a pin at or beyond `MAX_PINS`,
   do nothing. Negative pins are indexed without a check in the code,
   hence the precondition.
   */
  function Write(reg: Registry, pin: int, value: int): (r: Registry)
    requires 0 <= pin
    ensures pin >= MAX_PINS ==> r == reg
    ensures pin < MAX_PINS ==> OthersUnchanged(reg, r, pin)
    ensures pin < MAX_PINS ==> r.slots[pin].range == reg.slots[pin].range
    ensures pin < MAX_PINS ==> r.slots[pin].thread == reg.slots[pin].thread
    ensures pin < MAX_PINS && reg.slots[pin].range >= 0 ==>
              NearestIn(r.slots[pin].mark, value, reg.slots[pin].range)
    ensures pin < MAX_PINS && !reg.slots[pin].Active() ==> r.slots[pin].mark == 0
  {
    if pin >= MAX_PINS then reg
    else
      reg.(slots := reg.slots[pin := reg.slots[pin].(mark := Clamp(value, reg.slots[pin].range))])
  }

  /** There is only one nearest point, so the clamp of a write is fully determined by `NearestIn`. */
  lemma NearestUnique(a: int, b: int, v: int, hi: int)
    requires NearestIn(a, v, hi) && NearestIn(b, v, hi)
    ensures a == b
  {
    assert Dist(a, v) <= Dist(b, v) && Dist(b, v) <= Dist(a, v);
    if 0 <= v <= hi {
      assert Dist(a, v) <= Dist(v, v) && Dist(b, v) <= Dist(v, v);
    }
  }

  /** A write in range stores exactly the value written. */
  lemma WriteInRangeStoresValue(reg: Registry, pin: int, value: int)
    requires 0 <= pin < MAX_PINS && 0 <= value <= reg.slots[pin].range
    ensures Write(reg, pin, value).slots[pin].mark == value
  {
  }

  /** Only the last of two writes to a pin is visible, and repeating a write changes nothing. */
  lemma WriteLastWins(reg: Registry, pin: int, a: int, b: int)
    requires 0 <= pin
    ensures Write(Write(reg, pin, a), pin, b) == Write(reg, pin, b)
    ensures Write(Write(reg, pin, b), pin, b) == Write(reg, pin, b)
  {
  }

  /** Outcome of a thread creation (`pthread_create`): a handle, or a non-zero error number. */
  datatype Spawn = Spawned(thread: ThreadId) | SpawnFailed(err: int)

  /** What the collaborators of softPwmCreate report on this call. */
  datatype Env = Env(allocOk: bool, initOk: bool, spawn: Spawn)

  /**
   Result of softPwmCreate: it either returns `code`, or never returns
   because it polls the handoff cell forever (`Blocked`). Either way the
   table and the GPIO calls made so far are recorded.
   */
  datatype CreateOutcome =
    | Returned(code: int, reg: Registry, events: seq<Event>)
    | Blocked(reg: Registry, events: seq<Event>)

  /** All the checks of softPwmCreate that precede the GPIO setup pass. */
  predicate Admitted(reg: Registry, pin: int, pwmRange: int, env: Env)
    requires 0 <= pin
  {
    pin < MAX_PINS && !reg.slots[pin].Active() && pwmRange > 0 && env.allocOk && env.initOk
  }

  /**
   softPwmCreate, in the code's order of checks: pin bound, slot free,
   positive range, allocation (each failing with -1), then hardware init
   (failing with 1). After those it selects output mode, stores
   `initialValue` unclamped and `pwmRange`, publishes the pin in `newPin`
   and starts the worker, then waits for the worker to reset `newPin`.
   A worker that never starts never resets it, so the wait does not end.
   */
  function Create(reg: Registry, pin: int, initialValue: int, pwmRange: int, env: Env): (r: CreateOutcome)
    requires 0 <= pin
    // the failure codes, and the order in which the checks are made
    ensures r.Returned? && r.code == -1 <==>
              pin >= MAX_PINS || reg.slots[pin].Active() || pwmRange <= 0 || !env.allocOk
    ensures r.Returned? && r.code == 1 <==>
              pin < MAX_PINS && !reg.slots[pin].Active() && pwmRange > 0 && env.allocOk && !env.initOk
    // no failure touches the table or the pins
    ensures !Admitted(reg, pin, pwmRange, env) ==> r.Returned? && r.reg == reg && r.events == []
    // once admitted: output mode set, duty and range stored as given, nothing else changed
    ensures Admitted(reg, pin, pwmRange, env) ==>
              && r.events == [SetOutput(pin)]
              && r.reg.slots[pin].mark == initialValue
              && r.reg.slots[pin].range == pwmRange
              && r.reg.slots[pin].Active()
              && forall i :: 0 <= i < MAX_PINS && i != pin ==> r.reg.slots[i] == reg.slots[i]
    // a started worker is recorded and has consumed the handoff; create returns its status 0
    ensures Admitted(reg, pin, pwmRange, env) && env.spawn.Spawned? ==>
              r == Returned(0, r.reg, r.events) && r.reg.slots[pin].thread == env.spawn.thread
              && r.reg.newPin == NO_PIN
    // a worker that failed to start leaves create waiting with the pin still published
    ensures r.Blocked? <==> Admitted(reg, pin, pwmRange, env) && env.spawn.SpawnFailed?
    ensures r.Blocked? ==> r.reg.newPin == pin
  {
    if pin >= MAX_PINS then Returned(-1, reg, [])
    else if reg.slots[pin].range != 0 then Returned(-1, reg, [])
    else if pwmRange <= 0 then Returned(-1, reg, [])
    else if !env.allocOk then Returned(-1, reg, [])
    else if !env.initOk then Returned(1, reg, [])
    else
      var armed := reg.(slots := reg.slots[pin := reg.slots[pin].(mark := initialValue, range := pwmRange)],
                        newPin := pin);
      match env.spawn
      case SpawnFailed(_) => Blocked(armed, [SetOutput(pin)])
      case Spawned(h) =>
        Returned(0, armed.(slots := armed.slots[pin := armed.slots[pin].(thread := h)], newPin := NO_PIN),
                 [SetOutput(pin)])
  }

  /**
   softPwmCreate with the start failure handled before the wait: the slot
   is restored and the thread library's error is returned, so create always
   returns and no failure leaves a slot active.
   */
  function CreateRollback(reg: Registry, pin: int, initialValue: int, pwmRange: int, env: Env): (r: CreateOutcome)
    requires 0 <= pin
    requires env.spawn.SpawnFailed? ==> env.spawn.err != 0
    ensures r.Returned?
    ensures r.code == 0 <==> Admitted(reg, pin, pwmRange, env) && env.spawn.Spawned?
    ensures r.code != 0 ==> r.reg == reg
    // a failed start returns the thread library's error; the earlier checks keep their codes
    ensures Admitted(reg, pin, pwmRange, env) && env.spawn.SpawnFailed? ==> r.code == env.spawn.err
    ensures !Admitted(reg, pin, pwmRange, env) ==> r.code == Create(reg, pin, initialValue, pwmRange, env).code
    ensures r.code == 0 ==> r.reg.slots[pin].Active() && r.reg.slots[pin].mark == initialValue
    ensures r.code == 0 ==> r.reg.newPin == NO_PIN
  {
    match Create(reg, pin, initialValue, pwmRange, env)
    case Returned(code, reg', events) => Returned(code, reg', events)
    case Blocked(_, events) => Returned(env.spawn.err, reg, events)
  }

  /**
   softPwmCreate with `initialValue` clamped into `[0, pwmRange]` the way
   softPwmWrite clamps, so that no create can store a duty outside its range.
   */
  function CreateClamped(reg: Registry, pin: int, initialValue: int, pwmRange: int, env: Env): (r: CreateOutcome)
    requires 0 <= pin
    ensures !Admitted(reg, pin, pwmRange, env) ==> r.Returned? && r.reg == reg && r.events == []
    ensures Admitted(reg, pin, pwmRange, env) ==>
              && r.reg.slots[pin].range == pwmRange
              && NearestIn(r.reg.slots[pin].mark, initialValue, pwmRange)
              && forall i :: 0 <= i < MAX_PINS && i != pin ==> r.reg.slots[i] == reg.slots[i]
  {
    Create(reg, pin, Clamp(initialValue, pwmRange), pwmRange, env)
  }

  /** A transition that cannot fail: the new table and the GPIO calls it made. */
  datatype Effect = Effect(reg: Registry, events: seq<Event>)

  /**
   softPwmStop: on an active in-bounds slot, end its worker, mark the slot
   inactive and drive the pin LOW; otherwise do nothing. The duty value and
   the thread handle are left in the slot.
   */
  function Stop(reg: Registry, pin: int): (r: Effect)
    requires 0 <= pin
    ensures pin >= MAX_PINS || !reg.slots[pin].Active() ==> r == Effect(reg, [])
    ensures pin < MAX_PINS && reg.slots[pin].Active() ==>
              && !r.reg.slots[pin].Active()
              && r.reg.slots[pin].mark == reg.slots[pin].mark
              && r.reg.slots[pin].thread == reg.slots[pin].thread
              && OthersUnchanged(reg, r.reg, pin)
              && r.events == [GpioWrite(pin, Low)]
              && forall lv :: LevelAfter(pin, lv, r.events) == Low
  {
    if pin < MAX_PINS && reg.slots[pin].range != 0 then
      Effect(reg.(slots := reg.slots[pin := reg.slots[pin].(range := 0)]), [GpioWrite(pin, Low)])
    else
      Effect(reg, [])
  }
}
