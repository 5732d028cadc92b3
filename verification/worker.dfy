/**
 One pass of the per-pin timing loop of softPwmThread, as the trace of
 GPIO calls it makes for a duty value `mark` and a period `range`.
 */
module Worker {
  import opened Gpio

  /** Microseconds represented by one unit of duty or range. */
  const PULSE_TIME := 100

  /** Number of values of a 32-bit unsigned integer. */
  const UINT32_MODULUS := 0x1_0000_0000

  /**
   The value a delay argument takes as a 32-bit unsigned parameter: a
   negative `int` wraps around to a very large count of microseconds.
   */
  function AsUnsigned(us: int): (u: nat)
    ensures u < UINT32_MODULUS
    ensures 0 <= us < UINT32_MODULUS ==> u == us
    ensures -UINT32_MODULUS <= us < 0 ==> u == us + UINT32_MODULUS
  {
    us % UINT32_MODULUS
  }

  /** The high phase of a cycle: the optional HIGH write and the `mark` delay. */
  function HighPhase(pin: int, mark: int): seq<Event> {
    (if mark != 0 then [GpioWrite(pin, High)] else []) + [Delay(mark * PULSE_TIME)]
  }

  /** The low phase of a cycle as written: the guarded wiringPi LOW, the bcm2835 LOW, the `space` delay. */
  function LowPhase(pin: int, space: int): seq<Event> {
    (if space != 0 then [DigitalWrite(pin, Low)] else []) + [GpioWrite(pin, Low), Delay(space * PULSE_TIME)]
  }

  /** The low phase with the `if (space != 0)` braced over both LOW writes. */
  function LowPhaseBraced(pin: int, space: int): seq<Event> {
    (if space != 0 then [DigitalWrite(pin, Low), GpioWrite(pin, Low)] else []) + [Delay(space * PULSE_TIME)]
  }

  /**
   One loop iteration as written: the `if (space != 0)` has no braces,
   so it guards only the wiringPi digitalWrite; the bcm2835 LOW write
   after it runs on every cycle.
   */
  function Cycle(pin: int, mark: int, range: int): (t: seq<Event>)
    ensures GpioWrite(pin, High) in t <==> mark != 0
    ensures GpioWrite(pin, Low) in t
    ensures DigitalWrite(pin, Low) in t <==> range - mark != 0
    ensures forall i :: 0 <= i < |t| && Drives(t[i], pin) && t[i].level == High ==> i == 0
    ensures t[|t| - 1] == Delay((range - mark) * PULSE_TIME)
  {
    HighPhase(pin, mark) + LowPhase(pin, range - mark)
  }

  /**
   The same iteration with the `if (space != 0)` braced over both LOW
   writes, so that a full-duty cycle never drives the pin low.
   */
  function CycleBraced(pin: int, mark: int, range: int): (t: seq<Event>)
    ensures GpioWrite(pin, High) in t <==> mark != 0
    ensures GpioWrite(pin, Low) in t <==> range - mark != 0
    ensures DigitalWrite(pin, Low) in t <==> range - mark != 0
  {
    HighPhase(pin, mark) + LowPhaseBraced(pin, range - mark)
  }

  /** `n` consecutive iterations of the loop with an unchanging duty and range. */
  function Cycles(pin: int, mark: int, range: int, n: nat): seq<Event>
    decreases n
  {
    if n == 0 then [] else Cycle(pin, mark, range) + Cycles(pin, mark, range, n - 1)
  }

  /** The high phase lasts `mark` units, all of them high. */
  lemma HighPhaseTiming(pin: int, mark: int, lv: Level)
    ensures TotalDelay(HighPhase(pin, mark)) == mark * PULSE_TIME
    ensures HighTime(pin, lv, HighPhase(pin, mark)) == mark * PULSE_TIME
  {
    var d := [Delay(mark * PULSE_TIME)];
    Cons(pin, Delay(mark * PULSE_TIME), []);
    assert [Delay(mark * PULSE_TIME)] + [] == d;
    if mark != 0 {
      assert HighPhase(pin, mark) == [GpioWrite(pin, High)] + d;
      Cons(pin, GpioWrite(pin, High), d);
    } else {
      assert HighPhase(pin, mark) == d;
    }
  }

  /** The low phase as written lasts `space` units, none of them high, and ends low. */
  lemma LowPhaseTiming(pin: int, space: int, lv: Level)
    ensures TotalDelay(LowPhase(pin, space)) == space * PULSE_TIME
    ensures HighTime(pin, lv, LowPhase(pin, space)) == 0
    ensures LevelAfter(pin, lv, LowPhase(pin, space)) == Low
  {
    var d := [Delay(space * PULSE_TIME)];
    var w := [GpioWrite(pin, Low)] + d;
    Cons(pin, Delay(space * PULSE_TIME), []);
    assert [Delay(space * PULSE_TIME)] + [] == d;
    Cons(pin, GpioWrite(pin, Low), d);
    assert TotalDelay(w) == space * PULSE_TIME;
    assert HighTime(pin, Low, w) == 0 && LevelAfter(pin, Low, w) == Low;
    assert HighTime(pin, High, w) == 0 && LevelAfter(pin, High, w) == Low;
    if space != 0 {
      assert LowPhase(pin, space) == [DigitalWrite(pin, Low)] + w;
      Cons(pin, DigitalWrite(pin, Low), w);
    } else {
      assert LowPhase(pin, space) == w;
    }
  }

  /**
   The braced low phase lasts `space` units; it holds no high time after a
   high phase that drove the pin high, nor after an empty one (`mark == 0`
   leaves only a zero delay before it).
   */
  lemma LowPhaseBracedTiming(pin: int, mark: int, space: int, lv: Level)
    ensures TotalDelay(LowPhaseBraced(pin, space)) == space * PULSE_TIME
    ensures HighTime(pin, LevelAfter(pin, lv, HighPhase(pin, mark)), LowPhaseBraced(pin, space)) == 0
  {
    var d := [Delay(space * PULSE_TIME)];
    Cons(pin, Delay(space * PULSE_TIME), []);
    assert [Delay(space * PULSE_TIME)] + [] == d;
    if space != 0 {
      var w := [GpioWrite(pin, Low)] + d;
      Cons(pin, GpioWrite(pin, Low), d);
      assert LowPhaseBraced(pin, space) == [DigitalWrite(pin, Low)] + w;
      Cons(pin, DigitalWrite(pin, Low), w);
    } else {
      assert LowPhaseBraced(pin, space) == d;
    }
  }

  /**
   Timing of one cycle as written: the period is `range` pulse units, the
   pin is high for exactly `mark` of them whatever its level before, the
   remaining `range - mark` units are low, and the cycle always ends low.
   */
  lemma CycleTiming(pin: int, mark: int, range: int, lv: Level)
    requires 0 <= mark <= range
    ensures TotalDelay(Cycle(pin, mark, range)) == range * PULSE_TIME
    ensures HighTime(pin, lv, Cycle(pin, mark, range)) == mark * PULSE_TIME
    ensures LevelAfter(pin, lv, Cycle(pin, mark, range)) == Low
  {
    var head := HighPhase(pin, mark);
    var tail := LowPhase(pin, range - mark);
    AppendMeasures(pin, lv, head, tail);
    HighPhaseTiming(pin, mark, lv);
    LowPhaseTiming(pin, range - mark, LevelAfter(pin, lv, head));
    assert mark * PULSE_TIME + (range - mark) * PULSE_TIME == range * PULSE_TIME;
  }

  /** With a duty inside its period every delay of a cycle is non-negative. */
  lemma CycleDelaysNonNegative(pin: int, mark: int, range: int)
    requires 0 <= mark <= range
    ensures DelaysNonNegative(Cycle(pin, mark, range))
  {
  }

  /**
   Over `n` cycles the pin is high for `n * mark` pulse units out of
   `n * range`: the duty fraction is `mark / range`.
   */
  lemma {:induction false} CyclesTiming(pin: int, mark: int, range: int, n: nat, lv: Level)
    requires 0 <= mark <= range
    ensures TotalDelay(Cycles(pin, mark, range, n)) == n * (range * PULSE_TIME)
    ensures HighTime(pin, lv, Cycles(pin, mark, range, n)) == n * (mark * PULSE_TIME)
    ensures HighTime(pin, lv, Cycles(pin, mark, range, n)) * range
         == TotalDelay(Cycles(pin, mark, range, n)) * mark
    decreases n
  {
    if n > 0 {
      var c := Cycle(pin, mark, range);
      var rest := Cycles(pin, mark, range, n - 1);
      CycleTiming(pin, mark, range, lv);
      AppendMeasures(pin, lv, c, rest);
      CyclesTiming(pin, mark, range, n - 1, Low);
      assert n * (range * PULSE_TIME) == range * PULSE_TIME + (n - 1) * (range * PULSE_TIME);
      assert n * (mark * PULSE_TIME) == mark * PULSE_TIME + (n - 1) * (mark * PULSE_TIME);
    }
    assert n * (mark * PULSE_TIME) * range == n * (range * PULSE_TIME) * mark;
  }

  /**
   The braced cycle keeps the same timing: period `range` units, high for
   `mark` of them.
   */
  lemma CycleBracedTiming(pin: int, mark: int, range: int, lv: Level)
    requires 0 <= mark <= range
    ensures TotalDelay(CycleBraced(pin, mark, range)) == range * PULSE_TIME
    ensures HighTime(pin, lv, CycleBraced(pin, mark, range)) == mark * PULSE_TIME
  {
    var head := HighPhase(pin, mark);
    var tail := LowPhaseBraced(pin, range - mark);
    AppendMeasures(pin, lv, head, tail);
    HighPhaseTiming(pin, mark, lv);
    LowPhaseBracedTiming(pin, mark, range - mark, lv);
    assert mark * PULSE_TIME + (range - mark) * PULSE_TIME == range * PULSE_TIME;
  }

  /**
   As written, a full-duty cycle (`mark == range > 0`) still drives the pin
   low once per period: starting low (where every previous cycle left it)
   the level changes twice, and the cycle ends low again.
   */
  lemma FullDutyGlitch(pin: int, range: int)
    requires range > 0
    ensures Edges(pin, Low, Cycle(pin, range, range)) == 2
    ensures LevelAfter(pin, Low, Cycle(pin, range, range)) == Low
  {
    var t3 := [Delay(0)];
    var t2 := [GpioWrite(pin, Low)] + t3;
    var t1 := [Delay(range * PULSE_TIME)] + t2;
    assert Cycle(pin, range, range) == [GpioWrite(pin, High)] + t1;
    Cons(pin, Delay(0), []);
    assert [Delay(0)] + [] == t3;
    Cons(pin, GpioWrite(pin, Low), t3);
    Cons(pin, Delay(range * PULSE_TIME), t2);
    Cons(pin, GpioWrite(pin, High), t1);
  }

  /**
   With the braces, a full-duty cycle never changes the level of a pin that
   is already high, and leaves it high: the output is a steady HIGH.
   */
  lemma FullDutySteadyBraced(pin: int, range: int)
    requires range > 0
    ensures Edges(pin, High, CycleBraced(pin, range, range)) == 0
    ensures LevelAfter(pin, High, CycleBraced(pin, range, range)) == High
  {
    var t2 := [Delay(0)];
    var t1 := [Delay(range * PULSE_TIME)] + t2;
    assert CycleBraced(pin, range, range) == [GpioWrite(pin, High)] + t1;
    Cons(pin, Delay(0), []);
    assert [Delay(0)] + [] == t2;
    Cons(pin, Delay(range * PULSE_TIME), t2);
    Cons(pin, GpioWrite(pin, High), t1);
  }
}
