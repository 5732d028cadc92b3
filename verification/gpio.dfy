/**
 The GPIO driver as the PWM code sees it: a trace of calls into the driver
 (pin-mode selection, level writes, microsecond delays) and the measures a
 trace determines for one pin: its final level, how long it is held high,
 and how many times its level changes.
 */
module Gpio {

  /** Output level of a pin. */
  datatype Level = Low | High

  /** One call the PWM code makes into the hardware layer, in program order. */
  datatype Event =
    | SetOutput(pin: int)                   // bcm2835_gpio_fsel(pin, OUTP)
    | GpioWrite(pin: int, level: Level)     // bcm2835_gpio_write(pin, level)
    | DigitalWrite(pin: int, level: Level)  // the wiringPi digitalWrite(pin, level)
    | Delay(us: int)                        // delayMicroseconds(us)

  /** True if `e` sets the output level of `pin`. */
  predicate Drives(e: Event, pin: int) {
    (e.GpioWrite? || e.DigitalWrite?) && e.pin == pin
  }

  /** Level of `pin` after event `e`, when it was `lv` before. */
  function After(pin: int, lv: Level, e: Event): Level {
    if Drives(e, pin) then e.level else lv
  }

  /** Level of `pin` after the whole trace `t`, starting from level `lv`. */
  function LevelAfter(pin: int, lv: Level, t: seq<Event>): Level
    decreases |t|
  {
    if |t| == 0 then lv else LevelAfter(pin, After(pin, lv, t[0]), t[1..])
  }

  /** Sum of all delays in `t`, in microseconds. */
  function TotalDelay(t: seq<Event>): int
    decreases |t|
  {
    if |t| == 0 then 0
    else (if t[0].Delay? then t[0].us else 0) + TotalDelay(t[1..])
  }

  /** Microseconds of delay during which `pin` is high, starting from level `lv`. */
  function HighTime(pin: int, lv: Level, t: seq<Event>): int
    decreases |t|
  {
    if |t| == 0 then 0
    else
      var lv' := After(pin, lv, t[0]);
      (if t[0].Delay? && lv == High then t[0].us else 0) + HighTime(pin, lv', t[1..])
  }

  /** Number of times the level of `pin` changes along `t`, starting from `lv`. */
  function Edges(pin: int, lv: Level, t: seq<Event>): nat
    decreases |t|
  {
    if |t| == 0 then 0
    else
      var lv' := After(pin, lv, t[0]);
      (if lv' != lv then 1 else 0) + Edges(pin, lv', t[1..])
  }

  /** True if every delay in `t` is non-negative. */
  predicate DelaysNonNegative(t: seq<Event>) {
    forall i :: 0 <= i < |t| && t[i].Delay? ==> t[i].us >= 0
  }

  /** The measures of `[e] + rest` are those of `rest`, started from the level after `e`. */
  lemma Cons(pin: int, e: Event, rest: seq<Event>)
    ensures forall lv :: LevelAfter(pin, lv, [e] + rest) == LevelAfter(pin, After(pin, lv, e), rest)
    ensures TotalDelay([e] + rest) == (if e.Delay? then e.us else 0) + TotalDelay(rest)
    ensures forall lv :: HighTime(pin, lv, [e] + rest)
                      == (if e.Delay? && lv == High then e.us else 0) + HighTime(pin, After(pin, lv, e), rest)
    ensures forall lv :: Edges(pin, lv, [e] + rest)
                      == (if After(pin, lv, e) != lv then 1 else 0) + Edges(pin, After(pin, lv, e), rest)
  {
  }

  /** The measures of a concatenation are those of its halves, threaded through the level. */
  lemma {:induction false} AppendMeasures(pin: int, lv: Level, a: seq<Event>, b: seq<Event>)
    ensures LevelAfter(pin, lv, a + b) == LevelAfter(pin, LevelAfter(pin, lv, a), b)
    ensures TotalDelay(a + b) == TotalDelay(a) + TotalDelay(b)
    ensures HighTime(pin, lv, a + b) == HighTime(pin, lv, a) + HighTime(pin, LevelAfter(pin, lv, a), b)
    ensures Edges(pin, lv, a + b) == Edges(pin, lv, a) + Edges(pin, LevelAfter(pin, lv, a), b)
    decreases |a|
  {
    if |a| == 0 {
      assert a + b == b;
    } else {
      assert (a + b)[0] == a[0];
      assert (a + b)[1..] == a[1..] + b;
      AppendMeasures(pin, After(pin, lv, a[0]), a[1..], b);
    }
  }
}
