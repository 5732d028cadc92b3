# softPWM for bcm2835 — a Dafny model

This project models the sequential skeleton of `softPWM.cpp`. The file emulates PWM on
Raspberry Pi GPIO pins: each active pin gets a worker thread that toggles the pin high for
`mark` pulse units and low for `range - mark` units. One pulse unit is 100 µs.

There are four modules:

- `Gpio` models the calls made into the driver as a trace of events:
  - `SetOutput` is the output-mode select;
  - `GpioWrite` is the bcm2835 level write;
  - `DigitalWrite` is the wiringPi level write;
  - `Delay` is a microsecond delay.

  For one pin, it measures a trace's final level, its total delay, the time the pin is held
  high, and the number of level changes.
- `Worker` models one iteration of the `softPwmThread` loop as a function from
  `(pin, mark, range)` to a trace.
  - `Cycle` is the code as written.
  - `CycleBraced` is the corrected loop body (see Findings).
  - `AsUnsigned` is the 32-bit unsigned value a delay argument becomes.
  - `Cycles` repeats the iteration `n` times.
- `SoftPwm` models the fixed table of `MAX_PINS = 30` slots. Each slot holds
  `marks[pin]`, `range[pin]` and `threads[pin]`. The table also holds the `newPin` handoff
  cell. `softPwmWrite`, `softPwmCreate` and `softPwmStop` become pure transitions on this
  immutable table.
  - Create takes its collaborators' answers as an `Env` input: `malloc` success,
    `bcm2835_init` success, and the `pthread_create` outcome.
- `Lifecycle` models a run of calls from one caller. It proves that ranges never become
  negative, that the duty invariant holds across runs whose creates ask for in-range
  duties, and that a slot stays active until it is stopped. It also proves a scenario on
  pin 4.

The model follows the code as written; in particular:

- `softPwmCreate` stores `initialValue` without clamping it (line 140).
- `softPwmCreate` returns `1`, not `-1`, when `bcm2835_init` fails (line 131).
- `bcm2835_gpio_fsel` reports nothing, so a failed pin configuration cannot make create fail (line 137).
- The LOW write at line 76 runs on every cycle, even when `space == 0`.

## Model

| member | source | states |
|---|---|---|
| `SoftPwm.Write` | softPWM.cpp:91-102 | For `pin >= MAX_PINS` the table is unchanged. Otherwise the stored duty is the point of `[0, range[pin]]` nearest to `value`. It is 0 on an inactive slot. Only `marks[pin]` changes: range, thread, the other slots and `newPin` stay the same. |
| `SoftPwm.Clamp` | softPWM.cpp:95-98 | For a non-negative bound, the clamped value is the point of `[0, hi]` nearest to the input. |
| `SoftPwm.NearestUnique` | softPWM.cpp:95-98 | The nearest-point description of the clamp has exactly one solution, so it determines the stored duty completely. |
| `SoftPwm.WriteInRangeStoresValue` | softPWM.cpp:95-100 | A value already inside `[0, range]` is stored unchanged. |
| `SoftPwm.WriteLastWins` | softPWM.cpp:91-102 | Of two writes to one pin, only the last is visible. Repeating a write changes nothing. |
| `SoftPwm.Create` | softPWM.cpp:111-153 | Returns -1 exactly when the pin is out of bounds, the slot is active, the range is `<= 0`, or allocation fails. Returns 1 exactly when all of those pass and init fails; this fixes the order of the checks. On every failure the table is untouched and no GPIO call is made. Once admitted, create selects output mode and stores `initialValue` unclamped and `pwmRange`. On a successful spawn it records the thread, resets `newPin` to -1 and returns 0. On a failed spawn it never returns, and `newPin` still holds the pin. |
| `SoftPwm.CreateRollback` | softPWM.cpp:145-152 | The corrected create always returns. It returns 0 exactly when all checks pass and the thread starts. A failed thread start returns the thread library's error, and the earlier checks keep their -1 and 1 codes. Any non-zero return leaves the table exactly as it was. |
| `SoftPwm.CreateClamped` | softPWM.cpp:140-141 | The corrected create stores the initial duty clamped into `[0, pwmRange]`, as its nearest point. Like create, it changes nothing when a check fails. |
| `SoftPwm.Stop` | softPWM.cpp:162-175 | On an active in-bounds slot: range becomes 0, the duty and thread handle are kept, other slots are unchanged, and the only GPIO call is a LOW write, which leaves the pin low whatever its level before. On an out-of-bounds or inactive pin it does nothing. |
| `Worker.Cycle` | softPWM.cpp:63-79 | A cycle drives the pin HIGH iff `mark != 0`, and HIGH only as its first event. It always makes the bcm2835 LOW write. It makes the wiringPi LOW write iff `range - mark != 0`. It ends with the `space` delay. |
| `Worker.AsUnsigned` | softPWM.cpp:72-78 | A delay argument read as a 32-bit unsigned value is below 2^32. It equals the argument when the argument is in that range, and the argument plus 2^32 when the argument is a negative 32-bit value. |
| `Worker.CycleTiming` | softPWM.cpp:65-78 | For `0 <= mark <= range`, the delays of one cycle sum to `range * 100` µs, the period stated in the comment at lines 19-23. The pin is high for exactly `mark * 100` µs of it, from any starting level, and it ends every cycle low. |
| `Worker.CycleDelaysNonNegative` | softPWM.cpp:65-78 | Every delay of a cycle is non-negative when `0 <= mark <= range`. |
| `Worker.CyclesTiming` | softPWM.cpp:63-79 | For `0 <= mark <= range`, over `n` cycles the period is `n * range * 100` µs and the high time is `n * mark * 100` µs. The high fraction equals `mark / range`. |
| `Worker.FullDutyGlitch` | softPWM.cpp:74-76 | As written, a full-duty cycle (`mark == range > 0`) that starts low changes the level twice and ends low. The pin is pulled low once per period. |
| `Worker.CycleBraced` | softPWM.cpp:74-76 | In the braced cycle, both LOW writes happen iff `range - mark != 0`, and HIGH happens iff `mark != 0`. |
| `Worker.CycleBracedTiming` | softPWM.cpp:65-78 | For `0 <= mark <= range`, the braced cycle keeps the timing: the period is `range * 100` µs and the high time is `mark * 100` µs. |
| `Worker.FullDutySteadyBraced` | softPWM.cpp:74-76 | In the braced cycle at full duty, a pin that is high makes no level change and stays high. |
| `Lifecycle.InitialDutyInRange` | softPWM.cpp:35-38 | The zero-initialised table has no active slot, satisfies the duty invariant, and has `newPin == -1`. |
| `Lifecycle.ApplyKeepsDutyInRange` | softPWM.cpp:95-100 | Each call keeps `0 <= marks <= range` on active slots and `range >= 0` everywhere, provided a create's initial duty lies in its range. A returning call keeps `newPin == -1`. |
| `Lifecycle.RunKeepsDutyInRange` | softPWM.cpp:140-141 | If every create uses `0 <= initialValue <= pwmRange`, any run keeps every active slot's duty within its range. `newPin` is back to -1 whenever every create has returned. |
| `Lifecycle.RunKeepsRangesNonNegative` | softPWM.cpp:140-141 | Whatever duties are asked for, no run makes a range negative: create stores only a positive range, and stop stores only 0 (line 170). |
| `Lifecycle.ApplyKeepsActive` | softPWM.cpp:120-121 | Any call other than a stop of `pin` leaves `pin`'s non-zero range unchanged. |
| `Lifecycle.ActiveUntilStopped` | softPWM.cpp:166-170 | An active slot keeps its range through any run that never stops it. |
| `Lifecycle.SecondCreateFails` | softPWM.cpp:120-121 | After a successful create on a pin, a later create on that pin returns -1 and changes nothing, until a stop intervenes. |
| `Lifecycle.StopThenCreate` | softPWM.cpp:162-175 | After a stop, a create on the same pin with a positive range succeeds when its collaborators succeed. It stores the given duty and range. |
| `Lifecycle.WriteThenCycle` | softPWM.cpp:65-78 | On any table with no negative range (which every run keeps), after a write to an active pin the worker's next cycle is high for exactly the clamped duty times 100 µs, within a `range * 100` µs period, with no negative delay. The braced cycle gives the same high time. |
| `Lifecycle.Pin4Scenario` | softPWM.cpp:91-175 | On pin 4: `create(4, 50, 100)` gives 5000 µs high per 10000 µs period. `write(4, -5)` stores 0 and the pin is never driven high. `write(4, 200)` stores 100 and the pin is high for the whole period, but it still changes level twice per cycle. `stop(4)` writes LOW and frees the slot. |
| `Lifecycle.SpawnFailureBlocks` | softPWM.cpp:143-148 | As written, a create on pin 4 whose thread fails to start with error 11 never returns. Slot 4 is left active and `newPin == 4`. The rolled-back create returns 11 and leaves the table as it was. |
| `Lifecycle.UnclampedCreateStalls` | softPWM.cpp:140-141 | As written, `create(4, 150, 100)` succeeds and stores duty 150, which breaks the duty invariant. The next cycle asks for a delay of -5000 µs, which is 4294962296 µs (over 71 minutes) as an unsigned 32-bit argument. |
| `Lifecycle.CreateClampedKeepsDutyInRange` | softPWM.cpp:140-141 | With the initial duty clamped, a create keeps the duty invariant whatever duty it is given. |

## Findings

| source | as written | input that shows it | evidently intended | confidence | as-written member | corrected member |
|---|---|---|---|---|---|---|
| softPWM.cpp:74-76 | The `if (space != 0)` has no braces. It guards only the wiringPi `digitalWrite`, so the bcm2835 LOW write runs on every cycle. | `mark == range == 100`: each cycle writes HIGH, waits 10000 µs, then writes LOW. That is two level changes per period instead of a steady high. | Both LOW writes guarded by `space != 0`, as the HIGH write is guarded by `mark != 0` | medium; not executed | `Worker.FullDutyGlitch` | `Worker.FullDutySteadyBraced` |
| softPWM.cpp:140 | `softPwmCreate` stores `initialValue` unclamped, while `softPwmWrite` clamps every later value into `[0, range]`. | `create(4, 150, 100)`: the worker's `space` is -50, and `delayMicroseconds(-5000)` receives 4294962296 µs, so the pin stays low for over 71 minutes. | Clamp `initialValue` into `[0, pwmRange]`, as `softPwmWrite` does | low; not executed | `Lifecycle.UnclampedCreateStalls` | `SoftPwm.CreateClamped` |
| softPWM.cpp:145-148 | When `pthread_create` fails, no worker resets `newPin`, so the poll loop at 147-148 never ends. `return res` can never return a thread error. | `create(4, 50, 100)` with the thread start failing with error 11: create never returns, and slot 4 stays active with no worker. | Check `res` before waiting, restore the slot, and return the error | medium; not executed | `Lifecycle.SpawnFailureBlocks` | `SoftPwm.CreateRollback` |

The lifecycle lemmas are stated over the code as written (`Cycle`, `Create`). For the first
finding, `WriteThenCycle` also states the timing of the braced cycle. For the third,
`CreateClampedKeepsDutyInRange` drops the in-range assumption that `RunKeepsDutyInRange`
needs for the create as written. The unsigned reading of the delay argument comes from
wiringPi, which declares the parameter of `delayMicroseconds` as `unsigned int`; wiringPi
is not part of this model.

## Left out

- Thread machinery is left out: `pthread_create`, cancel, join, `SCHED_RR` priority and
  `piHiPri` (lines 52-53, 61, 145, 168-169). It is concurrency, not table logic.
  - A started worker is represented only by the recorded handle.
  - Stop is represented only by its effect on the slot and the LOW write.
- The `newPin` busy-wait handoff (lines 55-59, 143-148) is a cross-thread rendezvous.
  Only its outcome is modelled: `newPin` is back to -1 after a returning create and still
  holds the pin when create blocks. The worker's initial read of `*arg` is overwritten by
  `newPin` in the code; the model binds the worker to its pin directly.
- The worker reads `marks` and `range` without synchronisation while other threads write
  them. That is a data race, not sequential behaviour. A cycle takes `(mark, range)` as
  read once at its start.
- The hardware and wiringPi calls (`bcm2835_init`, `bcm2835_gpio_fsel`,
  `bcm2835_gpio_write`, `digitalWrite`, `delay`, `delayMicroseconds`) are defined
  elsewhere. They appear only as trace events or as boolean inputs. `bcm2835_gpio_fsel`
  reports nothing, so a failed pin configuration cannot make create fail; it is modelled
  as always taking effect.
- Real timing accuracy is left out; a delay is exactly its argument.
- `malloc`/`free` of `passPin` are reduced to a success flag. The leak of `passPin` on the
  init-failure path (lines 126-131) is a resource issue, not state logic.
- The commented-out `main` (lines 178-206) and `softPWM.hpp` (declarations only) are left
  out.
- `SoftPwm.Write`, `SoftPwm.Create` and `SoftPwm.Stop` require `0 <= pin`. The code never
  rejects negative pins and indexes its arrays with them, which is undefined behaviour in C.
- `Worker.Cycle` uses unbounded integers. It does not model the 32-bit overflow of
  `mark * 100` or `range - mark`, nor the conversion of a negative argument to
  `delayMicroseconds`' unsigned parameter. In C, all values are 32-bit `int`.
- `SoftPwm.Write` states the nearest-point clamp only for `range[pin] >= 0`. No reachable
  table has a negative range, as `Lifecycle.RunKeepsRangesNonNegative` proves.
- `Worker.CycleTiming`, `Worker.CyclesTiming` and `Worker.CycleBracedTiming` state the
  timing only for `0 <= mark <= range`. Outside that range, a delay argument is negative
  and wraps as an unsigned value, so the mathematical sums do not describe the program.
  `Lifecycle.UnclampedCreateStalls` shows such a case.
- `Gpio.Drives` treats the wiringPi `digitalWrite(pin, LOW)` (line 75) as driving the same
  pin as `bcm2835_gpio_write`. The code never calls a wiringPi setup routine, so this is
  not established. It changes no measure: in every cycle a `DigitalWrite` LOW is directly
  followed by a bcm2835 LOW write to the same pin.
