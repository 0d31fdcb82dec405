# NOS3 time driver: a Dafny model

This project models the sequential core of the NOS3 `TimeDriver` hardware
model (`src/time_driver.cpp`), the process that produces the simulation's
tick signal:

- **Time-bus registration.** The constructor walks the configured
  connection descriptors, keeps those whose `type` is `"time"`, fills in the
  bus name `"command"` and the common connection string (default
  `tcp://127.0.0.1:12001`) where a descriptor gives none, and appends a
  `TimeBusInfo` entry only when no existing entry has the same connection
  string and bus name.
- **The tick loop.** One iteration of `run` decides whether the display is
  due (`_time_counter % (1000000 / _real_microseconds_per_tick) == 0`),
  handles the key read from the console (`p`/`P` toggle the pause, `+`
  halves the delay, `-` doubles it), and, when not paused, reconnects every
  bus that reports itself disconnected, hands the current tick to
  `set_time` on every bus, and increments the counter.

Modules:

| file | module | contents |
|---|---|---|
| `wrappers.dfy` | `Wrappers` | `Option`, standing for a configuration key that may be absent |
| `time_bus.dfy` | `TimeBus` | the bus abstraction, one `TimeBusInfo` entry, reconnect-and-publish for one entry and for all |
| `registration.dfy` | `Registration` | configuration records, the constructor's scan with its search loop, and the registration properties |
| `key_control.dfy` | `KeyControl` | the key switch over (pause, delay) and the display refresh condition |
| `tick_counter.dfy` | `TickCounter` | the 32-bit tick counter and the sequence of published ticks over a run |
| `time_driver.dfy` | `Nos3` | the loop state, one iteration and a run of iterations as functions, and the `TimeDriver` class whose `Step` and `Run` methods are proved against them |

The bus object is modelled as a value owned by its entry (the source holds
it through a `unique_ptr`, so no other code can see it): a `connected`
flag (what `is_connected()` reports), whether `enable_set_time()` has been
called, a count of reconnections, and the log of tick values passed to
`set_time`. A reconnection attaches to the same named bus, so the log is
kept across it. Whether a connection attempt comes up belongs to the
environment: each bus also carries a `reachable` flag for its hub, and a
replacement connection is up exactly when that flag is set. The source does
not check the replacement: it calls `enable_set_time` and `set_time` on it
either way, and on the next tick that is not paused it tries again.
Two environment methods of `TimeDriver` change this outside state:
`LoseConnection` drops one entry's connection, and `SetReachable` makes its
hub accept or refuse connection attempts.

`_time_counter` is an `unsigned int` and wraps at 2^32; the model writes
that out (`TickCounter.Wrap`, `TickCounter.Increment`).
`_real_microseconds_per_tick` comes from the base class, which is not part
of this model; it is a constructor parameter. The refresh condition
divides by it and then takes a remainder by the quotient, so `Step`
requires `0 < realUsPerTick <= 1000000`, and `Run` requires that every
iteration starts with a delay in that range (`Nos3.Paceable`). The source
has no guard and no clamp. A configured delay of 0, or one above 1000000
(zero ticks per second), makes the first iteration divide or take a
remainder by zero. So does the iteration after a `+` from a delay of 1,
which yields 0, or after a `-` from any delay above 500000, which yields a
delay above 1000000 (`KeyControl.DelayLeavesRange`). The model exposes
that as the precondition rather than inventing a bound.

`Run(keys)` replaces the `while(1)` loop by one iteration per key: the
first key is the one `getch()` returns before the loop, each later key the
one read at the end of the previous iteration; any code other than `p`,
`P`, `+` and `-` (including "no key") has no effect. `Run` starts with the
pause off, as `run`'s local `pause` does.

## Model

| member | source | states |
|---|---|---|
| `Registration.Find` | src/time_driver.cpp:73-81 | the search reports true exactly when some entry has both the bus name and the connection string |
| `Registration.Register` | src/time_driver.cpp:73-86 | after registering, the pair is listed; the old entries are a prefix and at most one entry is added; a pair already listed leaves the entries unchanged; a new entry gets a fresh armed bus; no-duplicates and armed buses are preserved |
| `Registration.Accept` | src/time_driver.cpp:70-87 | one descriptor only ever appends to the entries; one not of type "time" changes nothing; one of type "time" registers its pair (connection string override or default, bus name or "command"), which is then listed |
| `Registration.Scan` | src/time_driver.cpp:62-88 | the entries built from any descriptor list have no two with the same (connection string, bus name), every bus can set time, and there are no more entries than descriptors |
| `Registration.ScanConnections` | src/time_driver.cpp:62-88 | the constructor's loop with its linear search and conditional append computes exactly `Scan` of the descriptors |
| `Registration.Configured` | src/time_driver.cpp:48-62 | the entries are empty when `simulator.active` is false or there is no connection list; otherwise every entry's pair is asked for by some time descriptor; no duplicates and every bus armed |
| `Registration.ScanKeys` | src/time_driver.cpp:70-86 | a (connection string, bus name) pair is registered if and only if some descriptor of type "time" asks for it, after defaults |
| `Registration.ScanSnoc` | src/time_driver.cpp:70-86 | a further descriptor that is not of type "time", or whose pair is already listed, leaves the entries unchanged; otherwise its pair is appended with a fresh bus |
| `Registration.ScanAppendOnly` | src/time_driver.cpp:82-86 | registration is append-only: scanning more descriptors keeps the earlier entries as a prefix |
| `Registration.FirstOccurrenceOrder` | src/time_driver.cpp:62-86 | two pairs first asked for at descriptors k1 < k2 appear in the entries in that order |
| `Registration.DefaultsFilled` | src/time_driver.cpp:51-72 | an active configuration whose one descriptor gives only `type` "time" yields one entry with bus name "command" and the common connection string, or `tcp://127.0.0.1:12001` when that is missing |
| `Registration.DuplicateDescriptorsMerge` | src/time_driver.cpp:73-86 | two identical time descriptors yield exactly one entry |
| `TimeBus.NewBus` | src/time_driver.cpp:83-84 | the bus a new entry gets is connected, armed for `set_time`, never reconnected and with an empty log |
| `TimeBus.Reconnect` | src/time_driver.cpp:149-150 | the replacement connection is up exactly when the hub is reachable, is armed, counts one more reconnection and keeps the log |
| `TimeBus.SetTime` | src/time_driver.cpp:152 | `set_time` appends exactly the tick to the log and changes nothing else about the bus |
| `TimeBus.Publish` | src/time_driver.cpp:146-152 | for one entry: uri and name unchanged, the bus stays armed, its log gains exactly the tick whether or not the connection is up; a connected bus changes only by that `set_time`; a disconnected one is replaced by a reconnection, and the bus ends connected exactly when it was connected or its hub is reachable |
| `TimeBus.Broadcast` | src/time_driver.cpp:144-153 | every entry keeps its index, uri and name and receives the tick exactly once; it is reconnected once if it was disconnected and never otherwise, and ends connected exactly when it was or its hub is reachable; no-duplicates is preserved |
| `TimeBus.ReconnectOnlyWhenDisconnected` | src/time_driver.cpp:146-152 | an entry is reconnected if and only if its bus reported disconnected; a connected bus receives only the `set_time` call; a reconnected bus is up if and only if its hub is reachable |
| `KeyControl.ApplyKey` | src/time_driver.cpp:130-141 | `p`/`P` flip the pause and keep the delay; `+` keeps the pause and halves the delay rounding down; `-` keeps the pause and doubles it; any other key changes nothing |
| `KeyControl.ToggleTwice` | src/time_driver.cpp:131-134 | two pause presses restore the controls |
| `KeyControl.SlowDownThenSpeedUp` | src/time_driver.cpp:135-140 | `-` then `+` restores the delay |
| `KeyControl.SpeedUpThenSlowDown` | src/time_driver.cpp:135-140 | `+` then `-` restores the delay if and only if it was even |
| `KeyControl.PauseParity` | src/time_driver.cpp:130-134 | after any key sequence the pause state is the initial one flipped once per toggle key |
| `KeyControl.DelayIgnoresPause` | src/time_driver.cpp:130-141 | the delay after any key sequence does not depend on the pause state |
| `KeyControl.DelayLeavesRange` | src/time_driver.cpp:116-140 | `+` gives a zero delay exactly from a delay of at most 1; `-` gives a delay above one second exactly from one above half a second, and from such a delay the period `1000000 / delay` is then 0 |
| `KeyControl.TicksPerSecond` | src/time_driver.cpp:116 | for a delay in (0, 1000000] the refresh period is positive and is the largest count of ticks that fit in one second |
| `KeyControl.DisplayDue` | src/time_driver.cpp:116-117 | the refresh condition, a remainder by `TicksPerSecond`; within the first period it holds only at counter 0 |
| `KeyControl.DisplayPeriodic` | src/time_driver.cpp:116-117 | the refresh condition holds at a counter exactly when it holds one period later |
| `TickCounter.DisplayOncePerSecond` | src/time_driver.cpp:116-117 | any window of `TicksPerSecond` consecutive counter values that stays below 2^32 holds exactly one refresh |
| `TickCounter.RefreshTwiceAtWrap` | src/time_driver.cpp:116-155 | across the 2^32 wrap the cadence restarts: at delay 250001 (period 3) both 2^32 - 1 and the next counter value 0 refresh |
| `KeyControl.DisplayEveryIterationWhenSlow` | src/time_driver.cpp:116-117 | with a delay above half a second the display refreshes on every iteration |
| `TickCounter.Increment` | src/time_driver.cpp:155 | `_time_counter++` on an `unsigned int`: the result is below 2^32, one more below the top, and 0 from 2^32 - 1 |
| `TickCounter.CounterCountsTicks` | src/time_driver.cpp:143-156 | after any key sequence the counter equals the initial counter plus the number of published ticks, modulo 2^32 |
| `TickCounter.TicksConsecutive` | src/time_driver.cpp:143-156 | the published ticks are the consecutive counter values from the initial counter, modulo 2^32 |
| `TickCounter.PausedWithoutToggles` | src/time_driver.cpp:143-156 | while paused and no toggle key arrives, nothing is published and the counter does not move |
| `TickCounter.PlayingWithoutToggles` | src/time_driver.cpp:143-156 | while playing and no toggle key arrives, every iteration publishes |
| `Nos3.Iterate` | src/time_driver.cpp:130-156 | one iteration: the controls follow `ApplyKey`; when the new state is paused neither the counter nor the buses change; otherwise every bus keeps its uri and name and receives the pre-increment counter exactly once and the counter is incremented once; no-duplicates and armed buses are preserved |
| `Nos3.IterateAll` | src/time_driver.cpp:113-159 | a run keeps the number of entries and their uri and name, preserves no-duplicates, keeps the counter below 2^32, and its controls and counter are those of `ApplyKeys` and `CounterAfter` |
| `Nos3.RunPublishesTicks` | src/time_driver.cpp:143-156 | after any run each bus's log has grown by exactly the run's ticks, the same for every bus |
| `Nos3.RunReconnects` | src/time_driver.cpp:143-153 | over any run without environment events, a connected bus is never reconnected; a disconnected one on a reachable hub is reconnected once, on the first publishing iteration, and stays up; one on an unreachable hub is reconnected on every publishing iteration and stays down; the hub's reachability is not changed by the driver |
| `Nos3.PausedRunIsInert` | src/time_driver.cpp:143-156 | a paused run without toggle keys leaves the counter and every bus unchanged |
| `Nos3.TimeDriver.constructor` | src/time_driver.cpp:47-93 | `_active` defaults to true, the counter starts at 0, and the entries are the scan of the time descriptors, or none when inactive or when there is no connection list |
| `Nos3.TimeDriver.LoseConnection` | src/time_driver.cpp:146 | the environment: only the named entry's bus turns disconnected |
| `Nos3.TimeDriver.SetReachable` | src/time_driver.cpp:149-150 | the environment: only the named entry's hub changes whether it accepts connection attempts |
| `Nos3.TimeDriver.Step` | src/time_driver.cpp:114-158 | the refresh decision is taken on the counter and delay before the key, and the new state is exactly `Iterate` of the old one: the display does not alter counter, pause or delay |
| `Nos3.TimeDriver.Run` | src/time_driver.cpp:99-166 | an inactive driver changes nothing; an active one starts unpaused and ends in `IterateAll` of the keys |

## Left out

- Console I/O through curses (`initscr`, `getch`, `printw`, `refresh`, `endwin`): keys are an input sequence and rendering is dropped; the refresh decision is kept as `Step`'s result.
- Wall-clock pacing (`sleep_for`) is timing, not logic.
- The displayed absolute time, speed-up and calendar fields are floating point and use `AbsTime2YMDHMS`, which is not part of this model; so `_sim_microseconds_per_tick` and `_absolute_start_time` do not appear.
- The configuration tree library, `write_xml` trace logging, `sim_logger`, the hub and the plugin registration macro: the configuration is a record of optional fields. Every read is `get(path, default)`, which gives the default for an absent or untranslatable value, so a malformed value is the same as an absent one (`None`).
- The NosEngine bus library: a bus is the abstract value described above, and what `set_time` does on a connection that is down is not modelled beyond recording the call.
- `TimeBus.NewBus`: the connections the constructor makes are taken to come up; a hub that is down at construction is reached by calling `SetReachable` and `LoseConnection` before the first iteration.
- `Nos3.RunReconnects`: a run (`IterateAll`, `TimeDriver.Run`) holds the environment fixed, so no connection drops and no hub changes inside it; a drop between two iterations of one `run` is modelled by calling `Step` and `LoseConnection` or `SetReachable` alternately.
- `TickCounter.DisplayOncePerSecond`: promises one refresh per window only for windows below 2^32; across the wrap of `_time_counter` the remainder restarts at 0, and a window there can hold two refreshes (`TickCounter.RefreshTwiceAtWrap`).
- `update_display`, `update_time_busses`, `time_diff`, `command_callback`, `_pause_ticks`, `_display_counter` and `_last_time_diff` are declared in `inc/time_driver.hpp` without a definition in the source, so the remote command channel (RUN/UNTIL and the rest) and any delay clamp are not part of this model.
- Concurrency: the remote-command thread is absent from the source.
- The `while(1)` loop never ends; the model runs one iteration per key of a finite sequence.
- `_real_microseconds_per_tick`'s integer type belongs to the base class; under `Step`'s precondition doubling it stays at or below 2000000, so no overflow is modelled.
