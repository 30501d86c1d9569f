# Clock.js master clock, modelled in Dafny

`ClockCL` (src/Clock.ts) is a master clock. It keeps a registry of tick
callbacks and, on every firing of a platform timer (a frame request in vsync
mode, an interval timer otherwise), computes a `(timeStamp, deltaTime)` pair
and calls every registered tick with it.

The model has four modules:

- `Slots` (slots.dfy): the registry `_ticks` as a sequence of optional slots
  (`Option<int>`, a tick being an opaque integer id). It defines the pure
  meaning of `indexOf`, `has`, `on`, `off`, `clear` and `_shrink`, plus the
  invariant that live ticks are distinct.
- `Timing` (timing.dfy): the timestamp and delta arithmetic of one cycle
  (`Advance`), including pulse mode and its first-cycle special case. It also
  gives the deliveries of a run of consecutive cycles (`Frames`), with
  closed forms for the no-pulse and pulse cases.
- `Cycle` (cycle.dfy): the invocation loop of `_enterFrame` as a function
  (`Walk`). A tick may change the registry while the loop runs: each tick id
  can be given a script of `on`/`off`/`clear` calls that it makes when
  invoked. The lemmas state what the loop invokes and when it reports an
  empty slot.
- `Clock` (clock.dfy): the class `ClockCL` with the source's fields and
  methods. The registry and cycle methods are proved against the functions
  above; `start` and `stop` state their effects directly. `clear`, `_shrink`
  and the invocation loop keep the source's `for` loops, with invariants.

Platform calls are not executed. A method that would schedule or cancel a
timer takes the handle that the platform returned as a parameter, and
returns the call it made as a `TimerCall` value (`RequestFrame`,
`SetInterval(wait)`, `CancelFrame(id)`, `ClearInterval(id)`). Time readings
(`highResTimeStamp`, `Date.now()`) are integer-millisecond parameters.
`Timing.RawTime` models `highResTimeStamp || Date.now()`: a frame timestamp
of 0 counts as absent, and the interval timer always passes 0.

`RunScript`, `Cycle.Perform` and `Cycle.PerformAll` stand for what a tick's
own code does to the registry. They model no line of the source.
`LastTimeStamp()` (src/Clock.ts:120-122) and `Now()`
(src/Clock.ts:153-155) are plain accessors. Their meaning is stated in
`EnterFrame`'s contract: the delivered timestamp equals `LastTimeStamp()`,
and in interval mode without a pulse the stored timestamp equals
`Now(wallClock)`, with the offset added only on delivery.

Three consequences of the code are worth naming:

- The early return in a cycle tests the length of `_ticks`, tombstones
  included, not the number of live ticks. So a registry of tombstones only
  still runs, and it is compacted to nothing (`Cycle.WalkAllEmpty`).
- Compaction runs only if the loop *reaches* an empty slot. A tick that
  removes itself, or a slot that was already passed, does not set the flag
  (`Cycle.WalkSelfRemoval`).
- Deltas are not always non-negative. Without a pulse, no delta is negative
  exactly when the readings never go back (`Timing.NoPulseDeltasNonNegative`).
  With a pulse, every delta is the pulse, and a negative pulse is accepted
  because any non-zero value enables pulse mode.

## Model

| member | source | states |
|---|---|---|
| `Slots.IndexOf` | src/Clock.ts:137 | -1 exactly when no slot holds the tick; otherwise the first slot holding it |
| `Slots.Has` | src/Clock.ts:143-145 | true exactly when some slot holds the tick |
| `Slots.Added` | src/Clock.ts:129-133 | an already present tick leaves the slots unchanged; otherwise exactly one slot holding it is appended and every earlier slot keeps its value; the set of ticks gains exactly the new one; distinct live ticks stay distinct |
| `Slots.Removed` | src/Clock.ts:136-141 | length unchanged; an absent tick changes nothing; otherwise the first slot holding it becomes empty and every other slot keeps its value; with distinct live ticks the tick is then absent, other ticks' presence is unchanged, and distinctness is kept |
| `Slots.Cleared` | src/Clock.ts:147-151 | same length, every slot empty, no tick present |
| `Slots.Live` | src/Clock.ts:160-161 | the live ticks in slot order: a tick occurs in it exactly when some slot holds it |
| `Slots.Compact` | src/Clock.ts:157-165 | no empty slot in the result; its live ticks are exactly those of the input in the same order; the same ticks are present |
| `Slots.CompactDistinct` | src/Clock.ts:157-165 | compaction keeps live ticks distinct |
| `Slots.Registered` | src/Clock.ts:88 | registering a list on an empty registry gives dense, distinct slots holding exactly the listed ticks, no more slots than list entries |
| `Timing.RawTime` | src/Clock.ts:180 | the raw reading is one of the two readings: the frame timestamp whenever it is non-zero, and it is zero only when both readings are |
| `Timing.Advance` | src/Clock.ts:184-193 | the counter moves only in pulse mode; with a pulse the delta is the pulse; except on the first pulse cycle the new last timestamp is the old one plus the delta; without a pulse, and on the first pulse cycle, it is the measured elapsed time |
| `Timing.Frames` | src/Clock.ts:180-194 | a run of cycles delivers one (timeStamp, deltaTime) pair per reading |
| `Timing.NoPulseFrames` | src/Clock.ts:190-194 | without a pulse, cycle k delivers reading k plus the offset, with delta reading k minus the previous reading (minus the old last timestamp for the first cycle) |
| `Timing.NoPulseDeltasNonNegative` | src/Clock.ts:190-193 | without a pulse, no delta is negative if and only if the readings never go back |
| `Timing.PulseFreeRun` | src/Clock.ts:184-189 | in pulse mode after the first pulse cycle, cycle k delivers the old last timestamp plus (k+1) pulses plus the offset, with delta the pulse, regardless of the readings |
| `Timing.PulseAligned` | src/Clock.ts:184-194 | in pulse mode from counter 0, cycle k delivers the first reading plus k pulses plus the offset, with delta the pulse |
| `Cycle.PerformAll` | src/Clock.ts:128-151 | on/off/clear calls made from a tick never refill a slot: each existing slot keeps its value or becomes empty, slots are only appended, and distinctness is kept |
| `Cycle.Walk` | src/Clock.ts:197-204 | the loop over the captured length keeps or empties every slot it started with, and invokes at most one tick per visited index |
| `Cycle.WalkDistinct` | src/Clock.ts:197-204 | whatever the invoked ticks do to the registry, live ticks stay distinct through the loop |
| `Cycle.WalkInvokesLive` | src/Clock.ts:197-201 | the invoked ticks form a subsequence of the ticks live below the captured length at loop start, in index order; ticks appended during the loop are not invoked |
| `Cycle.WalkInvokesOnce` | src/Clock.ts:197-201 | with distinct live ticks, no tick is invoked twice in a cycle, and each invoked tick was live below the captured length at loop start |
| `Cycle.WalkGarbage` | src/Clock.ts:202-205 | if the loop reports an empty slot, some visited slot is empty afterwards |
| `Cycle.WalkUntouched` | src/Clock.ts:197-204 | when no tick touches the registry, the loop invokes exactly the live ticks, changes no slot, and reports an empty slot exactly when one lies below the captured length |
| `Cycle.WalkSelfRemoval` | src/Clock.ts:197-207 | if every visited slot is live and distinct and ticks remove at most themselves, all are invoked and no empty slot is reported, so no compaction follows |
| `Cycle.WalkAllEmpty` | src/Clock.ts:175-177 | a registry of tombstones only passes the length guard: nothing is invoked, an empty slot is reported, and compaction leaves no slot |
| `Clock.ClockCL.constructor` | src/Clock.ts:57-92 | options as given; registry is the initial ticks registered one by one; inactive with timer id 0 unless auto-started with the returned handle; base time is the wall clock in interval mode and 0 until the first frame in vsync mode; counter and last timestamp 0; the timer calls made are recorded in `setupCalls`: the base-time frame request in vsync mode, then, when auto-started, the one frame request or interval timer of `start` |
| `Clock.ClockCL.RegisterAll` | src/Clock.ts:88 | registering the initial ticks one by one with `on` leaves `Slots.Registered` of them; distinctness kept |
| `Clock.ClockCL.CaptureBaseTime` | src/Clock.ts:82-84 | the first frame's callback sets the base time to the frame timestamp, or the wall clock when it is 0 |
| `Clock.ClockCL.Start` | src/Clock.ts:94-101 | while active nothing changes and no timer call is made; otherwise the timer id becomes the returned handle and one frame request (vsync) or interval timer with the wait is issued; active afterwards |
| `Clock.ClockCL.Stop` | src/Clock.ts:103-114 | while inactive nothing changes and no call is made; otherwise the old timer is cancelled by the matching call; afterwards inactive with timer id 0 |
| `Clock.ClockCL.Active` | src/Clock.ts:116-118 | an inactive clock holds timer id 0 |
| `Clock.ClockCL.LastTimeStamp` | src/Clock.ts:120-122 | the getter differs from the stored last timestamp exactly by the offset; `EnterFrame` proves it equals the timestamp the last cycle delivered |
| `Clock.ClockCL.Ticks` | src/Clock.ts:124-126 | the slot sequence returned holds distinct live ticks |
| `Clock.ClockCL.Has` | src/Clock.ts:143-145 | true exactly when some slot holds the tick |
| `Clock.ClockCL.Now` | src/Clock.ts:153-155 | the elapsed time a cycle without a frame timestamp would measure at that wall-clock reading: raw reading minus base time, no offset |
| `Clock.ClockCL.On` | src/Clock.ts:129-133 | slots become `Slots.Added` of the old slots; distinctness kept |
| `Clock.ClockCL.Off` | src/Clock.ts:136-141 | slots become `Slots.Removed` of the old slots; afterwards the tick is absent |
| `Clock.ClockCL.Clear` | src/Clock.ts:147-151 | the counted loop leaves `Slots.Cleared` of the old slots |
| `Clock.ClockCL.Shrink` | src/Clock.ts:157-165 | the dense rebuild leaves `Slots.Compact` of the old slots; distinctness kept |
| `Clock.ClockCL.Visit` | src/Clock.ts:198-203 | one iteration: a non-empty slot is appended to the invoked ticks and the registry becomes the old slots with that tick's calls applied; an empty slot sets the flag and leaves the registry unchanged; and the rest of the loop from the next index yields the same outcome as `Cycle.Walk` from this index |
| `Clock.ClockCL.Dispatch` | src/Clock.ts:196-204 | the loop over the captured length leaves slots, invoked ticks and the empty-slot flag exactly as `Cycle.Walk` gives them |
| `Clock.ClockCL.Measure` | src/Clock.ts:180-194 | last timestamp, counter and delta follow `Timing.Advance` of the raw reading minus the base time; the delivered timestamp is the stored one plus the offset |
| `Clock.ClockCL.EnterFrame` | src/Clock.ts:168-208 | inactive: no state change, no call; active: in vsync mode a new frame is requested and its handle stored; an empty array returns before computing; otherwise last timestamp, counter and delta follow `Timing.Advance` of the raw reading minus base time, the delivered timestamp equals `LastTimeStamp()`, ticks are invoked as `Cycle.Walk` gives, and compaction follows exactly when an empty slot was reached; in interval mode without a pulse the stored timestamp equals `Now(wallClock)` and the delivered one adds the offset |

## Left out

- Platform timers: `requestAnimationFrame`, `webkitRequestAnimationFrame`, the `setTimeout` fallback and the matching cancel functions (src/Clock.ts:32-41), and `setInterval`, `clearInterval`, `Date.now`. Handles and readings are parameters, and the calls made are returned as `TimerCall` values. The fallback frame request returns nothing, so the timer id it leaves cannot cancel the pending timeout; that is platform behaviour and not modelled.
- The callback of the constructor's base-time frame request (src/Clock.ts:81-84): the request itself is recorded in the ghost field `setupCalls`, and its callback is the separate method `CaptureBaseTime`, which the caller runs when the first frame fires.
- The binding of `_enterFrame` to the object (src/Clock.ts:79): a JavaScript closure detail. `EnterFrame` is called directly.
- Floating point: times, `wait` and `pulse` are integer milliseconds. The default wait of 1000/60 and all rounding are not modelled.
- Option defaulting through `||` (src/Clock.ts:66-76): the constructor takes already defaulted values. A pulse of 0 disables pulse mode, as in the source.
- Tick bodies and exceptions: ticks are opaque ids. Their effect on the registry is a script of `on`, `off` and `clear` calls. A tick that calls `start`, `stop` or the cycle itself during a cycle is not modelled, and neither is an exception that ends the loop early.
- Identity of callbacks: ticks are integers compared by value, never null. The source's `indexOf(null)` on a tombstone has no counterpart.
- Aliasing of the `ticks` getter (src/Clock.ts:124-126): the model returns the slot sequence as a value.
- Slots.Registered: states that the slots are dense, distinct and hold exactly the listed ticks, but not that they keep the order of each tick's first occurrence in the list.
