// The master clock, class ClockCL of src/Clock.ts. Platform timers are not
// modelled: a method that would schedule or cancel one receives the handle
// the platform returned as a parameter and reports the call it made.
module Clock {
  import opened Slots
  import Timing
  import Cycle

  /** A call the clock makes on a platform timer. */
  datatype TimerCall = RequestFrame | SetInterval(wait: int) | CancelFrame(id: int) | ClearInterval(id: int)

  class ClockCL {
    var ticks: seq<Slot>
    const vsync: bool
    const wait: int
    const pulse: int
    var active: bool
    var counter: nat
    var timerID: int
    var baseTime: int
    const timeOffset: int
    var lastTimeStamp: int
    /** The timer calls made while constructing: the base-time frame request
      * in vsync mode, then the call of an automatic `start`. */
    ghost var setupCalls: seq<TimerCall>

    /** Live ticks are distinct, an inactive clock holds no timer, and the
      * cycle counter only moves in pulse mode. */
    ghost predicate Valid()
      reads this
    {
      Distinct(ticks) && (!active ==> timerID == 0) && (pulse == 0 ==> counter == 0)
    }

    /** Options arrive already defaulted. `wallClock` is the reading taken
      * at construction; `handle` is what the timer returns if `autoStart`. */
    constructor (initial: seq<int>, vsync: bool, wait: int, pulse: int, offset: int,
                 autoStart: bool, wallClock: int, handle: int)
      ensures Valid()
      ensures ticks == Registered(initial)
      ensures this.vsync == vsync && this.wait == wait && this.pulse == pulse && timeOffset == offset
      ensures active == autoStart && timerID == (if autoStart then handle else 0)
      ensures baseTime == (if vsync then 0 else wallClock)
      ensures counter == 0 && lastTimeStamp == 0
      ensures setupCalls == (if vsync then [RequestFrame] else []) +
                            (if autoStart then [if vsync then RequestFrame else SetInterval(wait)] else [])
    {
      this.vsync := vsync;
      this.wait := wait;
      this.pulse := pulse;
      timeOffset := offset;
      ticks := [];
      active := false;
      counter := 0;
      timerID := 0;
      baseTime := if vsync then 0 else wallClock;
      lastTimeStamp := 0;
      setupCalls := if vsync then [RequestFrame] else [];
      new;
      RegisterAll(initial);
      if autoStart {
        var issued := Start(handle);
        setupCalls := setupCalls + issued;
      } else {
        assert setupCalls + [] == setupCalls;
      }
    }

    /** The constructor's `forEach(this.on)` over the initial ticks. */
    method RegisterAll(initial: seq<int>)
      requires Valid() && ticks == []
      modifies this`ticks
      ensures Valid()
      ensures ticks == Registered(initial)
    {
      for i := 0 to |initial|
        invariant Valid() && ticks == Registered(initial[..i])
      {
        assert initial[..i + 1] == initial[..i] + [initial[i]];
        RegisteredSnoc(initial[..i], initial[i]);
        On(initial[i]);
      }
      assert initial[..|initial|] == initial;
    }

    /** The frame callback the constructor requests in vsync mode: it fixes
      * the base time from the first frame's timestamp. */
    method CaptureBaseTime(frameTimeStamp: int, wallClock: int)
      requires Valid()
      modifies this`baseTime
      ensures Valid()
      ensures baseTime == Timing.RawTime(frameTimeStamp, wallClock)
    {
      baseTime := Timing.RawTime(frameTimeStamp, wallClock);
    }

    method Start(handle: int) returns (issued: seq<TimerCall>)
      requires Valid()
      modifies this`active, this`timerID
      ensures Valid() && active
      ensures old(active) ==> timerID == old(timerID) && issued == []
      ensures !old(active) ==> timerID == handle &&
                               issued == [if vsync then RequestFrame else SetInterval(wait)]
    {
      issued := [];
      if active {
        return;
      }
      active := true;
      timerID := handle;
      issued := [if vsync then RequestFrame else SetInterval(wait)];
    }

    method Stop() returns (issued: seq<TimerCall>)
      requires Valid()
      modifies this`active, this`timerID
      ensures Valid() && !active && timerID == 0
      ensures issued == if !old(active) then []
                        else [if vsync then CancelFrame(old(timerID)) else ClearInterval(old(timerID))]
    {
      issued := [];
      if !active {
        return;
      }
      active := false;
      issued := [if vsync then CancelFrame(timerID) else ClearInterval(timerID)];
      timerID := 0;
    }

    function Active(): (r: bool)
      reads this
      requires Valid()
      ensures !r ==> timerID == 0
    {
      active
    }

    /** The last cycle's timestamp as delivered, offset included. */
    function LastTimeStamp(): (r: int)
      reads this
      ensures r - timeOffset == lastTimeStamp
    {
      lastTimeStamp + timeOffset
    }

    function Ticks(): (r: seq<Slot>)
      reads this
      requires Valid()
      ensures Distinct(r)
    {
      ticks
    }

    function Has(t: int): (r: bool)
      reads this
      ensures r <==> Some(t) in ticks
    {
      Slots.Has(ticks, t)
    }

    /** Elapsed time since the base time; the offset does not enter. */
    function Now(wallClock: int): (r: int)
      reads this
      ensures r == Timing.RawTime(0, wallClock) - baseTime
    {
      wallClock - baseTime
    }

    method On(t: int)
      requires Valid()
      modifies this`ticks
      ensures Valid()
      ensures ticks == Added(old(ticks), t)
    {
      if !Has(t) {
        ticks := ticks + [Some(t)];
      }
    }

    method Off(t: int)
      requires Valid()
      modifies this`ticks
      ensures Valid() && !Has(t)
      ensures ticks == Removed(old(ticks), t)
    {
      var pos := IndexOf(ticks, t);
      if pos >= 0 {
        ticks := ticks[pos := None];
      }
    }

    method Clear()
      requires Valid()
      modifies this`ticks
      ensures Valid()
      ensures ticks == Cleared(old(ticks))
    {
      for i := 0 to |ticks|
        invariant |ticks| == |old(ticks)|
        invariant forall k :: 0 <= k < i ==> ticks[k] == None
      {
        ticks := ticks[i := None];
      }
      assert ticks == Cleared(old(ticks));
    }

    method Shrink()
      requires Valid()
      modifies this`ticks
      ensures Valid()
      ensures ticks == Compact(old(ticks))
    {
      var dense: seq<Slot> := [];
      for i := 0 to |ticks|
        invariant ticks == old(ticks)
        invariant dense == Compact(ticks[..i])
      {
        assert ticks[..i + 1] == ticks[..i] + [ticks[i]];
        CompactSnoc(ticks[..i], ticks[i]);
        if ticks[i].Some? {
          dense := dense + [ticks[i]];
        }
      }
      assert ticks[..|ticks|] == ticks;
      CompactDistinct(ticks);
      ticks := dense;
    }

    /** The registry calls an invoked tick makes, in order. */
    method RunScript(actions: seq<Cycle.Action>)
      requires Valid()
      modifies this`ticks
      ensures Valid()
      ensures ticks == Cycle.PerformAll(old(ticks), actions)
    {
      for j := 0 to |actions|
        invariant Valid()
        invariant Cycle.PerformAll(old(ticks), actions) == Cycle.PerformAll(ticks, actions[j..])
      {
        assert actions[j..][1..] == actions[j + 1..];
        match actions[j]
        case On(t) => On(t);
        case Off(t) => Off(t);
        case Clear => Clear();
      }
    }

    /** One iteration of the invocation loop: slot `i` is invoked if it is
      * non-empty when reached, and noted as empty otherwise. */
    method Visit(i: nat, ghost iz: nat, script: map<int, seq<Cycle.Action>>, before: seq<int>, seen: bool)
      returns (invoked: seq<int>, garbage: bool)
      requires Valid() && i < iz <= |ticks|
      modifies this`ticks
      ensures Valid() && iz <= |ticks|
      ensures invoked == before + (if old(ticks[i]).Some? then [old(ticks[i]).value] else [])
      ensures garbage == (seen || old(ticks[i]).None?)
      ensures old(ticks[i]).Some? ==> ticks == Cycle.PerformAll(old(ticks), Cycle.ScriptOf(script, old(ticks[i]).value))
      ensures old(ticks[i]).None? ==> ticks == old(ticks)
      ensures Cycle.Resume(old(ticks), i, iz, script, before, seen) == Cycle.Resume(ticks, i + 1, iz, script, invoked, garbage)
    {
      Cycle.WalkStep(ticks, i, iz, script);
      var tick := ticks[i];
      if tick.Some? {
        RunScript(Cycle.ScriptOf(script, tick.value));
        invoked, garbage := before + [tick.value], seen;
        ghost var rest := Cycle.Walk(ticks, i + 1, iz, script);
        assert before + ([tick.value] + rest.invoked) == invoked + rest.invoked;
      } else {
        invoked, garbage := before, true;
      }
    }

    /** The invocation loop of a cycle: slots below the length captured at
      * its start, in index order; a non-empty one is invoked, an empty one
      * is noted. */
    method Dispatch(script: map<int, seq<Cycle.Action>>) returns (invoked: seq<int>, garbage: bool)
      requires Valid()
      modifies this`ticks
      ensures Valid()
      ensures var p := Cycle.Walk(old(ticks), 0, |old(ticks)|, script);
              ticks == p.slots && invoked == p.invoked && garbage == p.garbage
    {
      invoked, garbage := [], false;
      var i, iz := 0, |ticks|;
      ghost var goal := Cycle.Walk(ticks, 0, iz, script);
      assert [] + goal.invoked == goal.invoked;
      while i < iz
        invariant i <= iz <= |ticks| && Valid()
        invariant goal == Cycle.Resume(ticks, i, iz, script, invoked, garbage)
        decreases iz - i
      {
        invoked, garbage := Visit(i, iz, script, invoked, garbage);
        i := i + 1;
      }
      assert invoked + [] == invoked;
    }

    /** The timestamp and delta of a cycle: the stored last timestamp and
      * the counter advance as `Timing.Advance` says, and the delivered
      * timestamp is the stored one plus the offset. */
    method Measure(highRes: int, wallClock: int) returns (timeStamp: int, deltaTime: int)
      requires Valid()
      modifies this`counter, this`lastTimeStamp
      ensures Valid()
      ensures var st := Timing.Advance(Timing.RawTime(highRes, wallClock) - baseTime, pulse, old(counter), old(lastTimeStamp));
              lastTimeStamp == st.last && counter == st.counter && deltaTime == st.delta
      ensures timeStamp == LastTimeStamp()
    {
      var t := Timing.RawTime(highRes, wallClock) - baseTime;
      if pulse != 0 {
        if counter != 0 {
          t := pulse + lastTimeStamp;
        }
        counter := counter + 1;
        deltaTime := pulse;
      } else {
        deltaTime := t - lastTimeStamp;
      }
      lastTimeStamp := t;
      timeStamp := t + timeOffset;
    }

    /** One firing of the timer. `highRes` is the frame source's timestamp
      * (0 when the interval timer fires), `wallClock` the wall-clock
      * reading, `frameHandle` what the frame request of vsync mode returns,
      * and `script` what each invoked tick does to the registry. */
    method EnterFrame(highRes: int, wallClock: int, frameHandle: int, script: map<int, seq<Cycle.Action>>)
      returns (issued: seq<TimerCall>, invoked: seq<int>, timeStamp: int, deltaTime: int)
      requires Valid()
      modifies this`ticks, this`timerID, this`counter, this`lastTimeStamp
      ensures Valid()
      ensures !old(active) ==>
                ticks == old(ticks) && timerID == old(timerID) && counter == old(counter) &&
                lastTimeStamp == old(lastTimeStamp) && issued == [] && invoked == []
      ensures old(active) ==>
                issued == (if vsync then [RequestFrame] else []) &&
                timerID == (if vsync then frameHandle else old(timerID))
      ensures old(active) && old(ticks) == [] ==>
                ticks == [] && counter == old(counter) && lastTimeStamp == old(lastTimeStamp) && invoked == []
      ensures old(active) && old(ticks) != [] ==>
                var st := Timing.Advance(Timing.RawTime(highRes, wallClock) - baseTime, pulse, old(counter), old(lastTimeStamp));
                var p := Cycle.Walk(old(ticks), 0, |old(ticks)|, script);
                lastTimeStamp == st.last && counter == st.counter && deltaTime == st.delta &&
                timeStamp == LastTimeStamp() && invoked == p.invoked &&
                ticks == (if p.garbage then Compact(p.slots) else p.slots)
      ensures old(active) && old(ticks) != [] && pulse == 0 && highRes == 0 ==>
                lastTimeStamp == Now(wallClock) && timeStamp == Now(wallClock) + timeOffset
    {
      issued, invoked, timeStamp, deltaTime := [], [], 0, 0;
      if !active {
        return;
      }
      if vsync {
        timerID := frameHandle;
        issued := [RequestFrame];
      }
      if |ticks| == 0 {
        return;
      }
      timeStamp, deltaTime := Measure(highRes, wallClock);
      ghost var p := Cycle.Walk(ticks, 0, |ticks|, script);
      var garbage;
      invoked, garbage := Dispatch(script);
      assert ticks == p.slots && invoked == p.invoked && garbage == p.garbage;
      if garbage {
        Shrink();
      }
    }
  }
}
