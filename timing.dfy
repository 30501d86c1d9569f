// The timestamp and delta arithmetic of one clock cycle, and what it yields
// over a run of consecutive cycles. Times are integer milliseconds.
module Timing {

  /** The raw reading of a cycle: the frame source's timestamp when it gave a
    * non-zero one, otherwise the wall clock (`highResTimeStamp || Date.now()`).
    * The interval timer always passes 0. */
  function RawTime(highRes: int, wallClock: int): (r: int)
    ensures r == highRes || r == wallClock
    ensures highRes != 0 ==> r == highRes
    ensures r != 0 <==> highRes != 0 || wallClock != 0
  {
    if highRes != 0 then highRes else wallClock
  }

  /** The clock's timing state after one cycle and the delta it reports. */
  datatype Step = Step(last: int, counter: nat, delta: int)

  /** One cycle, given the elapsed time `t` (raw reading minus base time).
    * A pulse of 0 disables pulse mode; any other value is the fixed delta. */
  function Advance(t: int, pulse: int, counter: nat, last: int): (r: Step)
    ensures r.counter == if pulse != 0 then counter + 1 else counter
    ensures pulse != 0 ==> r.delta == pulse
    ensures pulse == 0 || counter != 0 ==> r.last == last + r.delta
    ensures pulse == 0 || counter == 0 ==> r.last == t
  {
    if pulse != 0 then
      Step(if counter != 0 then pulse + last else t, counter + 1, pulse)
    else
      Step(t, counter, t - last)
  }

  /** What one cycle hands to every tick: offset timestamp and delta. */
  datatype Delivery = Delivery(timeStamp: int, deltaTime: int)

  /** The deliveries of consecutive cycles whose elapsed times are `elapsed`,
    * starting from the given counter and last timestamp. */
  function Frames(elapsed: seq<int>, pulse: int, offset: int, counter: nat, last: int): (r: seq<Delivery>)
    ensures |r| == |elapsed|
    decreases |elapsed|
  {
    if elapsed == [] then []
    else
      var st := Advance(elapsed[0], pulse, counter, last);
      [Delivery(st.last + offset, st.delta)] + Frames(elapsed[1..], pulse, offset, st.counter, st.last)
  }

  /** Without a pulse, each cycle reports the measured elapsed time as its
    * timestamp (plus the offset) and the difference to the previous cycle's
    * as its delta. */
  lemma {:induction false} NoPulseFrames(elapsed: seq<int>, offset: int, counter: nat, last: int, k: nat)
    requires k < |elapsed|
    ensures Frames(elapsed, 0, offset, counter, last)[k] ==
            Delivery(elapsed[k] + offset, elapsed[k] - (if k == 0 then last else elapsed[k - 1]))
    decreases k
  {
    if k > 0 {
      NoPulseFrames(elapsed[1..], offset, counter, elapsed[0], k - 1);
    }
  }

  /** The readings never go back, starting from the last timestamp. */
  predicate Monotone(last: int, elapsed: seq<int>)
  {
    (|elapsed| > 0 ==> last <= elapsed[0]) &&
    forall k :: 0 < k < |elapsed| ==> elapsed[k - 1] <= elapsed[k]
  }

  /** No delivered delta is negative. */
  predicate NoneNegative(r: seq<Delivery>)
  {
    forall k :: 0 <= k < |r| ==> r[k].deltaTime >= 0
  }

  /** Without a pulse, no delta is negative exactly when the readings never go back. */
  lemma NoPulseDeltasNonNegative(elapsed: seq<int>, offset: int, counter: nat, last: int)
    ensures NoneNegative(Frames(elapsed, 0, offset, counter, last)) <==> Monotone(last, elapsed)
  {
    var r := Frames(elapsed, 0, offset, counter, last);
    forall k | 0 <= k < |elapsed|
      ensures r[k].deltaTime == elapsed[k] - (if k == 0 then last else elapsed[k - 1])
    {
      NoPulseFrames(elapsed, offset, counter, last, k);
    }
    if NoneNegative(r) {
      forall k | 0 < k < |elapsed|
        ensures elapsed[k - 1] <= elapsed[k]
      {
        assert r[k].deltaTime >= 0;
      }
      if |elapsed| > 0 {
        assert r[0].deltaTime >= 0;
      }
      assert Monotone(last, elapsed);
    }
    if Monotone(last, elapsed) {
      forall k | 0 <= k < |r|
        ensures r[k].deltaTime >= 0
      {
        if k > 0 {
          assert elapsed[k - 1] <= elapsed[k];
        }
      }
    }
  }

  /** Once the first pulse cycle is behind, the clock free-runs: the k-th
    * further cycle reports the last timestamp plus (k + 1) pulses, whatever
    * the readings are. */
  lemma {:induction false} PulseFreeRun(elapsed: seq<int>, pulse: int, offset: int, counter: nat, last: int, k: nat)
    requires pulse != 0 && counter > 0 && k < |elapsed|
    ensures Frames(elapsed, pulse, offset, counter, last)[k] == Delivery(last + (k + 1) * pulse + offset, pulse)
    decreases k
  {
    if k > 0 {
      PulseFreeRun(elapsed[1..], pulse, offset, counter + 1, pulse + last, k - 1);
      assert (k + 1) * pulse == k * pulse + pulse;
    }
  }

  /** In pulse mode from the clock's first cycle on, the first reading fixes
    * the phase and every cycle k reports that reading plus k pulses, with
    * the pulse as delta. */
  lemma {:induction false} PulseAligned(elapsed: seq<int>, pulse: int, offset: int, last: int, k: nat)
    requires pulse != 0 && k < |elapsed|
    ensures Frames(elapsed, pulse, offset, 0, last)[k] == Delivery(elapsed[0] + k * pulse + offset, pulse)
  {
    if k > 0 {
      PulseFreeRun(elapsed[1..], pulse, offset, 1, elapsed[0], k - 1);
    }
  }
}
