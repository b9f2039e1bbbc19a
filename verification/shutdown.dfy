/**
 * The responsive sleep after each poll: at most `interval` one-second ticks,
 * checking the shutdown flag before each. `signals[k]` says whether a shutdown
 * signal arrives during tick `k` (ticks past the end of `signals` see none).
 */
module Shutdown {

  /** The index of the first tick during which a signal arrives, or `|signals|`. */
  function FirstSignal(signals: seq<bool>): (k: nat)
    ensures k <= |signals|
    ensures k < |signals| ==> signals[k]
    ensures forall j :: 0 <= j < k ==> !signals[j]
  {
    if signals == [] then 0
    else if signals[0] then 0
    else 1 + FirstSignal(signals[1..])
  }

  /** Whether a signal arrives during one of the first `n` ticks. */
  predicate SignalWithin(signals: seq<bool>, n: int)
  {
    exists k :: 0 <= k < n && k < |signals| && signals[k]
  }

  /** How a sleep ends: the ticks slept and the flag afterwards. */
  datatype SleepResult = SleepResult(ticks: nat, requested: bool)

  /** Specification of the tick loop `for _ in range(interval): if flag: break; sleep(1)`. */
  function Sleep(interval: int, requested: bool, signals: seq<bool>): (r: SleepResult)
    ensures r.ticks <= if interval > 0 then interval else 0
    ensures requested ==> r.ticks == 0 && r.requested
    ensures r.requested <==> requested || SignalWithin(signals, interval)
    ensures forall k :: 0 <= k < |signals| && signals[k] ==> r.ticks <= k + 1
    ensures !r.requested ==> r.ticks == if interval > 0 then interval else 0
    ensures !requested && interval > 0 && SignalWithin(signals, interval) ==> r.ticks == FirstSignal(signals) + 1
  {
    var first := FirstSignal(signals);
    if requested || interval <= 0 then SleepResult(0, requested)
    else if first < |signals| && first < interval then SleepResult(first + 1, true)
    else SleepResult(interval, false)
  }
}
