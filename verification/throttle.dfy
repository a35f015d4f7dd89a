/** The API rate limiter of inat_api.py (class `Throttle`): the times of the
    recent calls, at most `MaxCalls` of them within any `Interval`. Time is an
    explicit clock reading in seconds; a sleep lasts exactly as long as asked. */
module Throttling {
  const MaxCalls: nat := 60
  const Interval: real := 60.0

  /** The state of `wait`: the clock when it returns and the call times kept. */
  datatype Waited = Waited(callTimes: seq<real>, time: real)

  /** How many of `n` kept call times one `wait` evicts. */
  function Evicted(n: nat): nat
  {
    if n >= MaxCalls then n - (MaxCalls - 1) else 0
  }

  /** `Throttle.wait` called when the clock reads `now`. While `MaxCalls`
      times are kept, the oldest is evicted, after sleeping until it is
      `Interval` old if it is not yet; then the clock's reading is appended. */
  function Wait(callTimes: seq<real>, now: real): (r: Waited)
    ensures r.time >= now
    ensures |r.callTimes| <= MaxCalls && r.callTimes == callTimes[Evicted(|callTimes|)..] + [r.time]
    ensures forall i :: 0 <= i < Evicted(|callTimes|) ==> callTimes[i] + Interval <= r.time
    ensures r.time == now || exists i :: 0 <= i < Evicted(|callTimes|) && r.time == callTimes[i] + Interval
    decreases |callTimes|
  {
    if |callTimes| >= MaxCalls then
      var waitTime := callTimes[0] - (now - Interval);
      var now' := if waitTime > 0.0 then callTimes[0] + Interval else now;
      var r := Wait(callTimes[1..], now');
      assert callTimes[1..][Evicted(|callTimes| - 1)..] == callTimes[Evicted(|callTimes|)..];
      assert forall i :: 1 <= i < Evicted(|callTimes|) ==> callTimes[i] == callTimes[1..][i - 1];
      r
    else
      Waited(callTimes + [now], now)
  }

  /** The index of the oldest call time kept after `n` calls. */
  function Oldest(n: nat): nat
  {
    if n >= MaxCalls then n - MaxCalls else 0
  }

  /** The state after a sequence of calls of `wait`. */
  datatype Replayed = Replayed(callTimes: seq<real>, returnTimes: seq<real>)

  /** The calls made when `wait` is entered at the clock readings `nows`,
      starting from no calls: the kept call times and each call's return time. */
  function Replay(nows: seq<real>): Replayed
    decreases |nows|
  {
    if |nows| == 0 then Replayed([], [])
    else
      var prev := Replay(nows[..|nows| - 1]);
      var r := Wait(prev.callTimes, nows[|nows| - 1]);
      Replayed(r.callTimes, prev.returnTimes + [r.time])
  }

  /** Of any `MaxCalls + 1` consecutive times, the last is at least
      `Interval` after the first. */
  predicate Spaced(times: seq<real>)
  {
    forall k :: MaxCalls <= k < |times| ==> times[k - MaxCalls] + Interval <= times[k]
  }

  lemma SpacedAppend(times: seq<real>, t: real)
    requires Spaced(times)
    requires |times| >= MaxCalls ==> times[|times| - MaxCalls] + Interval <= t
    ensures Spaced(times + [t])
  {
    var times1 := times + [t];
    forall k | MaxCalls <= k < |times1|
      ensures times1[k - MaxCalls] + Interval <= times1[k]
    {
      if k < |times| {
        assert times1[k] == times[k] && times1[k - MaxCalls] == times[k - MaxCalls];
      }
    }
  }

  /** One more `wait` keeps the window: the kept times are still the last
      return times, and the new return time is spaced from the one
      `MaxCalls` earlier. */
  lemma WindowStep(returnTimes: seq<real>, calls: seq<real>, t: real)
    requires calls == returnTimes[Oldest(|returnTimes|)..] && Spaced(returnTimes)
    requires forall i :: 0 <= i < Evicted(|calls|) ==> calls[i] + Interval <= t
    ensures calls[Evicted(|calls|)..] + [t] == (returnTimes + [t])[Oldest(|returnTimes| + 1)..]
    ensures Spaced(returnTimes + [t])
  {
    var n := |returnTimes|;
    var e := Evicted(|calls|);
    assert e == (if n >= MaxCalls then 1 else 0);
    if n >= MaxCalls {
      assert calls[0] == returnTimes[n - MaxCalls];
    }
    assert calls[e..] == returnTimes[Oldest(n + 1)..];
    SpacedAppend(returnTimes, t);
  }

  /** The sliding window: `wait` keeps exactly the last (at most) `MaxCalls`
      return times, and of any `MaxCalls + 1` consecutive return times the
      last is at least `Interval` after the first. */
  lemma {:induction false} ReplayWindow(nows: seq<real>)
    ensures var r := Replay(nows);
            && |r.returnTimes| == |nows|
            && r.callTimes == r.returnTimes[Oldest(|r.returnTimes|)..]
            && Spaced(r.returnTimes)
    decreases |nows|
  {
    if |nows| > 0 {
      var n := |nows| - 1;
      ReplayWindow(nows[..n]);
      var prev := Replay(nows[..n]);
      var r := Wait(prev.callTimes, nows[n]);
      assert Replay(nows) == Replayed(r.callTimes, prev.returnTimes + [r.time]);
      WindowStep(prev.returnTimes, prev.callTimes, r.time);
    }
  }
}
