/** The sliding-window rate limiter against its full history. */
module Limits {
  import opened Deques

  /** How many times are at most `window` old at `now`. */
  function Recent(times: seq<real>, now: real, window: real): nat {
    if times == [] then 0
    else Recent(times[..|times| - 1], now, window) + if now - times[|times| - 1] <= window then 1 else 0
  }

  /** How many times lie in the closed interval of length `window` that starts at `x`. */
  function Within(times: seq<real>, x: real, window: real): nat {
    if times == [] then 0
    else Within(times[..|times| - 1], x, window)
         + if x <= times[|times| - 1] <= x + window then 1 else 0
  }

  /** The indices of the times that lie in the closed interval. */
  function Hits(times: seq<real>, x: real, window: real): set<nat> {
    set i: nat | i < |times| && x <= times[i] <= x + window
  }

  lemma {:induction false} WithinCounts(times: seq<real>, x: real, window: real)
    ensures Within(times, x, window) == |Hits(times, x, window)|
  {
    if times != [] {
      var n := |times| - 1;
      WithinCounts(times[..n], x, window);
      assert Hits(times, x, window) == Hits(times[..n], x, window) + if x <= times[n] <= x + window then {n} else {};
    }
  }

  /** When none of the times is still to come, the recent ones are those of the interval that ends now. */
  lemma {:induction false} RecentIsWithin(times: seq<real>, now: real, window: real)
    requires forall i :: 0 <= i < |times| ==> times[i] <= now
    ensures Recent(times, now, window) == Within(times, now - window, window)
  {
    if times != [] {
      RecentIsWithin(times[..|times| - 1], now, window);
    }
  }

  function Bound(max: int): nat {
    if max < 0 then 0 else max
  }

  /** No closed interval of one window's length holds more than `max` times. */
  ghost predicate Paced(times: seq<real>, window: real, max: int) {
    forall x :: Within(times, x, window) <= Bound(max)
  }

  predicate Sorted(times: seq<real>) {
    forall i, j :: 0 <= i < j < |times| ==> times[i] <= times[j]
  }

  /** The deque is the end of the history; what it lost was out of the window at `at`. */
  predicate Tail(deque: seq<real>, history: seq<real>, at: real, window: real) {
    && EndOf(deque, history)
    && forall i :: 0 <= i < |history| - |deque| ==> at - history[i] > window
  }

  lemma {:induction false} RecentOld(times: seq<real>, now: real, window: real)
    requires forall i :: 0 <= i < |times| ==> now - times[i] > window
    ensures Recent(times, now, window) == 0
  {
    if times != [] { RecentOld(times[..|times| - 1], now, window); }
  }

  lemma {:induction false} RecentYoung(times: seq<real>, now: real, window: real)
    requires forall i :: 0 <= i < |times| ==> now - times[i] <= window
    ensures Recent(times, now, window) == |times|
  {
    if times != [] { RecentYoung(times[..|times| - 1], now, window); }
  }

  lemma {:induction false} RecentJoin(a: seq<real>, b: seq<real>, now: real, window: real)
    ensures Recent(a + b, now, window) == Recent(a, now, window) + Recent(b, now, window)
  {
    if b == [] {
      assert a + b == a;
    } else {
      var init := b[..|b| - 1];
      RecentJoin(a, init, now, window);
      assert (a + b)[..|a + b| - 1] == a + init;
    }
  }

  /** Once the deque holds only recent times, its length is the count over the whole history. */
  lemma DequeCounts(deque: seq<real>, history: seq<real>, now: real, window: real)
    requires Tail(deque, history, now, window)
    requires forall i :: 0 <= i < |deque| ==> now - deque[i] <= window
    ensures Recent(history, now, window) == |deque|
  {
    EndSplits(deque, history);
    var lost := Lost(deque, history);
    RecentJoin(lost, deque, now, window);
    RecentOld(lost, now, window);
    RecentYoung(deque, now, window);
  }

  lemma {:induction false} WithinRecent(times: seq<real>, x: real, now: real, window: real)
    requires now <= x + window
    ensures Within(times, x, window) <= Recent(times, now, window)
  {
    if times != [] { WithinRecent(times[..|times| - 1], x, now, window); }
  }

  /** Granting only when fewer than `max` grants are recent keeps every interval within the limit. */
  lemma GrantKeepsPace(times: seq<real>, now: real, window: real, max: int)
    requires Paced(times, window, max) && Recent(times, now, window) < max
    ensures Paced(times + [now], window, max)
  {
    forall x ensures Within(times + [now], x, window) <= Bound(max) {
      assert (times + [now])[..|times|] == times;
      if now <= x + window {
        WithinRecent(times, x, now, window);
      }
    }
  }

  /** What the limiter keeps for one key, next to all its grants and its latest call. */
  ghost predicate KeyOk(deque: seq<real>, history: seq<real>, at: real, window: real, max: int) {
    && Tail(deque, history, at, window)
    && (forall i :: 0 <= i < |history| ==> history[i] <= at)
    && Sorted(history)
    && Paced(history, window, max)
  }

  /** Dropping a first element that is out of the window leaves an end of the history. */
  lemma PopKeepsTail(deque: seq<real>, history: seq<real>, at: real, window: real)
    requires Tail(deque, history, at, window) && deque != [] && at - deque[0] > window
    ensures Tail(deque[1..], history, at, window)
  {
    assert deque[0] == history[|history| - |deque|];
  }

  /** What is left once the first element is in the window is in the window. */
  lemma RestIsRecent(deque: seq<real>, history: seq<real>, at: real, window: real)
    requires Tail(deque, history, at, window) && Sorted(history)
    requires deque == [] || at - deque[0] <= window
    ensures forall i :: 0 <= i < |deque| ==> at - deque[i] <= window
  {
    forall i | 0 <= i < |deque| ensures at - deque[i] <= window {
      var lost := |history| - |deque|;
      assert deque[i] == history[lost + i] && deque[0] == history[lost];
      assert i > 0 ==> history[lost] <= history[lost + i];
    }
  }

  lemma PacedAtFirst(window: real, max: int)
    ensures Paced([], window, max)
  {
  }

  /** A later call finds the key as it was left, and a refused call leaves it so. */
  lemma KeyLater(deque: seq<real>, history: seq<real>, before: real, now: real, window: real, max: int)
    requires KeyOk(deque, history, before, window, max) && before <= now
    ensures KeyOk(deque, history, now, window, max)
  {
    hide Paced;
  }

  lemma GrantKeepsKey(deque: seq<real>, history: seq<real>, now: real, window: real, max: int)
    requires KeyOk(deque, history, now, window, max) && Recent(history, now, window) < max
    ensures KeyOk(deque + [now], history + [now], now, window, max)
  {
    GrantKeepsPace(history, now, window, max);
    hide Paced, Recent;
    EndExtends(deque, history, now);
  }

  ghost predicate AllOk(hits: map<string, seq<real>>, grants: map<string, seq<real>>,
                        lastCall: map<string, real>, window: real, max: int) {
    && hits.Keys == grants.Keys == lastCall.Keys
    && forall key :: key in hits ==> KeyOk(hits[key], grants[key], lastCall[key], window, max)
  }

  lemma StoreKeepsAll(hits: map<string, seq<real>>, grants: map<string, seq<real>>, lastCall: map<string, real>,
                      window: real, max: int, key: string, deque: seq<real>, history: seq<real>, now: real)
    requires AllOk(hits, grants, lastCall, window, max) && KeyOk(deque, history, now, window, max)
    ensures AllOk(hits[key := deque], grants[key := history], lastCall[key := now], window, max)
  {
    hide KeyOk;
  }

  class RateLimiter {
    const max: int
    const window: real
    var hits: map<string, seq<real>>

    /** Every grant ever, and the latest call, of each key. */
    ghost var grants: map<string, seq<real>>
    ghost var lastCall: map<string, real>

    ghost function History(key: string): seq<real>
      reads this
    {
      if key in grants then grants[key] else []
    }

    ghost predicate Valid()
      reads this
    {
      AllOk(hits, grants, lastCall, window, max)
    }

    constructor (max: int, window: real)
      ensures Valid() && this.max == max && this.window == window && grants == map[]
    {
      this.max, this.window := max, window;
      hits, grants, lastCall := map[], map[], map[];
    }

    /** A call is granted exactly when fewer than `max` of the key's grants, over its entire history,
        are at most one window old. */
    method Allow(key: string, now: real) returns (granted: bool)
      requires Valid()
      requires key in lastCall ==> lastCall[key] <= now
      modifies this
      ensures Valid()
      ensures granted <==> Recent(old(History(key)), now, window) < max
      ensures grants == old(grants[key := if granted then History(key) + [now] else History(key)])
      ensures lastCall == old(lastCall)[key := now]
    {
      hide AllOk, KeyOk, Recent;
      ghost var history := History(key);
      var deque := if key in hits then hits[key] else [];
      FindsKey(key, now);
      deque := PopOld(deque, history, now);
      granted := |deque| < max;
      if granted {
        GrantKeepsKey(deque, history, now, window, max);
        deque := deque + [now];
        history := history + [now];
      }
      StoreKeepsAll(hits, grants, lastCall, window, max, key, deque, history, now);
      hits := hits[key := deque];
      grants := grants[key := history];
      lastCall := lastCall[key := now];
    }

    lemma FindsKey(key: string, now: real)
      requires Valid()
      requires key in lastCall ==> lastCall[key] <= now
      ensures KeyOk(if key in hits then hits[key] else [], History(key), now, window, max)
    {
      if key in hits {
        KeyLater(hits[key], grants[key], lastCall[key], now, window, max);
      } else {
        PacedAtFirst(window, max);
      }
    }

    method PopOld(deque: seq<real>, ghost history: seq<real>, now: real) returns (rest: seq<real>)
      requires KeyOk(deque, history, now, window, max)
      ensures KeyOk(rest, history, now, window, max)
      ensures |rest| == Recent(history, now, window)
    {
      hide Paced, Tail, Sorted, Recent;
      rest := deque;
      while rest != [] && now - rest[0] > window
        invariant KeyOk(rest, history, now, window, max)
        decreases |rest|
      {
        PopKeepsTail(rest, history, now, window);
        rest := rest[1..];
      }
      RestIsRecent(rest, history, now, window);
      DequeCounts(rest, history, now, window);
    }

    /** In every reachable state every closed interval of one window's length holds at most `max`
        grants of each key. */
    lemma IntervalsAreBounded(key: string, x: real)
      requires Valid()
      ensures |Hits(History(key), x, window)| <= Bound(max)
    {
      WithinCounts(History(key), x, window);
    }
  }
}
