/** The per-destination sliding-window limit on forwarded HTTP requests. */
module RateLimiter {
  import opened Prelude

  type Target = string

  /** Expired time stamps are dropped from the front of the queue. */
  function Evict(queue: seq<int>, now: int, window: nat): seq<int> {
    if queue != [] && now - queue[0] > window then Evict(queue[1..], now, window) else queue
  }

  function QueueOf(rates: map<Target, seq<int>>, target: Target): seq<int> {
    if target in rates then rates[target] else []
  }

  datatype Decision = Decision(rates: map<Target, seq<int>>, admitted: bool)

  /** The comparison is on the length cast to 32 bits, as the code has it; no limit is set by 0. */
  function Decide(rates: map<Target, seq<int>>, limit: nat, window: nat, target: Target, now: int): Decision {
    if limit == 0 then Decision(rates, true)
    else
      var queue := Evict(QueueOf(rates, target), now, window);
      if |queue| % 0x1_0000_0000 >= limit then Decision(rates[target := queue], false)
      else Decision(rates[target := queue + [now]], true)
  }

  datatype Request = Request(target: Target, now: int)

  datatype State = State(rates: map<Target, seq<int>>, accepted: seq<Request>)

  function Next(limit: nat, window: nat, s: State, r: Request): State {
    var d := Decide(s.rates, limit, window, r.target, r.now);
    State(d.rates, if d.admitted then s.accepted + [r] else s.accepted)
  }

  function Run(limit: nat, window: nat, requests: seq<Request>): State {
    if requests == [] then State(map[], [])
    else Next(limit, window, Run(limit, window, Front(requests)), Last(requests))
  }

  // ---- The specification: accepted time stamps of one destination ------------------------------

  function Times(accepted: seq<Request>, target: Target): seq<int> {
    if accepted == [] then []
    else Times(Front(accepted), target) + if Last(accepted).target == target then [Last(accepted).now] else []
  }

  /** Those at most `window` old. */
  function Recent(times: seq<int>, now: int, window: nat): seq<int> {
    Filter(times, (t: int) => now - t <= window)
  }

  ghost predicate Sorted(times: seq<int>) {
    forall i, j :: 0 <= i < j < |times| ==> times[i] <= times[j]
  }

  ghost predicate Monotone(requests: seq<Request>) {
    forall i, j :: 0 <= i < j < |requests| ==> requests[i].now <= requests[j].now
  }

  /** `queue` is what is left of `times` after dropping entries too old at time `now`. */
  ghost predicate Remainder(queue: seq<int>, times: seq<int>, now: int, window: nat) {
    && |queue| <= |times|
    && queue == times[|times| - |queue|..]
    && forall i :: 0 <= i < |times| - |queue| ==> now - times[i] > window
  }

  /** On a sorted list dropping from the front is the same as keeping the recent ones. */
  lemma {:induction false} EvictKeepsRecent(queue: seq<int>, times: seq<int>, now: int, window: nat)
    requires Sorted(times)
    requires Remainder(queue, times, now, window)
    ensures Remainder(Evict(queue, now, window), times, now, window)
    ensures Evict(queue, now, window) == Recent(times, now, window)
    decreases |queue|
  {
    var dropped := |times| - |queue|;
    if queue != [] && now - queue[0] > window {
      assert queue[0] == times[dropped] && queue[1..] == times[dropped + 1..];
      EvictKeepsRecent(queue[1..], times, now, window);
    } else {
      assert forall i :: dropped <= i < |times| ==> times[i] == queue[i - dropped];
      RecentIsSuffix(times, now, window, dropped);
    }
  }

  lemma {:induction false} RecentIsSuffix(times: seq<int>, now: int, window: nat, dropped: nat)
    requires dropped <= |times|
    requires forall i :: 0 <= i < dropped ==> now - times[i] > window
    requires forall i :: dropped <= i < |times| ==> now - times[i] <= window
    ensures Recent(times, now, window) == times[dropped..]
    decreases |times|
  {
    if times != [] {
      var last := |times| - 1;
      if dropped == |times| {
        RecentIsSuffix(Front(times), now, window, dropped - 1);
        assert Front(times)[dropped - 1..] == [] && times[dropped..] == [];
      } else {
        RecentIsSuffix(Front(times), now, window, dropped);
        assert times[dropped..] == Front(times)[dropped..] + [times[last]];
      }
    }
  }

  // ---- Every run -------------------------------------------------------------------------------------

  /** Accepted requests a full allowance apart are more than a window apart. */
  ghost predicate Spaced(times: seq<int>, limit: nat, window: nat) {
    forall i, j :: 0 <= i < |times| && j == i + limit < |times| ==> times[j] - times[i] > window
  }

  ghost predicate QueueOk(s: State, limit: nat, window: nat, now: int, target: Target) {
    var queue, times := QueueOf(s.rates, target), Times(s.accepted, target);
    && Sorted(times)
    && (forall i :: 0 <= i < |times| ==> times[i] <= now)
    && Remainder(queue, times, now, window)
    && |queue| <= limit
    && Spaced(times, limit, window)
  }

  ghost predicate Inv(s: State, limit: nat, window: nat, now: int) {
    forall target :: QueueOk(s, limit, window, now, target)
  }

  lemma LaterRemainder(queue: seq<int>, times: seq<int>, now: int, later: int, window: nat)
    requires Remainder(queue, times, now, window) && now <= later
    ensures Remainder(queue, times, later, window)
  {
  }

  lemma TimesSnoc(accepted: seq<Request>, r: Request, target: Target)
    ensures Times(accepted + [r], target) == Times(accepted, target) + if r.target == target then [r.now] else []
  {
    assert Front(accepted + [r]) == accepted;
  }

  /**
    * After eviction the queue of a destination is exactly its accepted time stamps at most a window
    * old, and the request is refused exactly when there are `limit` of them already.
    */
  lemma RefusedIff(s: State, limit: nat, window: nat, now: int, r: Request)
    requires 0 < limit < 0x1_0000_0000
    requires Inv(s, limit, window, now) && now <= r.now
    ensures var recent := Recent(Times(s.accepted, r.target), r.now, window);
            && Evict(QueueOf(s.rates, r.target), r.now, window) == recent
            && |recent| <= limit
            && (!Decide(s.rates, limit, window, r.target, r.now).admitted <==> |recent| == limit)
  {
    hide Times, Evict, Recent;
    var queue, times := QueueOf(s.rates, r.target), Times(s.accepted, r.target);
    assert QueueOk(s, limit, window, now, r.target);
    LaterRemainder(queue, times, now, r.now, window);
    EvictKeepsRecent(queue, times, r.now, window);
    EvictShrinks(queue, r.now, window);
  }

  lemma {:induction false} EvictShrinks(queue: seq<int>, now: int, window: nat)
    ensures |Evict(queue, now, window)| <= |queue|
  {
    if queue != [] && now - queue[0] > window {
      EvictShrinks(queue[1..], now, window);
    }
  }

  /** Accepting one more request, in terms of the two lists only. */
  lemma AcceptKeeps(queue: seq<int>, times: seq<int>, limit: nat, window: nat, now: int)
    requires Sorted(times) && Spaced(times, limit, window)
    requires forall i :: 0 <= i < |times| ==> times[i] <= now
    requires Remainder(queue, times, now, window) && |queue| < limit
    ensures Sorted(times + [now]) && Spaced(times + [now], limit, window)
    ensures Remainder(queue + [now], times + [now], now, window)
  {
    var times' := times + [now];
    forall i, j | 0 <= i < |times'| && j == i + limit < |times'| ensures times'[j] - times'[i] > window {
      if j == |times| {
        assert i < |times| - |queue|;
      }
    }
    assert queue + [now] == times'[|times'| - |queue| - 1..];
  }

  lemma TargetKeepsOk(s: State, limit: nat, window: nat, now: int, r: Request)
    requires 0 < limit < 0x1_0000_0000
    requires Inv(s, limit, window, now) && now <= r.now
    ensures QueueOk(Next(limit, window, s, r), limit, window, r.now, r.target)
  {
    hide Times, Evict, Remainder, Sorted, Spaced, Recent;
    var queue, times := QueueOf(s.rates, r.target), Times(s.accepted, r.target);
    assert QueueOk(s, limit, window, now, r.target);
    RefusedIff(s, limit, window, now, r);
    LaterRemainder(queue, times, now, r.now, window);
    EvictKeepsRecent(queue, times, r.now, window);
    TimesSnoc(s.accepted, r, r.target);
    var kept := Evict(queue, r.now, window);
    if |kept| < limit {
      AcceptKeeps(kept, times, limit, window, r.now);
    }
  }

  lemma OtherKeepsOk(s: State, limit: nat, window: nat, now: int, r: Request, target: Target)
    requires Inv(s, limit, window, now) && now <= r.now
    requires target != r.target
    ensures QueueOk(Next(limit, window, s, r), limit, window, r.now, target)
  {
    hide Times, Evict, Remainder, Sorted, Spaced;
    assert QueueOk(s, limit, window, now, target);
    TimesSnoc(s.accepted, r, target);
    assert Times(s.accepted + [r], target) == Times(s.accepted, target);
    LaterRemainder(QueueOf(s.rates, target), Times(s.accepted, target), now, r.now, window);
  }

  lemma {:induction false} EveryRunKeepsInv(limit: nat, window: nat, requests: seq<Request>, now: int)
    requires 0 < limit < 0x1_0000_0000
    requires Monotone(requests)
    requires requests != [] ==> Last(requests).now <= now
    ensures Inv(Run(limit, window, requests), limit, window, now)
    decreases |requests|
  {
    var s := Run(limit, window, requests);
    if requests == [] {
      assert forall target :: QueueOk(s, limit, window, now, target);
    } else {
      var before, r := Run(limit, window, Front(requests)), Last(requests);
      assert |requests| > 1 ==> Last(Front(requests)) == requests[|requests| - 2];
      EveryRunKeepsInv(limit, window, Front(requests), r.now);
      forall target ensures QueueOk(s, limit, window, now, target) {
        if target == r.target {
          TargetKeepsOk(before, limit, window, r.now, r);
        } else {
          OtherKeepsOk(before, limit, window, r.now, r, target);
        }
        LaterRemainder(QueueOf(s.rates, target), Times(s.accepted, target), r.now, now, window);
      }
    }
  }

  /** The next request of any run is refused exactly when `limit` requests were accepted within the window before it. */
  lemma EveryRunRefusesIff(limit: nat, window: nat, requests: seq<Request>, r: Request)
    requires 0 < limit < 0x1_0000_0000
    requires Monotone(requests) && (requests != [] ==> Last(requests).now <= r.now)
    ensures var accepted := Run(limit, window, requests).accepted;
            Run(limit, window, requests + [r]).accepted ==
            if |Recent(Times(accepted, r.target), r.now, window)| == limit then accepted else accepted + [r]
  {
    hide Times, Recent, Evict;
    EveryRunKeepsInv(limit, window, requests, r.now);
    RefusedIff(Run(limit, window, requests), limit, window, r.now, r);
    assert Front(requests + [r]) == requests;
  }

  /** Over every run on a monotone clock, no window holds more than `limit` accepted requests to one destination. */
  lemma NoWindowExceedsLimit(limit: nat, window: nat, requests: seq<Request>, target: Target, i: nat, j: nat)
    requires 0 < limit < 0x1_0000_0000
    requires Monotone(requests)
    requires i < j < |Times(Run(limit, window, requests).accepted, target)|
    ensures var times := Times(Run(limit, window, requests).accepted, target);
            && (j - i >= limit ==> times[j] - times[i] > window)
            && (times[j] - times[i] <= window ==> j - i + 1 <= limit)
  {
    hide Run, Times;
    var s := Run(limit, window, requests);
    var times := Times(s.accepted, target);
    var now := if requests == [] then 0 else Last(requests).now;
    EveryRunKeepsInv(limit, window, requests, now);
    assert QueueOk(s, limit, window, now, target);
    if j - i >= limit {
      assert times[i + limit] - times[i] > window;
    }
  }

  lemma ZeroLimitAdmits(window: nat, s: State, r: Request)
    ensures Next(0, window, s, r) == State(s.rates, s.accepted + [r])
  {
    hide Evict;
  }

  /** A limit of zero is no limit: every request passes, in whatever order they come, and no queue is kept. */
  lemma {:induction false} ZeroLimitAcceptsAll(window: nat, requests: seq<Request>)
    ensures Run(0, window, requests) == State(map[], requests)
  {
    hide Run, Next;
    if requests == [] {
      RunNone(0, window);
    } else {
      ZeroLimitAcceptsAll(window, Front(requests));
      RunOne(0, window, Front(requests), Last(requests));
      ZeroLimitAdmits(window, State(map[], Front(requests)), Last(requests));
      assert requests == Front(requests) + [Last(requests)];
    }
  }

  // ---- Time stamps out of order --------------------------------------------------------------------------

  // The time is read before the lock is taken, so requests can be handled in another order than
  // their time stamps.

  /** No request is stamped more than `skew` before one handled earlier. */
  ghost predicate Skewed(requests: seq<Request>, skew: nat) {
    forall i, j :: 0 <= i < j < |requests| ==> requests[i].now - requests[j].now <= skew
  }

  /** The latest time stamp. */
  function Peak(requests: seq<Request>): int
    requires requests != []
  {
    if |requests| == 1 then requests[0].now else Max(Peak(Front(requests)), Last(requests).now)
  }

  lemma {:induction false} PeakIsStamp(requests: seq<Request>) returns (i: nat)
    requires requests != []
    ensures i < |requests| && requests[i].now == Peak(requests)
  {
    if |requests| == 1 {
      i := 0;
    } else {
      i := PeakIsStamp(Front(requests));
      if Last(requests).now > Peak(Front(requests)) {
        i := |requests| - 1;
      }
    }
  }

  /** Accepted requests a full allowance apart are more than `gap` apart. */
  ghost predicate SpacedBy(times: seq<int>, limit: nat, gap: int) {
    forall i, j :: 0 <= i < j < |times| && j - i >= limit ==> times[j] - times[i] > gap
  }

  ghost predicate LooseOk(s: State, limit: nat, window: nat, skew: nat, peak: int, target: Target) {
    var queue, times := QueueOf(s.rates, target), Times(s.accepted, target);
    && Remainder(queue, times, peak, window)
    && |queue| <= limit
    && SpacedBy(times, limit, window - skew)
  }

  lemma {:induction false} EvictLoosely(queue: seq<int>, times: seq<int>, peak: int, now: int, window: nat)
    requires Remainder(queue, times, peak, window) && now <= peak
    ensures Remainder(Evict(queue, now, window), times, peak, window)
    decreases |queue|
  {
    var dropped := |times| - |queue|;
    if queue != [] && now - queue[0] > window {
      assert queue[0] == times[dropped] && queue[1..] == times[dropped + 1..];
      EvictLoosely(queue[1..], times, peak, now, window);
    }
  }

  lemma AcceptLoosely(queue: seq<int>, times: seq<int>, limit: nat, window: nat, skew: nat, peak: int, now: int)
    requires Remainder(queue, times, peak, window) && |queue| < limit
    requires SpacedBy(times, limit, window - skew) && peak - now <= skew
    ensures SpacedBy(times + [now], limit, window - skew)
    ensures Remainder(queue + [now], times + [now], peak, window)
  {
    var times' := times + [now];
    forall i, j | 0 <= i < j < |times'| && j - i >= limit ensures times'[j] - times'[i] > window - skew {
      if j == |times| {
        assert i < |times| - |queue|;
      }
    }
    assert queue + [now] == times'[|times'| - |queue| - 1..];
  }

  lemma NextKeepsLoose(s: State, limit: nat, window: nat, skew: nat, peak: int, r: Request, target: Target)
    requires 0 < limit < 0x1_0000_0000
    requires LooseOk(s, limit, window, skew, peak, target) && peak - r.now <= skew
    ensures LooseOk(Next(limit, window, s, r), limit, window, skew, Max(peak, r.now), target)
  {
    hide Times, Evict, Remainder, SpacedBy;
    var queue, times, later := QueueOf(s.rates, target), Times(s.accepted, target), Max(peak, r.now);
    LaterRemainder(queue, times, peak, later, window);
    TimesSnoc(s.accepted, r, target);
    if target == r.target {
      EvictLoosely(queue, times, later, r.now, window);
      EvictShrinks(queue, r.now, window);
      var kept := Evict(queue, r.now, window);
      if |kept| < limit {
        AcceptLoosely(kept, times, limit, window, skew, later, r.now);
      }
    } else {
      assert times + [] == times;
    }
  }

  lemma {:induction false} EveryRunKeepsLoose(
    limit: nat, window: nat, skew: nat, requests: seq<Request>, target: Target)
    requires 0 < limit < 0x1_0000_0000 && Skewed(requests, skew) && requests != []
    ensures LooseOk(Run(limit, window, requests), limit, window, skew, Peak(requests), target)
  {
    hide LooseOk, Next;
    var before, r := Front(requests), Last(requests);
    if before == [] {
      NothingLoose(limit, window, skew, r.now, target);
      NextKeepsLoose(State(map[], []), limit, window, skew, r.now, r, target);
    } else {
      EveryRunKeepsLoose(limit, window, skew, before, target);
      var i := PeakIsStamp(before);
      assert requests[i].now - requests[|requests| - 1].now <= skew;
      NextKeepsLoose(Run(limit, window, before), limit, window, skew, Peak(before), r, target);
    }
  }

  lemma NothingLoose(limit: nat, window: nat, skew: nat, peak: int, target: Target)
    ensures LooseOk(State(map[], []), limit, window, skew, peak, target)
  {
  }

  /**
    * If no request is stamped more than `skew` before one handled earlier, accepted requests a full
    * allowance apart are more than the window less the skew apart.
    */
  lemma SpacingUnderSkew(limit: nat, window: nat, skew: nat, requests: seq<Request>, target: Target, i: nat, j: nat)
    requires 0 < limit < 0x1_0000_0000 && Skewed(requests, skew)
    requires i < j < |Times(Run(limit, window, requests).accepted, target)| && j - i >= limit
    ensures var times := Times(Run(limit, window, requests).accepted, target); times[j] - times[i] > window - skew
  {
    hide Times, Run;
    NothingAccepted(limit, window, target);
    EveryRunKeepsLoose(limit, window, skew, requests, target);
  }

  lemma NothingAccepted(limit: nat, window: nat, target: Target)
    ensures Times(Run(limit, window, []).accepted, target) == []
  {
  }

  // ---- Exactly when the limit is kept ----------------------------------------------------------------------

  /** With a limit of one the queue is the last accepted time stamp. */
  ghost predicate SingleOk(s: State, window: nat, target: Target) {
    var times := Times(s.accepted, target);
    && QueueOf(s.rates, target) == (if times == [] then [] else [Last(times)])
    && SpacedBy(times, 1, window)
  }

  lemma NextKeepsSingle(s: State, window: nat, r: Request, target: Target)
    requires SingleOk(s, window, target)
    ensures SingleOk(Next(1, window, s, r), window, target)
  {
    hide Times, Evict, SpacedBy;
    var queue, times := QueueOf(s.rates, target), Times(s.accepted, target);
    TimesSnoc(s.accepted, r, target);
    if target == r.target {
      EvictOne(queue, r.now, window);
      if times == [] || r.now - Last(times) > window {
        SpacedSnoc(times, window, r.now);
        assert [] + [r.now] == [r.now];
      }
    } else {
      assert times + [] == times;
    }
  }

  lemma SpacedSnoc(times: seq<int>, window: nat, now: int)
    requires SpacedBy(times, 1, window)
    requires times == [] || now - Last(times) > window
    ensures SpacedBy(times + [now], 1, window)
  {
    assert forall i :: 0 <= i < |times| ==> times[i] <= Last(times);
  }

  lemma EvictOne(queue: seq<int>, now: int, window: nat)
    requires |queue| <= 1
    ensures Evict(queue, now, window) == if queue != [] && now - queue[0] > window then [] else queue
  {
  }

  /** A limit of one keeps its full window in whatever order requests are handled. */
  lemma {:induction false} SingleLimitKept(window: nat, requests: seq<Request>, target: Target)
    ensures SingleOk(Run(1, window, requests), window, target)
  {
    hide Next;
    if requests != [] {
      SingleLimitKept(window, Front(requests), target);
      NextKeepsSingle(Run(1, window, Front(requests)), window, Last(requests), target);
    }
  }

  function At(target: Target, n: nat): (requests: seq<Request>)
    ensures |requests| == n
    ensures forall i :: 0 <= i < n ==> requests[i] == Request(target, 0)
  {
    seq(n, _ => Request(target, 0))
  }

  function Zeros(n: nat): (times: seq<int>)
    ensures |times| == n
    ensures forall i :: 0 <= i < n ==> times[i] == 0
  {
    seq(n, _ => 0)
  }

  /** A full allowance at time 0, one request at `peak`, and one stamped `last` that is handled after it. */
  function Late(limit: nat, target: Target, peak: int, last: int): seq<Request> {
    At(target, limit) + [Request(target, peak)] + [Request(target, last)]
  }

  lemma AdmitsOne(limit: nat, window: nat, queue: seq<int>, kept: seq<int>, accepted: seq<Request>, r: Request)
    requires kept == Evict(queue, r.now, window) && |kept| < limit < 0x1_0000_0000
    ensures Next(limit, window, State(map[r.target := queue], accepted), r) ==
            State(map[r.target := kept + [r.now]], accepted + [r])
  {
    hide Evict;
  }

  lemma {:induction false} EvictZeros(n: nat, peak: int, window: nat)
    requires peak > window
    ensures Evict(Zeros(n), peak, window) == []
  {
    if n > 0 {
      EvictZeros(n - 1, peak, window);
      assert Zeros(n)[1..] == Zeros(n - 1);
    }
  }

  /** The allowance is used up one request at a time. */
  lemma {:induction false} AllowanceUsed(limit: nat, window: nat, target: Target, n: nat)
    requires 0 < n <= limit < 0x1_0000_0000
    ensures Run(limit, window, At(target, n)) == State(map[target := Zeros(n)], At(target, n))
  {
    hide Run;
    var r := Request(target, 0);
    assert At(target, n) == At(target, n - 1) + [r];
    RunOne(limit, window, At(target, n - 1), r);
    if n == 1 {
      RunNone(limit, window);
      assert At(target, 0) == [] && [] + [0] == Zeros(1) && [] + [r] == [r];
    } else {
      AllowanceUsed(limit, window, target, n - 1);
      AdmitsOne(limit, window, Zeros(n - 1), Zeros(n - 1), At(target, n - 1), r);
      assert Zeros(n - 1) + [0] == Zeros(n);
    }
  }

  lemma AllLateAccepted(limit: nat, window: nat, target: Target, peak: int, last: int)
    requires 2 <= limit < 0x1_0000_0000 && peak > window && last - peak <= window
    ensures Run(limit, window, Late(limit, target, peak, last)).accepted == Late(limit, target, peak, last)
  {
    hide Run, Evict, Next;
    var zeros := At(target, limit);
    var p, l := Request(target, peak), Request(target, last);
    AllowanceUsed(limit, window, target, limit);
    EvictZeros(limit, peak, window);
    RunOne(limit, window, zeros, p);
    AdmitsOne(limit, window, Zeros(limit), [], zeros, p);
    assert [] + [peak] == [peak];
    RunOne(limit, window, zeros + [p], l);
    EvictOne([peak], last, window);
    AdmitsOne(limit, window, [peak], [peak], zeros + [p], l);
  }

  lemma {:induction false} TimesOfOne(requests: seq<Request>, target: Target)
    requires forall i :: 0 <= i < |requests| ==> requests[i].target == target
    ensures |Times(requests, target)| == |requests|
    ensures forall i :: 0 <= i < |requests| ==> Times(requests, target)[i] == requests[i].now
  {
    if requests != [] {
      TimesOfOne(Front(requests), target);
    }
  }

  /** The run breaks the spacing by exactly its delay: requests 1 and `limit` + 1 are only `last` apart. */
  lemma LateSpacing(limit: nat, window: nat, target: Target, peak: int, last: int)
    requires 2 <= limit < 0x1_0000_0000 && peak > window && last - peak <= window
    ensures var times := Times(Run(limit, window, Late(limit, target, peak, last)).accepted, target);
            |times| == limit + 2 && times[limit + 1] - times[1] == last
  {
    hide Run, Times;
    AllLateAccepted(limit, window, target, peak, last);
    TimesOfOne(Late(limit, target, peak, last), target);
  }

  lemma LateIsSkewed(limit: nat, target: Target, peak: int, last: int, skew: nat)
    requires 0 <= peak && peak - last <= skew && -last <= skew
    ensures Skewed(Late(limit, target, peak, last), skew)
  {
  }

  /**
    * The full window is kept in every run of requests delayed by at most `skew` exactly when nothing
    * is delayed or the limit is one.
    */
  lemma LimitKeptIff(limit: nat, window: nat, skew: nat, target: Target)
    requires 0 < limit < 0x1_0000_0000
    ensures (forall requests :: Skewed(requests, skew) ==>
               SpacedBy(Times(Run(limit, window, requests).accepted, target), limit, window))
            <==> skew == 0 || limit == 1
  {
    hide Run, Times, Skewed;
    if skew == 0 || limit == 1 {
      forall requests | Skewed(requests, skew)
        ensures SpacedBy(Times(Run(limit, window, requests).accepted, target), limit, window)
      {
        if limit == 1 {
          SingleLimitKept(window, requests, target);
        } else if requests == [] {
          NothingAccepted(limit, window, target);
        } else {
          EveryRunKeepsLoose(limit, window, skew, requests, target);
        }
      }
    } else {
      var requests := Late(limit, target, window + 1, window);
      LateIsSkewed(limit, target, window + 1, window, skew);
      LateSpacing(limit, window, target, window + 1, window);
      var times := Times(Run(limit, window, requests).accepted, target);
      assert !(times[limit + 1] - times[1] > window);
    }
  }

  /** For a limit of two or more the window less the skew is the best bound there is. */
  lemma SkewBoundIsTight(limit: nat, window: nat, skew: nat, target: Target)
    requires 2 <= limit < 0x1_0000_0000
    ensures var requests := Late(limit, target, window + 1, window + 1 - skew);
            var times := Times(Run(limit, window, requests).accepted, target);
            && Skewed(requests, skew)
            && |times| == limit + 2 && times[limit + 1] - times[1] == window - skew + 1
  {
    hide Run, Times, Skewed, Late;
    LateIsSkewed(limit, target, window + 1, window + 1 - skew, skew);
    LateSpacing(limit, window, target, window + 1, window + 1 - skew);
  }

  /** One such run: handled in the order 0, 0, 100, 1, three requests in one unit of time pass a limit of two in ten. */
  lemma OutOfOrderExceedsLimit(target: Target)
    ensures Late(2, target, 100, 1) ==
            [Request(target, 0), Request(target, 0), Request(target, 100), Request(target, 1)]
    ensures Run(2, 10, Late(2, target, 100, 1)).accepted == Late(2, target, 100, 1)
  {
    AllLateAccepted(2, 10, target, 100, 1);
  }

  lemma RunNone(limit: nat, window: nat)
    ensures Run(limit, window, []) == State(map[], [])
  {
  }

  lemma RunOne(limit: nat, window: nat, requests: seq<Request>, r: Request)
    ensures Run(limit, window, requests + [r]) == Next(limit, window, Run(limit, window, requests), r)
  {
    assert Front(requests + [r]) == requests;
  }

  // ---- The code -----------------------------------------------------------------------------------------

  class HttpRateLimiter {
    var rates: map<Target, seq<int>>

    constructor ()
      ensures rates == map[]
    {
      rates := map[];
    }

    method Admit(limit: nat, window: nat, target: Target, now: int) returns (admitted: bool)
      modifies this
      ensures Decision(rates, admitted) == Decide(old(rates), limit, window, target, now)
      ensures limit == 0 ==> admitted && rates == old(rates)
      ensures limit != 0 ==>
                && rates.Keys == old(rates).Keys + {target}
                && (forall other :: other in old(rates) && other != target ==> rates[other] == old(rates)[other])
                && (if admitted then rates[target] != [] && Last(rates[target]) == now
                    else |rates[target]| >= limit)
    {
      if limit == 0 {
        return true;
      }
      if target !in rates {
        rates := rates[target := []];
      }
      var timestamps := rates[target];
      while timestamps != [] && now - timestamps[0] > window
        invariant Evict(timestamps, now, window) == Evict(QueueOf(old(rates), target), now, window)
        decreases |timestamps|
      {
        timestamps := timestamps[1..];
      }
      if |timestamps| % 0x1_0000_0000 >= limit {
        rates := rates[target := timestamps];
        return false;
      }
      rates := rates[target := timestamps + [now]];
      return true;
    }
  }
}
