/** The agent's relay list, its failover, and the reconnect loop that drives it. */
module RelayFailover {
  import opened Prelude

  /** `n` relays, the one in use, and which have failed since the marks were last cleared. */
  datatype Relays = Relays(current: nat, failed: seq<bool>)

  function NoneFailed(n: nat): (failed: seq<bool>)
    ensures |failed| == n
    ensures forall i :: 0 <= i < n ==> !failed[i]
  {
    seq(n, _ => false)
  }

  function Fresh(n: nat): Relays {
    Relays(0, NoneFailed(n))
  }

  /** The first relay after `current`, going round, that has not failed; `None` if there is none. */
  function FirstHealthy(failed: seq<bool>, current: nat, offset: nat): (r: Option<nat>)
    requires offset >= 1
    ensures r.Some? ==> r.value < |failed| && !failed[r.value]
    decreases |failed| + 1 - offset
  {
    if offset > |failed| then None
    else if !failed[(current + offset) % |failed|] then Some((current + offset) % |failed|)
    else FirstHealthy(failed, current, offset + 1)
  }

  predicate FailedAt(failed: seq<bool>, current: nat, k: nat)
    requires failed != []
  {
    failed[(current + k) % |failed|]
  }

  /** It is the first in ring order, and there is none exactly when all of them have failed. */
  lemma {:induction false} FirstHealthyIsFirst(failed: seq<bool>, current: nat, offset: nat)
    requires offset >= 1
    ensures match FirstHealthy(failed, current, offset)
            case None => forall k :: offset <= k <= |failed| ==> FailedAt(failed, current, k)
            case Some(r) =>
              exists k :: offset <= k <= |failed| && r == (current + k) % |failed| && !FailedAt(failed, current, k)
                          && forall j :: offset <= j < k ==> FailedAt(failed, current, j)
    decreases |failed| + 1 - offset
  {
    if offset <= |failed| {
      if FailedAt(failed, current, offset) {
        FirstHealthyIsFirst(failed, current, offset + 1);
        if FirstHealthy(failed, current, offset).Some? {
          var r := FirstHealthy(failed, current, offset).value;
          var k :| offset + 1 <= k <= |failed| && r == (current + k) % |failed| && !FailedAt(failed, current, k)
                   && forall j :: offset + 1 <= j < k ==> FailedAt(failed, current, j);
          assert forall j :: offset <= j < k ==> FailedAt(failed, current, j);
        }
      } else {
        assert FirstHealthy(failed, current, offset) == Some((current + offset) % |failed|);
      }
    }
  }

  /** Mark the relay in use as failed and move on; when all have failed, clear the marks and start over. */
  function Failover(s: Relays): Relays {
    var failed := if s.current < |s.failed| then s.failed[s.current := true] else s.failed;
    match FirstHealthy(failed, s.current, 1)
    case Some(next) => Relays(next, failed)
    case None => Fresh(|failed|)
  }

  // ---- Round the ring -----------------------------------------------------------------------------

  /** Index `x` on a ring of `n`, for one lap at most. */
  function Wrap(x: nat, n: nat): nat {
    if x < n then x else x - n
  }

  /** The number of steps from `start` on to `i`. */
  function Distance(start: nat, i: nat, n: nat): nat
    requires start < n && i < n
  {
    if i >= start then i - start else i + n - start
  }

  /** `k` relays have failed since the marks were cleared: `start` and those after it, in order. */
  ghost predicate At(s: Relays, start: nat, k: nat) {
    var n := |s.failed|;
    && start < n && k < n
    && s.current == Wrap(start + k, n)
    && forall i :: 0 <= i < n ==> (s.failed[i] <==> Distance(start, i, n) < k)
  }

  /** After failure number `k`, the next relay of the ring, or a cleared list at relay 0. */
  lemma FailoverAdvances(s: Relays, start: nat, k: nat)
    requires At(s, start, k)
    ensures At(Failover(s), if k + 1 < |s.failed| then start else 0, if k + 1 < |s.failed| then k + 1 else 0)
    ensures Failover(s).failed == if k + 1 < |s.failed| then s.failed[s.current := true] else NoneFailed(|s.failed|)
  {
    var n := |s.failed|;
    var failed := s.failed[s.current := true];
    MarkExtendsArc(s, start, k);
    if k + 1 < n {
      var next := Wrap(s.current + 1, n);
      NextIndex(s.current, n);
      assert Distance(start, next, n) == k + 1;
      assert FirstHealthy(failed, s.current, 1) == Some(next);
    } else {
      NoneHealthy(failed, s.current, 1);
    }
  }

  lemma AtFacts(s: Relays, start: nat, k: nat)
    requires At(s, start, k)
    ensures start < |s.failed| && k < |s.failed|
    ensures s.current == Wrap(start + k, |s.failed|) < |s.failed|
    ensures !s.failed[s.current]
  {
    assert Distance(start, s.current, |s.failed|) == k;
  }

  lemma MarkExtendsArc(s: Relays, start: nat, k: nat)
    requires At(s, start, k)
    ensures forall i :: 0 <= i < |s.failed| ==>
              (s.failed[s.current := true][i] <==> Distance(start, i, |s.failed|) < k + 1)
  {
  }

  lemma NextIndex(i: nat, n: nat)
    requires i < n
    ensures (i + 1) % n == Wrap(i + 1, n)
  {
    if i + 1 == n {
      assert n % n == 0;
    }
  }

  lemma {:induction false} NoneHealthy(failed: seq<bool>, current: nat, offset: nat)
    requires offset >= 1
    requires forall i :: 0 <= i < |failed| ==> failed[i]
    ensures FirstHealthy(failed, current, offset) == None
    decreases |failed| + 1 - offset
  {
    if offset <= |failed| {
      NoneHealthy(failed, current, offset + 1);
    }
  }

  // ---- Consecutive failures ---------------------------------------------------------------------------

  /** The relays tried by `m` failing sessions in a row. */
  function FailingSessions(s: Relays, m: nat): (tried: seq<nat>)
    ensures |tried| == m
    decreases m
  {
    if m == 0 then [] else [s.current] + FailingSessions(Failover(s), m - 1)
  }

  /** The relay that failing session number `j` from here tries. */
  function TriedAt(start: nat, k: nat, n: nat, j: nat): nat
    requires start < n && k < n && j < 2 * n - k
  {
    if j < n - k then Wrap(start + k + j, n) else j - (n - k)
  }

  lemma {:induction false} SessionsClosedForm(s: Relays, start: nat, k: nat, m: nat, j: nat)
    requires At(s, start, k) && start < |s.failed| && k < |s.failed|
    requires j < m && j < 2 * |s.failed| - k
    ensures FailingSessions(s, m)[j] == TriedAt(start, k, |s.failed|, j)
    decreases m
  {
    hide Failover, At;
    AtFacts(s, start, k);
    if j > 0 {
      FailoverAdvances(s, start, k);
      if k + 1 < |s.failed| {
        SessionsClosedForm(Failover(s), start, k + 1, m - 1, j - 1);
      } else {
        SessionsClosedForm(Failover(s), 0, 0, m - 1, j - 1);
      }
    }
  }

  /** A full batch of failures from a cleared list tries every relay once, in ring order. */
  lemma BatchTriesEachOnce(s: Relays, start: nat, r: nat, j: nat)
    requires At(s, start, 0) && r < |s.failed| && j < |s.failed|
    ensures FailingSessions(s, |s.failed|)[j] == r <==> j == Distance(start, r, |s.failed|)
  {
    SessionsClosedForm(s, start, 0, |s.failed|, j);
  }

  /** Any 2n - 1 failing sessions in a row reach every relay, wherever they start. */
  lemma EveryRelayTried(s: Relays, start: nat, k: nat, r: nat)
    requires At(s, start, k) && r < |s.failed|
    ensures r in FailingSessions(s, 2 * |s.failed| - 1)
  {
    hide FailingSessions;
    var n := |s.failed|;
    AtFacts(s, start, k);
    hide At;
    var j := if k == 0 then Distance(start, r, n) else n - k + r;
    SessionsClosedForm(s, start, k, 2 * n - 1, j);
    assert FailingSessions(s, 2 * n - 1)[j] == r;
  }

  /** One session fewer is not enough: after one failure at the last relay it is not tried again in time. */
  lemma BoundIsTight(s: Relays)
    requires |s.failed| >= 2 && At(s, |s.failed| - 1, 1)
    ensures |s.failed| - 1 !in FailingSessions(s, 2 * |s.failed| - 2)
  {
    var n := |s.failed|;
    var tried := FailingSessions(s, 2 * n - 2);
    forall j | 0 <= j < |tried| ensures tried[j] != n - 1 {
      SessionsClosedForm(s, n - 1, 1, 2 * n - 2, j);
    }
  }

  // ---- The reconnect loop ---------------------------------------------------------------------------------

  datatype Config = Config(maxRetries: nat, reconnectInterval: nat)

  /** `sinceClear` lists the relays that failed since the marks were last cleared. */
  datatype Agent = Agent(relays: Relays, attempt: nat, stopped: bool, sinceClear: seq<nat>, streak: nat)

  function Boot(n: nat): Agent {
    Agent(Fresh(n), 0, false, [], 0)
  }

  /** One turn of the loop, given how the session ends. */
  function Turn(cfg: Config, a: Agent, sessionOk: bool): Agent {
    if a.stopped then a
    else if cfg.maxRetries > 0 && a.attempt >= cfg.maxRetries then a.(stopped := true)
    else if sessionOk then
      Agent(a.relays.(failed := NoneFailed(|a.relays.failed|)), 0, false, [], 0)
    else
      var relays := Failover(a.relays);
      var sinceClear := a.sinceClear + [a.relays.current];
      Agent(relays, a.attempt + 1, false, if |sinceClear| == |relays.failed| then [] else sinceClear, a.streak + 1)
  }

  function RunLoop(cfg: Config, n: nat, sessions: seq<bool>): Agent {
    if sessions == [] then Boot(n) else Turn(cfg, RunLoop(cfg, n, Front(sessions)), Last(sessions))
  }

  ghost predicate LoopInv(cfg: Config, n: nat, a: Agent) {
    && |a.relays.failed| == n
    && (exists start: nat :: At(a.relays, start, |a.sinceClear|))
    && (forall i :: 0 <= i < n ==> (a.relays.failed[i] <==> i in a.sinceClear))
    && !a.relays.failed[a.relays.current]
    && a.attempt == a.streak
    && (cfg.maxRetries > 0 ==> a.attempt <= cfg.maxRetries)
    && (a.stopped ==> cfg.maxRetries > 0 && a.attempt == cfg.maxRetries)
  }

  lemma TurnKeepsInv(cfg: Config, n: nat, a: Agent, sessionOk: bool)
    requires n > 0
    requires LoopInv(cfg, n, a)
    ensures LoopInv(cfg, n, Turn(cfg, a, sessionOk))
  {
    hide Failover, At;
    var start: nat :| At(a.relays, start, |a.sinceClear|);
    var a' := Turn(cfg, a, sessionOk);
    AtFacts(a.relays, start, |a.sinceClear|);
    if a'.stopped {
      assert a'.relays == a.relays && a'.sinceClear == a.sinceClear;
    } else if sessionOk {
      ClearedAt(a.relays.current, n);
      AtFacts(a'.relays, a.relays.current, 0);
    } else {
      FailoverAdvances(a.relays, start, |a.sinceClear|);
      var start' := if |a'.sinceClear| == 0 then 0 else start;
      assert At(a'.relays, start', |a'.sinceClear|);
      AtFacts(a'.relays, start', |a'.sinceClear|);
      assert forall i :: i in a.sinceClear + [a.relays.current] <==> i in a.sinceClear || i == a.relays.current;
    }
  }

  lemma ClearedAt(current: nat, n: nat)
    requires current < n
    ensures At(Relays(current, NoneFailed(n)), current, 0)
  {
  }

  /**
    * However sessions end: the marks are exactly the relays that failed since the last clear, never
    * the one in use; `attempt` counts the failures in a row and stays within the retry limit.
    */
  lemma {:induction false} EveryRunKeepsInv(cfg: Config, n: nat, sessions: seq<bool>)
    requires n > 0
    ensures LoopInv(cfg, n, RunLoop(cfg, n, sessions))
  {
    if sessions == [] {
      assert At(Boot(n).relays, 0, 0);
    } else {
      EveryRunKeepsInv(cfg, n, Front(sessions));
      TurnKeepsInv(cfg, n, RunLoop(cfg, n, Front(sessions)), Last(sessions));
    }
  }

  /** The failed sessions in a row at the end. */
  function TrailingFailures(sessions: seq<bool>): (m: nat)
    ensures m <= |sessions|
  {
    if sessions == [] || Last(sessions) then 0 else 1 + TrailingFailures(Front(sessions))
  }

  /** Some turn found a full allowance of failed sessions in a row behind it. */
  ghost predicate UsedUp(cfg: Config, sessions: seq<bool>) {
    cfg.maxRetries > 0 && exists m :: 0 <= m < |sessions| && TrailingFailures(sessions[..m]) == cfg.maxRetries
  }

  /**
    * In terms of the sessions alone: the loop stops exactly when a retry limit is set and one more turn
    * comes after that many failures in a row; until then `attempt` is the number of failures in a row.
    */
  lemma {:induction false} StopsIff(cfg: Config, n: nat, sessions: seq<bool>)
    ensures RunLoop(cfg, n, sessions).stopped <==> UsedUp(cfg, sessions)
    ensures !UsedUp(cfg, sessions) ==> RunLoop(cfg, n, sessions).attempt == TrailingFailures(sessions)
    ensures !UsedUp(cfg, sessions) && cfg.maxRetries > 0 ==> TrailingFailures(sessions) <= cfg.maxRetries
  {
    hide Failover;
    if sessions != [] {
      var before := Front(sessions);
      StopsIff(cfg, n, before);
      assert forall m :: 0 <= m < |before| ==> sessions[..m] == before[..m];
      assert sessions[..|before|] == before;
      assert UsedUp(cfg, sessions) <==>
             UsedUp(cfg, before) || (cfg.maxRetries > 0 && TrailingFailures(before) == cfg.maxRetries);
    }
  }

  function Failures(m: nat): (sessions: seq<bool>)
    ensures |sessions| == m
  {
    seq(m, _ => false)
  }

  lemma {:induction false} FailingFromBoot(cfg: Config, n: nat, m: nat)
    requires m < n && (cfg.maxRetries == 0 || cfg.maxRetries >= m)
    ensures var a := RunLoop(cfg, n, Failures(m));
            At(a.relays, 0, m) && |a.relays.failed| == n && a.attempt == m && !a.stopped
  {
    hide Failover, At;
    if m == 0 {
      ClearedAt(0, n);
    } else {
      FailingFromBoot(cfg, n, m - 1);
      assert Front(Failures(m)) == Failures(m - 1);
      var a := RunLoop(cfg, n, Failures(m - 1));
      AtFacts(a.relays, 0, m - 1);
      FailoverAdvances(a.relays, 0, m - 1);
      assert Last(Failures(m)) == false;
    }
  }

  /** n - 1 failures, a clean session and one more failure. */
  function TightRun(n: nat): seq<bool>
    requires n > 0
  {
    Failures(n - 1) + [true] + [false]
  }

  /** The loop can come to where 2n - 2 failing sessions do not reach every relay. */
  lemma BoundIsTightReached(cfg: Config, n: nat)
    requires n >= 2 && (cfg.maxRetries == 0 || cfg.maxRetries >= n)
    ensures var relays := RunLoop(cfg, n, TightRun(n)).relays;
            |relays.failed| == n && n - 1 !in FailingSessions(relays, 2 * n - 2)
  {
    hide Failover, At, FailingSessions;
    FailingFromBoot(cfg, n, n - 1);
    var a := RunLoop(cfg, n, Failures(n - 1));
    AtFacts(a.relays, 0, n - 1);
    var clean := Failures(n - 1) + [true];
    assert Front(clean) == Failures(n - 1) && Front(TightRun(n)) == clean;
    ClearedAt(n - 1, n);
    var b := RunLoop(cfg, n, clean);
    FailoverAdvances(b.relays, n - 1, 0);
    BoundIsTight(RunLoop(cfg, n, TightRun(n)).relays);
  }

  /** From any state the loop can reach, 2n - 1 failing sessions in a row try every relay. */
  lemma AnyRunReachesEveryRelay(cfg: Config, n: nat, sessions: seq<bool>, r: nat)
    requires r < n
    ensures r in FailingSessions(RunLoop(cfg, n, sessions).relays, 2 * n - 1)
  {
    hide RunLoop, FailingSessions, At;
    EveryRunKeepsInv(cfg, n, sessions);
    var a := RunLoop(cfg, n, sessions);
    var start: nat :| At(a.relays, start, |a.sinceClear|);
    EveryRelayTried(a.relays, start, |a.sinceClear|, r);
  }

  // ---- Waiting ------------------------------------------------------------------------------------------------

  const MAX_U64: nat := 0xFFFF_FFFF_FFFF_FFFF

  function Pow2(n: nat): (p: nat)
    ensures p > 0
  {
    if n == 0 then 1 else 2 * Pow2(n - 1)
  }

  /** Exponential backoff with a saturating multiplication, capped at a minute. */
  function Capped(cfg: Config, attempt: nat): nat {
    Min(Min(cfg.reconnectInterval * Pow2(Min(attempt, 5)), MAX_U64), 60)
  }

  /**
    * Every wait is between the capped backoff and a quarter more, so at most 75 seconds; within a streak
    * the backoff doubles five times, up to a minute, and then stays.
    */
  lemma WaitBounds(cfg: Config, attempt: nat, jitter: nat)
    requires jitter <= Capped(cfg, attempt) / 4
    ensures Capped(cfg, attempt) <= Capped(cfg, attempt) + jitter <= 75
    ensures Capped(cfg, attempt) <= Capped(cfg, attempt + 1)
    ensures Capped(cfg, attempt) == Min(cfg.reconnectInterval * Pow2(Min(attempt, 5)), 60)
    ensures Capped(cfg, 0) == Min(cfg.reconnectInterval, 60)
    ensures attempt < 5 ==> Capped(cfg, attempt + 1) == Min(2 * Capped(cfg, attempt), 60)
    ensures attempt >= 5 ==> Capped(cfg, attempt) == Capped(cfg, 5)
  {
    if attempt < 5 {
      assert Pow2(attempt + 1) == 2 * Pow2(attempt);
      assert cfg.reconnectInterval * Pow2(attempt + 1) == 2 * (cfg.reconnectInterval * Pow2(attempt));
    }
  }

  // ---- The code --------------------------------------------------------------------------------------------------

  class RelayList {
    const urls: seq<string>
    var current: nat
    var failed: seq<bool>

    ghost predicate Valid()
      reads this
    {
      |failed| == |urls| && (urls != [] ==> current < |urls|)
    }

    function State(): Relays
      reads this
    {
      Relays(current, failed)
    }

    constructor (urls: seq<string>)
      ensures this.urls == urls && Valid() && State() == Fresh(|urls|)
    {
      this.urls := urls;
      current := 0;
      failed := NoneFailed(|urls|);
    }

    function CurrentUrl(): string
      requires Valid() && urls != [] // indexing panics on an empty list
      reads this
    {
      urls[current]
    }

    /** `None` is returned only by an empty list. */
    method MarkFailed() returns (next: Option<string>)
      requires Valid()
      modifies this
      ensures Valid() && State() == Failover(old(State()))
      ensures next == if urls == [] then None else Some(CurrentUrl())
    {
      if current < |failed| {
        failed := failed[current := true];
      }
      var len := |urls|;
      var offset := 1;
      while offset <= len
        invariant 1 <= offset <= len + 1
        invariant FirstHealthy(failed, current, 1) == FirstHealthy(failed, current, offset)
        invariant failed == if old(current) < |old(failed)| then old(failed)[old(current) := true] else old(failed)
        invariant current == old(current)
      {
        var idx := (current + offset) % len;
        if !failed[idx] {
          current := idx;
          return Some(urls[idx]);
        }
        offset := offset + 1;
      }
      failed := NoneFailed(|failed|);
      current := 0;
      return if urls == [] then None else Some(urls[0]);
    }

    method ResetFailures()
      requires Valid()
      modifies this
      ensures Valid() && State() == old(State()).(failed := NoneFailed(|urls|))
    {
      failed := NoneFailed(|failed|);
    }
  }

  lemma {:induction false} StoppedStays(cfg: Config, n: nat, sessions: seq<bool>, m: nat)
    requires m <= |sessions|
    requires RunLoop(cfg, n, sessions[..m]).stopped
    ensures RunLoop(cfg, n, sessions) == RunLoop(cfg, n, sessions[..m])
    decreases |sessions|
  {
    if m == |sessions| {
      assert sessions[..m] == sessions;
    } else {
      assert Front(sessions)[..m] == sessions[..m];
      StoppedStays(cfg, n, Front(sessions), m);
    }
  }

  /** The loop itself, over sessions whose outcomes are given. */
  method Reconnect(list: RelayList, cfg: Config, sessions: seq<bool>) returns (attempt: nat, stopped: bool)
    requires list.Valid() && list.State() == Fresh(|list.urls|)
    modifies list
    ensures list.Valid()
    ensures var a := RunLoop(cfg, |list.urls|, sessions);
            list.State() == a.relays && attempt == a.attempt && stopped == a.stopped
  {
    hide Failover;
    attempt, stopped := 0, false;
    var i := 0;
    while i < |sessions|
      invariant 0 <= i <= |sessions|
      invariant list.Valid() && !stopped
      invariant var a := RunLoop(cfg, |list.urls|, sessions[..i]);
                list.State() == a.relays && attempt == a.attempt && !a.stopped
    {
      assert Front(sessions[..i + 1]) == sessions[..i] && Last(sessions[..i + 1]) == sessions[i];
      if cfg.maxRetries > 0 && attempt >= cfg.maxRetries {
        StoppedStays(cfg, |list.urls|, sessions, i + 1);
        stopped := true;
        return;
      }
      if sessions[i] {
        attempt := 0;
        list.ResetFailures();
      } else {
        attempt := attempt + 1;
        var _ := list.MarkFailed();
      }
      i := i + 1;
    }
    assert sessions[..i] == sessions;
  }
}
