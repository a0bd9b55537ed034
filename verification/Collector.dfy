/** The buffered collector's shared state and the two critical sections that change it. */
module Collector {
  import opened Prelude
  import opened AuditTypes

  datatype Config = Config(bufferCapacity: nat, dedupWindow: nat, maxAge: Option<nat>)

  datatype Shared = Shared(buffer: seq<Entry>, dedupQueue: seq<string>, dedupSet: set<string>, stop: bool)

  const Idle := Shared([], [], {}, false)

  /** The queue without its oldest element once it has reached the limit. */
  function MakeRoom<T>(queue: seq<T>, limit: nat): seq<T> {
    if |queue| >= limit && queue != [] then queue[1..] else queue
  }

  /** One call of `log`: drop a duplicate, otherwise remember the id and buffer the entry. */
  function Offer(cfg: Config, s: Shared, e: Entry): Shared {
    if e.requestId in s.dedupSet then s
    else
      var forgotten := if |s.dedupQueue| >= cfg.dedupWindow && s.dedupQueue != [] then {s.dedupQueue[0]} else {};
      Shared(
        MakeRoom(s.buffer, cfg.bufferCapacity) + [e],
        MakeRoom(s.dedupQueue, cfg.dedupWindow) + [e.requestId],
        s.dedupSet - forgotten + {e.requestId},
        s.stop)
  }

  /** Young enough to forward; a time stamp in the future always is. */
  predicate InTime(cfg: Config, now: int, e: Entry) {
    cfg.maxAge == None || now - e.timestamp < 0 || now - e.timestamp <= cfg.maxAge.value
  }

  /** What a flush forwards. */
  function InTimeOnly(cfg: Config, now: int, es: seq<Entry>): seq<Entry> {
    Filter(es, (e: Entry) => InTime(cfg, now, e))
  }

  lemma InTimeOnlySnoc(cfg: Config, now: int, es: seq<Entry>, e: Entry)
    ensures InTimeOnly(cfg, now, es + [e]) == InTimeOnly(cfg, now, es) + if InTime(cfg, now, e) then [e] else []
  {
    FilterSnoc(es, e, (e: Entry) => InTime(cfg, now, e));
  }

  lemma NothingInTime(cfg: Config, now: int)
    ensures InTimeOnly(cfg, now, []) == []
  {
  }

  /** The entry was stamped longer ago than entries are kept. */
  ghost predicate TooOld(cfg: Config, now: int, e: Entry) {
    cfg.maxAge.Some? && e.timestamp + cfg.maxAge.value < now
  }

  /** A flush forwards, in order, every copy of the entries that are not too old and no other. */
  lemma FlushKeepsExactly(cfg: Config, now: int, es: seq<Entry>)
    ensures Subsequence(InTimeOnly(cfg, now, es), es)
    ensures forall e :: multiset(InTimeOnly(cfg, now, es))[e] == if TooOld(cfg, now, e) then 0 else multiset(es)[e]
  {
    hide Filter;
    var keep := (e: Entry) => InTime(cfg, now, e);
    FilterIsSubsequence(es, keep);
    forall e ensures multiset(InTimeOnly(cfg, now, es))[e] == if TooOld(cfg, now, e) then 0 else multiset(es)[e] {
      FilterCounts(es, keep, e);
    }
  }

  class BufferedAuditCollector {
    const cfg: Config
    var buffer: seq<Entry>
    var dedupQueue: seq<string>
    var dedupSet: set<string>
    var stop: bool

    function State(): Shared
      reads this
    {
      Shared(buffer, dedupQueue, dedupSet, stop)
    }

    constructor (cfg: Config)
      ensures this.cfg == cfg && State() == Idle
    {
      this.cfg := cfg;
      buffer, dedupQueue, dedupSet, stop := [], [], {}, false;
    }

    method LogEntry(entry: Entry)
      modifies this
      ensures State() == Offer(cfg, old(State()), entry)
    {
      if entry.requestId in dedupSet {
        return;
      }
      if |dedupQueue| >= cfg.dedupWindow {
        if dedupQueue != [] {
          dedupSet := dedupSet - {dedupQueue[0]};
          dedupQueue := dedupQueue[1..];
        }
      }
      dedupSet := dedupSet + {entry.requestId};
      dedupQueue := dedupQueue + [entry.requestId];
      if |buffer| >= cfg.bufferCapacity && buffer != [] {
        buffer := buffer[1..];
      }
      buffer := buffer + [entry];
    }

    /** The worker's critical section: empty the buffer, keeping what is still young enough. */
    method DrainBuffer(now: int) returns (toForward: seq<Entry>, shouldStop: bool)
      modifies this
      ensures toForward == InTimeOnly(cfg, now, old(buffer))
      ensures Subsequence(toForward, old(buffer))
      ensures forall e :: multiset(toForward)[e] == if TooOld(cfg, now, e) then 0 else multiset(old(buffer))[e]
      ensures shouldStop == old(stop)
      ensures State() == old(State()).(buffer := [])
    {
      hide InTimeOnly, InTime;
      shouldStop := stop;
      toForward := [];
      ghost var taken := [];
      NothingInTime(cfg, now);
      while buffer != []
        invariant taken + buffer == old(buffer)
        invariant toForward == InTimeOnly(cfg, now, taken)
        invariant State() == old(State()).(buffer := buffer)
        decreases |buffer|
      {
        var e := buffer[0];
        InTimeOnlySnoc(cfg, now, taken, e);
        if InTime(cfg, now, e) {
          toForward := toForward + [e];
        }
        taken := taken + [e];
        buffer := buffer[1..];
      }
      assert taken == old(buffer);
      FlushKeepsExactly(cfg, now, old(buffer));
    }

    method RequestStop()
      modifies this
      ensures State() == old(State()).(stop := true)
    {
      stop := true;
    }
  }
}

/**
  * Producers, the collector's one worker and the file logger as a step machine: every critical
  * section of a mutex is one step, and the steps interleave in any order.
  */
module Pipeline {
  import opened Prelude
  import opened AuditTypes
  import opened AuditChain
  import AuditLogger
  import opened Collector

  /** Where the worker stands. `last` is the stop flag it saw when it took the batch. */
  datatype Worker =
    | Waiting
    | Forwarding(held: seq<Entry>, last: bool)
    | HashRead(linked: Entry, held: seq<Entry>, last: bool)    // holds the link, not yet the file lock
    | LineWritten(linked: Entry, held: seq<Entry>, last: bool) // the in-memory hash is still the old one
    | Exited

  /** What became of an accepted entry that has left the buffer. */
  datatype Fate = Evicted | Expired | Taken

  /** How an entry left the buffer: for the accepted entry of this number, or in a flush at this time. */
  datatype Exit = Displaced(newer: nat) | Flushed(now: int)

  /** Everything that happened so far, for stating properties only. */
  datatype History = History(
    accepted: seq<Entry>,   // in the order the collector accepted them
    fates: seq<Fate>,       // of the entries that left the buffer, in the same order
    exits: seq<Exit>,       // of the same entries
    handed: seq<Entry>,     // passed to the file logger
    written: seq<bool>)     // whether the file took the line of each of those

  datatype State = State(shared: Shared, worker: Worker, log: AuditLogger.Log, history: History)

  datatype Step =
    | Produce(entry: Entry)
    | Stop
    | Wake(now: int)
    | ReadHash
    | WriteLine(taken: bool)
    | UpdateHash
    | EndBatch

  function Start(log: AuditLogger.Log): State {
    State(Idle, Waiting, log, History([], [], [], [], []))
  }

  function FatesOf(cfg: Config, now: int, es: seq<Entry>): (fates: seq<Fate>)
    ensures |fates| == |es|
  {
    if es == [] then []
    else FatesOf(cfg, now, Front(es)) + [if InTime(cfg, now, Last(es)) then Taken else Expired]
  }

  /** Stopping needs the collector to itself, so no producer runs once `stop` is set. */
  function OnProduce(cfg: Config, s: State, e: Entry): State {
    if s.shared.stop || e.requestId in s.shared.dedupSet then s
    else
      var h, full := s.history, |s.shared.buffer| >= cfg.bufferCapacity && s.shared.buffer != [];
      s.(shared := Offer(cfg, s.shared, e),
         history := h.(accepted := h.accepted + [e],
                       fates := h.fates + if full then [Evicted] else [],
                       exits := h.exits + if full then [Displaced(|h.accepted|)] else []))
  }

  function OnWake(cfg: Config, s: State, now: int): State {
    if !s.worker.Waiting? then s
    else
      s.(shared := s.shared.(buffer := []),
         worker := Forwarding(InTimeOnly(cfg, now, s.shared.buffer), s.shared.stop),
         history := s.history.(fates := s.history.fates + FatesOf(cfg, now, s.shared.buffer),
                               exits := s.history.exits + seq(|s.shared.buffer|, _ => Flushed(now))))
  }

  function OnReadHash(f: Foreign, key: Key, s: State): State {
    if !s.worker.Forwarding? || s.worker.held == [] then s
    else
      var e := s.worker.held[0];
      s.(worker := HashRead(Link(f, key, s.log.prevHash, e), s.worker.held[1..], s.worker.last),
         history := s.history.(handed := s.history.handed + [e]))
  }

  function OnWriteLine(f: Foreign, s: State, taken: bool): State {
    if !s.worker.HashRead? then s
    else
      var w := s.worker;
      var s' := s.(history := s.history.(written := s.history.written + [taken]));
      if taken
      then s'.(log := s.log.(file := s.log.file.Plus(f.toJson(w.linked))),
               worker := LineWritten(w.linked, w.held, w.last))
      else s'.(worker := Forwarding(w.held, w.last))
  }

  function OnUpdateHash(f: Foreign, s: State): State {
    if !s.worker.LineWritten? then s
    else
      var w := s.worker;
      s.(log := s.log.(prevHash := ContentHash(f, w.linked)), worker := Forwarding(w.held, w.last))
  }

  function OnEndBatch(s: State): State {
    if !s.worker.Forwarding? || s.worker.held != [] then s
    else s.(worker := if s.worker.last then Exited else Waiting)
  }

  /** A step that is not enabled leaves the state as it is. */
  function Next(f: Foreign, key: Key, cfg: Config, s: State, step: Step): State {
    match step
    case Produce(e) => OnProduce(cfg, s, e)
    case Stop => s.(shared := s.shared.(stop := true))
    case Wake(now) => OnWake(cfg, s, now)
    case ReadHash => OnReadHash(f, key, s)
    case WriteLine(taken) => OnWriteLine(f, s, taken)
    case UpdateHash => OnUpdateHash(f, s)
    case EndBatch => OnEndBatch(s)
  }

  function Run(f: Foreign, key: Key, cfg: Config, s: State, steps: seq<Step>): State {
    if steps == [] then s else Next(f, key, cfg, Run(f, key, cfg, s, Front(steps)), Last(steps))
  }

  // ---- Selections -----------------------------------------------------------------------------

  /** The elements of `s` whose tag is `want`, in order: a subsequence of `s`. */
  function Select<T, U(==)>(s: seq<T>, tags: seq<U>, want: U): (r: seq<T>)
    requires |s| == |tags|
    ensures |r| <= |s|
  {
    if s == [] then []
    else Select(Front(s), Front(tags), want) + if Last(tags) == want then [Last(s)] else []
  }

  lemma SelectSnoc<T, U>(s: seq<T>, x: T, tags: seq<U>, tag: U, want: U)
    requires |s| == |tags|
    ensures Select(s + [x], tags + [tag], want) == Select(s, tags, want) + if tag == want then [x] else []
  {
    assert Front(s + [x]) == s && Front(tags + [tag]) == tags;
  }

  lemma {:induction false} SelectConcat<T, U>(s: seq<T>, s': seq<T>, tags: seq<U>, tags': seq<U>, want: U)
    requires |s| == |tags| && |s'| == |tags'|
    ensures Select(s + s', tags + tags', want) == Select(s, tags, want) + Select(s', tags', want)
    decreases |s'|
  {
    if s' == [] {
      assert s + s' == s && tags + tags' == tags;
    } else {
      SelectConcat(s, Front(s'), tags, Front(tags'), want);
      SelectSnoc(s + Front(s'), Last(s'), tags + Front(tags'), Last(tags'), want);
      assert s + s' == s + Front(s') + [Last(s')];
      assert tags + tags' == tags + Front(tags') + [Last(tags')];
    }
  }

  lemma {:induction false} TakenAreInTime(cfg: Config, now: int, es: seq<Entry>)
    ensures Select(es, FatesOf(cfg, now, es), Taken) == InTimeOnly(cfg, now, es)
  {
    if es != [] {
      TakenAreInTime(cfg, now, Front(es));
      assert Front(FatesOf(cfg, now, es)) == FatesOf(cfg, now, Front(es));
    }
  }

  // ---- The invariant --------------------------------------------------------------------------

  /** The entries the worker has taken but not yet passed on. */
  function Held(w: Worker): seq<Entry> {
    if w.Waiting? || w.Exited? then [] else w.held
  }

  ghost predicate Accounted(s: State) {
    var h := s.history;
    && |h.fates| <= |h.accepted|
    && s.shared.buffer == h.accepted[|h.fates|..]
    && h.handed + Held(s.worker) == Select(h.accepted[..|h.fates|], h.fates, Taken)
    && |h.handed| == |h.written| + if s.worker.HashRead? then 1 else 0
  }

  /** The payloads the file should hold: those it started with, then every line it took. */
  ghost function Stored(before: seq<Entry>, h: History): seq<Entry>
    requires |h.written| <= |h.handed|
  {
    before + StripAll(Select(h.handed[..|h.written|], h.written, true))
  }

  ghost predicate FileInStep(f: Foreign, key: Key, before: seq<Entry>, s: State)
    requires |s.history.written| <= |s.history.handed|
  {
    var payloads := Stored(before, s.history);
    && StripAll(payloads) == payloads
    && s.log.file.tail == "" && s.log.file.lines == Render(f, key, payloads)
    && (!s.worker.LineWritten? ==> s.log.prevHash == EndHash(f, Chain(f, key, payloads)))
    && (s.worker.LineWritten? ==> EndHash(f, Chain(f, key, payloads)) == ContentHash(f, s.worker.linked))
    && (s.worker.HashRead? ==>
          s.history.handed != [] && s.worker.linked == Link(f, key, s.log.prevHash, Last(s.history.handed)))
  }

  /** The length of the window that deduplication really keeps. */
  function Window(cfg: Config): nat {
    Max(1, cfg.dedupWindow)
  }

  /** The last `n` elements, or all of them. */
  function LastN<T>(s: seq<T>, n: nat): seq<T> {
    if |s| <= n then s else s[|s| - n..]
  }

  function Ids(es: seq<Entry>): (ids: seq<string>)
    ensures |ids| == |es|
    ensures forall i :: 0 <= i < |es| ==> ids[i] == es[i].requestId
  {
    seq(|es|, i requires 0 <= i < |es| => es[i].requestId)
  }

  ghost predicate Distinct<T(!new)>(s: seq<T>) {
    forall i, j :: 0 <= i < j < |s| ==> s[i] != s[j]
  }

  ghost predicate DedupIndexOk(cfg: Config, s: State) {
    && s.shared.dedupQueue == LastN(Ids(s.history.accepted), Window(cfg))
    && (forall id :: id in s.shared.dedupSet <==> id in s.shared.dedupQueue)
    && Distinct(s.shared.dedupQueue)
  }

  /** Two accepted entries with one id have at least a window of accepted entries between them. */
  ghost predicate Deduplicated(cfg: Config, accepted: seq<Entry>) {
    forall i, j :: 0 <= i < j < |accepted| && accepted[i].requestId == accepted[j].requestId ==> j - i > Window(cfg)
  }

  ghost predicate Inv(f: Foreign, key: Key, cfg: Config, before: seq<Entry>, s: State) {
    && Accounted(s)
    && FileInStep(f, key, before, s)
    && DedupIndexOk(cfg, s)
    && Deduplicated(cfg, s.history.accepted)
    && |s.shared.buffer| <= Max(1, cfg.bufferCapacity)
    && (s.worker.Exited? || (!s.worker.Waiting? && s.worker.last) ==> s.shared.stop && s.shared.buffer == [])
  }

  // ---- Deduplication ----------------------------------------------------------------------------

  lemma IdsSnoc(es: seq<Entry>, e: Entry)
    ensures Ids(es + [e]) == Ids(es) + [e.requestId]
  {
  }

  /** One accepted entry slides the window by one. */
  lemma WindowSlides(cfg: Config, ids: seq<string>, queue: seq<string>, id: string)
    requires queue == LastN(ids, Window(cfg))
    ensures MakeRoom(queue, cfg.dedupWindow) + [id] == LastN(ids + [id], Window(cfg))
  {
  }

  lemma LastNContains<T>(s: seq<T>, n: nat, i: nat)
    requires i < |s|
    ensures |s| - i <= n ==> s[i] in LastN(s, n)
  {
    if |s| - i <= n {
      assert LastN(s, n)[i - (|s| - |LastN(s, n)|)] == s[i];
    }
  }

  lemma OfferKeepsDedupIndex(cfg: Config, s: State, e: Entry)
    requires DedupIndexOk(cfg, s)
    ensures DedupIndexOk(cfg, OnProduce(cfg, s, e))
  {
    if !s.shared.stop && e.requestId !in s.shared.dedupSet {
      IdsSnoc(s.history.accepted, e);
      WindowSlides(cfg, Ids(s.history.accepted), s.shared.dedupQueue, e.requestId);
    }
  }

  /** An entry is dropped exactly when its id is among the ids of the last window of accepted entries. */
  lemma DroppedIff(cfg: Config, s: State, e: Entry)
    requires DedupIndexOk(cfg, s)
    requires !s.shared.stop
    ensures OnProduce(cfg, s, e).history.accepted == s.history.accepted <==>
            e.requestId in LastN(Ids(s.history.accepted), Window(cfg))
  {
  }

  lemma OfferKeepsDeduplicated(cfg: Config, s: State, e: Entry)
    requires DedupIndexOk(cfg, s)
    requires Deduplicated(cfg, s.history.accepted)
    ensures Deduplicated(cfg, OnProduce(cfg, s, e).history.accepted)
  {
    var before, after := s.history.accepted, OnProduce(cfg, s, e).history.accepted;
    if after != before {
      forall i | 0 <= i < |before| && before[i].requestId == e.requestId ensures |before| - i > Window(cfg) {
        LastNContains(Ids(before), Window(cfg), i);
      }
    }
  }

  // ---- Each step keeps the invariant ---------------------------------------------------------------

  lemma ProduceKeepsAccounts(cfg: Config, s: State, e: Entry)
    requires Accounted(s)
    ensures Accounted(OnProduce(cfg, s, e))
  {
    var s' := OnProduce(cfg, s, e);
    if s' != s {
      var h, h' := s.history, s'.history;
      if h'.fates != h.fates {
        SelectSnoc(h.accepted[..|h.fates|], s.shared.buffer[0], h.fates, Evicted, Taken);
        assert h'.accepted[..|h'.fates|] == h.accepted[..|h.fates|] + [s.shared.buffer[0]];
      } else {
        assert h'.accepted[..|h'.fates|] == h.accepted[..|h.fates|];
      }
    }
  }

  lemma WakeKeepsAccounts(cfg: Config, s: State, now: int)
    requires Accounted(s)
    ensures Accounted(OnWake(cfg, s, now))
  {
    hide Select, FatesOf, InTimeOnly;
    if s.worker.Waiting? {
      var h := s.history;
      TakenAreInTime(cfg, now, s.shared.buffer);
      SelectConcat(h.accepted[..|h.fates|], s.shared.buffer, h.fates, FatesOf(cfg, now, s.shared.buffer), Taken);
      assert h.accepted[..|h.fates|] + s.shared.buffer == h.accepted;
      assert h.accepted[..|h.accepted|] == h.accepted;
    }
  }

  lemma ProduceKeepsInv(f: Foreign, key: Key, cfg: Config, before: seq<Entry>, s: State, e: Entry)
    requires Inv(f, key, cfg, before, s)
    ensures Inv(f, key, cfg, before, OnProduce(cfg, s, e))
  {
    hide Select, LastN, Chain, Render, StripAll, Ids;
    ProduceKeepsAccounts(cfg, s, e);
    OfferKeepsDedupIndex(cfg, s, e);
    OfferKeepsDeduplicated(cfg, s, e);
  }

  lemma WakeKeepsInv(f: Foreign, key: Key, cfg: Config, before: seq<Entry>, s: State, now: int)
    requires Inv(f, key, cfg, before, s)
    ensures Inv(f, key, cfg, before, OnWake(cfg, s, now))
  {
    hide Select, LastN, Chain, Render, StripAll, Ids, InTimeOnly, FatesOf;
    WakeKeepsAccounts(cfg, s, now);
  }

  lemma ReadHashKeepsInv(f: Foreign, key: Key, cfg: Config, before: seq<Entry>, s: State)
    requires Inv(f, key, cfg, before, s)
    ensures Inv(f, key, cfg, before, OnReadHash(f, key, s))
  {
    hide Select, LastN, Chain, Render, StripAll, Ids, Link;
    var s' := OnReadHash(f, key, s);
    if s' != s {
      assert s'.history.handed[..|s'.history.written|] == s.history.handed[..|s.history.written|];
      assert s.worker.held == [s.worker.held[0]] + s.worker.held[1..];
      assert s'.history.handed + Held(s'.worker) == s.history.handed + Held(s.worker);
    }
  }

  /** The payloads stored once the fate of the entry in hand is known. */
  lemma StoredGrows(before: seq<Entry>, h: History, taken: bool)
    requires |h.handed| == |h.written| + 1
    ensures Stored(before, h.(written := h.written + [taken])) ==
            Stored(before, h) + if taken then [Strip(Last(h.handed))] else []
  {
    hide Select, StripAll;
    var n := |h.written|;
    var picked := Select(h.handed[..n], h.written, true);
    assert h.handed[..n + 1] == h.handed[..n] + [Last(h.handed)];
    SelectSnoc(h.handed[..n], Last(h.handed), h.written, taken, true);
    StripAllSnoc(picked, Last(h.handed));
    var e := Strip(Last(h.handed));
    assert if taken then before + (StripAll(picked) + [e]) == Stored(before, h) + [e]
           else picked + [] == picked && Stored(before, h) + [] == Stored(before, h);
  }

  lemma WriteLineKeepsFile(f: Foreign, key: Key, before: seq<Entry>, s: State, taken: bool)
    requires Accounted(s) && FileInStep(f, key, before, s)
    ensures FileInStep(f, key, before, OnWriteLine(f, s, taken))
  {
    hide Select, Chain, Render, StripAll, Stored, ContentHash;
    if s.worker.HashRead? {
      StoredGrows(before, s.history, taken);
      var payloads := Stored(before, s.history);
      if taken {
        var e := Last(s.history.handed);
        assert s.worker.linked == Link(f, key, s.log.prevHash, Strip(e));
        RenderSnoc(f, key, payloads, Strip(e));
        ChainSnoc(f, key, payloads, Strip(e));
        StripAllSnoc(payloads, Strip(e));
        assert "" + f.toJson(s.worker.linked) == f.toJson(s.worker.linked);
      } else {
        assert payloads + [] == payloads;
      }
    }
  }

  lemma WriteLineKeepsInv(f: Foreign, key: Key, cfg: Config, before: seq<Entry>, s: State, taken: bool)
    requires Inv(f, key, cfg, before, s)
    ensures Inv(f, key, cfg, before, OnWriteLine(f, s, taken))
  {
    hide Select, LastN, FileInStep, Ids;
    WriteLineKeepsFile(f, key, before, s, taken);
  }

  lemma UpdateHashKeepsInv(f: Foreign, key: Key, cfg: Config, before: seq<Entry>, s: State)
    requires Inv(f, key, cfg, before, s)
    ensures Inv(f, key, cfg, before, OnUpdateHash(f, s))
  {
    hide Select, LastN, Chain, Render, StripAll, Ids;
  }

  lemma EndBatchKeepsInv(f: Foreign, key: Key, cfg: Config, before: seq<Entry>, s: State)
    requires Inv(f, key, cfg, before, s)
    ensures Inv(f, key, cfg, before, OnEndBatch(s))
  {
    hide Select, LastN, Chain, Render, StripAll, Ids;
  }

  lemma NextKeepsInv(f: Foreign, key: Key, cfg: Config, before: seq<Entry>, s: State, step: Step)
    requires Inv(f, key, cfg, before, s)
    ensures Inv(f, key, cfg, before, Next(f, key, cfg, s, step))
  {
    match step
    case Produce(e) => ProduceKeepsInv(f, key, cfg, before, s, e);
    case Stop => StopKeepsInv(f, key, cfg, before, s);
    case Wake(now) => WakeKeepsInv(f, key, cfg, before, s, now);
    case ReadHash => ReadHashKeepsInv(f, key, cfg, before, s);
    case WriteLine(taken) => WriteLineKeepsInv(f, key, cfg, before, s, taken);
    case UpdateHash => UpdateHashKeepsInv(f, key, cfg, before, s);
    case EndBatch => EndBatchKeepsInv(f, key, cfg, before, s);
  }

  lemma StopKeepsInv(f: Foreign, key: Key, cfg: Config, before: seq<Entry>, s: State)
    requires Inv(f, key, cfg, before, s)
    ensures Inv(f, key, cfg, before, s.(shared := s.shared.(stop := true)))
  {
    hide Select, LastN, Chain, Render, StripAll, Ids;
  }

  lemma StartSatisfiesInv(f: Foreign, key: Key, cfg: Config, before: seq<Entry>, log: AuditLogger.Log)
    requires AuditLogger.Holds(f, key, log, before)
    ensures Inv(f, key, cfg, before, Start(log))
  {
    assert Stored(before, Start(log).history) == before;
  }

  // ---- Theorems about every run --------------------------------------------------------------------

  lemma {:induction false} EveryRunKeepsInv(
    f: Foreign, key: Key, cfg: Config, before: seq<Entry>, log: AuditLogger.Log, steps: seq<Step>)
    requires AuditLogger.Holds(f, key, log, before)
    ensures Inv(f, key, cfg, before, Run(f, key, cfg, Start(log), steps))
  {
    if steps == [] {
      StartSatisfiesInv(f, key, cfg, before, log);
    } else {
      hide Inv, Start, Next;
      EveryRunKeepsInv(f, key, cfg, before, log, Front(steps));
      NextKeepsInv(f, key, cfg, before, Run(f, key, cfg, Start(log), Front(steps)), Last(steps));
    }
  }

  /**
    * In every interleaving the checker accepts the file after every step, and the file holds what
    * it held before followed by exactly the entries whose lines were taken, in acceptance order.
    */
  lemma FileAcceptedInEveryInterleaving(
    f: Foreign, key: Key, cfg: Config, before: seq<Entry>, log: AuditLogger.Log, steps: seq<Step>)
    requires f.Lawful()
    requires AuditLogger.Holds(f, key, log, before)
    ensures var s := Run(f, key, cfg, Start(log), steps);
            && Accepts(f, key, s.log.file.Seen())
            && |s.history.written| <= |s.history.handed|
            && s.log.file.Seen() == Render(f, key, Stored(before, s.history))
  {
    hide Run, Select, LastN, Chain, Render, StripAll, Ids, Accepts;
    var s := Run(f, key, cfg, Start(log), steps);
    EveryRunKeepsInv(f, key, cfg, before, log, steps);
    RenderedIsAccepted(f, key, Stored(before, s.history));
  }

  /** An accepted entry is buffered, or it has exactly one fate; nothing is lost or doubled. */
  lemma Conservation(f: Foreign, key: Key, cfg: Config, before: seq<Entry>, log: AuditLogger.Log, steps: seq<Step>)
    requires AuditLogger.Holds(f, key, log, before)
    ensures var h := Run(f, key, cfg, Start(log), steps).history; |h.fates| <= |h.accepted|
    ensures var s := Run(f, key, cfg, Start(log), steps);
            var left := s.history.accepted[..|s.history.fates|];
            && multiset(s.history.accepted) ==
               multiset(s.history.handed) + multiset(Held(s.worker)) + multiset(s.shared.buffer)
               + multiset(Select(left, s.history.fates, Evicted)) + multiset(Select(left, s.history.fates, Expired))
            && |s.shared.buffer| <= Max(1, cfg.bufferCapacity)
  {
    hide Run, LastN, Chain, Render, StripAll, Ids, FileInStep, DedupIndexOk, Deduplicated;
    var s := Run(f, key, cfg, Start(log), steps);
    EveryRunKeepsInv(f, key, cfg, before, log, steps);
    var n := |s.history.fates|;
    SplitByFate(s.history.accepted[..n], s.history.fates);
    assert s.history.accepted == s.history.accepted[..n] + s.shared.buffer;
    assert multiset(s.history.handed + Held(s.worker)) == multiset(s.history.handed) + multiset(Held(s.worker));
  }

  lemma {:induction false} SplitByFate(es: seq<Entry>, fates: seq<Fate>)
    requires |es| == |fates|
    ensures multiset(es) ==
            multiset(Select(es, fates, Taken)) + multiset(Select(es, fates, Evicted))
            + multiset(Select(es, fates, Expired))
  {
    hide Select;
    if es == [] {
      assert Select(es, fates, Taken) == Select(es, fates, Evicted) == Select(es, fates, Expired) == [];
    } else {
      var before, e, fate := Front(es), Last(es), Last(fates);
      SplitByFate(before, Front(fates));
      assert es == before + [e] && fates == Front(fates) + [fate];
      SelectedBag(before, e, Front(fates), fate, Taken);
      SelectedBag(before, e, Front(fates), fate, Evicted);
      SelectedBag(before, e, Front(fates), fate, Expired);
    }
  }

  lemma SelectedBag(es: seq<Entry>, e: Entry, fates: seq<Fate>, fate: Fate, want: Fate)
    requires |es| == |fates|
    ensures multiset(Select(es + [e], fates + [fate], want)) ==
            multiset(Select(es, fates, want)) + if fate == want then multiset{e} else multiset{}
  {
    SelectSnoc(es, e, fates, fate, want);
  }

  /** What is handed on, then held, then buffered is a selection of the accepted entries, in their order. */
  lemma OrderPreserved(f: Foreign, key: Key, cfg: Config, before: seq<Entry>, log: AuditLogger.Log, steps: seq<Step>)
    requires AuditLogger.Holds(f, key, log, before)
    ensures var s := Run(f, key, cfg, Start(log), steps);
            && |s.history.fates| + |s.shared.buffer| == |s.history.accepted|
            && s.history.handed + Held(s.worker) + s.shared.buffer ==
               Select(s.history.accepted, s.history.fates + AllTaken(|s.shared.buffer|), Taken)
  {
    hide Run, LastN, Chain, Render, StripAll, Ids, FileInStep, DedupIndexOk, Deduplicated, Select;
    var s := Run(f, key, cfg, Start(log), steps);
    var h, buffer := s.history, s.shared.buffer;
    EveryRunKeepsInv(f, key, cfg, before, log, steps);
    SelectConcat(h.accepted[..|h.fates|], buffer, h.fates, AllTaken(|buffer|), Taken);
    SelectAll(buffer);
    assert h.accepted == h.accepted[..|h.fates|] + buffer;
  }

  function AllTaken(n: nat): (fates: seq<Fate>)
    ensures |fates| == n
  {
    if n == 0 then [] else AllTaken(n - 1) + [Taken]
  }

  lemma {:induction false} SelectAll(es: seq<Entry>)
    ensures Select(es, AllTaken(|es|), Taken) == es
  {
    if es != [] {
      SelectAll(Front(es));
      assert Front(AllTaken(|es|)) == AllTaken(|es| - 1);
      assert es == Front(es) + [Last(es)];
    }
  }

  /** Every fate has its reason in the way the entry left the buffer. */
  ghost predicate FatesExplained(cfg: Config, h: History) {
    && |h.fates| == |h.exits| <= |h.accepted|
    && forall i :: 0 <= i < |h.fates| ==> FateExplained(cfg, i, h.accepted[i], h.fates[i], h.exits[i])
  }

  /**
    * Entry number `i` is evicted exactly when it made room, and then for the accepted entry that found it
    * the oldest of a full buffer. It expires exactly when it was flushed too late.
    */
  ghost predicate FateExplained(cfg: Config, i: nat, e: Entry, fate: Fate, exit: Exit) {
    && (fate == Evicted <==> exit.Displaced?)
    && (exit.Displaced? ==> exit.newer == i + Max(1, cfg.bufferCapacity))
    && (fate == Expired <==> exit.Flushed? && cfg.maxAge.Some? && exit.now > e.timestamp + cfg.maxAge.value)
  }

  lemma {:induction false} FatesOfAt(cfg: Config, now: int, es: seq<Entry>, i: nat)
    requires i < |es|
    ensures FatesOf(cfg, now, es)[i] == if TooOld(cfg, now, es[i]) then Expired else Taken
  {
    if i < |es| - 1 {
      FatesOfAt(cfg, now, Front(es), i);
    }
  }

  lemma WakeExplained(cfg: Config, s: State, now: int)
    requires Accounted(s) && FatesExplained(cfg, s.history)
    ensures FatesExplained(cfg, OnWake(cfg, s, now).history)
  {
    hide Select, InTimeOnly, FatesOf;
    var h, h' := s.history, OnWake(cfg, s, now).history;
    if s.worker.Waiting? {
      forall i | 0 <= i < |h'.fates| ensures FateExplained(cfg, i, h'.accepted[i], h'.fates[i], h'.exits[i]) {
        if i >= |h.fates| {
          FatesOfAt(cfg, now, s.shared.buffer, i - |h.fates|);
        } else {
          assert FateExplained(cfg, i, h.accepted[i], h.fates[i], h.exits[i]);
        }
      }
    }
  }

  lemma ProduceExplained(cfg: Config, s: State, e: Entry)
    requires Accounted(s) && FatesExplained(cfg, s.history)
    requires |s.shared.buffer| <= Max(1, cfg.bufferCapacity)
    ensures FatesExplained(cfg, OnProduce(cfg, s, e).history)
  {
    hide Select, Offer;
    var h, h' := s.history, OnProduce(cfg, s, e).history;
    forall i | 0 <= i < |h'.fates| ensures FateExplained(cfg, i, h'.accepted[i], h'.fates[i], h'.exits[i]) {
      if i < |h.fates| {
        assert FateExplained(cfg, i, h.accepted[i], h.fates[i], h.exits[i]);
      }
    }
  }

  lemma NextExplained(f: Foreign, key: Key, cfg: Config, s: State, step: Step)
    requires Accounted(s) && FatesExplained(cfg, s.history)
    requires |s.shared.buffer| <= Max(1, cfg.bufferCapacity)
    ensures FatesExplained(cfg, Next(f, key, cfg, s, step).history)
  {
    hide FateExplained, Accounted, OnProduce, OnWake;
    match step
    case Produce(e) => ProduceExplained(cfg, s, e);
    case Wake(now) => WakeExplained(cfg, s, now);
    case _ =>
  }

  /**
    * In every interleaving an accepted entry that left the buffer expired exactly when it was flushed later
    * than its age allows, so never without a limit, and was evicted exactly when a full buffer of younger
    * entries was accepted behind it before the next flush.
    */
  lemma {:induction false} EveryFateExplained(
    f: Foreign, key: Key, cfg: Config, before: seq<Entry>, log: AuditLogger.Log, steps: seq<Step>)
    requires AuditLogger.Holds(f, key, log, before)
    ensures FatesExplained(cfg, Run(f, key, cfg, Start(log), steps).history)
  {
    if steps != [] {
      hide FatesExplained, Start, Next, Accounted, FileInStep, DedupIndexOk, Deduplicated;
      EveryFateExplained(f, key, cfg, before, log, Front(steps));
      EveryRunKeepsInv(f, key, cfg, before, log, Front(steps));
      NextExplained(f, key, cfg, Run(f, key, cfg, Start(log), Front(steps)), Last(steps));
    }
  }

  /** The index is the window of recent ids in every run, and duplicates stay a window apart. */
  lemma DedupRefinesWindow(
    f: Foreign, key: Key, cfg: Config, before: seq<Entry>, log: AuditLogger.Log, steps: seq<Step>)
    requires AuditLogger.Holds(f, key, log, before)
    ensures var s := Run(f, key, cfg, Start(log), steps);
            && DedupIndexOk(cfg, s)
            && Deduplicated(cfg, s.history.accepted)
  {
    EveryRunKeepsInv(f, key, cfg, before, log, steps);
  }

  /** The worker's three critical sections, taken together, are one append by the file logger. */
  lemma ThreeStepsAreOneAppend(f: Foreign, key: Key, cfg: Config, s: State)
    requires s.worker.Forwarding? && s.worker.held != []
    ensures var s1 := Next(f, key, cfg, s, ReadHash);
            var s2 := Next(f, key, cfg, s1, WriteLine(true));
            var s3 := Next(f, key, cfg, s2, UpdateHash);
            && s3.log == AuditLogger.Append(f, key, s.log, s.worker.held[0])
            && s3.worker == Forwarding(s.worker.held[1..], s.worker.last)
            && s3.shared == s.shared
  {
  }

  // ---- Stopping -------------------------------------------------------------------------------------

  /** What the worker does not decide: the time it wakes at, and whether the file takes a line. */
  datatype Choice = Choice(now: int, taken: bool)

  /** The worker's own next step. */
  function WorkerStep(w: Worker, c: Choice): Step {
    match w
    case Waiting => Wake(c.now)
    case Forwarding(held, _) => if held == [] then EndBatch else ReadHash
    case HashRead(_, _, _) => WriteLine(c.taken)
    case LineWritten(_, _, _) => UpdateHash
    case Exited => EndBatch
  }

  function Drive(f: Foreign, key: Key, cfg: Config, s: State, choices: seq<Choice>): State
    decreases |choices|
  {
    if choices == [] then s
    else Drive(f, key, cfg, Next(f, key, cfg, s, WorkerStep(s.worker, choices[0])), choices[1..])
  }

  /** A bound on the steps the worker needs to exit once `stop` is set. */
  function StepsLeft(s: State): nat {
    var flush := 3 * |s.shared.buffer| + 2;
    match s.worker
    case Exited => 0
    case Waiting => flush
    case Forwarding(held, last) => 3 * |held| + 1 + if last then 0 else flush
    case HashRead(_, held, last) => 3 * |held| + 3 + if last then 0 else flush
    case LineWritten(_, held, last) => 3 * |held| + 2 + if last then 0 else flush
  }

  lemma WorkerAdvances(f: Foreign, key: Key, cfg: Config, before: seq<Entry>, s: State, c: Choice)
    requires Inv(f, key, cfg, before, s) && s.shared.stop
    ensures var s' := Next(f, key, cfg, s, WorkerStep(s.worker, c));
            && s'.shared.stop && s'.history.accepted == s.history.accepted
            && (s.worker.Exited? ==> s' == s)
            && (!s.worker.Exited? ==> StepsLeft(s') < StepsLeft(s))
  {
    hide Select, LastN, Chain, Render, StripAll, Ids, Filter, FileInStep, DedupIndexOk, Deduplicated, Link;
  }

  /**
    * Once stop is requested the worker exits on its own after at most `StepsLeft` steps, whatever
    * the clock says and whichever lines the file refuses, and then everything accepted and neither
    * evicted nor expired has been handed to the file logger, once and in order.
    */
  lemma {:induction false} StopDrains(
    f: Foreign, key: Key, cfg: Config, before: seq<Entry>, s: State, choices: seq<Choice>)
    requires Inv(f, key, cfg, before, s) && s.shared.stop
    requires StepsLeft(s) <= |choices|
    ensures var s' := Drive(f, key, cfg, s, choices);
            && s'.worker == Exited
            && s'.history.accepted == s.history.accepted
            && s'.shared.buffer == []
            && |s'.history.fates| == |s'.history.accepted|
            && s'.history.handed == Select(s'.history.accepted, s'.history.fates, Taken)
            && |s'.history.written| == |s'.history.handed|
    decreases |choices|
  {
    hide LastN, Chain, Render, StripAll, Ids, FileInStep, DedupIndexOk, Deduplicated, Next, Select;
    if choices == [] {
      assert s.history.accepted[..|s.history.fates|] == s.history.accepted;
    } else {
      var s' := Next(f, key, cfg, s, WorkerStep(s.worker, choices[0]));
      WorkerAdvances(f, key, cfg, before, s, choices[0]);
      NextKeepsInv(f, key, cfg, before, s, WorkerStep(s.worker, choices[0]));
      StopDrains(f, key, cfg, before, s', choices[1..]);
    }
  }
}
