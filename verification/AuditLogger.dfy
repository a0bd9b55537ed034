/** The audit log file: append, retention by purge or delete, restart, and the checker. */
module AuditLogger {
  import opened Prelude
  import opened AuditTypes
  import opened AuditChain

  datatype AuditError = Unreadable | NoEntriesMatched | WriteFailed

  /** A file as it lies on disk: complete lines, then text that no line end follows. */
  datatype File = File(lines: seq<string>, tail: string) {
    /** The lines a reader gets. */
    function Seen(): seq<string> {
      if tail == "" then lines else lines + [tail]
    }

    /** One line written at the end, behind whatever the file ends with. */
    function Plus(line: string): File {
      File(lines + [tail + line], "")
    }

    /** A write that stops after `n` characters, or before the line end. */
    function PlusPart(line: string, n: nat): File {
      File(lines, tail + Prefix(line, n))
    }
  }

  function Prefix(text: string, n: nat): string {
    if n < |text| then text[..n] else text
  }

  const NoFile := File([], "")

  /** The file and the hash held in memory for the next append. */
  datatype Log = Log(file: File, prevHash: string)

  /** Where the operating system stopped a rewrite: after so many lines and characters of the next one. */
  datatype Cut = Cut(lines: nat, chars: nat)

  datatype Outcome = Outcome(log: Log, reply: Result<nat, AuditError>)

  // ---- Retention filters ------------------------------------------------------------------

  datatype DeletionFilter = DeletionFilter(
    olderThan: Option<int>,
    action: Option<string>,
    callerKey: Option<string>,
    decision: Option<string>,
    requestIdContains: Option<string>)

  /** For each criterion in turn: not set, or whether the entry meets it. */
  function Verdicts(filter: DeletionFilter, e: Entry): (vs: seq<Option<bool>>)
    ensures |vs| == 5
  {
    [ if filter.olderThan.Some? then Some(e.timestamp < filter.olderThan.value) else None,
      if filter.action.Some? then Some(e.action == filter.action.value) else None,
      if filter.callerKey.Some? then Some(e.callerKey == filter.callerKey.value) else None,
      if filter.decision.Some? then Some(e.decision == filter.decision.value) else None,
      if filter.requestIdContains.Some? then Some(Contains(e.requestId, filter.requestIdContains.value)) else None ]
  }

  ghost predicate MeetsSome(filter: DeletionFilter, e: Entry) {
    Some(true) in Verdicts(filter, e)
  }

  ghost predicate MeetsEvery(filter: DeletionFilter, e: Entry) {
    Some(false) !in Verdicts(filter, e)
  }

  /** The closure that decides, criterion by criterion, whether deletion keeps an entry. */
  predicate Keeps(filter: DeletionFilter, e: Entry): (kept: bool)
    ensures kept <==> !MeetsSome(filter, e)
  {
    var vs := Verdicts(filter, e);
    assert Some(true) in vs <==>
           vs[0] == Some(true) || vs[1] == Some(true) || vs[2] == Some(true) || vs[3] == Some(true)
           || vs[4] == Some(true);
    if filter.olderThan.Some? && e.timestamp < filter.olderThan.value then false
    else if filter.action.Some? && e.action == filter.action.value then false
    else if filter.callerKey.Some? && e.callerKey == filter.callerKey.value then false
    else if filter.decision.Some? && e.decision == filter.decision.value then false
    else if filter.requestIdContains.Some? && Contains(e.requestId, filter.requestIdContains.value) then false
    else true
  }

  function CriteriaSet(filter: DeletionFilter): nat {
    (if filter.olderThan.Some? then 1 else 0) + (if filter.action.Some? then 1 else 0)
    + (if filter.callerKey.Some? then 1 else 0) + (if filter.decision.Some? then 1 else 0)
    + (if filter.requestIdContains.Some? then 1 else 0)
  }

  /** An entry that meets no set criterion, save a substring criterion that nothing can miss. */
  function Miss(filter: DeletionFilter): Entry {
    Entry(filter.olderThan.GetOr(0), "", filter.action.GetOr("") + "x", None, filter.decision.GetOr("") + "x",
          "", None, 0, filter.callerKey.GetOr("") + "x", None, None, None)
  }

  /** `Miss` changed so that exactly one set criterion is met. */
  function HitOne(filter: DeletionFilter): Entry {
    var e := Miss(filter);
    if filter.requestIdContains.Some? then e.(requestId := filter.requestIdContains.value)
    else if filter.decision.Some? then e.(decision := filter.decision.value)
    else if filter.callerKey.Some? then e.(callerKey := filter.callerKey.value)
    else e.(action := filter.action.GetOr(""))
  }

  lemma SingleCriterionAgrees(filter: DeletionFilter, e: Entry)
    requires CriteriaSet(filter) == 1
    ensures MeetsSome(filter, e) <==> MeetsEvery(filter, e)
  {
    hide Contains;
    var vs := Verdicts(filter, e);
    assert vs[0] in vs && vs[1] in vs && vs[2] in vs && vs[3] in vs && vs[4] in vs;
  }

  lemma NoneOrSeveralDisagree(filter: DeletionFilter)
    requires CriteriaSet(filter) != 1
    ensures exists e :: !(MeetsSome(filter, e) <==> MeetsEvery(filter, e))
  {
    var e := if CriteriaSet(filter) == 0 then Miss(filter) else HitOne(filter);
    var vs := Verdicts(filter, e);
    assert vs[0] in vs && vs[1] in vs && vs[2] in vs && vs[3] in vs && vs[4] in vs;
    if filter.requestIdContains.Some? {
      assert OccursAt(e.requestId, filter.requestIdContains.value, 0);
    }
    assert !(MeetsSome(filter, e) <==> MeetsEvery(filter, e));
  }

  /**
    * The filter's comment says a deleted entry meets every criterion; the code deletes on any one.
    * The two agree on all entries exactly for filters with a single criterion.
    */
  lemma DeletionMeetsItsCommentIff(filter: DeletionFilter)
    ensures (forall e :: MeetsSome(filter, e) <==> MeetsEvery(filter, e)) <==> CriteriaSet(filter) == 1
  {
    hide *;
    if CriteriaSet(filter) == 1 {
      forall e ensures MeetsSome(filter, e) <==> MeetsEvery(filter, e) {
        SingleCriterionAgrees(filter, e);
      }
    } else {
      NoneOrSeveralDisagree(filter);
    }
  }

  // ---- Operations on the log ----------------------------------------------------------------

  /** Opening resumes from the last line of the file, blank or not. */
  function Open(f: Foreign, file: Option<File>): Log {
    var onDisk := file.GetOr(NoFile);
    var lines := onDisk.Seen();
    if lines == [] || f.fromJson(Last(lines)) == None then Log(onDisk, "")
    else Log(onDisk, ContentHash(f, f.fromJson(Last(lines)).value))
  }

  function Append(f: Foreign, key: Key, log: Log, e: Entry): Log {
    var linked := Link(f, key, log.prevHash, e);
    Log(log.file.Plus(f.toJson(linked)), ContentHash(f, linked))
  }

  /** One call of `log`, whose write may stop after some characters; the hash then stays. */
  function Store(f: Foreign, key: Key, log: Log, e: Entry, stop: Option<nat>): Log {
    if stop == None then Append(f, key, log, e)
    else log.(file := log.file.PlusPart(f.toJson(Link(f, key, log.prevHash, e)), stop.value))
  }

  function Rewritten(f: Foreign, key: Key, es: seq<Entry>): Log {
    Log(File(Render(f, key, es), ""), EndHash(f, Chain(f, key, es)))
  }

  /**
    * The log after retention, and the answer. Nothing is written if nothing is removed. A rewrite
    * that the operating system cuts off leaves what was written and the old hash.
    */
  function Retain(f: Foreign, key: Key, log: Log, keep: Entry -> bool, cut: Option<Cut>): Outcome {
    var es := Entries(f, log.file.Seen());
    if es.None? then Outcome(log, Err(Unreadable))
    else
      var kept := Filter(es.value, keep);
      Replace(f, key, log, kept, |es.value| - |kept|, cut)
  }

  function Replace(f: Foreign, key: Key, log: Log, kept: seq<Entry>, removed: nat, cut: Option<Cut>): Outcome {
    if removed == 0 then Outcome(log, Ok(0))
    else if cut.Some? && cut.value.lines < |kept|
    then
      var lines := Render(f, key, kept);
      var file := File(lines[..cut.value.lines], "").PlusPart(lines[cut.value.lines], cut.value.chars);
      Outcome(log.(file := file), Err(WriteFailed))
    else Outcome(Rewritten(f, key, kept), Ok(removed))
  }

  // ---- Every sequential run refines a list of payloads ---------------------------------------

  datatype Op =
    | Reopen
    | Write(entry: Entry, stop: Option<nat>)
    | Purge(cutoff: int, cut: Option<Cut>)
    | Delete(filter: DeletionFilter, cut: Option<Cut>)

  /** The entries an operation keeps. */
  function Survives(op: Op): Entry -> bool {
    match op
    case Purge(cutoff, _) => (e: Entry) => e.timestamp >= cutoff
    case Delete(filter, _) => (e: Entry) => Keeps(filter, e)
    case _ => (e: Entry) => true
  }

  function Apply(f: Foreign, key: Key, log: Log, op: Op): Log {
    match op
    case Reopen => Open(f, Some(log.file))
    case Write(e, stop) => Store(f, key, log, e, stop)
    case _ => Retain(f, key, log, Survives(op), op.cut).log
  }

  /** What a retention operation answers: how many entries it removed, or why it could not. */
  function Reply(f: Foreign, key: Key, log: Log, op: Op): Result<nat, AuditError>
    requires op.Purge? || op.Delete?
  {
    var reply := Retain(f, key, log, Survives(op), op.cut).reply;
    if op.Delete? && reply == Ok(0) then Err(NoEntriesMatched) else reply
  }

  function Run(f: Foreign, key: Key, log: Log, ops: seq<Op>): Log {
    if ops == [] then log else Apply(f, key, Run(f, key, log, Front(ops)), Last(ops))
  }

  /** What the same operations do to a plain list. */
  function ApplyToList(payloads: seq<Entry>, op: Op): seq<Entry> {
    match op
    case Write(e, stop) => if stop == None then payloads + [Strip(e)] else payloads
    case _ => Filter(payloads, Survives(op))
  }

  function RunOnList(payloads: seq<Entry>, ops: seq<Op>): seq<Entry> {
    if ops == [] then payloads else ApplyToList(RunOnList(payloads, Front(ops)), Last(ops))
  }

  /** The log holds exactly these payloads and is ready to append to them. */
  ghost predicate Holds(f: Foreign, key: Key, log: Log, payloads: seq<Entry>) {
    && log == Rewritten(f, key, payloads)
    && StripAll(payloads) == payloads
  }

  lemma HoldsAfterAppend(f: Foreign, key: Key, log: Log, payloads: seq<Entry>, e: Entry)
    requires Holds(f, key, log, payloads)
    ensures Holds(f, key, Append(f, key, log, e), payloads + [Strip(e)])
  {
    hide Chain, Render, StripAll, ContentHash, Link;
    var linked := Link(f, key, log.prevHash, e);
    LinkIgnoresOldLink(f, key, log.prevHash, e);
    RenderSnoc(f, key, payloads, Strip(e));
    ChainSnoc(f, key, payloads, Strip(e));
    StripAllSnoc(payloads, Strip(e));
    assert "" + f.toJson(linked) == f.toJson(linked);
  }

  lemma HoldsAfterReopen(f: Foreign, key: Key, log: Log, payloads: seq<Entry>)
    requires f.Lawful()
    requires Holds(f, key, log, payloads)
    ensures Open(f, Some(log.file)) == log
  {
  }

  /** The decision does not look at the two link fields. */
  ghost predicate IgnoresLinks(keep: Entry -> bool) {
    forall e {:trigger Strip(e)} :: keep(e) == keep(Strip(e))
  }

  lemma {:induction false} FilterCommutesWithStrip(es: seq<Entry>, keep: Entry -> bool)
    requires IgnoresLinks(keep)
    ensures StripAll(Filter(es, keep)) == Filter(StripAll(es), keep)
  {
    if es != [] {
      FilterCommutesWithStrip(Front(es), keep);
      StripAllSnoc(Front(es), Last(es));
      assert es == Front(es) + [Last(es)];
      FilterSnoc(StripAll(Front(es)), Strip(Last(es)), keep);
      StripAllSnoc(Filter(Front(es), keep), Last(es));
    }
  }

  /** Rebuilding the chain over the surviving entries of a file is chaining the surviving payloads. */
  lemma SurvivorsChain(f: Foreign, key: Key, payloads: seq<Entry>, keep: Entry -> bool)
    requires StripAll(payloads) == payloads
    requires IgnoresLinks(keep)
    ensures var kept := Filter(payloads, keep);
            && |Filter(Chain(f, key, payloads), keep)| == |kept|
            && Chain(f, key, Filter(Chain(f, key, payloads), keep)) == Chain(f, key, kept)
            && StripAll(kept) == kept
  {
    var es := Chain(f, key, payloads);
    ChainKeepsPayloads(f, key, payloads);
    FilterCommutesWithStrip(es, keep);
    ChainIgnoresOldLinks(f, key, Filter(es, keep));
    FilterCommutesWithStrip(payloads, keep);
  }

  lemma HoldsAfterRetain(f: Foreign, key: Key, log: Log, payloads: seq<Entry>, keep: Entry -> bool)
    requires f.Lawful()
    requires Holds(f, key, log, payloads)
    requires IgnoresLinks(keep)
    ensures Holds(f, key, Retain(f, key, log, keep, None).log, Filter(payloads, keep))
    ensures Retain(f, key, log, keep, None).reply == Ok(|payloads| - |Filter(payloads, keep)|)
  {
    RenderedIsAccepted(f, key, payloads);
    RetainFromChain(f, key, log, payloads, keep);
  }

  lemma RetainReadable(f: Foreign, key: Key, log: Log, es: seq<Entry>, keep: Entry -> bool, cut: Option<Cut>)
    requires Entries(f, log.file.Seen()) == Some(es)
    ensures Retain(f, key, log, keep, cut) ==
            Replace(f, key, log, Filter(es, keep), |es| - |Filter(es, keep)|, cut)
  {
    hide Replace, Entries, Filter;
  }

  /** Retention leaves a file it cannot read alone. */
  lemma UnreadableKept(f: Foreign, key: Key, log: Log, keep: Entry -> bool, cut: Option<Cut>)
    ensures Entries(f, log.file.Seen()) == None ==> Retain(f, key, log, keep, cut) == Outcome(log, Err(Unreadable))
  {
    hide Entries, Filter, Replace;
  }

  lemma RetainFromChain(f: Foreign, key: Key, log: Log, payloads: seq<Entry>, keep: Entry -> bool)
    requires Holds(f, key, log, payloads)
    requires Entries(f, log.file.Seen()) == Some(Chain(f, key, payloads))
    requires IgnoresLinks(keep)
    ensures Holds(f, key, Retain(f, key, log, keep, None).log, Filter(payloads, keep))
    ensures Retain(f, key, log, keep, None).reply == Ok(|payloads| - |Filter(payloads, keep)|)
  {
    hide *;
    RetainReadable(f, key, log, Chain(f, key, payloads), keep, None);
    ReplaceSurvivors(f, key, log, payloads, keep);
  }

  lemma ReplaceSurvivors(f: Foreign, key: Key, log: Log, payloads: seq<Entry>, keep: Entry -> bool)
    requires Holds(f, key, log, payloads)
    requires IgnoresLinks(keep)
    ensures var kept := Filter(Chain(f, key, payloads), keep);
            var o := Replace(f, key, log, kept, |Chain(f, key, payloads)| - |kept|, None);
            && Holds(f, key, o.log, Filter(payloads, keep))
            && o.reply == Ok(|payloads| - |Filter(payloads, keep)|)
  {
    hide Chain, Filter, PrintAll, StripAll;
    SurvivorsChain(f, key, payloads, keep);
    FilterSameLength(payloads, keep);
    ReplaceHolds(f, key, log, payloads, Filter(Chain(f, key, payloads), keep), Filter(payloads, keep));
  }

  lemma ReplaceHolds(f: Foreign, key: Key, log: Log, payloads: seq<Entry>, kept: seq<Entry>, survivors: seq<Entry>)
    requires Holds(f, key, log, payloads)
    requires Chain(f, key, kept) == Chain(f, key, survivors)
    requires |kept| == |survivors| <= |payloads|
    requires |survivors| == |payloads| ==> survivors == payloads
    requires StripAll(survivors) == survivors
    ensures var o := Replace(f, key, log, kept, |payloads| - |kept|, None);
            Holds(f, key, o.log, survivors) && o.reply == Ok(|payloads| - |survivors|)
  {
    hide Chain, PrintAll, StripAll, EndHash;
  }

  /** The answer counts the entries that did not survive; deleting nothing is an error, purging nothing is not. */
  lemma RepliesCountRemovals(f: Foreign, key: Key, log: Log, payloads: seq<Entry>, op: Op)
    requires f.Lawful()
    requires Holds(f, key, log, payloads)
    requires (op.Purge? || op.Delete?) && op.cut == None
    ensures var removed := |payloads| - |ApplyToList(payloads, op)|;
            Reply(f, key, log, op) == if op.Delete? && removed == 0 then Err(NoEntriesMatched) else Ok(removed)
  {
    hide Filter, Chain, Retain, Entries, PrintAll, StripAll;
    SurvivalIgnoresLinks(op);
    var keep := Survives(op);
    assert ApplyToList(payloads, op) == Filter(payloads, keep);
    assert Retain(f, key, log, keep, op.cut).reply == Ok(|payloads| - |Filter(payloads, keep)|) by {
      HoldsAfterRetain(f, key, log, payloads, keep);
    }
  }

  lemma SurvivalIgnoresLinks(op: Op)
    ensures IgnoresLinks(Survives(op))
  {
    if op.Delete? {
      assert forall e :: Verdicts(op.filter, e) == Verdicts(op.filter, Strip(e));
    }
  }

  /** No write of the operation stops part-way. */
  predicate Uninterrupted(op: Op) {
    && (op.Write? ==> op.stop == None || op.stop == Some(0))
    && (op.Purge? || op.Delete? ==> op.cut == None)
  }

  lemma HoldsAfterOp(f: Foreign, key: Key, log: Log, payloads: seq<Entry>, op: Op)
    requires f.Lawful()
    requires Uninterrupted(op)
    requires Holds(f, key, log, payloads)
    ensures Holds(f, key, Apply(f, key, log, op), ApplyToList(payloads, op))
  {
    match op
    case Reopen =>
      HoldsAfterReopen(f, key, log, payloads);
      FilterAll(payloads, Survives(op));
    case Write(e, stop) =>
      HoldsAfterAppend(f, key, log, payloads, e);
      assert Prefix(f.toJson(Link(f, key, log.prevHash, e)), 0) == "";
    case _ =>
      SurvivalIgnoresLinks(op);
      HoldsAfterRetain(f, key, log, payloads, Survives(op));
  }

  /**
    * For every run whose writes complete, the file is the rendering of the list the same operations
    * produce: purge and delete keep exactly the surviving entries in order, nothing but the links changes, the
    * in-memory hash is that of the last entry, and the checker accepts the file.
    */
  lemma {:induction false} EveryRunRefinesAList(f: Foreign, key: Key, log: Log, payloads: seq<Entry>, ops: seq<Op>)
    requires f.Lawful()
    requires Holds(f, key, log, payloads)
    requires forall i :: 0 <= i < |ops| ==> Uninterrupted(ops[i])
    ensures Holds(f, key, Run(f, key, log, ops), RunOnList(payloads, ops))
    ensures Accepts(f, key, Run(f, key, log, ops).file.Seen())
  {
    if ops != [] {
      EveryRunRefinesAList(f, key, log, payloads, Front(ops));
      HoldsAfterOp(f, key, Run(f, key, log, Front(ops)), RunOnList(payloads, Front(ops)), Last(ops));
    }
    RenderedIsAccepted(f, key, RunOnList(payloads, ops));
  }

  /** A missing or empty file is a good place to start a run. */
  lemma FreshFileHoldsNothing(f: Foreign, key: Key, file: Option<File>)
    requires file.GetOr(NoFile) == NoFile
    ensures Holds(f, key, Open(f, file), [])
  {
  }

  // ---- What retention keeps of any readable file ------------------------------------------------

  /** Of each payload either every copy is left or none, and what is left is in the old order. */
  ghost predicate KeptExactly(before: seq<Entry>, after: seq<Entry>, keep: Entry -> bool) {
    && Subsequence(StripAll(after), StripAll(before))
    && forall e :: multiset(StripAll(after))[e] == if keep(e) then multiset(StripAll(before))[e] else 0
  }

  lemma FilterKeepsExactly(es: seq<Entry>, after: seq<Entry>, keep: Entry -> bool)
    requires IgnoresLinks(keep)
    requires StripAll(after) == StripAll(Filter(es, keep))
    ensures KeptExactly(es, after, keep)
  {
    hide Filter, Subsequence, IgnoresLinks, StripAll;
    FilterCommutesWithStrip(es, keep);
    FilterIsSubsequence(StripAll(es), keep);
    forall e ensures multiset(StripAll(after))[e] == if keep(e) then multiset(StripAll(es))[e] else 0 {
      FilterCounts(StripAll(es), keep, e);
    }
  }

  lemma RetainKeepsExactly(f: Foreign, key: Key, log: Log, es: seq<Entry>, keep: Entry -> bool)
    requires f.Lawful()
    requires Entries(f, log.file.Seen()) == Some(es)
    requires IgnoresLinks(keep)
    ensures var o := Retain(f, key, log, keep, None);
            var after := Entries(f, o.log.file.Seen());
            && after.Some?
            && KeptExactly(es, after.value, keep)
            && o.reply == Ok(|es| - |after.value|)
  {
    hide Filter, Chain, Render, Entries, StripAll, KeptExactly, IgnoresLinks, EndHash;
    var kept := Filter(es, keep);
    RetainReadable(f, key, log, es, keep, None);
    if |kept| == |es| {
      FilterSameLength(es, keep);
      FilterKeepsExactly(es, es, keep);
    } else {
      RenderedIsAccepted(f, key, kept);
      ChainKeepsPayloads(f, key, kept);
      FilterKeepsExactly(es, Chain(f, key, kept), keep);
    }
  }

  function CountOlder(es: seq<Entry>, cutoff: int): nat {
    if es == [] then 0 else CountOlder(Front(es), cutoff) + if Last(es).timestamp < cutoff then 1 else 0
  }

  lemma {:induction false} FilterDropsOlder(es: seq<Entry>, cutoff: int, keep: Entry -> bool)
    requires forall e :: e in es ==> (keep(e) <==> e.timestamp >= cutoff)
    ensures |Filter(es, keep)| + CountOlder(es, cutoff) == |es|
  {
    if es != [] {
      FilterDropsOlder(Front(es), cutoff, keep);
    }
  }

  /** Purging leaves exactly the entries that are not older than the cutoff, and counts the others. */
  lemma PurgeKeepsExactly(f: Foreign, key: Key, log: Log, es: seq<Entry>, cutoff: int)
    requires f.Lawful()
    requires Entries(f, log.file.Seen()) == Some(es)
    ensures var after := Entries(f, Apply(f, key, log, Purge(cutoff, None)).file.Seen());
            after.Some? && KeptExactly(es, after.value, (e: Entry) => e.timestamp >= cutoff)
    ensures Reply(f, key, log, Purge(cutoff, None)) == Ok(CountOlder(es, cutoff))
  {
    hide Filter, Entries, CountOlder, Retain, StripAll, Subsequence;
    var op := Purge(cutoff, None);
    SurvivalIgnoresLinks(op);
    RetainKeepsExactly(f, key, log, es, Survives(op));
    FilterDropsOlder(es, cutoff, Survives(op));
    RetainReplies(f, key, log, es, Survives(op));
  }

  lemma RetainReplies(f: Foreign, key: Key, log: Log, es: seq<Entry>, keep: Entry -> bool)
    requires Entries(f, log.file.Seen()) == Some(es)
    ensures Retain(f, key, log, keep, None).reply == Ok(|es| - |Filter(es, keep)|)
  {
    hide Filter, Entries, Render;
  }

  /** The entry meets at least one criterion that is set. */
  ghost predicate Matches(filter: DeletionFilter, e: Entry) {
    || (filter.olderThan.Some? && e.timestamp < filter.olderThan.value)
    || filter.action == Some(e.action)
    || filter.callerKey == Some(e.callerKey)
    || filter.decision == Some(e.decision)
    || (filter.requestIdContains.Some? && Substring(filter.requestIdContains.value, e.requestId))
  }

  lemma KeepsIff(filter: DeletionFilter, e: Entry)
    ensures Keeps(filter, e) <==> !Matches(filter, e)
  {
    if filter.requestIdContains.Some? {
      ContainsIff(e.requestId, filter.requestIdContains.value);
    }
  }

  /** Deleting leaves exactly the entries that meet none of the criteria; removing none is an error. */
  lemma DeleteKeepsExactly(f: Foreign, key: Key, log: Log, es: seq<Entry>, filter: DeletionFilter)
    requires f.Lawful()
    requires Entries(f, log.file.Seen()) == Some(es)
    ensures var after := Entries(f, Apply(f, key, log, Delete(filter, None)).file.Seen());
            && after.Some?
            && KeptExactly(es, after.value, (e: Entry) => !Matches(filter, e))
            && Reply(f, key, log, Delete(filter, None)) ==
               if |after.value| == |es| then Err(NoEntriesMatched) else Ok(|es| - |after.value|)
  {
    hide Filter, Entries, Retain, StripAll, Subsequence, Matches, Keeps;
    var op := Delete(filter, None);
    SurvivalIgnoresLinks(op);
    RetainKeepsExactly(f, key, log, es, Survives(op));
    forall e ensures Survives(op)(e) <==> !Matches(filter, e) {
      KeepsIff(filter, e);
    }
  }

  function OlderThan(cutoff: int): DeletionFilter {
    DeletionFilter(Some(cutoff), None, None, None, None)
  }

  /** Purging is deleting by age alone, save that finding nothing to remove is no error. */
  lemma PurgeIsDeleteByAge(f: Foreign, key: Key, log: Log, cutoff: int, cut: Option<Cut>)
    ensures Apply(f, key, log, Purge(cutoff, cut)) == Apply(f, key, log, Delete(OlderThan(cutoff), cut))
    ensures Reply(f, key, log, Delete(OlderThan(cutoff), cut)) ==
            if Reply(f, key, log, Purge(cutoff, cut)) == Ok(0) then Err(NoEntriesMatched)
            else Reply(f, key, log, Purge(cutoff, cut))
  {
    hide Filter, Entries, Replace;
    var purge, delete := Survives(Purge(cutoff, cut)), Survives(Delete(OlderThan(cutoff), cut));
    var es := Entries(f, log.file.Seen());
    if es.Some? {
      FilterSame(es.value, purge, delete);
    }
  }

  lemma RewrittenIgnoresLinks(f: Foreign, key: Key, es: seq<Entry>, fs: seq<Entry>)
    requires StripAll(es) == StripAll(fs)
    ensures Rewritten(f, key, es) == Rewritten(f, key, fs)
  {
    hide Chain, StripAll;
    ChainIgnoresOldLinks(f, key, es);
    ChainIgnoresOldLinks(f, key, fs);
  }

  lemma RetainAfterRewrite(f: Foreign, key: Key, es: seq<Entry>, keep: Entry -> bool)
    requires f.Lawful() && IgnoresLinks(keep)
    ensures Retain(f, key, Rewritten(f, key, es), keep, None).log == Rewritten(f, key, Filter(es, keep))
  {
    hide Filter, Chain, Render, Entries, StripAll, IgnoresLinks, EndHash;
    var chained := Chain(f, key, es);
    RenderedIsAccepted(f, key, es);
    RetainReadable(f, key, Rewritten(f, key, es), chained, keep, None);
    ChainKeepsPayloads(f, key, es);
    FilterCommutesWithStrip(chained, keep);
    FilterCommutesWithStrip(es, keep);
    RewrittenIgnoresLinks(f, key, Filter(chained, keep), Filter(es, keep));
    FilterSameLength(chained, keep);
    RewrittenIgnoresLinks(f, key, chained, es);
  }

  /** Two retentions of any file, readable or not, are one that keeps what both keep. */
  lemma RetainTwice(
    f: Foreign, key: Key, log: Log, keep: Entry -> bool, keep': Entry -> bool, both: Entry -> bool)
    requires f.Lawful() && IgnoresLinks(keep')
    requires forall e :: both(e) <==> keep(e) && keep'(e)
    ensures Retain(f, key, Retain(f, key, log, keep, None).log, keep', None).log == Retain(f, key, log, both, None).log
  {
    hide Filter, Entries, Rewritten, IgnoresLinks;
    var read := Entries(f, log.file.Seen());
    if read.Some? {
      var es := read.value;
      FilterTwice(es, keep, keep', both);
      FilterSameLength(es, keep);
      RetainReadable(f, key, log, es, keep, None);
      RetainReadable(f, key, log, es, both, None);
      if |Filter(es, keep)| < |es| {
        RetainAfterRewrite(f, key, Filter(es, keep), keep');
      }
    }
  }

  /** Two purges in a row are one with the later cutoff. */
  lemma TwoPurgesAreOne(f: Foreign, key: Key, log: Log, first: int, second: int)
    requires f.Lawful()
    ensures Apply(f, key, Apply(f, key, log, Purge(first, None)), Purge(second, None)) ==
            Apply(f, key, log, Purge(Max(first, second), None))
  {
    hide Retain;
    SurvivalIgnoresLinks(Purge(second, None));
    RetainTwice(f, key, log, Survives(Purge(first, None)), Survives(Purge(second, None)),
                Survives(Purge(Max(first, second), None)));
  }

  // ---- Where the chain invariant stops ---------------------------------------------------------

  lemma JsonSpaceIsBlank(s: string)
    requires JsonSpace(s)
    ensures Blank(s)
  {
  }

  lemma BlankParts(a: string, b: string)
    ensures Blank(a + b) <==> Blank(a) && Blank(b)
  {
    if Blank(a + b) {
      forall i | 0 <= i < |a| ensures IsWhitespace(a[i]) {
        assert (a + b)[i] == a[i];
      }
      forall i | 0 <= i < |b| ensures IsWhitespace(b[i]) {
        assert (a + b)[|a| + i] == b[i];
      }
    }
  }

  /** When a file that holds no entry stays accepted. */
  lemma ResumeEmpty(f: Foreign, key: Key, file: File, e: Entry)
    requires f.Lawful() && f.Delimited()
    requires Entries(f, file.Seen()) == Some([])
    ensures Accepts(f, key, Append(f, key, Open(f, Some(file)), e).file.Seen()) <==> JsonSpace(file.tail)
  {
    var log := Open(f, Some(file));
    assert log.prevHash == "" by {
      LastIsBlank(f, file.Seen());
    }
    var linked := Link(f, key, "", e);
    var line := file.tail + f.toJson(linked);
    assert f.fromJson(f.toJson(linked)) == Some(linked);
    BlankParts(file.tail, f.toJson(linked));
    if file.tail != "" {
      EntriesSnoc(f, file.lines, file.tail);
    }
    EntriesSnoc(f, file.lines, line);
    ChainOkSnoc(f, key, [], linked);
  }

  lemma LastIsBlank(f: Foreign, lines: seq<string>)
    requires f.Lawful()
    requires Entries(f, lines) == Some([])
    ensures lines == [] || f.fromJson(Last(lines)) == None
  {
  }

  /** When a file that holds entries stays accepted. */
  lemma ResumeFilled(f: Foreign, key: Key, file: File, e: Entry)
    requires f.Lawful() && f.Delimited()
    requires Accepts(f, key, file.Seen()) && Entries(f, file.Seen()) != Some([])
    ensures Accepts(f, key, Append(f, key, Open(f, Some(file)), e).file.Seen()) <==>
            file.tail == "" && !Blank(Last(file.Seen()))
  {
    var es := Entries(f, file.Seen()).value;
    var log := Open(f, Some(file));
    var linked := Link(f, key, log.prevHash, e);
    var line := file.tail + f.toJson(linked);
    assert f.fromJson(f.toJson(linked)) == Some(linked);
    BlankParts(file.tail, f.toJson(linked));
    EntriesSnoc(f, file.lines, line);
    if file.tail == "" {
      assert line == f.toJson(linked);
      ChainOkSnoc(f, key, es, linked);
    } else {
      EntriesSnoc(f, file.lines, file.tail);
      if JsonSpace(file.tail) {
        JsonSpaceIsBlank(file.tail);
        ChainOkSnoc(f, key, es, linked);
      }
    }
  }

  /**
    * Opening any accepted file and appending keeps it accepted exactly when it holds no entry and
    * ends in JSON white space at most, or holds entries and ends in a line that is not blank and
    * has its line end. A blank last line makes the restart forget the chain; a missing line end
    * joins the old entry and the new one to a line that is neither.
    */
  lemma ResumeKeepsAcceptanceIff(f: Foreign, key: Key, file: File, e: Entry)
    requires f.Lawful() && f.Delimited()
    requires Accepts(f, key, file.Seen())
    ensures Accepts(f, key, Append(f, key, Open(f, Some(file)), e).file.Seen()) <==>
            if Entries(f, file.Seen()) == Some([]) then JsonSpace(file.tail)
            else file.tail == "" && !Blank(Last(file.Seen()))
  {
    hide Accepts, Append, Open;
    if Entries(f, file.Seen()) == Some([]) {
      ResumeEmpty(f, key, file, e);
    } else {
      ResumeFilled(f, key, file, e);
    }
  }

  /** A good file that only lacks its last line end is accepted, and no longer once something is appended. */
  lemma MissingLineEndBreaks(f: Foreign, key: Key, payloads: seq<Entry>, last: Entry, e: Entry)
    requires f.Lawful() && f.Delimited()
    ensures var es := Chain(f, key, payloads);
            var file := File(PrintAll(f, es), f.toJson(Link(f, key, EndHash(f, es), last)));
            && Accepts(f, key, file.Seen())
            && !Accepts(f, key, Append(f, key, Open(f, Some(file)), e).file.Seen())
  {
    var es := Chain(f, key, payloads);
    var file := File(PrintAll(f, es), f.toJson(Link(f, key, EndHash(f, es), last)));
    assert file.tail != "" by {
      assert Blank("");
      assert f.fromJson(file.tail).Some?;
    }
    assert file.Seen() == Render(f, key, payloads + [last]) by {
      RenderSnoc(f, key, payloads, last);
    }
    RenderedIsAccepted(f, key, payloads + [last]);
    ChainSnoc(f, key, payloads, last);
    ResumeKeepsAcceptanceIff(f, key, file, e);
  }

  lemma {:induction false} ChainPrefix(f: Foreign, key: Key, payloads: seq<Entry>, n: nat)
    requires n <= |payloads|
    ensures Chain(f, key, payloads)[..n] == Chain(f, key, payloads[..n])
    decreases |payloads|
  {
    hide Link, EndHash;
    if n == |payloads| {
      assert payloads[..n] == payloads;
    } else {
      ChainPrefix(f, key, Front(payloads), n);
      assert payloads[..n] == Front(payloads)[..n];
      assert Chain(f, key, payloads)[..n] == Chain(f, key, Front(payloads))[..n];
    }
  }

  lemma RenderPrefix(f: Foreign, key: Key, payloads: seq<Entry>, n: nat)
    requires n <= |payloads|
    ensures Render(f, key, payloads)[..n] == Render(f, key, payloads[..n])
  {
    ChainPrefix(f, key, payloads, n);
  }

  /**
    * A rewrite cut off between two lines is not atomic: the file stays accepted, but it holds only
    * a prefix of the survivors, the next append through the same logger is rejected (short of a
    * SHA-256 collision), and a restart before that append repairs the chain.
    */
  lemma InterruptedRewrite(
    f: Foreign, key: Key, log: Log, payloads: seq<Entry>, keep: Entry -> bool, lines: nat, e: Entry)
    requires f.Lawful()
    requires Holds(f, key, log, payloads)
    requires IgnoresLinks(keep)
    requires lines < |Filter(payloads, keep)| < |payloads|
    ensures var Outcome(log', reply) := Retain(f, key, log, keep, Some(Cut(lines, 0)));
            var left := Filter(payloads, keep)[..lines];
            && reply == Err(WriteFailed)
            && log'.file == File(Render(f, key, left), "")
            && Accepts(f, key, log'.file.Seen())
            && (Accepts(f, key, Append(f, key, log', e).file.Seen()) ==>
                  HashCollision(f, Chain(f, key, payloads), Chain(f, key, left)))
            && Accepts(f, key, Append(f, key, Open(f, Some(log'.file)), e).file.Seen())
  {
    hide Retain, Render, Chain, Filter, Append, Open, Accepts, HashCollision, StripAll, Entries;
    var left := Filter(payloads, keep)[..lines];
    var log' := Retain(f, key, log, keep, Some(Cut(lines, 0))).log;
    FileLeftByCut(f, key, log, payloads, keep, Cut(lines, 0));
    assert log' == Log(File(Render(f, key, left), ""), log.prevHash) by {
      RenderAt(f, key, Filter(payloads, keep), lines);
      assert Prefix(Render(f, key, Filter(payloads, keep))[lines], 0) == "";
    }
    RenderedIsAccepted(f, key, left);
    if Accepts(f, key, Append(f, key, log', e).file.Seen()) {
      StaleAppend(f, key, log', payloads, left, e);
    }
    FreshAppend(f, key, left, e);
  }

  /** A file that ends with its line end takes one more entry if that fits the end. */
  lemma AppendAccepted(f: Foreign, key: Key, log: Log, e: Entry)
    requires f.Lawful()
    requires log.file.tail == "" && Entries(f, log.file.lines).Some?
    ensures var es := Entries(f, log.file.lines).value;
            Accepts(f, key, Append(f, key, log, e).file.Seen()) <==>
            ChainOk(f, key, es) && log.prevHash == EndHash(f, es)
  {
    hide ChainOk, Entries, EndHash;
    var es := Entries(f, log.file.lines).value;
    var linked := Link(f, key, log.prevHash, e);
    assert f.fromJson(f.toJson(linked)) == Some(linked) && "" + f.toJson(linked) == f.toJson(linked);
    EntriesSnoc(f, log.file.lines, f.toJson(linked));
    ChainOkSnoc(f, key, es, linked);
    NoEntryNoHash(f);
  }

  lemma NoEntryNoHash(f: Foreign)
    ensures EndHash(f, []) == ""
  {
  }

  /** Appending with the hash of a longer chain than the file holds is accepted only by a collision. */
  lemma StaleAppend(f: Foreign, key: Key, log: Log, payloads: seq<Entry>, left: seq<Entry>, e: Entry)
    requires f.Lawful()
    requires log.file.lines == Render(f, key, left) && log.file.tail == ""
    requires log.prevHash == EndHash(f, Chain(f, key, payloads))
    requires |left| < |payloads|
    requires Accepts(f, key, Append(f, key, log, e).file.Seen())
    ensures HashCollision(f, Chain(f, key, payloads), Chain(f, key, left))
  {
    hide *;
    RenderedIsAccepted(f, key, left);
    AppendAccepted(f, key, log, e);
    SameEndCollides(f, key, payloads, left);
  }

  lemma EndHashLength(f: Foreign, es: seq<Entry>)
    ensures |EndHash(f, es)| == if es == [] then 0 else 64
  {
  }

  lemma SameEndCollides(f: Foreign, key: Key, payloads: seq<Entry>, left: seq<Entry>)
    requires f.Lawful()
    requires |left| < |payloads| && EndHash(f, Chain(f, key, payloads)) == EndHash(f, Chain(f, key, left))
    ensures HashCollision(f, Chain(f, key, payloads), Chain(f, key, left))
  {
    hide Chain, ChainOk, HashCollision, EndHash;
    var es, fs := Chain(f, key, payloads), Chain(f, key, left);
    ChainIsOk(f, key, payloads);
    ChainIsOk(f, key, left);
    EndHashLength(f, es);
    EndHashLength(f, fs);
    DeterminedByEnd(f, key, es, fs);
  }

  lemma FreshAppend(f: Foreign, key: Key, left: seq<Entry>, e: Entry)
    requires f.Lawful()
    ensures Accepts(f, key, Append(f, key, Open(f, Some(File(Render(f, key, left), ""))), e).file.Seen())
  {
    var file := File(Render(f, key, left), "");
    RenderedIsAccepted(f, key, left + [e]);
    RenderSnoc(f, key, left, e);
    assert Open(f, Some(file)).prevHash == EndHash(f, Chain(f, key, left));
    var json := f.toJson(Link(f, key, EndHash(f, Chain(f, key, left)), e));
    assert "" + json == json;
  }

  /**
    * A rewrite cut off inside a line, or before its line end: accepted exactly in the second case, and
    * never after an append.
    */
  lemma InterruptedInsideLine(
    f: Foreign, key: Key, log: Log, payloads: seq<Entry>, keep: Entry -> bool, cut: Cut, e: Entry)
    requires f.Lawful() && f.Delimited()
    requires Holds(f, key, log, payloads)
    requires IgnoresLinks(keep)
    requires cut.lines < |Filter(payloads, keep)| < |payloads| && cut.chars > 0
    ensures var log' := Retain(f, key, log, keep, Some(cut)).log;
            && (Accepts(f, key, log'.file.Seen()) <==>
                  cut.chars >= |Render(f, key, Filter(payloads, keep))[cut.lines]|)
            && !Accepts(f, key, Append(f, key, log', e).file.Seen())
            && !Accepts(f, key, Append(f, key, Open(f, Some(log'.file)), e).file.Seen())
  {
    var kept := Filter(payloads, keep);
    var log' := Retain(f, key, log, keep, Some(cut)).log;
    hide Retain, Chain, Render, Entries, ChainOk, Append, Open, Filter, Prefix, Holds;
    FileLeftByCut(f, key, log, payloads, keep, cut);
    RenderAt(f, key, kept, cut.lines);
    var next := Chain(f, key, kept)[cut.lines];
    var piece := Prefix(f.toJson(next), cut.chars);
    PieceOfEntry(f, next, cut.chars);
    assert log'.file == File(Render(f, key, kept[..cut.lines]), piece);
    GluedIsRejected(f, key, log', e);
    OpenKeepsFile(f, log'.file);
    GluedIsRejected(f, key, Open(f, Some(log'.file)), e);
    if piece == f.toJson(next) {
      RenderPrefix(f, key, kept, cut.lines + 1);
      RenderPrefix(f, key, kept, cut.lines);
      assert log'.file.Seen() == Render(f, key, kept)[..cut.lines + 1];
      RenderedIsAccepted(f, key, kept[..cut.lines + 1]);
    } else {
      EntriesSnoc(f, log'.file.lines, piece);
    }
  }

  lemma RenderAt(f: Foreign, key: Key, payloads: seq<Entry>, i: nat)
    requires i < |payloads|
    ensures |Render(f, key, payloads)| == |Chain(f, key, payloads)| == |payloads|
    ensures Render(f, key, payloads)[i] == f.toJson(Chain(f, key, payloads)[i])
  {
  }

  lemma OpenKeepsFile(f: Foreign, file: File)
    ensures Open(f, Some(file)).file == file
  {
  }

  /** The beginning of a printed entry is not blank, and unreadable unless it is the whole. */
  lemma PieceOfEntry(f: Foreign, e: Entry, n: nat)
    requires f.Lawful() && f.Delimited() && n > 0
    ensures var piece := Prefix(f.toJson(e), n);
            && f.Piece(piece) && !Blank(piece)
            && (piece == f.toJson(e) <==> n >= |f.toJson(e)|)
            && (piece != f.toJson(e) ==> f.Scraps([piece]) && f.fromJson(piece) == None)
  {
    var piece := Prefix(f.toJson(e), n);
    assert f.fromJson(f.toJson(e)) == Some(e) && Blank("");
    assert f.Piece(piece) by {
      assert piece <= f.toJson(e);
    }
    if piece != f.toJson(e) {
      forall e' ensures [piece][0] != f.toJson(e') {
        assert piece <= f.toJson(e);
      }
      assert f.Scraps([piece]);
      RunOfOne(piece);
    }
  }

  lemma RunOfOne(s: string)
    ensures RunTogether([s]) == s
  {
    assert Front([s]) == [] && "" + s == s;
  }

  /** Nothing appended to a line that holds text other than JSON white space can be read. */
  lemma GluedIsRejected(f: Foreign, key: Key, log: Log, e: Entry)
    requires f.Lawful() && f.Delimited()
    requires !Blank(log.file.tail)
    ensures !Accepts(f, key, Append(f, key, log, e).file.Seen())
  {
    var json := f.toJson(Link(f, key, log.prevHash, e));
    BlankParts(log.file.tail, json);
    if JsonSpace(log.file.tail) {
      JsonSpaceIsBlank(log.file.tail);
    }
    EntriesSnoc(f, log.file.lines, log.file.tail + json);
  }

  lemma FileLeftByCut(f: Foreign, key: Key, log: Log, payloads: seq<Entry>, keep: Entry -> bool, cut: Cut)
    requires f.Lawful()
    requires Holds(f, key, log, payloads)
    requires IgnoresLinks(keep)
    requires cut.lines < |Filter(payloads, keep)| < |payloads|
    ensures var kept := Filter(payloads, keep);
            var file := File(Render(f, key, kept[..cut.lines]), Prefix(Render(f, key, kept)[cut.lines], cut.chars));
            Retain(f, key, log, keep, Some(cut)) == Outcome(Log(file, log.prevHash), Err(WriteFailed))
  {
    hide Chain, Entries, Filter, PrintAll, StripAll, Accepts, Prefix;
    RenderedIsAccepted(f, key, payloads);
    var kept := Filter(Chain(f, key, payloads), keep);
    SurvivorsChain(f, key, payloads, keep);
    RetainReadable(f, key, log, Chain(f, key, payloads), keep, Some(cut));
    RenderPrefix(f, key, Filter(payloads, keep), cut.lines);
    assert Render(f, key, kept) == Render(f, key, Filter(payloads, keep));
    var next := Prefix(Render(f, key, Filter(payloads, keep))[cut.lines], cut.chars);
    assert "" + next == next;
  }

  /**
    * Two direct callers that both read the in-memory hash before either writes: the result is
    * accepted exactly when the first new entry hashes to the value both of them read, and never
    * when the file was empty.
    */
  lemma OverlappingAppendsAcceptedIff(f: Foreign, key: Key, log: Log, payloads: seq<Entry>, e: Entry, e': Entry)
    requires f.Lawful()
    requires Holds(f, key, log, payloads)
    ensures var first := Link(f, key, log.prevHash, e);
            var second := Link(f, key, log.prevHash, e');
            var lines := log.file.Plus(f.toJson(first)).Plus(f.toJson(second)).Seen();
            && (Accepts(f, key, lines) <==> ContentHash(f, first) == log.prevHash)
            && (payloads == [] ==> !Accepts(f, key, lines))
  {
    hide Chain, Entries, ChainOk, Render, StripAll, EndHash, ContentHash;
    var first := Link(f, key, log.prevHash, e);
    var once := Log(log.file.Plus(f.toJson(first)), log.prevHash);
    var es := Chain(f, key, payloads);
    RenderedIsAccepted(f, key, payloads);
    PlusEntry(f, log.file, first);
    AppendAccepted(f, key, log, e);
    AppendAccepted(f, key, once, e');
    EndHashOfOne(f, es, first);
    EndHashLength(f, es);
  }

  lemma PlusEntry(f: Foreign, file: File, e: Entry)
    requires f.Lawful() && file.tail == "" && Entries(f, file.lines).Some?
    ensures Entries(f, file.Plus(f.toJson(e)).lines) == Some(Entries(f, file.lines).value + [e])
  {
    hide Entries;
    assert f.fromJson(f.toJson(e)) == Some(e) && "" + f.toJson(e) == f.toJson(e);
    EntriesSnoc(f, file.lines, f.toJson(e));
  }

  lemma EndHashOfOne(f: Foreign, es: seq<Entry>, e: Entry)
    ensures EndHash(f, es + [e]) == ContentHash(f, e)
  {
  }

  // ---- The code ----------------------------------------------------------------------------------

  datatype Verdict =
    | Accepted
    | ParseFailed(index: nat)
    | ChainBroken(index: nat)
    | HmacMismatch(index: nat, expected: string, computed: string)

  /** Acceptance of a longer file needs acceptance of the shorter one. */
  lemma AcceptsFront(f: Foreign, key: Key, lines: seq<string>)
    requires lines != []
    ensures Accepts(f, key, lines) <==>
            && Accepts(f, key, Front(lines))
            && (Blank(Last(lines)) ||
                (f.fromJson(Last(lines)).Some? &&
                 ChainOk(f, key, Entries(f, Front(lines)).value + [f.fromJson(Last(lines)).value])))
  {
    EntriesSnoc(f, Front(lines), Last(lines));
    assert lines == Front(lines) + [Last(lines)];
    if Entries(f, Front(lines)).Some? && f.fromJson(Last(lines)).Some? {
      ChainOkSnoc(f, key, Entries(f, Front(lines)).value, f.fromJson(Last(lines)).value);
    }
  }

  /** A file of one signed entry is accepted exactly when the entry points nowhere, by no link or an empty one. */
  lemma FirstEntryAcceptedIff(f: Foreign, key: Key, e: Entry)
    requires f.Lawful()
    requires e.hmac == Some(ComputeHmac(f, key, e))
    ensures Accepts(f, key, [f.toJson(e)]) <==> e.prevHash.GetOr("") == ""
  {
    hide ComputeHmac, Entries;
    EntriesOfPrinted(f, [e]);
    assert PrintAll(f, [e]) == [f.toJson(e)];
    ChainOkSnoc(f, key, [], e);
    assert [] + [e] == [e];
  }

  lemma {:induction false} RejectionPersists(f: Foreign, key: Key, lines: seq<string>, n: nat)
    requires n <= |lines|
    requires !Accepts(f, key, lines[..n])
    ensures !Accepts(f, key, lines)
    decreases |lines|
  {
    if n < |lines| {
      assert lines[..n] == Front(lines)[..n];
      RejectionPersists(f, key, Front(lines), n);
      AcceptsFront(f, key, lines);
    } else {
      assert lines[..n] == lines;
    }
  }

  /** The checker decides acceptance, and a rejection names the first line that spoils it. */
  method VerifyAuditChain(f: Foreign, key: Key, lines: seq<string>) returns (verdict: Verdict)
    ensures verdict == Accepted <==> Accepts(f, key, lines)
    ensures verdict != Accepted ==>
              && 1 <= verdict.index <= |lines|
              && Accepts(f, key, lines[..verdict.index - 1])
              && !Accepts(f, key, lines[..verdict.index])
    ensures verdict.ParseFailed? <==>
              verdict != Accepted && f.fromJson(lines[verdict.index - 1]) == None
    ensures verdict != Accepted && !verdict.ParseFailed? ==>
              var es, e := Entries(f, lines[..verdict.index - 1]).value, f.fromJson(lines[verdict.index - 1]).value;
              && (verdict.HmacMismatch? <==> Linked(f, es + [e], |es|))
              && (verdict.HmacMismatch? ==>
                    verdict.expected == ComputeHmac(f, key, e) && verdict.computed == e.hmac.GetOr("(none)"))
  {
    hide ComputeHmac;
    var prev: Option<string> := None;
    var i := 0;
    while i < |lines|
      invariant 0 <= i <= |lines|
      invariant Accepts(f, key, lines[..i])
      invariant var es := Entries(f, lines[..i]).value;
                prev == if es == [] then None else Some(EndHash(f, es))
    {
      var line := lines[i];
      ghost var seen := lines[..i];
      ghost var es := Entries(f, seen).value;
      assert lines[..i + 1] == seen + [line];
      EntriesSnoc(f, seen, line);
      if Blank(line) {
        i := i + 1;
        continue;
      }
      var parsed := f.fromJson(line);
      if parsed == None {
        RejectionPersists(f, key, lines, i + 1);
        return ParseFailed(i + 1);
      }
      var e := parsed.value;
      ChainOkSnoc(f, key, es, e);
      if prev.Some? {
        if e.prevHash == None || e.prevHash.value != prev.value {
          RejectionPersists(f, key, lines, i + 1);
          return ChainBroken(i + 1);
        }
      } else if e.prevHash.Some? && e.prevHash.value != "" {
        RejectionPersists(f, key, lines, i + 1);
        return ChainBroken(i + 1);
      }
      var expected := ComputeHmac(f, key, e);
      if e.hmac == None || e.hmac.value != expected {
        RejectionPersists(f, key, lines, i + 1);
        return HmacMismatch(i + 1, expected, e.hmac.GetOr("(none)"));
      }
      prev := Some(ContentHash(f, e));
      i := i + 1;
    }
    assert lines[..i] == lines;
    return Accepted;
  }

  /** Rebuilds the chain over the given entries, ready to be written line by line. */
  method SerializeChain(f: Foreign, key: Key, entries: seq<Entry>) returns (serialized: seq<string>, prev: string)
    ensures serialized == Render(f, key, entries) && |serialized| == |entries|
    ensures prev == EndHash(f, Chain(f, key, entries))
  {
    hide CanonicalText;
    prev, serialized := "", [];
    ghost var chained := [];
    for i := 0 to |entries|
      invariant chained == Chain(f, key, entries[..i])
      invariant serialized == PrintAll(f, chained)
      invariant prev == EndHash(f, chained)
    {
      assert entries[..i + 1] == entries[..i] + [entries[i]];
      ChainSnoc(f, key, entries[..i], entries[i]);
      var e := entries[i].(prevHash := Some(prev));
      e := e.(hmac := Some(ComputeHmac(f, key, e)));
      serialized := serialized + [f.toJson(e)];
      chained := chained + [e];
      prev := ContentHash(f, e);
    }
    assert entries[..|entries|] == entries;
  }

  /** Splits off the survivors and counts the rest. */
  method Partition(entries: seq<Entry>, keep: Entry -> bool) returns (kept: seq<Entry>, removed: nat)
    ensures kept == Filter(entries, keep)
    ensures removed == |entries| - |kept|
  {
    kept, removed := [], 0;
    for i := 0 to |entries|
      invariant kept == Filter(entries[..i], keep)
      invariant removed == i - |kept|
    {
      assert entries[..i + 1] == entries[..i] + [entries[i]];
      FilterSnoc(entries[..i], entries[i], keep);
      if keep(entries[i]) {
        kept := kept + [entries[i]];
      } else {
        removed := removed + 1;
      }
    }
    assert entries[..|entries|] == entries;
  }

  class FileAuditLogger {
    const f: Foreign
    const key: Key
    var lines: seq<string>
    var tail: string
    var prevHash: string

    ghost function State(): Log
      reads this
    {
      Log(File(lines, tail), prevHash)
    }

    constructor (f: Foreign, key: Key, file: Option<File>)
      ensures this.f == f && this.key == key
      ensures State() == Open(f, file)
    {
      this.f, this.key := f, key;
      var onDisk := file.GetOr(NoFile);
      lines, tail := onDisk.lines, onDisk.tail;
      prevHash := "";
      if onDisk.Seen() != [] {
        var last := f.fromJson(Last(onDisk.Seen()));
        if last.Some? {
          prevHash := ContentHash(f, last.value);
        }
      }
    }

    /** `stop` says after how many characters the operating system refused the write, if it did. */
    method LogEntry(entry: Entry, stop: Option<nat>) returns (r: Result<(), AuditError>)
      modifies this
      ensures r.Ok? <==> stop == None
      ensures State() == Store(f, key, old(State()), entry, stop)
    {
      var linked := entry.(prevHash := Some(prevHash));
      linked := linked.(hmac := Some(ComputeHmac(f, key, linked)));
      var json := f.toJson(linked);
      if stop.Some? {
        tail := tail + Prefix(json, stop.value);
        return Err(WriteFailed);
      }
      lines, tail := lines + [tail + json], "";
      prevHash := ContentHash(f, linked);
      return Ok(());
    }

    method ReadAllEntries() returns (r: Option<seq<Entry>>)
      ensures r == Entries(f, State().file.Seen())
    {
      var seen := File(lines, tail).Seen();
      var entries := [];
      for i := 0 to |seen|
        invariant Entries(f, seen[..i]) == Some(entries)
      {
        assert seen[..i + 1] == seen[..i] + [seen[i]];
        EntriesSnoc(f, seen[..i], seen[i]);
        if Blank(seen[i]) {
          continue;
        }
        var e := f.fromJson(seen[i]);
        if e == None {
          UnreadablePersists(f, seen, i + 1);
          return None;
        }
        entries := entries + [e.value];
      }
      assert seen[..|seen|] == seen;
      return Some(entries);
    }

    method RewriteChain(entries: seq<Entry>, cut: Option<Cut>) returns (ok: bool)
      modifies this
      ensures ok <==> cut == None || |entries| <= cut.value.lines
      ensures State() == if ok then Rewritten(f, key, entries)
                         else var text, n := Render(f, key, entries), cut.value.lines;
                              Log(File(text[..n], "").PlusPart(text[n], cut.value.chars), old(prevHash))
    {
      hide Render, Chain, EndHash;
      var serialized, prev := SerializeChain(f, key, entries);
      lines, tail := [], "";
      for i := 0 to |serialized|
        invariant lines == serialized[..i] && tail == ""
        invariant prevHash == old(prevHash)
        invariant cut.Some? ==> i <= cut.value.lines
      {
        if cut.Some? && cut.value.lines == i {
          tail := tail + Prefix(serialized[i], cut.value.chars);
          return false;
        }
        lines := lines + [serialized[i]];
      }
      prevHash := prev;
      return true;
    }

    /** The body shared by purging and deleting. */
    method RetainEntries(keep: Entry -> bool, cut: Option<Cut>) returns (r: Result<nat, AuditError>)
      modifies this
      ensures Outcome(State(), r) == Retain(f, key, old(State()), keep, cut)
    {
      hide Entries, Render, EndHash, File.PlusPart;
      var entries := ReadAllEntries();
      if entries == None {
        return Err(Unreadable);
      }
      var kept, removed := Partition(entries.value, keep);
      assert Retain(f, key, old(State()), keep, cut) == Replace(f, key, old(State()), kept, removed, cut);
      if removed == 0 {
        return Ok(0);
      }
      var ok := RewriteChain(kept, cut);
      r := if ok then Ok(removed) else Err(WriteFailed);
      assert Outcome(State(), r) == Replace(f, key, old(State()), kept, removed, cut);
    }

    method PurgeEntriesBefore(cutoff: int, cut: Option<Cut>) returns (r: Result<nat, AuditError>)
      modifies this
      ensures State() == Apply(f, key, old(State()), Purge(cutoff, cut))
      ensures r == Reply(f, key, old(State()), Purge(cutoff, cut))
      ensures var before, after := Entries(f, old(State()).file.Seen()), Entries(f, State().file.Seen());
              f.Lawful() && cut == None && before.Some? ==>
                && after.Some?
                && KeptExactly(before.value, after.value, (e: Entry) => e.timestamp >= cutoff)
                && r == Ok(CountOlder(before.value, cutoff))
      ensures Entries(f, old(State()).file.Seen()) == None ==> r == Err(Unreadable) && State() == old(State())
    {
      hide Entries, Retain, KeptExactly, CountOlder;
      UnreadableKept(f, key, State(), Survives(Purge(cutoff, cut)), cut);
      r := RetainEntries(Survives(Purge(cutoff, cut)), cut);
      ghost var before := Entries(f, old(State()).file.Seen());
      if f.Lawful() && cut == None && before.Some? {
        PurgeKeepsExactly(f, key, old(State()), before.value, cutoff);
      }
    }

    method DeleteEntriesByFilter(filter: DeletionFilter, cut: Option<Cut>) returns (r: Result<nat, AuditError>)
      modifies this
      ensures State() == Apply(f, key, old(State()), Delete(filter, cut))
      ensures r == Reply(f, key, old(State()), Delete(filter, cut))
      ensures var before, after := Entries(f, old(State()).file.Seen()), Entries(f, State().file.Seen());
              f.Lawful() && cut == None && before.Some? ==>
                && after.Some?
                && KeptExactly(before.value, after.value, (e: Entry) => !Matches(filter, e))
      ensures Entries(f, old(State()).file.Seen()) == None ==> r == Err(Unreadable) && State() == old(State())
    {
      hide Entries, Retain, KeptExactly;
      UnreadableKept(f, key, State(), Survives(Delete(filter, cut)), cut);
      r := RetainEntries(Survives(Delete(filter, cut)), cut);
      if r == Ok(0) {
        r := Err(NoEntriesMatched);
      }
      ghost var before := Entries(f, old(State()).file.Seen());
      if f.Lawful() && cut == None && before.Some? {
        DeleteKeepsExactly(f, key, old(State()), before.value, filter);
      }
    }
  }

  lemma {:induction false} UnreadablePersists(f: Foreign, lines: seq<string>, n: nat)
    requires n <= |lines|
    requires Entries(f, lines[..n]) == None
    ensures Entries(f, lines) == None
    decreases |lines|
  {
    if n < |lines| {
      assert lines[..n] == Front(lines)[..n];
      UnreadablePersists(f, Front(lines), n);
    } else {
      assert lines[..n] == lines;
    }
  }
}
