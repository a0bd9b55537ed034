/**
  * Any number of callers that share one file logger without a collector: each call reads the hash,
  * writes its line and updates the hash in three steps, and the calls interleave in any order. A
  * call keeps the file from its write to its update.
  */
module DirectCallers {
  import opened Prelude
  import opened AuditTypes
  import opened AuditChain
  import opened AuditLogger

  /** A call under way. `saw` is the number of the line whose hash it read, 0 for none. */
  datatype Phase =
    | HashRead(linked: Entry, saw: nat)
    | LineWritten(linked: Entry, line: nat)

  /**
    * The logger, the calls under way, and for stating properties only: the entries of the file, for
    * each line written in the run the line whose hash its caller had read, and the number of the
    * line whose hash is in memory.
    */
  datatype State = State(log: Log, calls: map<nat, Phase>, entries: seq<Entry>, saws: seq<nat>, memory: nat)

  datatype Step = ReadHash(caller: nat, entry: Entry) | WriteLine(caller: nat, taken: bool) | UpdateHash(caller: nat)

  function Start(log: Log, es: seq<Entry>): State {
    State(log, map[], es, [], |es|)
  }

  function OnReadHash(f: Foreign, key: Key, s: State, caller: nat, e: Entry): State {
    if caller in s.calls then s
    else s.(calls := s.calls[caller := HashRead(Link(f, key, s.log.prevHash, e), s.memory)])
  }

  /** Some call has written its line and still holds the file. */
  predicate FileHeld(s: State) {
    exists c :: c in s.calls && s.calls[c].LineWritten?
  }

  function OnWriteLine(f: Foreign, s: State, caller: nat, taken: bool): State {
    if caller !in s.calls || !s.calls[caller].HashRead? || FileHeld(s) then s
    else if !taken then s.(calls := s.calls - {caller})
    else
      var call := s.calls[caller];
      State(s.log.(file := s.log.file.Plus(f.toJson(call.linked))),
            s.calls[caller := LineWritten(call.linked, |s.entries| + 1)],
            s.entries + [call.linked], s.saws + [call.saw], s.memory)
  }

  function OnUpdateHash(f: Foreign, s: State, caller: nat): State {
    if caller !in s.calls || !s.calls[caller].LineWritten? then s
    else
      var call := s.calls[caller];
      s.(log := s.log.(prevHash := ContentHash(f, call.linked)), calls := s.calls - {caller}, memory := call.line)
  }

  /** A step that is not enabled leaves the state as it is. */
  function Next(f: Foreign, key: Key, s: State, step: Step): State {
    match step
    case ReadHash(caller, e) => OnReadHash(f, key, s, caller, e)
    case WriteLine(caller, taken) => OnWriteLine(f, s, caller, taken)
    case UpdateHash(caller) => OnUpdateHash(f, s, caller)
  }

  function RunSteps(f: Foreign, key: Key, s: State, steps: seq<Step>): State {
    if steps == [] then s else Next(f, key, RunSteps(f, key, s, Front(steps)), Last(steps))
  }

  /**
    * Every line written directly follows the line whose hash its caller had read: between the two
    * no other line was taken.
    */
  ghost predicate InStep(s: State, before: nat) {
    forall i :: 0 <= i < |s.saws| ==> s.saws[i] == before + i
  }

  // ---- What every step keeps ---------------------------------------------------------------------------

  /** `e` is signed and points at line `saw`. */
  ghost predicate PointsAt(f: Foreign, key: Key, es: seq<Entry>, e: Entry, saw: nat) {
    saw <= |es| && SignedWith(f, key, e) && e.prevHash == Some(EndHash(f, es[..saw]))
  }

  ghost predicate CallOk(f: Foreign, key: Key, es: seq<Entry>, call: Phase) {
    match call
    case HashRead(linked, saw) => PointsAt(f, key, es, linked, saw)
    case LineWritten(linked, line) => 1 <= line == |es| && es[line - 1] == linked
  }

  ghost predicate LineOk(f: Foreign, key: Key, es: seq<Entry>, saws: seq<nat>, before: nat, i: nat)
    requires i < |saws| && before + |saws| == |es|
  {
    saws[i] <= before + i && PointsAt(f, key, es, es[before + i], saws[i])
  }

  ghost predicate Inv(f: Foreign, key: Key, before: nat, s: State) {
    && s.log.file == File(PrintAll(f, s.entries), "")
    && before + |s.saws| == |s.entries|
    && ChainOk(f, key, s.entries[..before])
    && s.memory <= |s.entries| && s.log.prevHash == EndHash(f, s.entries[..s.memory])
    && (!FileHeld(s) ==> s.memory == |s.entries|)
    && (forall c, d :: c in s.calls && d in s.calls && s.calls[c].LineWritten? && s.calls[d].LineWritten? ==> c == d)
    && (forall caller :: caller in s.calls ==> CallOk(f, key, s.entries, s.calls[caller]))
    && (forall i {:trigger LineOk(f, key, s.entries, s.saws, before, i)} ::
          0 <= i < |s.saws| ==> LineOk(f, key, s.entries, s.saws, before, i))
  }

  lemma PointsAtGrows(f: Foreign, key: Key, es: seq<Entry>, x: Entry, e: Entry, saw: nat)
    requires PointsAt(f, key, es, e, saw)
    ensures PointsAt(f, key, es + [x], e, saw)
  {
    assert (es + [x])[..saw] == es[..saw];
  }

  lemma CallOkGrows(f: Foreign, key: Key, es: seq<Entry>, x: Entry, call: Phase)
    requires CallOk(f, key, es, call) && call.HashRead?
    ensures CallOk(f, key, es + [x], call)
  {
    hide PointsAt;
    if call.HashRead? {
      PointsAtGrows(f, key, es, x, call.linked, call.saw);
    }
  }

  lemma ReadHashKeepsInv(f: Foreign, key: Key, before: nat, s: State, caller: nat, e: Entry)
    requires Inv(f, key, before, s)
    ensures Inv(f, key, before, OnReadHash(f, key, s, caller, e))
  {
    hide LineOk, ChainOk, PrintAll, EndHash, Link, SignedWith;
    var s' := OnReadHash(f, key, s, caller, e);
    LinkIsSigned(f, key, s.log.prevHash, e);
    assert PointsAt(f, key, s.entries, Link(f, key, s.log.prevHash, e), s.memory);
    if c :| c in s.calls && s.calls[c].LineWritten? {
      assert s'.calls[c].LineWritten?;
    }
  }

  lemma LineOkGrows(f: Foreign, key: Key, es: seq<Entry>, saws: seq<nat>, before: nat, e: Entry, saw: nat, i: nat)
    requires before + |saws| == |es| && i <= |saws|
    requires i < |saws| ==> LineOk(f, key, es, saws, before, i)
    requires PointsAt(f, key, es, e, saw)
    ensures LineOk(f, key, es + [e], saws + [saw], before, i)
  {
    hide EndHash, SignedWith;
    if i < |saws| {
      PointsAtGrows(f, key, es, e, es[before + i], saws[i]);
    } else {
      PointsAtGrows(f, key, es, e, e, saw);
    }
  }

  lemma FreeCallsReading(s: State, c: nat)
    requires !FileHeld(s) && c in s.calls
    ensures s.calls[c].HashRead?
  {
  }

  lemma TakenKeepsCalls(f: Foreign, key: Key, before: nat, s: State, caller: nat)
    requires Inv(f, key, before, s) && caller in s.calls && !FileHeld(s)
    ensures var s' := OnWriteLine(f, s, caller, true);
            && (forall c :: c in s'.calls ==> CallOk(f, key, s'.entries, s'.calls[c]))
            && (forall c :: c in s'.calls && s'.calls[c].LineWritten? ==> c == caller)
            && FileHeld(s')
  {
    hide LineOk, ChainOk, EndHash, PointsAt, PrintAll;
    FreeCallsReading(s, caller);
    var s', call := OnWriteLine(f, s, caller, true), s.calls[caller];
    forall c | c in s'.calls && c != caller ensures CallOk(f, key, s'.entries, s'.calls[c]) && s'.calls[c].HashRead? {
      FreeCallsReading(s, c);
      CallOkGrows(f, key, s.entries, call.linked, s.calls[c]);
    }
    assert s'.calls[caller].LineWritten?;
  }

  lemma TakenKeepsLines(f: Foreign, key: Key, before: nat, s: State, caller: nat)
    requires Inv(f, key, before, s) && caller in s.calls && !FileHeld(s)
    ensures var s' := OnWriteLine(f, s, caller, true);
            && before + |s'.saws| == |s'.entries|
            && forall i {:trigger LineOk(f, key, s'.entries, s'.saws, before, i)} ::
                 0 <= i < |s'.saws| ==> LineOk(f, key, s'.entries, s'.saws, before, i)
  {
    hide LineOk, ChainOk, EndHash, PointsAt, PrintAll, FileHeld;
    FreeCallsReading(s, caller);
    var s', call := OnWriteLine(f, s, caller, true), s.calls[caller];
    assert CallOk(f, key, s.entries, call);
    forall i | 0 <= i < |s'.saws| ensures LineOk(f, key, s'.entries, s'.saws, before, i) {
      assert i < |s.saws| ==> LineOk(f, key, s.entries, s.saws, before, i);
      LineOkGrows(f, key, s.entries, s.saws, before, call.linked, call.saw, i);
    }
  }

  lemma WriteLineKeepsInv(f: Foreign, key: Key, before: nat, s: State, caller: nat, taken: bool)
    requires Inv(f, key, before, s)
    ensures Inv(f, key, before, OnWriteLine(f, s, caller, taken))
  {
    hide LineOk, ChainOk, EndHash, CallOk;
    var s' := OnWriteLine(f, s, caller, taken);
    if caller in s.calls && s.calls[caller].HashRead? && !FileHeld(s) {
      if taken {
        var call := s.calls[caller];
        TakenKeepsCalls(f, key, before, s, caller);
        TakenKeepsLines(f, key, before, s, caller);
        assert "" + f.toJson(call.linked) == f.toJson(call.linked);
        assert s'.entries[..before] == s.entries[..before] && s'.entries[..s.memory] == s.entries[..s.memory];
      } else {
        assert !FileHeld(s');
      }
    }
  }

  lemma UpdateHashKeepsInv(f: Foreign, key: Key, before: nat, s: State, caller: nat)
    requires Inv(f, key, before, s)
    ensures Inv(f, key, before, OnUpdateHash(f, s, caller))
  {
    hide LineOk, ChainOk, PrintAll, PointsAt, ContentHash;
    if caller in s.calls && s.calls[caller].LineWritten? {
      var call := s.calls[caller];
      assert CallOk(f, key, s.entries, call);
      assert Last(s.entries[..call.line]) == call.linked;
      assert !FileHeld(OnUpdateHash(f, s, caller));
    }
  }

  lemma {:induction false} EveryRunKeepsInv(f: Foreign, key: Key, before: nat, s: State, steps: seq<Step>)
    requires Inv(f, key, before, s)
    ensures Inv(f, key, before, RunSteps(f, key, s, steps))
  {
    hide Inv;
    if steps != [] {
      EveryRunKeepsInv(f, key, before, s, Front(steps));
      var s' := RunSteps(f, key, s, Front(steps));
      match Last(steps)
      case ReadHash(caller, e) => ReadHashKeepsInv(f, key, before, s', caller, e);
      case WriteLine(caller, taken) => WriteLineKeepsInv(f, key, before, s', caller, taken);
      case UpdateHash(caller) => UpdateHashKeepsInv(f, key, before, s', caller);
    }
  }

  lemma StartSatisfiesInv(f: Foreign, key: Key, log: Log, payloads: seq<Entry>)
    requires Holds(f, key, log, payloads)
    ensures Inv(f, key, |payloads|, Start(log, Chain(f, key, payloads)))
  {
    hide Chain, ChainOk, PrintAll, StripAll;
    ChainIsOk(f, key, payloads);
    var es := Chain(f, key, payloads);
    assert es[..|es|] == es;
  }

  /** Whenever no call holds the file, the hash in memory is that of its last line. */
  lemma MemoryIsLastLine(f: Foreign, key: Key, log: Log, payloads: seq<Entry>, steps: seq<Step>)
    requires Holds(f, key, log, payloads)
    ensures var s := RunSteps(f, key, Start(log, Chain(f, key, payloads)), steps);
            !FileHeld(s) ==> s.log.prevHash == EndHash(f, s.entries)
  {
    hide ChainOk, RunSteps, Start, Holds, Chain, LineOk, CallOk, PrintAll, EndHash;
    StartSatisfiesInv(f, key, log, payloads);
    EveryRunKeepsInv(f, key, |payloads|, Start(log, Chain(f, key, payloads)), steps);
    var s := RunSteps(f, key, Start(log, Chain(f, key, payloads)), steps);
    assert s.entries[..|s.entries|] == s.entries;
  }

  // ---- Exactly when the file is accepted -----------------------------------------------------------------

  lemma {:induction false} InStepIsLinked(f: Foreign, key: Key, before: nat, s: State, n: nat)
    requires Inv(f, key, before, s) && InStep(s, before)
    requires n <= |s.saws|
    ensures ChainOk(f, key, s.entries[..before + n])
    decreases n
  {
    hide ChainOk, PrintAll, SignedWith, EndHash;
    NoEntryNoHash(f);
    if n > 0 {
      InStepIsLinked(f, key, before, s, n - 1);
      var es, i := s.entries[..before + n - 1], n - 1;
      assert s.saws[i] == before + i;
      assert LineOk(f, key, s.entries, s.saws, before, i);
      ChainOkSnoc(f, key, es, s.entries[before + i]);
      assert s.entries[..before + n] == es + [s.entries[before + i]];
    }
  }

  lemma {:induction false} ChainOkPrefix(f: Foreign, key: Key, es: seq<Entry>, n: nat)
    requires ChainOk(f, key, es) && n <= |es|
    ensures ChainOk(f, key, es[..n])
    decreases |es|
  {
    hide ChainOk, SignedWith, EndHash;
    if n < |es| {
      assert es == Front(es) + [Last(es)];
      ChainOkSnoc(f, key, Front(es), Last(es));
      ChainOkPrefix(f, key, Front(es), n);
      assert Front(es)[..n] == es[..n];
    } else {
      assert es[..n] == es;
    }
  }

  lemma CollisionInWhole(f: Foreign, es: seq<Entry>, m: nat, n: nat)
    requires m <= |es| && n <= |es| && HashCollision(f, es[..m], es[..n])
    ensures HashCollision(f, es, es)
  {
    var i, j :| 0 <= i < m && 0 <= j < n && Collide(f.sha, f.toJson(es[..m][i]), f.toJson(es[..n][j]));
    assert Collide(f.sha, f.toJson(es[i]), f.toJson(es[j]));
  }

  /** In an accepted chain no two lines share a hash, and no line hashes to nothing. */
  lemma OneLineOneHash(f: Foreign, key: Key, es: seq<Entry>, m: nat, n: nat)
    requires f.Lawful() && ChainOk(f, key, es)
    requires m < n <= |es| && EndHash(f, es[..m]) == EndHash(f, es[..n])
    ensures HashCollision(f, es, es)
  {
    hide ChainOk, HashCollision, EndHash;
    EndHashLength(f, es[..m]);
    EndHashLength(f, es[..n]);
    ChainOkPrefix(f, key, es, m);
    ChainOkPrefix(f, key, es, n);
    DeterminedByEnd(f, key, es[..m], es[..n]);
    assert |es[..m]| != |es[..n]|;
    CollisionInWhole(f, es, m, n);
  }

  lemma LinkedIsInStep(f: Foreign, key: Key, before: nat, s: State, i: nat)
    requires f.Lawful() && Inv(f, key, before, s) && ChainOk(f, key, s.entries)
    requires i < |s.saws| && s.saws[i] != before + i
    ensures HashCollision(f, s.entries, s.entries)
  {
    hide ChainOk, HashCollision, PrintAll, SignedWith, EndHash;
    NoEntryNoHash(f);
    assert LineOk(f, key, s.entries, s.saws, before, i);
    var es, n := s.entries, before + i;
    ChainOkPrefix(f, key, es, n + 1);
    assert es[..n + 1] == es[..n] + [es[n]];
    ChainOkSnoc(f, key, es[..n], es[n]);
    OneLineOneHash(f, key, es, s.saws[i], n);
  }

  /**
    * In every interleaving of any number of direct callers the file is accepted exactly when every
    * line follows the one whose hash its caller had read, short of a SHA-256 collision in it.
    */
  lemma DirectCallersAcceptedIff(f: Foreign, key: Key, log: Log, payloads: seq<Entry>, steps: seq<Step>)
    requires f.Lawful() && Holds(f, key, log, payloads)
    ensures var s := RunSteps(f, key, Start(log, Chain(f, key, payloads)), steps);
            && (InStep(s, |payloads|) ==> Accepts(f, key, s.log.file.Seen()))
            && (Accepts(f, key, s.log.file.Seen()) ==> InStep(s, |payloads|) || HashCollision(f, s.entries, s.entries))
  {
    hide ChainOk, HashCollision, Entries, RunSteps, Start, Holds, Chain, LineOk, CallOk, PrintAll;
    var before := |payloads|;
    var s := RunSteps(f, key, Start(log, Chain(f, key, payloads)), steps);
    StartSatisfiesInv(f, key, log, payloads);
    EveryRunKeepsInv(f, key, before, Start(log, Chain(f, key, payloads)), steps);
    EntriesOfPrinted(f, s.entries);
    if InStep(s, before) {
      InStepIsLinked(f, key, before, s, |s.saws|);
      assert s.entries[..|s.entries|] == s.entries;
    } else if Accepts(f, key, s.log.file.Seen()) {
      var i :| 0 <= i < |s.saws| && s.saws[i] != before + i;
      LinkedIsInStep(f, key, before, s, i);
    }
  }

  // ---- Two consequences -------------------------------------------------------------------------------------

  /**
    * At most one call at a time: it has read the last line, or written it, and otherwise the hash in
    * memory is the last line's.
    */
  ghost predicate Alone(s: State, before: nat) {
    && InStep(s, before) && before + |s.saws| == |s.entries|
    && (forall c, d :: c in s.calls && d in s.calls ==> c == d)
    && (forall c :: c in s.calls && s.calls[c].HashRead? ==> s.calls[c].saw == s.memory == |s.entries|)
    && (forall c :: c in s.calls && s.calls[c].LineWritten? ==> s.calls[c].line == |s.entries|)
    && (s.calls == map[] ==> s.memory == |s.entries|)
  }

  lemma AloneStays(f: Foreign, key: Key, before: nat, s: State, step: Step)
    requires Alone(s, before)
    requires step.ReadHash? ==> s.calls == map[]
    ensures Alone(Next(f, key, s, step), before)
  {
    hide Link;
    var s' := Next(f, key, s, step);
    if step.caller in s.calls {
      assert s'.calls == map[] || step.caller in s'.calls;
      assert s.calls != map[];
    }
  }

  /** Callers that keep others out for the length of a call keep the file accepted, whatever they write. */
  lemma ExclusiveCallsAccepted(f: Foreign, key: Key, log: Log, payloads: seq<Entry>, steps: seq<Step>)
    requires f.Lawful() && Holds(f, key, log, payloads)
    requires var s := Start(log, Chain(f, key, payloads));
             forall i :: 0 <= i < |steps| && steps[i].ReadHash? ==> RunSteps(f, key, s, steps[..i]).calls == map[]
    ensures Accepts(f, key, RunSteps(f, key, Start(log, Chain(f, key, payloads)), steps).log.file.Seen())
  {
    hide Accepts, Holds, RunSteps, HashCollision;
    ExclusiveStays(f, key, |payloads|, Start(log, Chain(f, key, payloads)), steps);
    DirectCallersAcceptedIff(f, key, log, payloads, steps);
  }

  lemma {:induction false} ExclusiveStays(f: Foreign, key: Key, before: nat, s: State, steps: seq<Step>)
    requires Alone(s, before)
    requires forall i :: 0 <= i < |steps| && steps[i].ReadHash? ==> RunSteps(f, key, s, steps[..i]).calls == map[]
    ensures Alone(RunSteps(f, key, s, steps), before)
  {
    hide Alone, Next;
    if steps != [] {
      forall i | 0 <= i < |Front(steps)| && Front(steps)[i].ReadHash?
        ensures RunSteps(f, key, s, Front(steps)[..i]).calls == map[]
      {
        assert Front(steps)[..i] == steps[..i];
      }
      ExclusiveStays(f, key, before, s, Front(steps));
      assert steps[..|steps| - 1] == Front(steps);
      AloneStays(f, key, before, RunSteps(f, key, s, Front(steps)), Last(steps));
    }
  }

  /** Two calls that both read before either writes, the second writing at any time after the first. */
  function Overlapping(e: Entry, e': Entry): seq<Step> {
    [ReadHash(0, e), ReadHash(1, e'), WriteLine(0, true), UpdateHash(0), WriteLine(1, true), UpdateHash(1)]
  }

  lemma RunOne(f: Foreign, key: Key, s: State, steps: seq<Step>, step: Step)
    ensures RunSteps(f, key, s, steps + [step]) == Next(f, key, RunSteps(f, key, s, steps), step)
  {
    assert Front(steps + [step]) == steps;
  }

  lemma OverlappingSaws(f: Foreign, key: Key, s: State, e: Entry, e': Entry)
    requires s.calls == map[] && s.saws == []
    ensures RunSteps(f, key, s, Overlapping(e, e')).saws == [s.memory, s.memory]
  {
    hide RunSteps, Link;
    var o := Overlapping(e, e');
    assert o[..0] == [] && o[..1] == [] + [o[0]] && o[..2] == o[..1] + [o[1]] && o[..3] == o[..2] + [o[2]];
    assert o[..4] == o[..3] + [o[3]] && o[..5] == o[..4] + [o[4]] && o[..6] == o[..5] + [o[5]] && o[..6] == o;
    RunNone(f, key, s);
    RunOne(f, key, s, [], o[0]);
    RunOne(f, key, s, o[..1], o[1]);
    RunOne(f, key, s, o[..2], o[2]);
    RunOne(f, key, s, o[..3], o[3]);
    RunOne(f, key, s, o[..4], o[4]);
    RunOne(f, key, s, o[..5], o[5]);
  }

  lemma RunNone(f: Foreign, key: Key, s: State)
    ensures RunSteps(f, key, s, []) == s
  {
  }

  /** Overlapping calls leave a rejected file, or one with a SHA-256 collision in it. */
  lemma OverlappingCallsRejected(f: Foreign, key: Key, log: Log, payloads: seq<Entry>, e: Entry, e': Entry)
    requires f.Lawful() && Holds(f, key, log, payloads)
    ensures var s := RunSteps(f, key, Start(log, Chain(f, key, payloads)), Overlapping(e, e'));
            Accepts(f, key, s.log.file.Seen()) ==> HashCollision(f, s.entries, s.entries)
  {
    hide Accepts, Holds, RunSteps, HashCollision, Overlapping;
    OverlappingSaws(f, key, Start(log, Chain(f, key, payloads)), e, e');
    var s := RunSteps(f, key, Start(log, Chain(f, key, payloads)), Overlapping(e, e'));
    assert s.saws[1] == s.saws[0];
    DirectCallersAcceptedIff(f, key, log, payloads, Overlapping(e, e'));
  }
}
