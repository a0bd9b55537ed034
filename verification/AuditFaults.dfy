/**
  * Runs of the audit logger in which any write may stop part-way: exactly when the file is still
  * accepted.
  */
module AuditFaults {
  import opened Prelude
  import opened AuditTypes
  import opened AuditChain
  import opened AuditLogger

  /** An entry as it was made, with the length of the chain it was made to end. */
  datatype Made = Made(entry: Entry, depth: nat)

  /**
    * A log with what happened to it. The flags depend on how operations ended, not on hashes:
    * `readable` is lost when a write stops inside a line or follows a line without its end,
    * `current` says that the hash in memory is that of the last entry, and `linked` is lost by an
    * append while it is not. A completed rewrite restores all but `readable`.
    */
  datatype Track = Track(
    log: Log,
    readable: bool,
    linked: bool,
    current: bool,
    entries: seq<Made>,     // what a reader finds
    pieces: seq<string>,    // what the text behind the last line end was written in
    memory: Option<Made>,   // the entry whose hash is in memory
    ever: set<Made>)        // every entry made so far

  function EntriesOf(ms: seq<Made>): (es: seq<Entry>)
    ensures |es| == |ms|
    ensures forall i :: 0 <= i < |ms| ==> es[i] == ms[i].entry
  {
    seq(|ms|, i requires 0 <= i < |ms| => ms[i].entry)
  }

  /** A chain made in one go. */
  function MadeOf(es: seq<Entry>): (ms: seq<Made>)
    ensures |ms| == |es|
    ensures forall i :: 0 <= i < |es| ==> ms[i] == Made(es[i], i + 1)
  {
    seq(|es|, i requires 0 <= i < |es| => Made(es[i], i + 1))
  }

  function Elements(ms: seq<Made>): set<Made> {
    set m | m in ms
  }

  function LastMade(ms: seq<Made>): Option<Made> {
    if ms == [] then None else Some(Last(ms))
  }

  function Depth(m: Option<Made>): nat {
    if m == None then 0 else m.value.depth
  }

  function HashOf(f: Foreign, m: Option<Made>): string {
    if m == None then "" else ContentHash(f, m.value.entry)
  }

  function Begin(log: Log, es: seq<Entry>): Track {
    var ms := MadeOf(es);
    Track(log, true, true, true, ms, [], LastMade(ms), Elements(ms))
  }

  // ---- One operation -----------------------------------------------------------------------------

  function OnReopen(f: Foreign, t: Track): Track {
    t.(log := Open(f, Some(t.log.file)), current := true,
       memory := if t.readable then LastMade(t.entries) else t.memory)
  }

  function OnWrite(f: Foreign, key: Key, t: Track, e: Entry, stop: Option<nat>): Track {
    var m := Made(Link(f, key, t.log.prevHash, e), Depth(t.memory) + 1);
    var json := f.toJson(m.entry);
    var log := Store(f, key, t.log, e, stop);
    if stop == Some(0) then t.(log := log)
    else
      var whole := stop == None || stop.value >= |json|;
      var readable := t.readable && t.pieces == [] && whole;
      Track(log, readable, t.linked && t.current, stop == None,
            if readable then t.entries + [m] else t.entries,
            if stop == None then [] else t.pieces + [Prefix(json, stop.value)],
            if stop == None then Some(m) else t.memory,
            t.ever + {m})
  }

  function OnRetain(f: Foreign, key: Key, t: Track, keep: Entry -> bool, cut: Option<Cut>): Track {
    var log := Retain(f, key, t.log, keep, cut).log;
    var kept := Filter(EntriesOf(t.entries), keep);
    if !t.readable || |kept| == |t.entries| then t.(log := log)
    else
      var ms := MadeOf(Chain(f, key, kept));
      if cut.Some? && cut.value.lines < |kept|
      then
        var json := f.toJson(ms[cut.value.lines].entry);
        var none, whole := cut.value.chars == 0, cut.value.chars >= |json|;
        Track(log, none || whole, true, false,
              if none then ms[..cut.value.lines] else ms[..cut.value.lines + 1],
              if none then [] else [Prefix(json, cut.value.chars)],
              t.memory, t.ever + Elements(ms))
      else Track(log, true, true, true, ms, [], LastMade(ms), t.ever + Elements(ms))
  }

  function Watch(f: Foreign, key: Key, t: Track, op: Op): Track {
    match op
    case Reopen => OnReopen(f, t)
    case Write(e, stop) => OnWrite(f, key, t, e, stop)
    case _ => OnRetain(f, key, t, Survives(op), op.cut)
  }

  function WatchRun(f: Foreign, key: Key, t: Track, ops: seq<Op>): Track {
    if ops == [] then t else Watch(f, key, WatchRun(f, key, t, Front(ops)), Last(ops))
  }

  lemma WatchLog(f: Foreign, key: Key, t: Track, op: Op)
    ensures Watch(f, key, t, op).log == Apply(f, key, t.log, op)
  {
    hide Store, Retain, Open, Chain, Filter, Link, MadeOf, EntriesOf, Elements, Prefix;
  }

  /** Watching does not disturb the run. */
  lemma {:induction false} WatchesRun(f: Foreign, key: Key, t: Track, ops: seq<Op>)
    ensures WatchRun(f, key, t, ops).log == Run(f, key, t.log, ops)
  {
    hide Watch, Apply;
    if ops != [] {
      WatchesRun(f, key, t, Front(ops));
      WatchLog(f, key, WatchRun(f, key, t, Front(ops)), Last(ops));
    }
  }

  // ---- Depths -------------------------------------------------------------------------------------

  /** Two entries made in the run whose printed texts share a digest. */
  ghost predicate Collision(f: Foreign, ever: set<Made>) {
    exists a, b :: a in ever && b in ever && Collide(f.sha, f.toJson(a.entry), f.toJson(b.entry))
  }

  /** `m` points at an entry one step less deep, or nowhere. */
  ghost predicate Rooted(f: Foreign, ever: set<Made>, m: Made) {
    && m.depth >= 1
    && (m.depth == 1 ==> m.entry.prevHash == Some(""))
    && (m.depth > 1 ==>
          exists p :: p in ever && p.depth + 1 == m.depth && m.entry.prevHash == Some(ContentHash(f, p.entry)))
  }

  ghost predicate AllRooted(f: Foreign, ever: set<Made>) {
    forall m :: m in ever ==> Rooted(f, ever, m)
  }

  lemma RootedGrows(f: Foreign, ever: set<Made>, more: set<Made>, m: Made)
    requires Rooted(f, ever, m)
    ensures Rooted(f, ever + more, m)
  {
    hide ContentHash;
    if m.depth > 1 {
      var p :| p in ever && p.depth + 1 == m.depth && m.entry.prevHash == Some(ContentHash(f, p.entry));
      assert p in ever + more;
    }
  }

  lemma CollisionGrows(f: Foreign, ever: set<Made>, more: set<Made>)
    requires Collision(f, ever)
    ensures Collision(f, ever + more)
  {
    var a, b :| a in ever && b in ever && Collide(f.sha, f.toJson(a.entry), f.toJson(b.entry));
    assert a in ever + more && b in ever + more;
  }

  lemma NoCollisionHere(f: Foreign, ever: set<Made>, a: Made, b: Made)
    requires a in ever && b in ever && !Collision(f, ever)
    ensures !Collide(f.sha, f.toJson(a.entry), f.toJson(b.entry))
  {
  }

  /** Short of a collision an entry has one depth. */
  lemma {:induction false} OneDepth(f: Foreign, ever: set<Made>, a: Made, b: Made)
    requires f.Lawful()
    requires AllRooted(f, ever) && !Collision(f, ever)
    requires a in ever && b in ever && ContentHash(f, a.entry) == ContentHash(f, b.entry)
    ensures a.depth == b.depth
    decreases a.depth
  {
    hide Collision, ContentHash;
    assert Rooted(f, ever, a) && Rooted(f, ever, b);
    SameHashSameEntry(f, a.entry, b.entry);
    assert a.entry == b.entry by {
      NoCollisionHere(f, ever, a, b);
    }
    if a.depth > 1 && b.depth > 1 {
      var p :| p in ever && p.depth + 1 == a.depth && a.entry.prevHash == Some(ContentHash(f, p.entry));
      var q :| q in ever && q.depth + 1 == b.depth && b.entry.prevHash == Some(ContentHash(f, q.entry));
      OneDepth(f, ever, p, q);
    }
  }

  /** A chain made in one go is rooted in itself. */
  lemma ChainRooted(f: Foreign, key: Key, payloads: seq<Entry>, i: nat)
    requires i < |payloads|
    ensures var ms := MadeOf(Chain(f, key, payloads)); Rooted(f, Elements(ms), ms[i])
  {
    var es := Chain(f, key, payloads);
    var ms := MadeOf(es);
    ChainPrevHashes(f, key, payloads, i);
    if i > 0 {
      assert ms[i - 1] in Elements(ms);
      assert ms[i - 1].depth + 1 == ms[i].depth;
    }
  }

  lemma {:induction false} ChainPrevHashes(f: Foreign, key: Key, payloads: seq<Entry>, i: nat)
    requires i < |payloads|
    ensures var es := Chain(f, key, payloads);
            es[i].prevHash == Some(if i == 0 then "" else ContentHash(f, es[i - 1]))
    decreases |payloads|
  {
    hide ContentHash;
    if i < |payloads| - 1 {
      ChainPrevHashes(f, key, Front(payloads), i);
    }
  }

  lemma ElementsRooted(f: Foreign, key: Key, ever: set<Made>, payloads: seq<Entry>)
    requires AllRooted(f, ever)
    ensures AllRooted(f, ever + Elements(MadeOf(Chain(f, key, payloads))))
  {
    hide Rooted, Chain;
    var ms := MadeOf(Chain(f, key, payloads));
    var more := Elements(ms);
    forall m | m in ever + more ensures Rooted(f, ever + more, m) {
      if m in ever {
        RootedGrows(f, ever, more, m);
      } else {
        var i :| 0 <= i < |ms| && ms[i] == m;
        ChainRooted(f, key, payloads, i);
        RootedGrows(f, more, ever, m);
        assert more + ever == ever + more;
      }
    }
  }

  // ---- What every operation keeps -------------------------------------------------------------------

  ghost predicate TailOk(f: Foreign, t: Track) {
    && t.log.file.tail == RunTogether(t.pieces)
    && forall i :: 0 <= i < |t.pieces| ==> f.Piece(t.pieces[i])
  }

  /** Some line, or the text behind the last one, is unreadable. */
  ghost predicate Lost(f: Foreign, t: Track) {
    Entries(f, t.log.file.lines) == None || f.Scraps(t.pieces)
  }

  ghost predicate Shows(f: Foreign, t: Track) {
    && t.log.file.Seen() == PrintAll(f, EntriesOf(t.entries))
    && (t.pieces == [] || (t.entries != [] && t.pieces == [f.toJson(Last(t.entries).entry)]))
  }

  ghost predicate InMind(f: Foreign, t: Track) {
    && t.log.prevHash == HashOf(f, t.memory)
    && (t.memory.Some? ==> t.memory.value in t.ever)
    && forall i :: 0 <= i < |t.entries| ==> t.entries[i] in t.ever
  }

  ghost predicate Deep(t: Track) {
    && (forall i :: 0 <= i < |t.entries| ==> t.entries[i].depth >= i + 1)
    && |t.entries| <= Depth(t.memory) + (if t.pieces == [] then 0 else 1)
    && (t.pieces == [] && t.current ==> t.memory == LastMade(t.entries))
    && (t.pieces == [] && !t.current ==>
          t.memory.Some? && (t.entries == [] || Last(t.entries).depth < t.memory.value.depth))
  }

  ghost predicate Links(f: Foreign, key: Key, t: Track) {
    && (t.linked ==> ChainOk(f, key, EntriesOf(t.entries)))
    && (!t.linked && ChainOk(f, key, EntriesOf(t.entries)) ==> Collision(f, t.ever))
  }

  ghost predicate Good(f: Foreign, key: Key, t: Track) {
    Shows(f, t) && InMind(f, t) && Deep(t) && Links(f, key, t) && AllRooted(f, t.ever)
  }

  ghost predicate Inv(f: Foreign, key: Key, t: Track) {
    && TailOk(f, t)
    && (!t.readable ==> Lost(f, t))
    && (t.readable ==> Good(f, key, t))
  }

  lemma RunTogetherSnoc(parts: seq<string>, x: string)
    ensures RunTogether(parts + [x]) == RunTogether(parts) + x
  {
    assert Front(parts + [x]) == parts;
  }

  lemma WholeIsPiece(f: Foreign, e: Entry)
    requires f.Lawful()
    ensures f.Piece(f.toJson(e))
  {
    assert f.fromJson(f.toJson(e)) == Some(e) && Blank("");
    assert f.toJson(e) <= f.toJson(e);
  }

  /** More than one piece is scraps. */
  lemma MorePieces(f: Foreign, parts: seq<string>, x: string)
    requires parts != [] && f.Piece(x)
    requires forall i :: 0 <= i < |parts| ==> f.Piece(parts[i])
    ensures f.Scraps(parts + [x])
  {
    hide Foreign.Piece;
  }

  lemma UnreadableLine(f: Foreign, lines: seq<string>, parts: seq<string>)
    requires f.Delimited() && f.Scraps(parts)
    ensures Entries(f, lines + [RunTogether(parts)]) == None
  {
    EntriesSnoc(f, lines, RunTogether(parts));
  }

  lemma LostIsRejected(f: Foreign, t: Track)
    requires f.Delimited() && TailOk(f, t) && Lost(f, t)
    ensures Entries(f, t.log.file.Seen()) == None
  {
    hide Entries, RunTogether;
    var file := t.log.file;
    if f.Scraps(t.pieces) {
      UnreadableLine(f, file.lines, t.pieces);
      assert file.tail != "" by {
        assert Blank("");
        assert !Blank(RunTogether(t.pieces));
      }
    } else if file.tail != "" {
      EntriesSnoc(f, file.lines, file.tail);
    }
  }

  /** A write behind something other than a line end, or a write that stops inside its line. */
  lemma WriteLoses(f: Foreign, key: Key, t: Track, e: Entry, stop: Option<nat>)
    requires f.Lawful() && f.Delimited() && TailOk(f, t)
    requires stop != Some(0)
    requires var json := f.toJson(Link(f, key, t.log.prevHash, e));
             t.pieces != [] || Entries(f, t.log.file.lines) == None || (stop.Some? && stop.value < |json|)
    ensures var t' := OnWrite(f, key, t, e, stop); TailOk(f, t') && Lost(f, t')
  {
    hide Entries, RunTogether, Foreign.Lawful, Foreign.Delimited, Foreign.Piece, Foreign.Scraps, Link, Prefix;
    var linked := Link(f, key, t.log.prevHash, e);
    var json := f.toJson(linked);
    var file := t.log.file;
    NothingRun();
    if stop == None {
      RunTogetherSnoc(t.pieces, json);
      WholeIsPiece(f, linked);
      EntriesSnoc(f, file.lines, file.tail + json);
      if t.pieces != [] {
        MorePieces(f, t.pieces, json);
        UnreadableLine(f, file.lines, t.pieces + [json]);
      }
    } else {
      var p := Prefix(json, stop.value);
      PieceOfEntry(f, linked, stop.value);
      RunTogetherSnoc(t.pieces, p);
      if t.pieces != [] {
        MorePieces(f, t.pieces, p);
      } else {
        assert t.pieces + [p] == [p];
      }
    }
  }

  lemma NothingRun()
    ensures RunTogether([]) == ""
  {
  }

  lemma EntriesOfSnoc(ms: seq<Made>, m: Made)
    ensures EntriesOf(ms + [m]) == EntriesOf(ms) + [m.entry]
  {
  }

  lemma PrintAllSnoc(f: Foreign, es: seq<Entry>, e: Entry)
    ensures PrintAll(f, es + [e]) == PrintAll(f, es) + [f.toJson(e)]
  {
  }

  /** A whole line behind a line end shows one more entry, with or without its own line end. */
  lemma WriteShows(f: Foreign, key: Key, t: Track, e: Entry, stop: Option<nat>)
    requires f.Lawful() && TailOk(f, t) && Shows(f, t) && t.readable && t.pieces == []
    requires var json := f.toJson(Link(f, key, t.log.prevHash, e)); stop == None || stop.value >= |json| > 0
    ensures var t' := OnWrite(f, key, t, e, stop); TailOk(f, t') && Shows(f, t')
  {
    hide Link, EntriesOf, PrintAll, Foreign.Lawful, RunTogether, Foreign.Piece;
    var m := Made(Link(f, key, t.log.prevHash, e), Depth(t.memory) + 1);
    var json := f.toJson(m.entry);
    NothingRun();
    WholeIsPiece(f, m.entry);
    EntriesOfSnoc(t.entries, m);
    PrintAllSnoc(f, EntriesOf(t.entries), m.entry);
    assert "" + json == json;
    RunTogetherSnoc([], json);
    assert [] + [json] == [json];
  }

  lemma WriteRooted(f: Foreign, ever: set<Made>, memory: Option<Made>, m: Made)
    requires AllRooted(f, ever) && (memory.Some? ==> memory.value in ever)
    requires m.depth == Depth(memory) + 1 && m.entry.prevHash == Some(HashOf(f, memory))
    ensures AllRooted(f, ever + {m})
  {
    hide ContentHash;
    forall x | x in ever + {m} ensures Rooted(f, ever + {m}, x) {
      if x in ever {
        RootedGrows(f, ever, {m}, x);
      } else if memory.Some? {
        assert Rooted(f, ever, memory.value);
        assert memory.value in ever + {m};
      }
    }
  }

  /** An append while the hash in memory is not that of the last entry is accepted only by a collision. */
  lemma WriteLinks(f: Foreign, key: Key, t: Track, e: Entry)
    requires f.Lawful() && InMind(f, t) && Deep(t) && Links(f, key, t) && AllRooted(f, t.ever) && t.pieces == []
    ensures var es := EntriesOf(t.entries) + [Link(f, key, t.log.prevHash, e)];
            && (t.linked && t.current ==> ChainOk(f, key, es))
            && (!(t.linked && t.current) && ChainOk(f, key, es) ==> Collision(f, t.ever))
  {
    hide ChainOk, Collision, AllRooted, Link, Foreign.Lawful;
    var es := EntriesOf(t.entries);
    var linked := Link(f, key, t.log.prevHash, e);
    LinkedIsSigned(f, key, t.log.prevHash, e);
    ChainOkSnoc(f, key, es, linked);
    EndHashLength(f, es);
    if !t.current && ChainOk(f, key, es + [linked]) && !Collision(f, t.ever) {
      assert es != [];
      OneDepth(f, t.ever, t.memory.value, Last(t.entries));
      assert false;
    }
  }

  lemma LinkedIsSigned(f: Foreign, key: Key, prev: string, e: Entry)
    ensures var linked := Link(f, key, prev, e); SignedWith(f, key, linked) && linked.prevHash == Some(prev)
  {
  }

  lemma WriteKeepsGood(f: Foreign, key: Key, t: Track, e: Entry, stop: Option<nat>)
    requires f.Lawful() && TailOk(f, t) && Good(f, key, t) && t.readable && t.pieces == []
    requires var json := f.toJson(Link(f, key, t.log.prevHash, e)); stop == None || stop.value >= |json| > 0
    ensures var t' := OnWrite(f, key, t, e, stop); TailOk(f, t') && t'.readable && Good(f, key, t')
  {
    hide Link, EntriesOf, TailOk, Shows, Collision, ChainOk, AllRooted, ContentHash;
    var m := Made(Link(f, key, t.log.prevHash, e), Depth(t.memory) + 1);
    var t' := OnWrite(f, key, t, e, stop);
    WriteShows(f, key, t, e, stop);
    WriteLinks(f, key, t, e);
    LinkedIsSigned(f, key, t.log.prevHash, e);
    WriteRooted(f, t.ever, t.memory, m);
    EntriesOfSnoc(t.entries, m);
    if Collision(f, t.ever) {
      CollisionGrows(f, t.ever, {m});
    }
    assert forall i :: 0 <= i < |t'.entries| ==> t'.entries[i] in t'.ever && t'.entries[i].depth >= i + 1;
  }

  lemma WriteKeepsInv(f: Foreign, key: Key, t: Track, e: Entry, stop: Option<nat>)
    requires f.Lawful() && f.Delimited() && Inv(f, key, t)
    ensures Inv(f, key, OnWrite(f, key, t, e, stop))
  {
    hide TailOk, Good, Link, Entries, Foreign.Lawful, Foreign.Delimited, Foreign.Piece;
    var linked := Link(f, key, t.log.prevHash, e);
    if stop == Some(0) {
      assert Prefix(f.toJson(linked), 0) == "" && t.log.file.tail + "" == t.log.file.tail;
      assert OnWrite(f, key, t, e, stop) == t;
    } else if t.readable && t.pieces == [] && (stop == None || stop.value >= |f.toJson(linked)|) {
      JsonNotEmpty(f, linked);
      WriteKeepsGood(f, key, t, e, stop);
    } else {
      WriteLoses(f, key, t, e, stop);
    }
  }

  lemma JsonNotEmpty(f: Foreign, e: Entry)
    requires f.Lawful()
    ensures f.toJson(e) != ""
  {
    WholeIsPiece(f, e);
  }

  lemma LastShown(f: Foreign, t: Track)
    requires f.Lawful() && Shows(f, t)
    ensures Open(f, Some(t.log.file)) == Log(t.log.file, HashOf(f, LastMade(t.entries)))
  {
    hide ContentHash;
    if t.entries != [] {
      assert Last(t.log.file.Seen()) == f.toJson(Last(t.entries).entry);
    }
  }

  lemma ReopenKeepsInv(f: Foreign, key: Key, t: Track)
    requires f.Lawful() && Inv(f, key, t)
    ensures Inv(f, key, OnReopen(f, t))
  {
    hide Foreign.Lawful, Foreign.Piece, Collision, ChainOk, AllRooted, EntriesOf, Open, HashOf, Entries;
    OpenKeepsFile(f, t.log.file);
    if t.readable {
      LastShown(f, t);
    }
  }

  lemma ShownEntries(f: Foreign, t: Track)
    requires f.Lawful() && Shows(f, t)
    ensures Entries(f, t.log.file.Seen()) == Some(EntriesOf(t.entries))
  {
    EntriesOfPrinted(f, EntriesOf(t.entries));
  }

  lemma MadeAndBack(es: seq<Entry>)
    ensures EntriesOf(MadeOf(es)) == es
  {
  }

  lemma ElementsHas(ms: seq<Made>, ever: set<Made>)
    ensures forall i :: 0 <= i < |ms| ==> ms[i] in ever + Elements(ms)
  {
  }

  lemma RewriteIsGood(f: Foreign, key: Key, t: Track, kept: seq<Entry>)
    requires f.Lawful() && AllRooted(f, t.ever)
    ensures var ms := MadeOf(Chain(f, key, kept));
            var t' := Track(Rewritten(f, key, kept), true, true, true, ms, [], LastMade(ms), t.ever + Elements(ms));
            TailOk(f, t') && Good(f, key, t')
  {
    hide Chain, ChainOk, Collision, AllRooted, ContentHash, EntriesOf, MadeOf, Elements, PrintAll;
    var ms := MadeOf(Chain(f, key, kept));
    MadeAndBack(Chain(f, key, kept));
    NothingRun();
    ElementsHas(ms, t.ever);
    ElementsRooted(f, key, t.ever, kept);
    ChainIsOk(f, key, kept);
  }

  /** The file a cut leaves, in terms of the chain that was being written. */
  lemma CutShows(f: Foreign, key: Key, t: Track, kept: seq<Entry>, cut: Cut)
    requires f.Lawful() && f.Delimited()
    requires cut.lines < |kept|
    requires var lines := Render(f, key, kept);
             t.log.file == File(lines[..cut.lines], "").PlusPart(lines[cut.lines], cut.chars)
    requires var ms := MadeOf(Chain(f, key, kept));
             var json := f.toJson(ms[cut.lines].entry);
             && t.pieces == (if cut.chars == 0 then [] else [Prefix(json, cut.chars)])
             && t.entries == (if cut.chars == 0 then ms[..cut.lines] else ms[..cut.lines + 1])
             && t.readable == (cut.chars == 0 || cut.chars >= |json|)
    ensures TailOk(f, t) && (t.readable ==> Shows(f, t)) && (!t.readable ==> Lost(f, t))
  {
    hide Chain, Entries, Foreign.Lawful, Foreign.Delimited, Foreign.Piece, Foreign.Scraps, RunTogether, Prefix;
    hide EntriesOf, PrintAll, MadeOf;
    RenderAt(f, key, kept, cut.lines);
    MadeAt(Chain(f, key, kept), cut.lines);
    var next := Chain(f, key, kept)[cut.lines];
    NothingRun();
    if cut.chars == 0 {
      NoPrefix(f.toJson(next));
      PrintedMade(f, key, kept, cut.lines);
    } else {
      PieceOfEntry(f, next, cut.chars);
      var p := Prefix(f.toJson(next), cut.chars);
      RunOfOne(p);
      assert "" + p == p;
      if t.readable {
        JsonNotEmpty(f, next);
        PrintedMade(f, key, kept, cut.lines + 1);
        var lines := Render(f, key, kept);
        assert lines[..cut.lines] + [lines[cut.lines]] == lines[..cut.lines + 1];
      }
    }
  }

  lemma MadeAt(es: seq<Entry>, i: nat)
    requires i < |es|
    ensures |MadeOf(es)| == |es| && MadeOf(es)[i] == Made(es[i], i + 1)
  {
  }

  lemma PrintedMade(f: Foreign, key: Key, kept: seq<Entry>, n: nat)
    requires n <= |kept|
    ensures |MadeOf(Chain(f, key, kept))| == |Render(f, key, kept)| == |kept|
    ensures PrintAll(f, EntriesOf(MadeOf(Chain(f, key, kept))[..n])) == Render(f, key, kept)[..n]
  {
    hide Chain;
  }

  lemma NoPrefix(s: string)
    ensures Prefix(s, 0) == ""
  {
  }

  /** A rewrite that was cut off leaves a file shorter than the chain whose hash is in memory. */
  lemma CutIsGood(f: Foreign, key: Key, t: Track, kept: seq<Entry>, cut: Cut, t': Track)
    requires f.Lawful() && f.Delimited()
    requires t.readable && Good(f, key, t) && cut.lines < |kept| < |t.entries|
    requires var lines := Render(f, key, kept);
             t'.log.file == File(lines[..cut.lines], "").PlusPart(lines[cut.lines], cut.chars)
    requires t'.log.prevHash == t.log.prevHash && t'.memory == t.memory && t'.linked && !t'.current
    requires var ms := MadeOf(Chain(f, key, kept));
             var json := f.toJson(ms[cut.lines].entry);
             && t'.pieces == (if cut.chars == 0 then [] else [Prefix(json, cut.chars)])
             && t'.entries == (if cut.chars == 0 then ms[..cut.lines] else ms[..cut.lines + 1])
             && t'.readable == (cut.chars == 0 || cut.chars >= |json|)
             && t'.ever == t.ever + Elements(ms)
    ensures Inv(f, key, t')
  {
    hide Chain, Render, ChainOk, Collision, AllRooted, ContentHash, EntriesOf, Elements, TailOk, Shows, Lost, Prefix,
         Foreign.Lawful, Foreign.Delimited;
    var ms := MadeOf(Chain(f, key, kept));
    CutShows(f, key, t', kept, cut);
    ElementsHas(ms, t.ever);
    ElementsRooted(f, key, t.ever, kept);
    var n := |t'.entries|;
    ChainPrefix(f, key, kept, n);
    ChainIsOk(f, key, kept[..n]);
    assert EntriesOf(t'.entries) == Chain(f, key, kept)[..n] by {
      EntriesOfPrefix(Chain(f, key, kept), n);
    }
  }

  lemma EntriesOfPrefix(es: seq<Entry>, n: nat)
    requires n <= |es|
    ensures EntriesOf(MadeOf(es)[..n]) == es[..n]
  {
  }

  lemma RetainKeepsInv(f: Foreign, key: Key, t: Track, keep: Entry -> bool, cut: Option<Cut>)
    requires f.Lawful() && f.Delimited() && Inv(f, key, t)
    ensures Inv(f, key, OnRetain(f, key, t, keep, cut))
  {
    hide TailOk, Lost, Good, Chain, Render, EntriesOf, Entries, Elements, MadeOf, Prefix;
    hide Foreign.Lawful, Foreign.Delimited;
    if !t.readable {
      LostIsRejected(f, t);
    } else {
      var es := EntriesOf(t.entries);
      GoodParts(f, key, t);
      ShownEntries(f, t);
      RetainReadable(f, key, t.log, es, keep, cut);
      FilterSameLength(es, keep);
      var kept := Filter(es, keep);
      if |kept| < |es| {
        if cut.Some? && cut.value.lines < |kept| {
          CutIsGood(f, key, t, kept, cut.value, OnRetain(f, key, t, keep, cut));
        } else {
          RewriteIsGood(f, key, t, kept);
        }
      }
    }
  }

  lemma GoodParts(f: Foreign, key: Key, t: Track)
    requires Good(f, key, t)
    ensures Shows(f, t) && AllRooted(f, t.ever) && Links(f, key, t)
  {
  }

  lemma WatchKeepsInv(f: Foreign, key: Key, t: Track, op: Op)
    requires f.Lawful() && f.Delimited() && Inv(f, key, t)
    ensures Inv(f, key, Watch(f, key, t, op))
  {
    hide Inv, Foreign.Lawful, Foreign.Delimited;
    match op
    case Reopen => ReopenKeepsInv(f, key, t);
    case Write(e, stop) => WriteKeepsInv(f, key, t, e, stop);
    case _ => RetainKeepsInv(f, key, t, Survives(op), op.cut);
  }

  lemma BeginSatisfiesInv(f: Foreign, key: Key, log: Log, payloads: seq<Entry>)
    requires f.Lawful() && Holds(f, key, log, payloads)
    ensures Inv(f, key, Begin(log, Chain(f, key, payloads)))
  {
    hide Chain, TailOk, Good, Elements, MadeOf, StripAll, Render;
    var es := Chain(f, key, payloads);
    var none := Begin(log, []);
    RewriteIsGood(f, key, none.(ever := {}), payloads);
    assert {} + Elements(MadeOf(es)) == Elements(MadeOf(es));
  }

  lemma {:induction false} EveryRunKeepsInv(f: Foreign, key: Key, log: Log, payloads: seq<Entry>, ops: seq<Op>)
    requires f.Lawful() && f.Delimited() && Holds(f, key, log, payloads)
    ensures Inv(f, key, WatchRun(f, key, Begin(log, Chain(f, key, payloads)), ops))
  {
    hide Inv, Begin, Holds, Foreign.Lawful, Foreign.Delimited;
    if ops == [] {
      BeginSatisfiesInv(f, key, log, payloads);
    } else {
      EveryRunKeepsInv(f, key, log, payloads, Front(ops));
      WatchKeepsInv(f, key, WatchRun(f, key, Begin(log, Chain(f, key, payloads)), Front(ops)), Last(ops));
    }
  }

  lemma AcceptedIff(f: Foreign, key: Key, t: Track)
    requires f.Lawful() && f.Delimited() && Inv(f, key, t)
    ensures t.readable && t.linked ==> Accepts(f, key, t.log.file.Seen())
    ensures Accepts(f, key, t.log.file.Seen()) ==> (t.readable && t.linked) || Collision(f, t.ever)
  {
    hide TailOk, Lost, Good, Shows, Collision, ChainOk, Entries, EntriesOf, Foreign.Lawful, Foreign.Delimited;
    if t.readable {
      GoodParts(f, key, t);
      ShownEntries(f, t);
    } else {
      LostIsRejected(f, t);
    }
  }

  /**
    * Over every run of open, log, purge, delete and reopen with any writes stopped anywhere, the file
    * is accepted exactly when no line was broken and no entry was appended between a cut-off
    * rewrite and the next reopen or completed rewrite, short of a SHA-256 collision.
    */
  lemma EveryRunAcceptedIff(f: Foreign, key: Key, log: Log, payloads: seq<Entry>, ops: seq<Op>)
    requires f.Lawful() && f.Delimited() && Holds(f, key, log, payloads)
    ensures var t := WatchRun(f, key, Begin(log, Chain(f, key, payloads)), ops);
            var seen := Run(f, key, log, ops).file.Seen();
            && (t.readable && t.linked ==> Accepts(f, key, seen))
            && (Accepts(f, key, seen) ==> (t.readable && t.linked) || Collision(f, t.ever))
  {
    hide Inv, Run, WatchRun, Holds, Accepts, Collision, Foreign.Lawful, Foreign.Delimited;
    var t := Begin(log, Chain(f, key, payloads));
    WatchesRun(f, key, t, ops);
    EveryRunKeepsInv(f, key, log, payloads, ops);
    AcceptedIff(f, key, WatchRun(f, key, t, ops));
  }
}
