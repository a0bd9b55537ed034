/** Audit entries and the functions a chain of them is built from. */
module AuditTypes {
  import opened Prelude

  type Key = seq<byte>

  datatype Entry = Entry(
    timestamp: int, // nanoseconds since the epoch
    requestId: string,
    action: string,
    command: Option<string>,
    decision: string,
    matchedRule: string,
    exitCode: Option<int>,
    durationMs: nat,
    callerKey: string,
    reason: Option<string>,
    prevHash: Option<string>,
    hmac: Option<string>)

  /**
    * The foreign functions: SHA-256 and HMAC-SHA256 as hex text, the text of a time stamp, and JSON.
    */
  datatype Foreign = Foreign(
    sha: string -> Digest,
    mac: (Key, string) -> Digest,
    rfc3339: int -> string,
    toJson: Entry -> string,
    fromJson: string -> Option<Entry>)
  {
    /** What is used of JSON to read files back: parsing undoes printing, and blank text is no entry. */
    ghost predicate Lawful() {
      && (forall e :: fromJson(toJson(e)) == Some(e))
      && (forall s :: Blank(s) ==> fromJson(s) == None)
    }

    /** What is used of signed text: different times print differently, and no time or hash holds a pipe. */
    ghost predicate PipeFree() {
      && (forall t, u :: rfc3339(t) == rfc3339(u) ==> t == u)
      && (forall t :: '|' !in rfc3339(t))
      && (forall s :: '|' !in sha(s))
    }

    /** A printed entry or the beginning of one. */
    ghost predicate Piece(p: string) {
      p != "" && exists e :: p <= toJson(e)
    }

    /** Pieces of printed entries other than one whole entry. */
    ghost predicate Scraps(parts: seq<string>) {
      && parts != []
      && (forall i :: 0 <= i < |parts| ==> Piece(parts[i]))
      && (|parts| == 1 ==> forall e :: parts[0] != toJson(e))
    }

    /**
      * What is used of JSON where a line has no end: an entry is read behind JSON white space and
      * behind nothing else, no printed entry is the beginning of another, and pieces run together
      * on one line are unreadable.
      */
    ghost predicate Delimited() {
      && (forall s, e :: fromJson(s + toJson(e)) == if JsonSpace(s) then Some(e) else None)
      && (forall e, e' :: toJson(e) <= toJson(e') ==> e == e')
      && (forall parts :: Scraps(parts) ==> fromJson(RunTogether(parts)) == None && !Blank(RunTogether(parts)))
    }
  }

  /** Pieces of text one after the other. */
  function RunTogether(parts: seq<string>): string {
    if parts == [] then "" else RunTogether(Front(parts)) + Last(parts)
  }

  predicate JsonSpace(s: string) {
    forall i :: 0 <= i < |s| ==> s[i] in {' ', '\t', '\n', '\r'}
  }

  predicate IsWhitespace(c: char) {
    || c in {' ', '\t', '\n', '\U{0B}', '\U{0C}', '\r', '\U{85}', '\U{A0}', '\U{1680}'}
    || '\U{2000}' <= c <= '\U{200A}'
    || c in {'\U{2028}', '\U{2029}', '\U{202F}', '\U{205F}', '\U{3000}'}
  }

  predicate Blank(line: string) {
    forall i :: 0 <= i < |line| ==> IsWhitespace(line[i])
  }

  /** The signed fields as texts: an absent hash, command or exit code is empty, an absent reason is left out. */
  function SignedFields(f: Foreign, e: Entry): (fields: seq<string>)
    ensures |fields| == if e.reason == None then 10 else 11
  {
    [e.prevHash.GetOr(""), f.rfc3339(e.timestamp), e.requestId, e.action, e.command.GetOr(""), e.decision,
     e.matchedRule, if e.exitCode == None then "" else Decimal(e.exitCode.value), Decimal(e.durationMs), e.callerKey]
    + if e.reason == None then [] else [e.reason.value]
  }

  /** The text that is signed: every field closed by a pipe. */
  function CanonicalText(f: Foreign, e: Entry): string {
    Piped(SignedFields(f, e))
  }

  function ComputeHmac(f: Foreign, key: Key, e: Entry): Digest {
    f.mac(key, CanonicalText(f, e))
  }

  function ContentHash(f: Foreign, e: Entry): Digest {
    f.sha(f.toJson(e))
  }

  /** An entry without the two fields that tie it to a chain. */
  function Strip(e: Entry): Entry {
    e.(prevHash := None, hmac := None)
  }

  function StripAll(es: seq<Entry>): (r: seq<Entry>)
    ensures |r| == |es|
    ensures forall i :: 0 <= i < |es| ==> r[i] == Strip(es[i])
  {
    seq(|es|, i requires 0 <= i < |es| => Strip(es[i]))
  }

  lemma StripAllSnoc(es: seq<Entry>, e: Entry)
    ensures StripAll(es + [e]) == StripAll(es) + [Strip(e)]
  {
  }
}

/** The hash chain an audit file holds, and what it means for a file to be accepted. */
module AuditChain {
  import opened Prelude
  import opened AuditTypes

  /** `e` as the logger writes it after an entry whose content hash is `prev`. */
  function Link(f: Foreign, key: Key, prev: string, e: Entry): Entry {
    var linked := e.(prevHash := Some(prev));
    linked.(hmac := Some(ComputeHmac(f, key, linked)))
  }

  function EndHash(f: Foreign, es: seq<Entry>): string {
    if es == [] then "" else ContentHash(f, Last(es))
  }

  /** The chain over the given payloads, built from an empty genesis hash. */
  function Chain(f: Foreign, key: Key, payloads: seq<Entry>): (es: seq<Entry>)
    ensures |es| == |payloads|
  {
    if payloads == [] then []
    else
      var es := Chain(f, key, Front(payloads));
      es + [Link(f, key, EndHash(f, es), Last(payloads))]
  }

  function PrintAll(f: Foreign, es: seq<Entry>): (lines: seq<string>)
    ensures |lines| == |es|
    ensures forall i :: 0 <= i < |es| ==> lines[i] == f.toJson(es[i])
  {
    seq(|es|, i requires 0 <= i < |es| => f.toJson(es[i]))
  }

  /** The file that holds exactly the given payloads. */
  function Render(f: Foreign, key: Key, payloads: seq<Entry>): seq<string> {
    PrintAll(f, Chain(f, key, payloads))
  }

  /** The entries of a file: blank lines are skipped, one unreadable line spoils the file. */
  function Entries(f: Foreign, lines: seq<string>): Option<seq<Entry>> {
    if lines == [] then Some([])
    else
      var before := Entries(f, Front(lines));
      if before.None? || Blank(Last(lines)) then before
      else
        var e := f.fromJson(Last(lines));
        if e.None? then None else Some(before.value + [e.value])
  }

  ghost predicate SignedWith(f: Foreign, key: Key, e: Entry) {
    e.hmac == Some(ComputeHmac(f, key, e))
  }

  lemma LinkIsSigned(f: Foreign, key: Key, prev: string, e: Entry)
    ensures SignedWith(f, key, Link(f, key, prev, e)) && Link(f, key, prev, e).prevHash == Some(prev)
  {
    hide Piped, Decimal;
  }

  /** Entry `i` points at the entry before it; the first may point nowhere. */
  ghost predicate Linked(f: Foreign, es: seq<Entry>, i: nat)
    requires i < |es|
  {
    if i == 0 then es[0].prevHash == None || es[0].prevHash == Some("")
    else es[i].prevHash == Some(ContentHash(f, es[i - 1]))
  }

  ghost predicate ChainOk(f: Foreign, key: Key, es: seq<Entry>) {
    forall i {:trigger Linked(f, es, i)} :: 0 <= i < |es| ==> Linked(f, es, i) && SignedWith(f, key, es[i])
  }

  /** What the checker promises to decide. */
  ghost predicate Accepts(f: Foreign, key: Key, lines: seq<string>) {
    var es := Entries(f, lines);
    es.Some? && ChainOk(f, key, es.value)
  }

  lemma EntriesSnoc(f: Foreign, lines: seq<string>, line: string)
    ensures Entries(f, lines + [line]) ==
            var before := Entries(f, lines);
            if before.None? || Blank(line) then before
            else if f.fromJson(line).None? then None else Some(before.value + [f.fromJson(line).value])
  {
    assert Front(lines + [line]) == lines;
  }

  lemma ChainSnoc(f: Foreign, key: Key, payloads: seq<Entry>, e: Entry)
    ensures var es := Chain(f, key, payloads);
            Chain(f, key, payloads + [e]) == es + [Link(f, key, EndHash(f, es), e)]
  {
    assert Front(payloads + [e]) == payloads;
  }

  lemma LinkIgnoresOldLink(f: Foreign, key: Key, prev: string, e: Entry)
    ensures Link(f, key, prev, e) == Link(f, key, prev, Strip(e))
  {
    hide Piped, Decimal;
  }

  /** A chain depends on the payloads only, not on links the entries already carry. */
  lemma {:induction false} ChainIgnoresOldLinks(f: Foreign, key: Key, es: seq<Entry>)
    ensures Chain(f, key, es) == Chain(f, key, StripAll(es))
  {
    hide Link, EndHash;
    if es != [] {
      ChainIgnoresOldLinks(f, key, Front(es));
      assert StripAll(Front(es)) == Front(StripAll(es));
      LinkIgnoresOldLink(f, key, EndHash(f, Chain(f, key, Front(es))), Last(es));
    }
  }

  /** Chaining changes nothing but the two link fields. */
  lemma {:induction false} ChainKeepsPayloads(f: Foreign, key: Key, payloads: seq<Entry>)
    ensures StripAll(Chain(f, key, payloads)) == StripAll(payloads)
  {
    hide ComputeHmac, EndHash;
    if payloads != [] {
      var es := Chain(f, key, Front(payloads));
      var e := Link(f, key, EndHash(f, es), Last(payloads));
      ChainKeepsPayloads(f, key, Front(payloads));
      StripAllSnoc(es, e);
      StripAllSnoc(Front(payloads), Last(payloads));
      assert payloads == Front(payloads) + [Last(payloads)];
      assert Strip(e) == Strip(Last(payloads));
    }
  }

  lemma {:induction false} ChainIsOk(f: Foreign, key: Key, payloads: seq<Entry>)
    ensures ChainOk(f, key, Chain(f, key, payloads))
  {
    hide SignedWith, Link, ContentHash;
    if payloads != [] {
      var before := Chain(f, key, Front(payloads));
      var es := Chain(f, key, payloads);
      ChainIsOk(f, key, Front(payloads));
      LinkIsSigned(f, key, EndHash(f, before), Last(payloads));
      forall i | 0 <= i < |es| ensures Linked(f, es, i) && SignedWith(f, key, es[i]) {
        if i < |before| {
          assert Linked(f, before, i) && SignedWith(f, key, before[i]);
        }
      }
    }
  }

  /** Reading back what was printed. */
  lemma {:induction false} EntriesOfPrinted(f: Foreign, es: seq<Entry>)
    requires f.Lawful()
    ensures Entries(f, PrintAll(f, es)) == Some(es)
  {
    if es != [] {
      EntriesOfPrinted(f, Front(es));
      assert PrintAll(f, es) == PrintAll(f, Front(es)) + [f.toJson(Last(es))];
      EntriesSnoc(f, PrintAll(f, Front(es)), f.toJson(Last(es)));
      assert es == Front(es) + [Last(es)];
    }
  }

  lemma RenderedIsAccepted(f: Foreign, key: Key, payloads: seq<Entry>)
    requires f.Lawful()
    ensures Accepts(f, key, Render(f, key, payloads))
    ensures Entries(f, Render(f, key, payloads)) == Some(Chain(f, key, payloads))
  {
    EntriesOfPrinted(f, Chain(f, key, payloads));
    ChainIsOk(f, key, payloads);
  }

  lemma RenderSnoc(f: Foreign, key: Key, payloads: seq<Entry>, e: Entry)
    ensures Render(f, key, payloads + [e]) ==
            Render(f, key, payloads) + [f.toJson(Link(f, key, EndHash(f, Chain(f, key, payloads)), e))]
  {
    ChainSnoc(f, key, payloads, e);
  }

  /** A longer chain is accepted exactly when the shorter one is and the new entry fits its end. */
  lemma ChainOkSnoc(f: Foreign, key: Key, es: seq<Entry>, e: Entry)
    ensures ChainOk(f, key, es + [e]) <==>
            ChainOk(f, key, es) && SignedWith(f, key, e)
            && (if es == [] then e.prevHash == None || e.prevHash == Some("")
                else e.prevHash == Some(EndHash(f, es)))
  {
    hide SignedWith, ContentHash;
    var longer := es + [e];
    if ChainOk(f, key, longer) {
      assert Linked(f, longer, |es|);
      forall i | 0 <= i < |es| ensures Linked(f, es, i) && SignedWith(f, key, es[i]) {
        assert Linked(f, longer, i);
      }
    }
    if ChainOk(f, key, es) && SignedWith(f, key, e) {
      forall i | 0 <= i < |es| ensures Linked(f, longer, i) && SignedWith(f, key, longer[i]) {
        assert Linked(f, es, i);
      }
    }
  }

  // ---- A chain is determined by its end -------------------------------------------------

  /** Two different entries, one of each chain, whose printed texts share a digest. */
  ghost predicate HashCollision(f: Foreign, es: seq<Entry>, fs: seq<Entry>) {
    exists i, j :: 0 <= i < |es| && 0 <= j < |fs| && Collide(f.sha, f.toJson(es[i]), f.toJson(fs[j]))
  }

  lemma HashCollisionExtends(f: Foreign, es: seq<Entry>, e: Entry, fs: seq<Entry>, e': Entry)
    requires HashCollision(f, es, fs)
    ensures HashCollision(f, es + [e], fs + [e'])
  {
    var i, j :| 0 <= i < |es| && 0 <= j < |fs| && Collide(f.sha, f.toJson(es[i]), f.toJson(fs[j]));
    assert (es + [e])[i] == es[i] && (fs + [e'])[j] == fs[j];
    assert Collide(f.sha, f.toJson((es + [e])[i]), f.toJson((fs + [e'])[j]));
  }

  lemma SameHashSameEntry(f: Foreign, e: Entry, e': Entry)
    requires f.Lawful()
    requires ContentHash(f, e) == ContentHash(f, e')
    ensures e == e' || Collide(f.sha, f.toJson(e), f.toJson(e'))
  {
    assert f.fromJson(f.toJson(e)) == Some(e) && f.fromJson(f.toJson(e')) == Some(e');
  }

  /** Accepted chains that end in the same hash are equal, or SHA-256 has a collision among them. */
  lemma {:induction false} DeterminedByEnd(f: Foreign, key: Key, es: seq<Entry>, fs: seq<Entry>)
    requires f.Lawful()
    requires ChainOk(f, key, es) && ChainOk(f, key, fs)
    requires es != [] && fs != []
    requires EndHash(f, es) == EndHash(f, fs)
    ensures es == fs || HashCollision(f, es, fs)
    decreases |es|
  {
    var before, e, before', e' := Front(es), Last(es), Front(fs), Last(fs);
    assert es == before + [e] && fs == before' + [e'];
    SameHashSameEntry(f, e, e');
    if e != e' {
      assert Collide(f.sha, f.toJson(es[|es| - 1]), f.toJson(fs[|fs| - 1]));
    } else {
      ChainOkSnoc(f, key, before, e);
      ChainOkSnoc(f, key, before', e');
      if before != [] && before' != [] {
        DeterminedByEnd(f, key, before, before');
        if before != before' {
          HashCollisionExtends(f, before, e, before', e');
        }
      }
    }
  }

  /** The same statement about files: equal end hashes mean equal entries, hence equal length. */
  lemma AcceptedFilesWithOneEndAgree(f: Foreign, key: Key, a: seq<string>, b: seq<string>)
    requires f.Lawful()
    requires Accepts(f, key, a) && Accepts(f, key, b)
    requires Entries(f, a).value != [] && Entries(f, b).value != []
    requires EndHash(f, Entries(f, a).value) == EndHash(f, Entries(f, b).value)
    ensures Entries(f, a) == Entries(f, b) || HashCollision(f, Entries(f, a).value, Entries(f, b).value)
  {
    DeterminedByEnd(f, key, Entries(f, a).value, Entries(f, b).value);
  }
}
