/** The CEF formatter. */
module Cef {
  import opened Prelude
  import opened AuditTypes
  import opened SiemText

  const CEF := "CEF:0"

  function ValueTable(): (t: Table)
    ensures t.Valid() && '=' in t.code
  {
    Table(map['\\' := '\\', '=' := '=', '\n' := 'n', '\r' := 'r'],
          map['\\' := '\\', '=' := '=', 'n' := '\n', 'r' := '\r'])
  }

  function EscapeValue(s: string): string {
    var a := Replace(s, '\\', "\\\\");
    var b := Replace(a, '=', "\\=");
    var c := Replace(b, '\n', "\\n");
    Replace(c, '\r', "\\r")
  }

  lemma ValueOrderIsGood()
    ensures GoodOrder(['\\', '=', '\n', '\r'], ValueTable())
  {
  }

  /** The four replacements, one after the other, escape each character of the text once. */
  lemma EscapeValueIsOnePass(s: string)
    ensures EscapeValue(s) == Escape(ValueTable(), s)
  {
    hide Replace, ReplaceAll, Escape, GoodOrder;
    var t := ValueTable();
    var c1, c2, c3, c4 := ['\\'], ['\\', '='], ['\\', '=', '\n'], ['\\', '=', '\n', '\r'];
    assert [] + ['\\'] == c1 && c1 + ['='] == c2 && c2 + ['\n'] == c3 && c3 + ['\r'] == c4;
    ReplaceAllNone(s, t);
    ReplaceAllStep(s, [], '\\', t);
    ReplaceAllStep(s, c1, '=', t);
    ReplaceAllStep(s, c2, '\n', t);
    ReplaceAllStep(s, c3, '\r', t);
    ValueOrderIsGood();
    ChainIsOnePass(s, c4, t);
  }

  // ---- What a line carries --------------------------------------------------------------------------

  function EventName(e: Entry): string {
    e.command.GetOr(e.action)
  }

  function Fields(e: Entry, productVersion: string): seq<string> {
    [CEF, VENDOR, PRODUCT, productVersion, e.action, EventName(e), Decimal(Severity(e.decision))]
  }

  function Fixed(e: Entry, pid: nat): seq<Pair> {
    [Pair("rt", Decimal(Milliseconds(e.timestamp))),
     Pair("requestId", e.requestId),
     Pair("act", e.action),
     Pair("outcome", e.decision),
     Pair("dvcpid", Decimal(pid)),
     Pair("reason", e.reason.GetOr("-")),
     Pair("duration", Decimal(e.durationMs)),
     Pair("cs1Label", "matchedRule"),
     Pair("cs1", e.matchedRule)]
  }

  function Attributes(e: Entry, pid: nat): seq<Pair> {
    Fixed(e, pid) + (Optional("exitCode", DecimalOf(e.exitCode)) + [Pair("suser", e.callerKey)])
  }

  lemma FixedPlain(e: Entry, pid: nat)
    ensures |Fixed(e, pid)| == 9 && PlainKeys(Fixed(e, pid))
  {
    hide Decimal, Severity, Milliseconds;
  }

  lemma AttributesPlain(e: Entry, pid: nat)
    ensures Attributes(e, pid) != [] && PlainKeys(Attributes(e, pid))
  {
    hide Decimal, DecimalOf, Fixed;
    FixedPlain(e, pid);
  }

  function Line(e: Entry, productVersion: string, pid: nat): string {
    Header(HeaderTable(), Fields(e, productVersion)) + Joined(ValueTable(), Attributes(e, pid), ' ')
  }

  // ---- The formatter --------------------------------------------------------------------------------

  lemma DecimalEscaped(n: int)
    ensures Escape(ValueTable(), Decimal(n)) == Decimal(n)
    ensures Escape(HeaderTable(), Decimal(n)) == Decimal(n)
  {
    EscapePlain(ValueTable(), Decimal(n));
    EscapePlain(HeaderTable(), Decimal(n));
  }

  lemma LabelEscaped()
    ensures Escape(ValueTable(), "matchedRule") == "matchedRule"
  {
    hide Escape;
    EscapePlain(ValueTable(), "matchedRule");
  }

  lemma CefEscaped()
    ensures Escape(HeaderTable(), CEF) == CEF
  {
    hide Escape;
    EscapePlain(HeaderTable(), CEF);
  }

  method FixedExtension(e: Entry, pid: nat) returns (ext: string)
    ensures ext == Joined(ValueTable(), Fixed(e, pid), ' ')
  {
    hide Escape, EscapeValue, Decimal, ValueTable, Join;
    var attrs := [
      Attribute("rt", Decimal(Milliseconds(e.timestamp))),
      Attribute("requestId", EscapeValue(e.requestId)),
      Attribute("act", EscapeValue(e.action)),
      Attribute("outcome", EscapeValue(e.decision)),
      Attribute("dvcpid", Decimal(pid)),
      Attribute("reason", EscapeValue(e.reason.GetOr("-"))),
      Attribute("duration", Decimal(e.durationMs)),
      Attribute("cs1Label", "matchedRule"),
      Attribute("cs1", EscapeValue(e.matchedRule))];
    DecimalEscaped(Milliseconds(e.timestamp));
    DecimalEscaped(pid);
    DecimalEscaped(e.durationMs);
    LabelEscaped();
    EscapeValueIsOnePass(e.requestId);
    EscapeValueIsOnePass(e.action);
    EscapeValueIsOnePass(e.decision);
    EscapeValueIsOnePass(e.reason.GetOr("-"));
    EscapeValueIsOnePass(e.matchedRule);
    assert attrs == PrintPairs(ValueTable(), Fixed(e, pid));
    ext := Join(attrs, ' ');
  }

  method Extension(e: Entry, pid: nat) returns (ext: string)
    ensures ext == Joined(ValueTable(), Attributes(e, pid), ' ')
  {
    hide Escape, EscapeValue, Decimal, ValueTable, Joined, Fixed;
    ext := FixedExtension(e, pid);
    FixedPlain(e, pid);
    ghost var pairs := Fixed(e, pid);
    if e.exitCode.Some? {
      DecimalEscaped(e.exitCode.value);
      ghost var p := Pair("exitCode", Decimal(e.exitCode.value));
      JoinedSnoc(ValueTable(), pairs, p, ' ');
      ext := ext + " " + Attribute("exitCode", Decimal(e.exitCode.value));
      pairs := pairs + [p];
    }
    assert pairs == Fixed(e, pid) + Optional("exitCode", DecimalOf(e.exitCode));
    EscapeValueIsOnePass(e.callerKey);
    JoinedSnoc(ValueTable(), pairs, Pair("suser", e.callerKey), ' ');
    assert pairs + [Pair("suser", e.callerKey)] == Attributes(e, pid);
    ext := ext + " " + Attribute("suser", EscapeValue(e.callerKey));
  }

  method FormatCef(e: Entry, productVersion: string, pid: nat) returns (line: string)
    ensures line == Line(e, productVersion, pid)
    ensures Read(line) == Some(Event(Fields(e, productVersion), Attributes(e, pid)))
  {
    hide Read, Escape, EscapeHeader, HeaderTable, ValueTable, Attributes, Joined, Piped, EventName, Decimal, Severity;
    var ext := Extension(e, pid);
    EscapeHeaderIsOnePass(productVersion);
    EscapeHeaderIsOnePass(e.action);
    EscapeHeaderIsOnePass(EventName(e));
    DecimalEscaped(Severity(e.decision));
    VendorEscaped();
    CefEscaped();
    var fields := [CEF, VENDOR, PRODUCT, EscapeHeader(productVersion), EscapeHeader(e.action),
                   EscapeHeader(EventName(e)),
                   Decimal(Severity(e.decision))];
    assert fields == EscapeAll(HeaderTable(), Fields(e, productVersion));
    line := Piped(fields) + ext;
    ReadBack(e, productVersion, pid);
  }

  // ---- Reading back -----------------------------------------------------------------------------------

  datatype Event = Event(fields: seq<string>, attributes: seq<Pair>)

  /** A reader of the format: seven fields, then words of the form key=value whose values may hold spaces. */
  function Read(line: string): Option<Event> {
    var header := ReadHeader(HeaderTable(), line, 7);
    if header == Malformed then None
    else Some(Event(header.fields, ReadExtension(ValueTable(), header.rest)))
  }

  /** Every line reads back as exactly its header fields and extension. */
  lemma ReadBack(e: Entry, productVersion: string, pid: nat)
    ensures Read(Line(e, productVersion, pid)) == Some(Event(Fields(e, productVersion), Attributes(e, pid)))
  {
    hide Header, ReadHeader, Joined, ReadExtension, HeaderTable, ValueTable, Attributes, EventName, Decimal, Severity;
    var tail := Joined(ValueTable(), Attributes(e, pid), ' ');
    HeaderRoundTrip(HeaderTable(), Fields(e, productVersion), tail);
    AttributesPlain(e, pid);
    ExtensionRoundTrip(ValueTable(), Attributes(e, pid));
  }

  lemma KeysDiffer()
    ensures "act" != "cs1"
    ensures "dvcpid" != "reason" && "duration" != "cs1Label" && "duration" != "exitCode" && "cs1Label" != "exitCode"
  {
    assert "act"[0] == 'a' && "cs1"[0] == 'c' && "dvcpid"[0] == 'd' && "reason"[0] == 'r';
    assert "duration"[0] == 'd' && "cs1Label"[0] == 'c' && "exitCode"[0] == 'e';
  }

  /** What the extension says under each key, and that it has no other keys. */
  function Said(e: Entry, pid: nat, key: string): Option<string> {
    match key
    case "rt" => Some(Decimal(e.timestamp / 1_000_000))
    case "requestId" => Some(e.requestId)
    case "act" => Some(e.action)
    case "outcome" => Some(e.decision)
    case "dvcpid" => Some(Decimal(pid))
    case "reason" => Some(e.reason.GetOr("-"))
    case "duration" => Some(Decimal(e.durationMs))
    case "cs1Label" => Some("matchedRule")
    case "cs1" => Some(e.matchedRule)
    case "exitCode" => DecimalOf(e.exitCode)
    case "suser" => Some(e.callerKey)
    case _ => None
  }

  lemma FixedKeysDiffer(e: Entry, pid: nat, j: nat, i: nat)
    requires j < i < |Fixed(e, pid)|
    ensures Fixed(e, pid)[j].key != Fixed(e, pid)[i].key
  {
    hide Decimal;
    KeysDiffer();
  }

  lemma SaidAt(e: Entry, pid: nat, i: nat)
    requires i < |Fixed(e, pid)|
    ensures Fixed(e, pid)[i].key !in ["exitCode", "suser"]
    ensures Said(e, pid, Fixed(e, pid)[i].key) == Some(Fixed(e, pid)[i].value)
  {
    hide Decimal;
    KeysDiffer();
  }

  lemma SaidElsewhere(e: Entry, pid: nat, key: string)
    requires forall i :: 0 <= i < |Fixed(e, pid)| ==> Fixed(e, pid)[i].key != key
    ensures key in ["exitCode", "suser"] || Said(e, pid, key) == None
  {
    hide Decimal;
    var fixed := Fixed(e, pid);
    assert fixed[0].key == "rt" && fixed[1].key == "requestId" && fixed[2].key == "act";
    assert fixed[3].key == "outcome" && fixed[4].key == "dvcpid" && fixed[5].key == "reason";
    assert fixed[6].key == "duration" && fixed[7].key == "cs1Label" && fixed[8].key == "cs1";
  }

  lemma FixedSays(e: Entry, pid: nat, key: string)
    ensures Lookup(Fixed(e, pid), key) == if key in ["exitCode", "suser"] then None else Said(e, pid, key)
  {
    hide *;
    var fixed := Fixed(e, pid);
    if i :| 0 <= i < |fixed| && fixed[i].key == key {
      forall j | 0 <= j < i ensures fixed[j].key != fixed[i].key {
        FixedKeysDiffer(e, pid, j, i);
      }
      LookupAt(fixed, i);
      SaidAt(e, pid, i);
    } else {
      LookupNone(fixed, key);
      SaidElsewhere(e, pid, key);
    }
  }

  lemma AttributesSay(e: Entry, pid: nat, key: string)
    ensures Lookup(Attributes(e, pid), key) == Said(e, pid, key)
  {
    hide Decimal, Milliseconds, Lookup, Fixed, Optional;
    KeysDiffer();
    FixedSays(e, pid, key);
    var exit, user := Optional("exitCode", DecimalOf(e.exitCode)), [Pair("suser", e.callerKey)];
    LookupConcat(Fixed(e, pid), exit + user, key);
    LookupConcat(exit, user, key);
    LookupOptional("exitCode", DecimalOf(e.exitCode), key);
    if key == "suser" {
      LookupAt(user, 0);
    } else {
      LookupNone(user, key);
    }
  }

  /** A reader finds each part of the entry under its own key, and in the header where the format puts it. */
  lemma LineSays(e: Entry, productVersion: string, pid: nat, key: string)
    ensures var event := Read(Line(e, productVersion, pid));
            && event.Some?
            && Lookup(event.value.attributes, key) == Said(e, pid, key)
            && event.value.fields ==
               ["CEF:0", "RavenFabric", "RavenFabric", productVersion, e.action, e.command.GetOr(e.action),
                Decimal(Severity(e.decision))]
  {
    hide Read, Line, Attributes, Lookup, Decimal, Severity;
    ReadBack(e, productVersion, pid);
    AttributesSay(e, pid, key);
  }

  /** Each special character is written as a backslash and one letter, and all others as they are. */
  lemma EscapedCharacters(c: char)
    ensures EscapeValue([c]) ==
            match c
            case '\\' => "\\\\"
            case '=' => "\\="
            case '\n' => "\\n"
            case '\r' => "\\r"
            case _ => [c]
  {
    EscapeValueIsOnePass([c]);
    assert [c][1..] == "";
  }

  /** What a line records of an entry: an absent reason is written as a dash, an absent command as the action. */
  function Recorded(e: Entry): Entry {
    e.(timestamp := Milliseconds(e.timestamp), prevHash := None, hmac := None,
       reason := Some(e.reason.GetOr("-")), command := Some(EventName(e)))
  }

  lemma FixedDetermines(a: Entry, b: Entry, p: nat, q: nat)
    requires Fixed(a, p) == Fixed(b, q)
    ensures a.requestId == b.requestId && a.action == b.action && a.decision == b.decision
    ensures a.durationMs == b.durationMs && a.matchedRule == b.matchedRule && p == q
    ensures a.reason.GetOr("-") == b.reason.GetOr("-")
    ensures Milliseconds(a.timestamp) == Milliseconds(b.timestamp)
  {
    hide Decimal, Milliseconds;
    var x, y := Fixed(a, p), Fixed(b, q);
    assert x[0] == y[0] && x[1] == y[1] && x[2] == y[2] && x[3] == y[3];
    assert x[4] == y[4] && x[5] == y[5] && x[6] == y[6] && x[8] == y[8];
    DecimalInjective(Milliseconds(a.timestamp), Milliseconds(b.timestamp));
    DecimalInjective(a.durationMs, b.durationMs);
    DecimalInjective(p, q);
  }

  lemma AttributesDetermine(a: Entry, b: Entry, p: nat, q: nat)
    requires Attributes(a, p) == Attributes(b, q) && EventName(a) == EventName(b)
    ensures Recorded(a) == Recorded(b) && p == q
  {
    hide Fixed, Decimal, Milliseconds, EventName;
    var x, y := Attributes(a, p), Attributes(b, q);
    FixedPlain(a, p);
    FixedPlain(b, q);
    assert x[..9] == Fixed(a, p) && y[..9] == Fixed(b, q);
    FixedDetermines(a, b, p, q);
    assert x[9..] == Optional("exitCode", DecimalOf(a.exitCode)) + [Pair("suser", a.callerKey)];
    assert y[9..] == Optional("exitCode", DecimalOf(b.exitCode)) + [Pair("suser", b.callerKey)];
    OptionalSplits("exitCode", DecimalOf(a.exitCode), DecimalOf(b.exitCode),
                   [Pair("suser", a.callerKey)], [Pair("suser", b.callerKey)]);
    assert [Pair("suser", a.callerKey)][0] == [Pair("suser", b.callerKey)][0];
    if a.exitCode.Some? {
      DecimalInjective(a.exitCode.value, b.exitCode.value);
    }
  }

  /** Two lines are equal exactly when they record the same. */
  lemma LinesEqualIff(a: Entry, b: Entry, v: string, w: string, p: nat, q: nat)
    ensures Line(a, v, p) == Line(b, w, q) <==> Recorded(a) == Recorded(b) && v == w && p == q
  {
    hide Line, Read, Attributes, Recorded, EventName, Decimal, Severity;
    if Line(a, v, p) == Line(b, w, q) {
      ReadBack(a, v, p);
      ReadBack(b, w, q);
      assert Fields(a, v)[3] == Fields(b, w)[3] && Fields(a, v)[5] == Fields(b, w)[5];
      AttributesDetermine(a, b, p, q);
    }
    if Recorded(a) == Recorded(b) && v == w && p == q {
      RecordedDetermines(a, b, v, p);
    }
  }

  lemma RecordedDetermines(a: Entry, b: Entry, v: string, p: nat)
    requires Recorded(a) == Recorded(b)
    ensures Line(a, v, p) == Line(b, v, p)
  {
    hide Header, Joined, Decimal, Severity, Milliseconds;
    assert Fixed(a, p) == Fixed(b, p);
    assert EventName(a) == EventName(b);
  }

  /** The event is a single line exactly when the product version, the action and the event name have no line break. */
  lemma SingleLineIff(e: Entry, productVersion: string, pid: nat, c: char)
    requires c in {'\n', '\r'}
    ensures c in Line(e, productVersion, pid) <==> c in productVersion || c in e.action || c in EventName(e)
  {
    hide Header, Joined, Attributes, EventName, Severity, Decimal;
    var fields := Fields(e, productVersion);
    HeaderMembers(HeaderTable(), fields, c);
    assert c !in CEF && c !in VENDOR && c !in PRODUCT && c !in fields[6];
    assert fields[3] == productVersion && fields[4] == e.action && fields[5] == EventName(e);
    AttributesPlain(e, pid);
    assert !PlainKey([c]) by {
      assert [c][0] == c;
    }
    JoinedMembers(ValueTable(), Attributes(e, pid), ' ', c);
  }
}
