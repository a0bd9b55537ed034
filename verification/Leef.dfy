/** The LEEF formatter. */
module Leef {
  import opened Prelude
  import opened AuditTypes
  import opened SiemText

  datatype Version = V1 | V2

  function Name(version: Version): string {
    if version == V1 then "LEEF:1.0" else "LEEF:2.0"
  }

  function ValueTable(): (t: Table)
    ensures t.Valid() && '=' in t.code && '\t' in t.code
  {
    Table(map['\\' := '\\', '=' := '=', '\n' := 'n', '\r' := 'r', '\t' := 't'],
          map['\\' := '\\', '=' := '=', 'n' := '\n', 'r' := '\r', 't' := '\t'])
  }

  function EscapeValue(s: string): string {
    var a := Replace(s, '\\', "\\\\");
    var b := Replace(a, '=', "\\=");
    var c := Replace(b, '\n', "\\n");
    var d := Replace(c, '\r', "\\r");
    Replace(d, '\t', "\\t")
  }

  lemma ValueOrderIsGood()
    ensures GoodOrder(['\\', '=', '\n', '\r', '\t'], ValueTable())
  {
  }

  /** The five replacements, one after the other, escape each character of the text once. */
  lemma EscapeValueIsOnePass(s: string)
    ensures EscapeValue(s) == Escape(ValueTable(), s)
  {
    hide Replace, ReplaceAll, Escape, GoodOrder;
    var t := ValueTable();
    var c1, c2, c3 := ['\\'], ['\\', '='], ['\\', '=', '\n'];
    var c4, c5 := ['\\', '=', '\n', '\r'], ['\\', '=', '\n', '\r', '\t'];
    assert [] + ['\\'] == c1 && c1 + ['='] == c2 && c2 + ['\n'] == c3 && c3 + ['\r'] == c4 && c4 + ['\t'] == c5;
    ReplaceAllNone(s, t);
    ReplaceAllStep(s, [], '\\', t);
    ReplaceAllStep(s, c1, '=', t);
    ReplaceAllStep(s, c2, '\n', t);
    ReplaceAllStep(s, c3, '\r', t);
    ReplaceAllStep(s, c4, '\t', t);
    ValueOrderIsGood();
    ChainIsOnePass(s, c5, t);
  }

  // ---- What a line carries --------------------------------------------------------------------------

  function Label(e: Entry): string {
    e.command.GetOr(e.action)
  }

  function Fields(e: Entry, productVersion: string, version: Version): seq<string> {
    [Name(version), VENDOR, PRODUCT, productVersion, e.action] + if version == V2 then [Label(e)] else []
  }

  function Fixed(e: Entry): seq<Pair> {
    [Pair("devTime", Decimal(Milliseconds(e.timestamp))),
     Pair("requestId", e.requestId),
     Pair("act", e.action),
     Pair("outcome", e.decision),
     Pair("sev", Decimal(Severity(e.decision))),
     Pair("src", e.callerKey),
     Pair("duration", Decimal(e.durationMs)),
     Pair("matchedRule", e.matchedRule)]
  }

  function Attributes(e: Entry): seq<Pair> {
    Fixed(e)
    + (Optional("cmd", e.command) + (Optional("exitCode", DecimalOf(e.exitCode)) + Optional("reason", e.reason)))
  }

  lemma AttributesPlain(e: Entry)
    ensures Attributes(e) != [] && PlainKeys(Attributes(e))
  {
    hide Decimal, Severity, Milliseconds, DecimalOf;
    FixedPlain(e);
    hide Fixed;
  }

  lemma FixedPlain(e: Entry)
    ensures |Fixed(e)| == 8 && PlainKeys(Fixed(e))
  {
    hide Decimal, Severity, Milliseconds;
  }

  function Line(e: Entry, productVersion: string, version: Version): string {
    Header(HeaderTable(), Fields(e, productVersion, version)) + Joined(ValueTable(), Attributes(e), '\t')
  }

  // ---- The formatter --------------------------------------------------------------------------------

  lemma DecimalEscaped(n: int)
    ensures Escape(ValueTable(), Decimal(n)) == Decimal(n)
  {
    EscapePlain(ValueTable(), Decimal(n));
  }

  lemma NameEscaped(version: Version)
    ensures Escape(HeaderTable(), Name(version)) == Name(version)
  {
    EscapePlain(HeaderTable(), Name(version));
  }

  method FixedAttributes(e: Entry) returns (attrs: seq<string>)
    ensures attrs == PrintPairs(ValueTable(), Fixed(e))
  {
    hide Escape, EscapeValue, Decimal, Severity, ValueTable;
    attrs := [
      Attribute("devTime", Decimal(Milliseconds(e.timestamp))),
      Attribute("requestId", EscapeValue(e.requestId)),
      Attribute("act", EscapeValue(e.action)),
      Attribute("outcome", EscapeValue(e.decision)),
      Attribute("sev", Decimal(Severity(e.decision))),
      Attribute("src", EscapeValue(e.callerKey)),
      Attribute("duration", Decimal(e.durationMs)),
      Attribute("matchedRule", EscapeValue(e.matchedRule))];
    DecimalEscaped(Milliseconds(e.timestamp));
    DecimalEscaped(Severity(e.decision));
    DecimalEscaped(e.durationMs);
    EscapeValueIsOnePass(e.requestId);
    EscapeValueIsOnePass(e.action);
    EscapeValueIsOnePass(e.decision);
    EscapeValueIsOnePass(e.callerKey);
    EscapeValueIsOnePass(e.matchedRule);
  }

  method AllAttributes(e: Entry) returns (attrs: seq<string>)
    ensures attrs == PrintPairs(ValueTable(), Attributes(e))
  {
    hide Escape, EscapeValue, Decimal, ValueTable, Fixed;
    attrs := FixedAttributes(e);
    ghost var pairs := Fixed(e);
    if e.command.Some? {
      EscapeValueIsOnePass(e.command.value);
      attrs := attrs + [Attribute("cmd", EscapeValue(e.command.value))];
      pairs := pairs + [Pair("cmd", e.command.value)];
    }
    assert attrs == PrintPairs(ValueTable(), pairs) && pairs == Fixed(e) + Optional("cmd", e.command);
    if e.exitCode.Some? {
      DecimalEscaped(e.exitCode.value);
      attrs := attrs + [Attribute("exitCode", Decimal(e.exitCode.value))];
      pairs := pairs + [Pair("exitCode", Decimal(e.exitCode.value))];
    }
    assert attrs == PrintPairs(ValueTable(), pairs);
    assert pairs == Fixed(e) + Optional("cmd", e.command) + Optional("exitCode", DecimalOf(e.exitCode));
    if e.reason.Some? {
      EscapeValueIsOnePass(e.reason.value);
      attrs := attrs + [Attribute("reason", EscapeValue(e.reason.value))];
      pairs := pairs + [Pair("reason", e.reason.value)];
    }
    assert attrs == PrintPairs(ValueTable(), pairs) && pairs == Attributes(e);
  }

  method FormatLeef(e: Entry, productVersion: string, version: Version) returns (line: string)
    ensures line == Line(e, productVersion, version)
    ensures Read(line) == Some(Event(Fields(e, productVersion, version), Attributes(e)))
  {
    hide Read, Escape, EscapeHeader, HeaderTable, ValueTable, Attributes, PrintPairs, Join, Piped, Label, Name;
    var attrs := AllAttributes(e);
    EscapeHeaderIsOnePass(productVersion);
    EscapeHeaderIsOnePass(e.action);
    EscapeHeaderIsOnePass(Label(e));
    VendorEscaped();
    NameEscaped(version);
    var fields := [Name(version), VENDOR, PRODUCT, EscapeHeader(productVersion), EscapeHeader(e.action)];
    if version == V2 {
      fields := fields + [EscapeHeader(Label(e))];
    }
    assert fields == EscapeAll(HeaderTable(), Fields(e, productVersion, version));
    line := Piped(fields) + Join(attrs, '\t');
    ReadBack(e, productVersion, version);
  }

  // ---- Reading back -----------------------------------------------------------------------------------

  datatype Event = Event(fields: seq<string>, attributes: seq<Pair>)

  /** A reader of the format: the first field says how many more there are. */
  function Read(line: string): Option<Event> {
    var first := ReadHeader(HeaderTable(), line, 1);
    if first == Malformed || |first.fields| != 1 then None
    else
      var n := if first.fields[0] == Name(V1) then 4 else 5;
      var more := ReadHeader(HeaderTable(), first.rest, n);
      if more == Malformed then None
      else Some(Event(first.fields + more.fields, ReadTabbed(ValueTable(), more.rest)))
  }

  /** Every line reads back as exactly its header fields and attributes. */
  lemma ReadBack(e: Entry, productVersion: string, version: Version)
    ensures Read(Line(e, productVersion, version)) == Some(Event(Fields(e, productVersion, version), Attributes(e)))
  {
    hide Header, ReadHeader, Joined, ReadTabbed, HeaderTable, ValueTable, Attributes, Escape, Label;
    var fields, tail := Fields(e, productVersion, version), Joined(ValueTable(), Attributes(e), '\t');
    var first, more := [fields[0]], fields[1..];
    SplitHeader(HeaderTable(), fields);
    assert Header(HeaderTable(), first) + Header(HeaderTable(), more) + tail
        == Header(HeaderTable(), first) + (Header(HeaderTable(), more) + tail);
    HeaderRoundTrip(HeaderTable(), first, Header(HeaderTable(), more) + tail);
    HeaderRoundTrip(HeaderTable(), more, tail);
    AttributesPlain(e);
    TabbedRoundTrip(ValueTable(), Attributes(e));
    assert fields == first + more;
  }

  lemma KeysDiffer()
    ensures "act" != "sev" && "act" != "src" && "act" != "cmd" && "sev" != "src" && "sev" != "cmd" && "src" != "cmd"
    ensures "devTime" != "outcome" && "duration" != "exitCode"
  {
    assert "act"[0] == 'a' && "sev"[1] == 'e' && "src"[1] == 'r' && "cmd"[0] == 'c' && "sev"[0] == "src"[0] == 's';
    assert "devTime"[0] == 'd' && "outcome"[0] == 'o' && "duration"[0] == 'd' && "exitCode"[0] == 'e';
  }

  /** What the attributes say under each key, and that they have no other keys. */
  function Said(e: Entry, key: string): Option<string> {
    match key
    case "devTime" => Some(Decimal(e.timestamp / 1_000_000))
    case "requestId" => Some(e.requestId)
    case "act" => Some(e.action)
    case "outcome" => Some(e.decision)
    case "sev" => Some(Decimal(Severity(e.decision)))
    case "src" => Some(e.callerKey)
    case "duration" => Some(Decimal(e.durationMs))
    case "matchedRule" => Some(e.matchedRule)
    case "cmd" => e.command
    case "exitCode" => DecimalOf(e.exitCode)
    case "reason" => e.reason
    case _ => None
  }

  lemma FixedKeysDiffer(e: Entry, j: nat, i: nat)
    requires j < i < |Fixed(e)|
    ensures Fixed(e)[j].key != Fixed(e)[i].key
  {
    hide Decimal, Severity;
    KeysDiffer();
  }

  lemma SaidAt(e: Entry, i: nat)
    requires i < |Fixed(e)|
    ensures Fixed(e)[i].key !in ["cmd", "exitCode", "reason"]
    ensures Said(e, Fixed(e)[i].key) == Some(Fixed(e)[i].value)
  {
    hide Decimal, Severity;
    KeysDiffer();
  }

  lemma SaidElsewhere(e: Entry, key: string)
    requires forall i :: 0 <= i < |Fixed(e)| ==> Fixed(e)[i].key != key
    ensures key in ["cmd", "exitCode", "reason"] || Said(e, key) == None
  {
    hide Decimal, Severity;
    var fixed := Fixed(e);
    assert fixed[0].key == "devTime" && fixed[1].key == "requestId" && fixed[2].key == "act";
    assert fixed[3].key == "outcome" && fixed[4].key == "sev" && fixed[5].key == "src";
    assert fixed[6].key == "duration" && fixed[7].key == "matchedRule";
  }

  lemma FixedSays(e: Entry, key: string)
    ensures Lookup(Fixed(e), key) == if key in ["cmd", "exitCode", "reason"] then None else Said(e, key)
  {
    hide *;
    var fixed := Fixed(e);
    if i :| 0 <= i < |fixed| && fixed[i].key == key {
      forall j | 0 <= j < i ensures fixed[j].key != fixed[i].key {
        FixedKeysDiffer(e, j, i);
      }
      LookupAt(fixed, i);
      SaidAt(e, i);
    } else {
      LookupNone(fixed, key);
      SaidElsewhere(e, key);
    }
  }

  lemma AttributesSay(e: Entry, key: string)
    ensures Lookup(Attributes(e), key) == Said(e, key)
  {
    hide Decimal, Severity, Milliseconds, Lookup, Fixed, Optional;
    KeysDiffer();
    FixedSays(e, key);
    var cmd, exit, reason :=
      Optional("cmd", e.command), Optional("exitCode", DecimalOf(e.exitCode)), Optional("reason", e.reason);
    LookupConcat(Fixed(e), cmd + (exit + reason), key);
    LookupConcat(cmd, exit + reason, key);
    LookupConcat(exit, reason, key);
    LookupOptional("cmd", e.command, key);
    LookupOptional("exitCode", DecimalOf(e.exitCode), key);
    LookupOptional("reason", e.reason, key);
  }

  /** A reader finds each part of the entry under its own key, and in the header where the format puts it. */
  lemma LineSays(e: Entry, productVersion: string, version: Version, key: string)
    ensures var event := Read(Line(e, productVersion, version));
            && event.Some?
            && Lookup(event.value.attributes, key) == Said(e, key)
            && event.value.fields ==
               [if version == V1 then "LEEF:1.0" else "LEEF:2.0", "RavenFabric", "RavenFabric", productVersion,
                e.action]
               + if version == V1 then [] else [e.command.GetOr(e.action)]
  {
    hide Read, Line, Attributes, Lookup;
    ReadBack(e, productVersion, version);
    AttributesSay(e, key);
  }

  /** Each special character is written as a backslash and one letter, and all others as they are. */
  lemma EscapedCharacters(c: char)
    ensures EscapeValue([c]) ==
            match c
            case '\\' => "\\\\"
            case '=' => "\\="
            case '\n' => "\\n"
            case '\r' => "\\r"
            case '\t' => "\\t"
            case _ => [c]
  {
    EscapeValueIsOnePass([c]);
    assert [c][1..] == "";
  }

  /** What a line records of an entry: whole milliseconds, and no chain fields. */
  function Recorded(e: Entry): Entry {
    e.(timestamp := Milliseconds(e.timestamp), prevHash := None, hmac := None)
  }

  lemma FixedDetermines(a: Entry, b: Entry)
    requires Fixed(a) == Fixed(b)
    ensures a.requestId == b.requestId && a.action == b.action && a.decision == b.decision
    ensures a.callerKey == b.callerKey && a.durationMs == b.durationMs && a.matchedRule == b.matchedRule
    ensures Milliseconds(a.timestamp) == Milliseconds(b.timestamp)
  {
    hide Decimal, Severity;
    var x, y := Fixed(a), Fixed(b);
    assert x[0] == y[0] && x[1] == y[1] && x[2] == y[2] && x[3] == y[3];
    assert x[5] == y[5] && x[6] == y[6] && x[7] == y[7];
    DecimalInjective(Milliseconds(a.timestamp), Milliseconds(b.timestamp));
    DecimalInjective(a.durationMs, b.durationMs);
  }

  lemma AttributesDetermine(a: Entry, b: Entry)
    requires Attributes(a) == Attributes(b)
    ensures Recorded(a) == Recorded(b)
  {
    hide Fixed, Decimal, Milliseconds;
    var x, y := Attributes(a), Attributes(b);
    FixedPlain(a);
    FixedPlain(b);
    assert x[..8] == Fixed(a) && y[..8] == Fixed(b);
    FixedDetermines(a, b);
    var exitA, exitB := Optional("exitCode", DecimalOf(a.exitCode)), Optional("exitCode", DecimalOf(b.exitCode));
    var reasonA, reasonB := Optional("reason", a.reason), Optional("reason", b.reason);
    assert x[8..] == Optional("cmd", a.command) + (exitA + reasonA);
    assert y[8..] == Optional("cmd", b.command) + (exitB + reasonB);
    OptionalSplits("cmd", a.command, b.command, exitA + reasonA, exitB + reasonB);
    OptionalSplits("exitCode", DecimalOf(a.exitCode), DecimalOf(b.exitCode), reasonA, reasonB);
    OptionalSplits("reason", a.reason, b.reason, [], []);
    if a.exitCode.Some? {
      DecimalInjective(a.exitCode.value, b.exitCode.value);
    }
  }

  /** Two lines are equal exactly when they record the same: nothing recorded is lost or confused. */
  lemma LinesEqualIff(a: Entry, b: Entry, v: string, w: string, m: Version, n: Version)
    ensures Line(a, v, m) == Line(b, w, n) <==> Recorded(a) == Recorded(b) && v == w && m == n
  {
    hide Line, Read, Attributes, Recorded;
    if Line(a, v, m) == Line(b, w, n) {
      ReadBack(a, v, m);
      ReadBack(b, w, n);
      AttributesDetermine(a, b);
      assert Fields(a, v, m)[0] == Fields(b, w, n)[0] && Fields(a, v, m)[3] == Fields(b, w, n)[3];
      assert Name(m)[5] == Name(n)[5];
    }
    if Recorded(a) == Recorded(b) && v == w && m == n {
      RecordedDetermines(a, b, v, m);
    }
  }

  lemma RecordedDetermines(a: Entry, b: Entry, v: string, m: Version)
    requires Recorded(a) == Recorded(b)
    ensures Line(a, v, m) == Line(b, v, m)
  {
    hide Header, Joined, Decimal, Severity, Milliseconds;
    assert Fixed(a) == Fixed(b);
  }

  /**
    * The event is a single line exactly when the product version, the action and, in version 2,
    * the label have no line break: header fields are not escaped against line breaks.
    */
  lemma SingleLineIff(e: Entry, productVersion: string, version: Version, c: char)
    requires c in {'\n', '\r'}
    ensures c in Line(e, productVersion, version) <==>
            c in productVersion || c in e.action || (version == V2 && c in Label(e))
  {
    hide Header, Joined, Attributes, Label, HeaderTable, ValueTable;
    TablesForeign(c);
    var fields := Fields(e, productVersion, version);
    HeaderMembers(HeaderTable(), fields, c);
    assert c !in fields[0] && c !in VENDOR && c !in PRODUCT;
    assert fields[3] == productVersion && fields[4] == e.action;
    assert version == V2 ==> fields[5] == Label(e);
    AttributesPlain(e);
    assert !PlainKey([c]) by {
      assert [c][0] == c;
    }
    JoinedMembers(ValueTable(), Attributes(e), '\t', c);
  }

  lemma TablesForeign(c: char)
    requires c in {'\n', '\r'}
    ensures Foreigner(HeaderTable(), c) && c !in HeaderTable().code
    ensures Foreigner(ValueTable(), c) && c in ValueTable().code
  {
  }
}
