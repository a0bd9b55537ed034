/** A printer and a reader that meet all that the audit model asks of JSON, so that it asks nothing contradictory. */
module JsonLaws {
  import opened Prelude
  import opened AuditTypes

  // ---- A code for entries in zeros and ones ----------------------------------------------------------

  function CodeNat(n: nat): (s: string)
    ensures |s| == n + 1 && s[n] == '0'
    ensures forall i :: 0 <= i < n ==> s[i] == '1'
  {
    seq(n, _ => '1') + "0"
  }

  function CodeInt(n: int): string {
    CodeNat(if n >= 0 then 2 * n else -2 * n - 1)
  }

  function CodeText(t: string): string {
    if t == "" then "0" else "1" + (CodeNat(t[0] as int) + CodeText(t[1..]))
  }

  function CodeOption(t: Option<string>): string {
    if t == None then "0" else "1" + CodeText(t.value)
  }

  function CodeExit(n: Option<int>): string {
    if n == None then "0" else "1" + CodeInt(n.value)
  }

  function Code(e: Entry): string {
    CodeInt(e.timestamp) + (CodeText(e.requestId) + (CodeText(e.action) + (CodeOption(e.command) + (CodeText(e.decision)
    + (CodeText(e.matchedRule) + (CodeExit(e.exitCode) + (CodeNat(e.durationMs) + (CodeText(e.callerKey)
    + (CodeOption(e.reason) + (CodeOption(e.prevHash) + CodeOption(e.hmac)))))))))))
  }

  lemma NatDiffers(m: nat, n: nat, x: string, y: string)
    requires m < n
    ensures CodeNat(m) + x != CodeNat(n) + y
  {
    hide CodeNat;
    assert (CodeNat(m) + x)[m] == '0' && (CodeNat(n) + y)[m] == '1';
  }

  /** Each code ends where it says it ends. */
  lemma NatSplits(m: nat, n: nat, x: string, y: string)
    requires CodeNat(m) + x == CodeNat(n) + y
    ensures m == n && x == y
  {
    hide CodeNat;
    assert (CodeNat(m) + x)[|CodeNat(m)|..] == x && (CodeNat(n) + y)[|CodeNat(n)|..] == y;
    if m < n {
      NatDiffers(m, n, x, y);
    } else if n < m {
      NatDiffers(n, m, y, x);
    }
  }

  lemma IntSplits(m: int, n: int, x: string, y: string)
    requires CodeInt(m) + x == CodeInt(n) + y
    ensures m == n && x == y
  {
    NatSplits(if m >= 0 then 2 * m else -2 * m - 1, if n >= 0 then 2 * n else -2 * n - 1, x, y);
  }

  lemma Tail(c: char, d: char, x: string, y: string)
    requires [c] + x == [d] + y
    ensures c == d && x == y
  {
    assert ([c] + x)[0] == c && ([d] + y)[0] == d;
    assert ([c] + x)[1..] == x && ([d] + y)[1..] == y;
  }

  lemma Reassociate(a: string, b: string, c: string)
    ensures a + b + c == a + (b + c)
  {
  }

  lemma {:induction false} TextSplits(s: string, t: string, x: string, y: string)
    requires CodeText(s) + x == CodeText(t) + y
    ensures s == t && x == y
    decreases |s|
  {
    hide CodeNat;
    var u := if s == "" then "" else CodeNat(s[0] as int) + CodeText(s[1..]);
    var v := if t == "" then "" else CodeNat(t[0] as int) + CodeText(t[1..]);
    Reassociate(if s == "" then "0" else "1", u, x);
    Reassociate(if t == "" then "0" else "1", v, y);
    assert "" + x == x && "" + y == y;
    Tail(if s == "" then '0' else '1', if t == "" then '0' else '1', u + x, v + y);
    if s != "" {
      Reassociate(CodeNat(s[0] as int), CodeText(s[1..]), x);
      Reassociate(CodeNat(t[0] as int), CodeText(t[1..]), y);
      NatSplits(s[0] as int, t[0] as int, CodeText(s[1..]) + x, CodeText(t[1..]) + y);
      TextSplits(s[1..], t[1..], x, y);
      assert s == [s[0]] + s[1..] && t == [t[0]] + t[1..];
    }
  }

  lemma OptionSplits(s: Option<string>, t: Option<string>, x: string, y: string)
    requires CodeOption(s) + x == CodeOption(t) + y
    ensures s == t && x == y
  {
    hide CodeText;
    var u, v := if s == None then "" else CodeText(s.value), if t == None then "" else CodeText(t.value);
    Reassociate(if s == None then "0" else "1", u, x);
    Reassociate(if t == None then "0" else "1", v, y);
    assert "" + x == x && "" + y == y;
    Tail(if s == None then '0' else '1', if t == None then '0' else '1', u + x, v + y);
    if s.Some? {
      TextSplits(s.value, t.value, x, y);
    }
  }

  lemma ExitSplits(s: Option<int>, t: Option<int>, x: string, y: string)
    requires CodeExit(s) + x == CodeExit(t) + y
    ensures s == t && x == y
  {
    hide CodeInt;
    var u, v := if s == None then "" else CodeInt(s.value), if t == None then "" else CodeInt(t.value);
    Reassociate(if s == None then "0" else "1", u, x);
    Reassociate(if t == None then "0" else "1", v, y);
    assert "" + x == x && "" + y == y;
    Tail(if s == None then '0' else '1', if t == None then '0' else '1', u + x, v + y);
    if s.Some? {
      IntSplits(s.value, t.value, x, y);
    }
  }

  function Rest3(e: Entry): string {
    CodeText(e.callerKey) + (CodeOption(e.reason) + (CodeOption(e.prevHash) + CodeOption(e.hmac)))
  }

  function Rest2(e: Entry): string {
    CodeText(e.decision) + (CodeText(e.matchedRule) + (CodeExit(e.exitCode) + (CodeNat(e.durationMs) + Rest3(e))))
  }

  lemma Rest3Determines(a: Entry, b: Entry)
    requires Rest3(a) == Rest3(b)
    ensures a.callerKey == b.callerKey && a.reason == b.reason && a.prevHash == b.prevHash && a.hmac == b.hmac
  {
    hide CodeText, CodeOption;
    var x2, y2 := CodeOption(a.prevHash) + CodeOption(a.hmac), CodeOption(b.prevHash) + CodeOption(b.hmac);
    TextSplits(a.callerKey, b.callerKey, CodeOption(a.reason) + x2, CodeOption(b.reason) + y2);
    OptionSplits(a.reason, b.reason, x2, y2);
    OptionSplits(a.prevHash, b.prevHash, CodeOption(a.hmac), CodeOption(b.hmac));
    assert CodeOption(a.hmac) + "" == CodeOption(a.hmac) && CodeOption(b.hmac) + "" == CodeOption(b.hmac);
    OptionSplits(a.hmac, b.hmac, "", "");
  }

  lemma Rest2Determines(a: Entry, b: Entry)
    requires Rest2(a) == Rest2(b)
    ensures a.decision == b.decision && a.matchedRule == b.matchedRule && a.exitCode == b.exitCode
    ensures a.durationMs == b.durationMs && Rest3(a) == Rest3(b)
  {
    hide CodeText, CodeExit, CodeNat, Rest3;
    var x3, y3 := CodeNat(a.durationMs) + Rest3(a), CodeNat(b.durationMs) + Rest3(b);
    var x2, y2 := CodeExit(a.exitCode) + x3, CodeExit(b.exitCode) + y3;
    TextSplits(a.decision, b.decision, CodeText(a.matchedRule) + x2, CodeText(b.matchedRule) + y2);
    TextSplits(a.matchedRule, b.matchedRule, x2, y2);
    ExitSplits(a.exitCode, b.exitCode, x3, y3);
    NatSplits(a.durationMs, b.durationMs, Rest3(a), Rest3(b));
  }

  lemma CodeInjective(a: Entry, b: Entry)
    requires Code(a) == Code(b)
    ensures a == b
  {
    hide CodeText, CodeOption, CodeInt, CodeNat, CodeExit;
    var x4, y4 := CodeOption(a.command) + Rest2(a), CodeOption(b.command) + Rest2(b);
    var x3, y3 := CodeText(a.action) + x4, CodeText(b.action) + y4;
    IntSplits(a.timestamp, b.timestamp, CodeText(a.requestId) + x3, CodeText(b.requestId) + y3);
    TextSplits(a.requestId, b.requestId, x3, y3);
    TextSplits(a.action, b.action, x4, y4);
    OptionSplits(a.command, b.command, Rest2(a), Rest2(b));
    Rest2Determines(a, b);
    Rest3Determines(a, b);
  }

  // ---- The printer and the reader ------------------------------------------------------------------------

  ghost predicate Plain(s: string) {
    forall i :: 0 <= i < |s| ==> s[i] == '0' || s[i] == '1'
  }

  lemma {:induction false} TextPlain(t: string)
    ensures Plain(CodeText(t))
  {
    hide CodeNat;
    if t != "" {
      TextPlain(t[1..]);
    }
  }

  lemma CodePlain(e: Entry)
    ensures Plain(Code(e))
  {
    hide CodeText, CodeNat;
    TextPlain(e.requestId);
    TextPlain(e.action);
    TextPlain(e.command.GetOr(""));
    TextPlain(e.decision);
    TextPlain(e.matchedRule);
    TextPlain(e.callerKey);
    TextPlain(e.reason.GetOr(""));
    TextPlain(e.prevHash.GetOr(""));
    TextPlain(e.hmac.GetOr(""));
    Rest3Plain(e);
    Rest2Plain(e);
    assert Plain(CodeInt(e.timestamp));
    assert Plain(CodeOption(e.command) + Rest2(e));
    assert Plain(CodeText(e.requestId) + (CodeText(e.action) + (CodeOption(e.command) + Rest2(e))));
    assert Code(e) == CodeInt(e.timestamp)
                   + (CodeText(e.requestId) + (CodeText(e.action) + (CodeOption(e.command) + Rest2(e))));
  }

  lemma Rest3Plain(e: Entry)
    ensures Plain(Rest3(e))
  {
    hide CodeText;
    TextPlain(e.callerKey);
    TextPlain(e.reason.GetOr(""));
    TextPlain(e.prevHash.GetOr(""));
    TextPlain(e.hmac.GetOr(""));
    assert Plain(CodeOption(e.prevHash) + CodeOption(e.hmac));
  }

  lemma Rest2Plain(e: Entry)
    ensures Plain(Rest2(e))
  {
    hide CodeText, CodeNat, Rest3;
    TextPlain(e.decision);
    TextPlain(e.matchedRule);
    Rest3Plain(e);
    assert Plain(CodeNat(e.durationMs) + Rest3(e));
    assert Plain(CodeExit(e.exitCode));
  }

  function Text(e: Entry): string {
    "{" + Code(e) + "}"
  }

  /** The only opening brace is at the front and the only closing one at the end. */
  lemma TextShape(e: Entry)
    ensures |Text(e)| >= 2 && Text(e)[0] == '{' && Text(e)[|Text(e)| - 1] == '}'
    ensures forall i :: 0 < i < |Text(e)| ==> Text(e)[i] != '{'
    ensures forall i :: 0 <= i < |Text(e)| - 1 ==> Text(e)[i] != '}'
  {
    hide Code;
    CodePlain(e);
    var t := Text(e);
    forall i | 0 < i < |t| - 1 ensures t[i] == '0' || t[i] == '1' {
      assert t[i] == Code(e)[i - 1];
    }
  }

  lemma TextInjective(a: Entry, b: Entry)
    requires Text(a) == Text(b)
    ensures a == b
  {
    hide Code;
    assert Text(a)[1..|Text(a)| - 1] == Code(a) && Text(b)[1..|Text(b)| - 1] == Code(b);
    CodeInjective(a, b);
  }

  ghost predicate Reads(s: string, e: Entry) {
    exists space :: JsonSpace(space) && s == space + Text(e)
  }

  ghost function Parse(s: string): Option<Entry> {
    if e :| Reads(s, e) then Some(e) else None
  }

  /** The brace tells where the entry begins. */
  lemma SameSpace(s: string, e: Entry, space: string, e': Entry)
    requires JsonSpace(space) && s + Text(e) == space + Text(e')
    ensures s == space && e == e'
  {
    hide Text;
    TextShape(e);
    TextShape(e');
    var whole := s + Text(e);
    assert whole[|s|] == '{';
    assert forall i :: 0 <= i < |whole| && i != |space| ==> whole[i] != '{' by {
      forall i | 0 <= i < |whole| && i != |space| ensures whole[i] != '{' {
        if i < |space| {
          assert whole[i] == space[i];
        } else {
          assert whole[i] == Text(e')[i - |space|];
        }
      }
    }
    assert |s| == |space|;
    assert whole[..|s|] == s && whole[|s|..] == Text(e);
    assert (space + Text(e'))[..|s|] == space && (space + Text(e'))[|s|..] == Text(e');
    TextInjective(e, e');
  }

  lemma ParseBehind(s: string, e: Entry)
    ensures Parse(s + Text(e)) == if JsonSpace(s) then Some(e) else None
  {
    hide Text;
    var whole := s + Text(e);
    if JsonSpace(s) {
      assert Reads(whole, e);
    }
    if Parse(whole).Some? {
      var e' := Parse(whole).value;
      var space :| JsonSpace(space) && whole == space + Text(e');
      SameSpace(s, e, space, e');
    }
  }

  lemma PrintedPrefixFree(e: Entry, e': Entry)
    requires Text(e) <= Text(e')
    ensures e == e'
  {
    hide Text;
    TextShape(e);
    TextShape(e');
    assert Text(e')[|Text(e)| - 1] == Text(e)[|Text(e)| - 1] == '}';
    assert |Text(e)| == |Text(e')|;
    assert Text(e) == Text(e')[..|Text(e)|] == Text(e');
    TextInjective(e, e');
  }

  const Witness: Digest := seq(64, _ => '0')

  ghost function Model(): Foreign {
    Foreign(_ => Witness, (_, _) => Witness, t => CodeInt(t), e => Text(e), s => Parse(s))
  }

  lemma PieceBegins(p: string)
    requires Model().Piece(p)
    ensures p != "" && p[0] == '{'
  {
    hide Text;
    var e :| p <= Text(e);
    TextShape(e);
    assert p[0] == Text(e)[0];
  }

  lemma {:induction false} ScrapsBegin(parts: seq<string>)
    requires parts != [] && forall i :: 0 <= i < |parts| ==> Model().Piece(parts[i])
    ensures RunTogether(parts) != "" && RunTogether(parts)[0] == '{'
    decreases |parts|
  {
    hide Foreign.Piece;
    PieceBegins(Last(parts));
    if |parts| == 1 {
      assert Front(parts) == [] && "" + Last(parts) == Last(parts);
    } else {
      ScrapsBegin(Front(parts));
    }
  }

  /** Scraps are no entry behind white space. */
  lemma ScrapsDiffer(parts: seq<string>, space: string, e: Entry)
    requires Model().Scraps(parts) && JsonSpace(space)
    ensures RunTogether(parts) != space + Text(e)
  {
    hide Text, Foreign.Piece;
    ScrapsBegin(parts);
    TextShape(e);
    var run, whole := RunTogether(parts), space + Text(e);
    PieceBegins(Last(parts));
    if space != "" {
      assert whole[0] == space[0];
    } else if |parts| > 1 {
      assert whole == Text(e);
      ScrapsBegin(Front(parts));
      assert run[|RunTogether(Front(parts))|] == '{';
    } else {
      assert whole == Text(e) && Model().toJson(e) == Text(e);
      assert Front(parts) == [] && "" + Last(parts) == Last(parts);
    }
  }

  lemma ScrapsUnreadable(parts: seq<string>)
    requires Model().Scraps(parts)
    ensures Parse(RunTogether(parts)) == None && !Blank(RunTogether(parts))
  {
    hide Text, Foreign.Piece, Foreign.Scraps, RunTogether;
    forall e, space | JsonSpace(space) ensures RunTogether(parts) != space + Text(e) {
      ScrapsDiffer(parts, space, e);
    }
    ScrapsNotBlank(parts);
  }

  lemma ScrapsNotBlank(parts: seq<string>)
    requires Model().Scraps(parts)
    ensures !Blank(RunTogether(parts))
  {
    ScrapsBegin(parts);
    assert !IsWhitespace(RunTogether(parts)[0]);
  }

  lemma EntryNotBlank(space: string, e: Entry)
    ensures !Blank(space + Text(e))
  {
    hide Text;
    TextShape(e);
    assert (space + Text(e))[|space|] == '{';
  }

  lemma BlankUnreadable(s: string)
    requires Blank(s)
    ensures Parse(s) == None
  {
    hide Text, Blank;
    forall e, space | JsonSpace(space) ensures s != space + Text(e) {
      EntryNotBlank(space, e);
    }
  }

  /** All the laws together have a model. */
  lemma LawsCanBeMet()
    ensures exists f: Foreign :: f.Lawful() && f.Delimited() && f.PipeFree()
  {
    hide Text, Parse, Blank, JsonSpace, Foreign.Piece, RunTogether;
    var f := Model();
    forall s, e ensures f.fromJson(s + f.toJson(e)) == if JsonSpace(s) then Some(e) else None {
      ParseBehind(s, e);
    }
    forall e ensures f.fromJson(f.toJson(e)) == Some(e) {
      ParseBehind("", e);
      NoSpace();
      assert "" + Text(e) == Text(e);
    }
    forall s | Blank(s) ensures f.fromJson(s) == None {
      BlankUnreadable(s);
    }
    forall e, e' | f.toJson(e) <= f.toJson(e') ensures e == e' {
      PrintedPrefixFree(e, e');
    }
    forall parts | f.Scraps(parts) ensures f.fromJson(RunTogether(parts)) == None && !Blank(RunTogether(parts)) {
      ScrapsUnreadable(parts);
    }
    forall t, u | f.rfc3339(t) == f.rfc3339(u) ensures t == u {
      IntSplits(t, u, "", "");
    }
    forall t ensures '|' !in f.rfc3339(t) {
      IntPlain(t);
    }
    assert f.Lawful();
    assert f.Delimited();
    assert f.PipeFree();
  }

  lemma IntPlain(n: int)
    ensures '|' !in CodeInt(n)
  {
  }

  lemma NoSpace()
    ensures JsonSpace("")
  {
  }
}
