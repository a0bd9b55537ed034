/** Escaping and splitting of SIEM lines. */
module SiemText {
  import opened Prelude

  /** Each special character with the letter that stands for it after a backslash, and back. */
  datatype Table = Table(code: map<char, char>, meaning: map<char, char>) {
    /** The backslash itself is special, and every letter gives its character back. */
    predicate Valid() {
      && '\\' in code
      && forall c :: c in code ==> code[c] in meaning && meaning[code[c]] == c
    }
  }

  /** Replacement of every occurrence of a character. */
  function Replace(s: string, c: char, to: string): string {
    if s == "" then "" else (if s[0] == c then to else [s[0]]) + Replace(s[1..], c, to)
  }

  function EscapeChar(t: Table, c: char): string {
    if c in t.code then ['\\', t.code[c]] else [c]
  }

  /** Escaping in one pass, character by character. */
  function Escape(t: Table, s: string): string {
    if s == "" then "" else EscapeChar(t, s[0]) + Escape(t, s[1..])
  }

  /** The reader's side: a backslash and the next character stand for one special character. */
  function Unescape(t: Table, s: string): string
    decreases |s|
  {
    if s == "" then ""
    else if s[0] == '\\' && |s| >= 2 then
      [if s[1] in t.meaning then t.meaning[s[1]] else s[1]] + Unescape(t, s[2..])
    else [s[0]] + Unescape(t, s[1..])
  }

  /** Unescaping undoes escaping. */
  lemma {:induction false} UnescapeEscape(t: Table, s: string)
    requires t.Valid()
    ensures Unescape(t, Escape(t, s)) == s
  {
    if s != "" {
      var e, rest := EscapeChar(t, s[0]), Escape(t, s[1..]);
      UnescapeEscape(t, s[1..]);
      assert (e + rest)[|e|..] == rest;
      assert s == [s[0]] + s[1..];
      if s[0] in t.code {
        assert (e + rest)[1] == t.code[s[0]];
      }
    }
  }

  lemma {:induction false} EscapePlain(t: Table, s: string)
    requires forall i :: 0 <= i < |s| ==> s[i] !in t.code
    ensures Escape(t, s) == s
  {
    if s != "" {
      EscapePlain(t, s[1..]);
      assert s == [s[0]] + s[1..];
    }
  }

  // ---- Chained replacement is one pass ------------------------------------------------------------

  lemma ReplaceStep(s: string, c: char, to: string)
    requires s != ""
    ensures Replace(s, c, to) == (if s[0] == c then to else [s[0]]) + Replace(s[1..], c, to)
  {
  }

  lemma {:induction false} ReplaceConcat(a: string, b: string, c: char, to: string)
    ensures Replace(a + b, c, to) == Replace(a, c, to) + Replace(b, c, to)
  {
    hide Replace;
    if a == "" {
      ReplaceNothing(c, to);
      assert a + b == b && "" + Replace(b, c, to) == Replace(b, c, to);
    } else {
      var first, rest := if a[0] == c then to else [a[0]], Replace(a[1..], c, to);
      ReplaceConcat(a[1..], b, c, to);
      ReplaceStep(a, c, to);
      ReplaceStep(a + b, c, to);
      assert (a + b)[1..] == a[1..] + b;
      assert first + (rest + Replace(b, c, to)) == first + rest + Replace(b, c, to);
    }
  }

  lemma ReplaceNothing(c: char, to: string)
    ensures Replace("", c, to) == ""
  {
  }

  /** `replace` calls applied one after the other. */
  function ReplaceAll(s: string, order: seq<char>, t: Table): string
    requires forall c :: c in order ==> c in t.code
  {
    if order == [] then s
    else Replace(ReplaceAll(s, Front(order), t), Last(order), ['\\', t.code[Last(order)]])
  }

  lemma {:induction false} ReplaceAllConcat(a: string, b: string, order: seq<char>, t: Table)
    requires forall c :: c in order ==> c in t.code
    ensures ReplaceAll(a + b, order, t) == ReplaceAll(a, order, t) + ReplaceAll(b, order, t)
  {
    if order != [] {
      ReplaceAllConcat(a, b, Front(order), t);
      var x, y := ReplaceAll(a, Front(order), t), ReplaceAll(b, Front(order), t);
      ReplaceConcat(x, y, Last(order), ['\\', t.code[Last(order)]]);
    }
  }

  /** The backslash goes first, no character twice, and no later step touches a letter that an earlier one put in. */
  ghost predicate GoodOrder(order: seq<char>, t: Table) {
    && order != [] && order[0] == '\\'
    && (forall c :: c in order <==> c in t.code)
    && (forall i, j :: 0 <= i < j < |order| ==> order[i] != order[j])
    && (forall i, j :: 0 <= i < j < |order| ==> t.code[order[i]] != order[j])
  }

  lemma ReplaceOne(x: char, c: char, to: string)
    ensures Replace([x], c, to) == if x == c then to else [x]
  {
    assert [x][1..] == "";
  }

  lemma ReplaceTwo(x: char, y: char, c: char, to: string)
    requires x != c && y != c
    ensures Replace([x, y], c, to) == [x, y]
  {
    ReplaceConcat([x], [y], c, to);
    ReplaceOne(x, c, to);
    ReplaceOne(y, c, to);
    assert [x] + [y] == [x, y];
  }

  /** On one character, the first `n` steps escape it if it is among the first `n`. */
  lemma {:induction false} ReplaceAllOne(x: char, order: seq<char>, t: Table, n: nat)
    requires GoodOrder(order, t) && n <= |order|
    ensures ReplaceAll([x], order[..n], t) == if x in order[..n] then ['\\', t.code[x]] else [x]
  {
    if n > 0 {
      var before, c := order[..n - 1], order[n - 1];
      assert Front(order[..n]) == before && Last(order[..n]) == c;
      ReplaceAllOne(x, order, t, n - 1);
      if x in before {
        var i :| 0 <= i < n - 1 && order[i] == x;
        assert t.code[order[i]] != order[n - 1] && order[0] != order[n - 1];
        ReplaceTwo('\\', t.code[x], c, ['\\', t.code[c]]);
      } else {
        ReplaceOne(x, c, ['\\', t.code[c]]);
      }
      assert order[..n] == before + [c];
    }
  }

  lemma ReplaceAllNone(s: string, t: Table)
    ensures ReplaceAll(s, [], t) == s
  {
  }

  lemma ReplaceAllStep(s: string, order: seq<char>, c: char, t: Table)
    requires forall x :: x in order + [c] ==> x in t.code
    ensures ReplaceAll(s, order + [c], t) == Replace(ReplaceAll(s, order, t), c, ['\\', t.code[c]])
  {
    assert Front(order + [c]) == order && Last(order + [c]) == c;
  }

  /** A chain of replacements in a good order is the one-pass escape, for every text. */
  lemma {:induction false} ChainIsOnePass(s: string, order: seq<char>, t: Table)
    requires GoodOrder(order, t)
    ensures ReplaceAll(s, order, t) == Escape(t, s)
  {
    if s == "" {
      ReplaceAllEmpty(order, t);
    } else {
      hide ReplaceAll;
      ReplaceAllConcat([s[0]], s[1..], order, t);
      assert [s[0]] + s[1..] == s;
      ReplaceAllOne(s[0], order, t, |order|);
      assert order[..|order|] == order;
      ChainIsOnePass(s[1..], order, t);
    }
  }

  lemma {:induction false} ReplaceAllEmpty(order: seq<char>, t: Table)
    requires forall c :: c in order ==> c in t.code
    ensures ReplaceAll("", order, t) == ""
  {
    if order != [] {
      ReplaceAllEmpty(Front(order), t);
    }
  }

  // ---- Splitting at unescaped delimiters ------------------------------------------------------------

  datatype Cut = Uncut | Cut(before: string, after: string)

  /** Cut at the first delimiter that no backslash protects. */
  function CutAt(s: string, d: char): (r: Cut)
    ensures r.Cut? ==> |r.after| < |s|
    decreases |s|
  {
    if s == "" then Uncut
    else if s[0] == '\\' && |s| >= 2 then
      var r := CutAt(s[2..], d);
      if r == Uncut then Uncut else Cut(s[..2] + r.before, r.after)
    else if s[0] == d then Cut("", s[1..])
    else
      var r := CutAt(s[1..], d);
      if r == Uncut then Uncut else Cut([s[0]] + r.before, r.after)
  }

  /** Text a reader passes through without meeting the delimiter or a dangling backslash. */
  predicate Sealed(s: string, d: char)
    decreases |s|
  {
    if s == "" then true
    else if s[0] == '\\' then |s| >= 2 && Sealed(s[2..], d)
    else s[0] != d && Sealed(s[1..], d)
  }

  lemma {:induction false} SealedConcat(a: string, b: string, d: char)
    requires Sealed(a, d) && Sealed(b, d)
    ensures Sealed(a + b, d)
    decreases |a|
  {
    if a == "" {
      assert a + b == b;
    } else if a[0] == '\\' {
      SealedConcat(a[2..], b, d);
      assert (a + b)[2..] == a[2..] + b;
    } else {
      SealedConcat(a[1..], b, d);
      assert (a + b)[1..] == a[1..] + b;
    }
  }

  lemma {:induction false} SealedPlain(s: string, d: char)
    requires forall i :: 0 <= i < |s| ==> s[i] != d && s[i] != '\\'
    ensures Sealed(s, d)
  {
    if s != "" {
      SealedPlain(s[1..], d);
    }
  }

  /** Escaped text is sealed against every special character. */
  lemma {:induction false} SealedEscape(t: Table, s: string, d: char)
    requires t.Valid() && d in t.code
    ensures Sealed(Escape(t, s), d)
  {
    if s != "" {
      var e, rest := EscapeChar(t, s[0]), Escape(t, s[1..]);
      SealedEscape(t, s[1..], d);
      assert (e + rest)[|e|..] == rest;
    }
  }

  lemma {:induction false} CutSealed(s: string, d: char, after: string)
    requires Sealed(s, d) && d != '\\'
    ensures CutAt(s + [d] + after, d) == Cut(s, after)
    decreases |s|
  {
    var whole := s + [d] + after;
    if s == "" {
      assert whole[0] == d && whole[1..] == after;
    } else if s[0] == '\\' {
      CutSealed(s[2..], d, after);
      assert whole[2..] == s[2..] + [d] + after && whole[..2] == s[..2];
      assert s == s[..2] + s[2..];
    } else {
      CutSealed(s[1..], d, after);
      assert whole[1..] == s[1..] + [d] + after;
      assert s == [s[0]] + s[1..];
    }
  }

  lemma {:induction false} UncutSealed(s: string, d: char)
    requires Sealed(s, d)
    ensures CutAt(s, d) == Uncut
    decreases |s|
  {
    if s != "" {
      if s[0] == '\\' {
        UncutSealed(s[2..], d);
      } else {
        UncutSealed(s[1..], d);
      }
    }
  }

  // ---- Headers -----------------------------------------------------------------------------------------

  function EscapeAll(t: Table, fields: seq<string>): seq<string> {
    seq(|fields|, i requires 0 <= i < |fields| => Escape(t, fields[i]))
  }

  function Header(t: Table, fields: seq<string>): string {
    Piped(EscapeAll(t, fields))
  }

  lemma HeaderStep(t: Table, fields: seq<string>)
    requires fields != []
    ensures Header(t, fields) == Escape(t, fields[0]) + "|" + Header(t, fields[1..])
  {
    hide Escape;
    assert EscapeAll(t, fields)[1..] == EscapeAll(t, fields[1..]);
  }

  datatype Parsed = Malformed | Parsed(fields: seq<string>, rest: string)

  /** Reads `n` fields and leaves the rest of the line. */
  function ReadHeader(t: Table, line: string, n: nat): Parsed
    decreases n
  {
    if n == 0 then Parsed([], line)
    else
      var cut := CutAt(line, '|');
      if cut == Uncut then Malformed
      else
        var more := ReadHeader(t, cut.after, n - 1);
        if more == Malformed then Malformed
        else Parsed([Unescape(t, cut.before)] + more.fields, more.rest)
  }

  lemma SplitHeader(t: Table, fields: seq<string>)
    requires fields != []
    ensures Header(t, fields) == Header(t, [fields[0]]) + Header(t, fields[1..])
  {
    hide Header, Escape;
    HeaderStep(t, fields);
    HeaderStep(t, [fields[0]]);
    HeaderEmpty(t);
    assert [fields[0]][1..] == [];
  }

  lemma HeaderEmpty(t: Table)
    ensures Header(t, []) == ""
  {
  }

  /** Every header reads back as its fields, whatever they contain and whatever follows. */
  lemma {:induction false} HeaderRoundTrip(t: Table, fields: seq<string>, rest: string)
    requires t.Valid() && '|' in t.code
    ensures ReadHeader(t, Header(t, fields) + rest, |fields|) == Parsed(fields, rest)
  {
    hide CutAt, Escape, Unescape, Header;
    if fields == [] {
      HeaderEmpty(t);
      assert Header(t, fields) + rest == rest;
    } else {
      HeaderStep(t, fields);
      var field, more := Escape(t, fields[0]), Header(t, fields[1..]);
      HeaderRoundTrip(t, fields[1..], rest);
      SealedEscape(t, fields[0], '|');
      CutSealed(field, '|', more + rest);
      assert Header(t, fields) + rest == field + "|" + (more + rest);
      UnescapeEscape(t, fields[0]);
      assert fields == [fields[0]] + fields[1..];
    }
  }

  // ---- Attributes ---------------------------------------------------------------------------------------

  datatype Pair = Pair(key: string, value: string)

  /** A key of letters and digits, as all the printers' keys are. */
  predicate PlainKey(key: string) {
    forall i :: 0 <= i < |key| ==> 'a' <= key[i] <= 'z' || 'A' <= key[i] <= 'Z' || '0' <= key[i] <= '9'
  }

  function Attribute(key: string, text: string): string {
    key + "=" + text
  }

  function PrintPair(t: Table, p: Pair): string {
    Attribute(p.key, Escape(t, p.value))
  }

  function PrintPairs(t: Table, pairs: seq<Pair>): seq<string> {
    seq(|pairs|, i requires 0 <= i < |pairs| => PrintPair(t, pairs[i]))
  }

  function Join(texts: seq<string>, separator: char): string {
    if texts == [] then ""
    else if |texts| == 1 then texts[0]
    else texts[0] + [separator] + Join(texts[1..], separator)
  }

  function Joined(t: Table, pairs: seq<Pair>, separator: char): string {
    Join(PrintPairs(t, pairs), separator)
  }

  predicate PlainKeys(pairs: seq<Pair>) {
    forall i :: 0 <= i < |pairs| ==> PlainKey(pairs[i].key)
  }

  lemma JoinedStep(t: Table, pairs: seq<Pair>, separator: char)
    requires pairs != []
    ensures Joined(t, pairs, separator) ==
            PrintPair(t, pairs[0]) + if |pairs| == 1 then "" else [separator] + Joined(t, pairs[1..], separator)
  {
    assert PrintPairs(t, pairs)[1..] == PrintPairs(t, pairs[1..]);
  }

  lemma {:induction false} JoinedSnoc(t: Table, pairs: seq<Pair>, p: Pair, separator: char)
    requires pairs != []
    ensures Joined(t, pairs + [p], separator) == Joined(t, pairs, separator) + [separator] + PrintPair(t, p)
    decreases |pairs|
  {
    hide Joined;
    var longer := pairs + [p];
    JoinedStep(t, longer, separator);
    JoinedStep(t, pairs, separator);
    assert longer[1..] == pairs[1..] + [p];
    if |pairs| == 1 {
      JoinedStep(t, [p], separator);
      assert longer[1..] == [p];
    } else {
      JoinedSnoc(t, pairs[1..], p, separator);
    }
  }

  function ReadPair(t: Table, s: string): Pair {
    var cut := CutAt(s, '=');
    if cut == Uncut then Pair(s, "") else Pair(cut.before, Unescape(t, cut.after))
  }

  /** Attributes separated by tabs. */
  function ReadTabbed(t: Table, s: string): seq<Pair>
    decreases |s|
  {
    var cut := CutAt(s, '\t');
    if cut == Uncut then [ReadPair(t, s)] else [ReadPair(t, cut.before)] + ReadTabbed(t, cut.after)
  }

  lemma PairRoundTrip(t: Table, p: Pair)
    requires t.Valid() && PlainKey(p.key)
    ensures ReadPair(t, PrintPair(t, p)) == p
  {
    hide CutAt, Escape, Unescape;
    SealedPlain(p.key, '=');
    CutSealed(p.key, '=', Escape(t, p.value));
    UnescapeEscape(t, p.value);
  }

  lemma PairSealed(t: Table, p: Pair)
    requires t.Valid() && '\t' in t.code && PlainKey(p.key)
    ensures Sealed(PrintPair(t, p), '\t')
  {
    SealedPlain(p.key, '\t');
    SealedPlain("=", '\t');
    SealedConcat(p.key, "=", '\t');
    SealedEscape(t, p.value, '\t');
    SealedConcat(p.key + "=", Escape(t, p.value), '\t');
  }

  /** Tab-separated attributes read back, whatever the values contain. */
  lemma {:induction false} TabbedRoundTrip(t: Table, pairs: seq<Pair>)
    requires t.Valid() && '\t' in t.code
    requires pairs != [] && PlainKeys(pairs)
    ensures ReadTabbed(t, Joined(t, pairs, '\t')) == pairs
    decreases |pairs|
  {
    hide CutAt, PrintPair, ReadPair, Joined;
    var first := PrintPair(t, pairs[0]);
    JoinedStep(t, pairs, '\t');
    PairRoundTrip(t, pairs[0]);
    PairSealed(t, pairs[0]);
    if |pairs| == 1 {
      assert first + "" == first;
      UncutSealed(first, '\t');
    } else {
      var rest := Joined(t, pairs[1..], '\t');
      assert first + (['\t'] + rest) == first + ['\t'] + rest;
      CutSealed(first, '\t', rest);
      TabbedRoundTrip(t, pairs[1..]);
      assert pairs == [pairs[0]] + pairs[1..];
    }
  }

  /** Cut at the last occurrence of a character. */
  function CutLast(s: string, d: char): Cut {
    if s == "" then Uncut
    else if Last(s) == d then Cut(Front(s), "")
    else
      var r := CutLast(Front(s), d);
      if r == Uncut then Uncut else Cut(r.before, r.after + [Last(s)])
  }

  lemma {:induction false} CutLastRoundTrip(a: string, d: char, b: string)
    requires forall i :: 0 <= i < |b| ==> b[i] != d
    ensures CutLast(a + [d] + b, d) == Cut(a, b)
    decreases |b|
  {
    var whole := a + [d] + b;
    if b == "" {
      assert Front(whole) == a && Last(whole) == d;
    } else {
      CutLastRoundTrip(a, d, Front(b));
      assert Front(whole) == a + [d] + Front(b);
      assert b == Front(b) + [Last(b)];
    }
  }

  /** Space-separated attributes after the first key: a key is the last word before its equals sign. */
  function ReadSpaced(t: Table, key: string, s: string): seq<Pair>
    decreases |s|
  {
    var cut := CutAt(s, '=');
    if cut == Uncut then [Pair(key, Unescape(t, s))]
    else
      var word := CutLast(cut.before, ' ');
      if word == Uncut then [Pair(key, Unescape(t, s))]
      else [Pair(key, Unescape(t, word.before))] + ReadSpaced(t, word.after, cut.after)
  }

  function ReadExtension(t: Table, s: string): seq<Pair> {
    var cut := CutAt(s, '=');
    if cut == Uncut then [] else ReadSpaced(t, cut.before, cut.after)
  }

  /** What follows the first key and its equals sign. */
  function AfterKey(t: Table, pairs: seq<Pair>): string
    requires pairs != []
  {
    Escape(t, pairs[0].value) + if |pairs| == 1 then "" else " " + Joined(t, pairs[1..], ' ')
  }

  lemma JoinedByKey(t: Table, pairs: seq<Pair>)
    requires pairs != []
    ensures Joined(t, pairs, ' ') == pairs[0].key + "=" + AfterKey(t, pairs)
  {
    hide Joined, Escape;
    JoinedStep(t, pairs, ' ');
    var rest := if |pairs| == 1 then "" else " " + Joined(t, pairs[1..], ' ');
    var start, value := pairs[0].key + "=", Escape(t, pairs[0].value);
    assert start + value + rest == start + (value + rest);
  }

  /** A value and the key after it, up to that key's equals sign. */
  lemma ValueAndKeySealed(t: Table, value: string, key: string)
    requires t.Valid() && '=' in t.code && PlainKey(key)
    ensures Sealed(Escape(t, value) + " " + key, '=')
  {
    SealedEscape(t, value, '=');
    SealedPlain(" ", '=');
    SealedPlain(key, '=');
    SealedConcat(Escape(t, value), " ", '=');
    SealedConcat(Escape(t, value) + " ", key, '=');
  }

  lemma {:induction false} SpacedRoundTrip(t: Table, pairs: seq<Pair>)
    requires t.Valid() && '=' in t.code
    requires pairs != [] && PlainKeys(pairs)
    ensures ReadSpaced(t, pairs[0].key, AfterKey(t, pairs)) == pairs
    decreases |pairs|
  {
    hide CutAt, CutLast, Escape, Unescape, Joined;
    var value := Escape(t, pairs[0].value);
    UnescapeEscape(t, pairs[0].value);
    if |pairs| == 1 {
      SealedEscape(t, pairs[0].value, '=');
      UncutSealed(value, '=');
      assert value + "" == value;
    } else {
      var key, rest := pairs[1].key, AfterKey(t, pairs[1..]);
      JoinedByKey(t, pairs[1..]);
      assert value + (" " + (key + "=" + rest)) == value + " " + key + "=" + rest;
      ValueAndKeySealed(t, pairs[0].value, key);
      CutSealed(value + " " + key, '=', rest);
      CutLastRoundTrip(value, ' ', key);
      SpacedRoundTrip(t, pairs[1..]);
      assert pairs == [pairs[0]] + pairs[1..];
    }
  }

  /** A space-separated extension reads back, even though values may contain spaces. */
  lemma ExtensionRoundTrip(t: Table, pairs: seq<Pair>)
    requires t.Valid() && '=' in t.code
    requires pairs != [] && PlainKeys(pairs)
    ensures ReadExtension(t, Joined(t, pairs, ' ')) == pairs
  {
    hide CutAt, Joined, ReadSpaced, AfterKey;
    JoinedByKey(t, pairs);
    SealedPlain(pairs[0].key, '=');
    CutSealed(pairs[0].key, '=', AfterKey(t, pairs));
    SpacedRoundTrip(t, pairs);
  }

  // ---- What a line says --------------------------------------------------------------------------------

  function Severity(decision: string): nat {
    if Contains(decision, "denied") then 8
    else if Contains(decision, "error") then 7
    else if Contains(decision, "allowed") then 3
    else 5
  }

  /** The first of these words found in the decision settles the severity. */
  lemma SeverityIff(decision: string)
    ensures Severity(decision) == 8 <==> Substring("denied", decision)
    ensures Severity(decision) == 7 <==> Substring("error", decision) && !Substring("denied", decision)
    ensures Severity(decision) == 3 <==>
            Substring("allowed", decision) && !Substring("denied", decision) && !Substring("error", decision)
    ensures Severity(decision) in {3, 5, 7, 8}
  {
    hide Contains, Substring;
    ContainsIff(decision, "denied");
    ContainsIff(decision, "error");
    ContainsIff(decision, "allowed");
  }

  function Milliseconds(nanoseconds: int): int {
    nanoseconds / 1_000_000
  }

  /** An attribute that is present or absent. */
  function Optional(key: string, value: Option<string>): seq<Pair> {
    if value == None then [] else [Pair(key, value.value)]
  }

  function DecimalOf(n: Option<int>): Option<string> {
    if n == None then None else Some(Decimal(n.value))
  }

  // ---- Lookup by key -------------------------------------------------------------------------------------

  function Lookup(pairs: seq<Pair>, key: string): Option<string> {
    if pairs == [] then None
    else if pairs[0].key == key then Some(pairs[0].value)
    else Lookup(pairs[1..], key)
  }

  lemma {:induction false} LookupAt(pairs: seq<Pair>, i: nat)
    requires i < |pairs|
    requires forall j :: 0 <= j < i ==> pairs[j].key != pairs[i].key
    ensures Lookup(pairs, pairs[i].key) == Some(pairs[i].value)
  {
    if i > 0 {
      assert pairs[1..][i - 1] == pairs[i];
      LookupAt(pairs[1..], i - 1);
    }
  }

  lemma {:induction false} LookupConcat(a: seq<Pair>, b: seq<Pair>, key: string)
    ensures Lookup(a + b, key) == if Lookup(a, key).Some? then Lookup(a, key) else Lookup(b, key)
  {
    if a == [] {
      assert a + b == b;
    } else {
      assert (a + b)[1..] == a[1..] + b;
      LookupConcat(a[1..], b, key);
    }
  }

  lemma {:induction false} LookupNone(pairs: seq<Pair>, key: string)
    requires forall j :: 0 <= j < |pairs| ==> pairs[j].key != key
    ensures Lookup(pairs, key) == None
  {
    if pairs != [] {
      LookupNone(pairs[1..], key);
    }
  }

  lemma LookupOptional(key: string, value: Option<string>, wanted: string)
    ensures Lookup(Optional(key, value), wanted) == if wanted == key then value else None
  {
    assert [Pair(key, "")][1..] == [];
  }

  lemma OptionalHead(key: string, value: Option<string>, more: seq<Pair>)
    ensures var whole := Optional(key, value) + more;
            && (value == None ==> whole == more)
            && (value != None ==> whole != [] && whole[0] == Pair(key, value.value) && whole[1..] == more)
  {
    if value == None {
      assert [] + more == more;
    } else {
      assert ([Pair(key, value.value)] + more)[1..] == more;
    }
  }

  /** An optional attribute can be told apart from what follows it by its key. */
  lemma OptionalSplits(key: string, a: Option<string>, b: Option<string>, x: seq<Pair>, y: seq<Pair>)
    requires x != [] ==> x[0].key != key
    requires y != [] ==> y[0].key != key
    requires Optional(key, a) + x == Optional(key, b) + y
    ensures a == b && x == y
  {
    hide Optional;
    OptionalHead(key, a, x);
    OptionalHead(key, b, y);
  }

  // ---- Which characters a line contains ------------------------------------------------------------------

  /** No escape puts this character in. */
  predicate Foreigner(t: Table, c: char) {
    c != '\\' && forall x :: x in t.code ==> t.code[x] != c
  }

  lemma {:induction false} EscapeMembers(t: Table, s: string, c: char)
    requires Foreigner(t, c)
    ensures c in Escape(t, s) <==> c in s && c !in t.code
  {
    if s != "" {
      EscapeMembers(t, s[1..], c);
      assert c in EscapeChar(t, s[0]) <==> c == s[0] && c !in t.code;
      assert s == [s[0]] + s[1..];
    }
  }

  lemma {:induction false} HeaderMembers(t: Table, fields: seq<string>, c: char)
    requires Foreigner(t, c) && c !in t.code && c != '|'
    ensures c in Header(t, fields) <==> exists i :: 0 <= i < |fields| && c in fields[i]
  {
    hide Header, Escape;
    if fields == [] {
      HeaderEmpty(t);
    } else {
      HeaderStep(t, fields);
      HeaderMembers(t, fields[1..], c);
      EscapeMembers(t, fields[0], c);
      if i :| 0 <= i < |fields| && c in fields[i] && i > 0 {
        assert c in fields[1..][i - 1];
      }
      if i :| 0 <= i < |fields[1..]| && c in fields[1..][i] {
        assert c in fields[i + 1];
      }
    }
  }

  lemma {:induction false} JoinedMembers(t: Table, pairs: seq<Pair>, separator: char, c: char)
    requires Foreigner(t, c) && c in t.code && c != '=' && c != separator
    requires PlainKeys(pairs) && !PlainKey([c])
    ensures c !in Joined(t, pairs, separator)
    decreases |pairs|
  {
    hide Joined, Escape;
    if pairs == [] {
      JoinedEmpty(t, separator);
    } else {
      JoinedStep(t, pairs, separator);
      EscapeMembers(t, pairs[0].value, c);
      assert c !in pairs[0].key by {
        assert [c][0] == c;
      }
      JoinedMembers(t, pairs[1..], separator, c);
    }
  }

  lemma JoinedEmpty(t: Table, separator: char)
    ensures Joined(t, [], separator) == ""
  {
  }

  // ---- The header fields both formatters share -------------------------------------------------------------

  const VENDOR := "RavenFabric"
  const PRODUCT := "RavenFabric"

  function HeaderTable(): (t: Table)
    ensures t.Valid() && '|' in t.code
  {
    Table(map['\\' := '\\', '|' := '|'], map['\\' := '\\', '|' := '|'])
  }

  function EscapeHeader(s: string): string {
    var a := Replace(s, '\\', "\\\\");
    Replace(a, '|', "\\|")
  }

  lemma EscapeHeaderIsOnePass(s: string)
    ensures EscapeHeader(s) == Escape(HeaderTable(), s)
  {
    hide Replace, ReplaceAll, Escape;
    var t := HeaderTable();
    ReplaceAllNone(s, t);
    ReplaceAllStep(s, [], '\\', t);
    ReplaceAllStep(s, ['\\'], '|', t);
    ChainIsOnePass(s, ['\\', '|'], t);
    assert [] + ['\\'] == ['\\'] && ['\\'] + ['|'] == ['\\', '|'];
    assert "\\\\" == ['\\', '\\'] && "\\|" == ['\\', '|'];
  }

  lemma VendorEscaped()
    ensures Escape(HeaderTable(), VENDOR) == VENDOR && Escape(HeaderTable(), PRODUCT) == PRODUCT
  {
    EscapePlain(HeaderTable(), VENDOR);
  }
}
