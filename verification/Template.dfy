/** Resolution of secret references in a template by repeated rescanning. */
module Template {
  import opened Prelude

  function Open(): (s: string)
    ensures |s| == 11 && s[0] == '{'
  {
    "{{ secrets."
  }

  function Close(): (s: string)
    ensures |s| == 3
  {
    " }}"
  }

  datatype Failure = Unclosed | NoSuchSecret(name: string)

  /** The value of a secret: unsealing with its grace-period fallback, as UTF-8 text. */
  type Secrets = string -> Option<string>

  lemma OccursInRest(s: string, part: string, i: nat)
    requires s != []
    ensures OccursAt(s[1..], part, i) <==> OccursAt(s, part, i + 1)
  {
    OccursShifted([s[0]], s[1..], part, i);
    assert [s[0]] + s[1..] == s;
  }

  /** Text put in front shifts every occurrence. */
  lemma OccursShifted(a: string, s: string, part: string, i: nat)
    ensures OccursAt(s, part, i) <==> OccursAt(a + s, part, |a| + i)
  {
    if OccursAt(s, part, i) {
      forall j | 0 <= j < |part| ensures (a + s)[|a| + i + j] == part[j] {
        assert s[i + j] == part[j];
      }
    }
    if OccursAt(a + s, part, |a| + i) {
      forall j | 0 <= j < |part| ensures s[i + j] == part[j] {
        assert (a + s)[|a| + i + j] == part[j];
      }
    }
  }

  /** The first position at which `part` occurs. */
  function Find(s: string, part: string): (r: Option<nat>)
    ensures r.Some? ==> OccursAt(s, part, r.value)
  {
    if |s| < |part| then None
    else if OccursAt(s, part, 0) then Some(0)
    else if s == [] then None
    else
      var r := Find(s[1..], part);
      if r == None then None
      else
        OccursInRest(s, part, r.value);
        Some(r.value + 1)
  }

  lemma {:induction false} FindIsFirst(s: string, part: string, i: nat)
    requires OccursAt(s, part, i)
    ensures Find(s, part).Some? && Find(s, part).value <= i
    decreases |s|
  {
    if !OccursAt(s, part, 0) {
      OccursInRest(s, part, i - 1);
      FindIsFirst(s[1..], part, i - 1);
    }
  }

  // ---- The loop --------------------------------------------------------------------------------

  /** A reference found in a template: the text before it, its name, and the text after it. */
  datatype Scan = NoReference | NoClose | Reference(before: string, name: string, after: string)

  lemma OccursWithin(s: string, part: string, i: nat)
    requires OccursAt(s, part, i)
    ensures i + |part| <= |s|
  {
  }

  /** The template cut around a reference that opens at `start` and closes `k` characters later. */
  function CutAround(t: string, start: nat, k: nat): (r: Scan)
    requires OccursAt(t, Open(), start)
    requires OccursAt(t[start + |Open()|..], Close(), k)
    ensures r.Reference? && t == r.before + Open() + r.name + Close() + r.after
  {
    var afterPrefix := start + |Open()|;
    var end := k + afterPrefix;
    SplitReference(t, start, k);
    Reference(t[..start], t[afterPrefix..end], t[end + |Close()|..])
  }

  function ScanFirst(t: string): (r: Scan)
    ensures r.Reference? ==> t == r.before + Open() + r.name + Close() + r.after
  {
    var start := Find(t, Open());
    if start == None then NoReference
    else
      var found := Find(t[start.value + |Open()|..], Close());
      if found == None then NoClose
      else CutAround(t, start.value, found.value)
  }

  lemma SplitReference(t: string, start: nat, k: nat)
    requires OccursAt(t, Open(), start)
    requires OccursAt(t[start + |Open()|..], Close(), k)
    ensures var afterPrefix := start + |Open()|;
            var end := k + afterPrefix;
            && end + |Close()| <= |t|
            && t == t[..start] + Open() + t[afterPrefix..end] + Close() + t[end + |Close()|..]
  {
    hide Open, Close;
    var afterPrefix := start + |Open()|;
    var end := k + afterPrefix;
    SliceAt(t, Open(), start);
    OccursShifted(t[..afterPrefix], t[afterPrefix..], Close(), k);
    assert t[..afterPrefix] + t[afterPrefix..] == t;
    SliceAt(t, Close(), end);
  }

  lemma SliceAt(s: string, part: string, i: nat)
    requires OccursAt(s, part, i)
    ensures s[i..i + |part|] == part
  {
  }

  datatype Outcome = Done(text: string) | Failed(failure: Failure) | Unfinished(text: string)

  /** The loop with at most `budget` replacements. */
  function Resolve(secrets: Secrets, t: string, budget: nat): Outcome
    decreases budget
  {
    match ScanFirst(t)
    case NoReference => Done(t)
    case NoClose => Failed(Unclosed)
    case Reference(before, name, after) =>
      var value := secrets(name);
      if value == None then Failed(NoSuchSecret(name))
      else if budget == 0 then Unfinished(t)
      else Resolve(secrets, before + value.value + after, budget - 1)
  }

  // ---- Termination -----------------------------------------------------------------------------------

  function Braces(t: string): nat {
    if t == "" then 0 else Braces(Front(t)) + if Last(t) == '{' then 1 else 0
  }

  lemma {:induction false} BracesConcat(a: string, b: string)
    ensures Braces(a + b) == Braces(a) + Braces(b)
    decreases |b|
  {
    if b == "" {
      assert a + b == a;
    } else {
      BracesConcat(a, Front(b));
      assert Front(a + b) == a + Front(b);
    }
  }

  /** No secret contains an opening brace. */
  ghost predicate PlainValues(secrets: Secrets) {
    forall name :: secrets(name).Some? ==> Braces(secrets(name).value) == 0
  }

  lemma OpenHasTwoBraces()
    ensures Braces(Open()) == 2
  {
    var o := Open();
    assert Front(o) == o[..10] && Last(o) == '.';
    BracelessSuffix(o, 2);
    assert o[..2] == "{{" && Front("{{") == "{" && Front("{") == "";
  }

  /** Only the first `n` characters can hold braces. */
  lemma {:induction false} BracelessSuffix(s: string, n: nat)
    requires n <= |s| && forall i :: n <= i < |s| ==> s[i] != '{'
    ensures Braces(s) == Braces(s[..n])
    decreases |s|
  {
    if n == |s| {
      assert s[..n] == s;
    } else {
      BracelessSuffix(Front(s), n);
      assert Front(s)[..n] == s[..n];
    }
  }

  /** Each replacement takes away at least the two braces of the reference and adds those of the value. */
  lemma ReplacementCountsBraces(t: string, value: string)
    requires ScanFirst(t).Reference?
    ensures var r := ScanFirst(t);
            Braces(r.before + value + r.after) + 2 <= Braces(t) + Braces(value)
  {
    hide ScanFirst;
    var r := ScanFirst(t);
    OpenHasTwoBraces();
    hide Braces, Open, Close;
    assert t == r.before + Open() + r.name + Close() + r.after;
    BracesConcat(r.before, Open());
    BracesConcat(r.before + Open(), r.name);
    BracesConcat(r.before + Open() + r.name, Close());
    BracesConcat(r.before + Open() + r.name + Close(), r.after);
    BracesConcat(r.before, value);
    BracesConcat(r.before + value, r.after);
  }

  /** If no secret contains `{`, every template is resolved after at most half as many replacements as it has braces. */
  lemma {:induction false} PlainValuesTerminate(secrets: Secrets, t: string, budget: nat)
    requires PlainValues(secrets)
    requires Braces(t) / 2 <= budget
    ensures !Resolve(secrets, t, budget).Unfinished?
    decreases budget
  {
    hide Braces, ScanFirst, Open, Close;
    var r := ScanFirst(t);
    if r.Reference? && secrets(r.name).Some? {
      ReplacementCountsBraces(t, secrets(r.name).value);
      if budget > 0 {
        PlainValuesTerminate(secrets, r.before + secrets(r.name).value + r.after, budget - 1);
      }
    }
  }

  /** A secret whose value is a reference to itself is never resolved, however long the loop runs. */
  lemma {:induction false} SelfReferenceNeverEnds(secrets: Secrets, name: string, budget: nat)
    requires Find(name + Close(), Close()) == Some(|name|)
    requires secrets(name) == Some(Open() + name + Close())
    ensures Resolve(secrets, Open() + name + Close(), budget) == Unfinished(Open() + name + Close())
    decreases budget
  {
    hide ScanFirst, Find, Open, Close;
    LoneReference(name);
    if budget > 0 {
      assert "" + (Open() + name + Close()) + "" == Open() + name + Close();
      SelfReferenceNeverEnds(secrets, name, budget - 1);
    }
  }

  /** The text of one reference is replaced by the value of its secret. */
  lemma OneReference(secrets: Secrets, name: string, budget: nat)
    requires ' ' !in name && budget > 0
    requires secrets(name).Some? && '{' !in secrets(name).value
    ensures Resolve(secrets, "{{ secrets." + name + " }}", budget) == Done(secrets(name).value)
  {
    var value := secrets(name).value;
    var t := "{{ secrets." + name + " }}";
    assert t == Open() + name + Close();
    hide ScanFirst, Find, Open, Close;
    SpacelessNameFound(name);
    LoneReference(name);
    assert "" + value + "" == value;
    NothingOpens(value);
  }

  lemma NothingOpens(s: string)
    requires '{' !in s
    ensures ScanFirst(s) == NoReference
  {
    OpeningHasBrace(s, Find(s, Open()).GetOr(0));
  }

  lemma OpeningHasBrace(s: string, i: nat)
    ensures OccursAt(s, Open(), i) ==> '{' in s
  {
    if OccursAt(s, Open(), i) {
      assert s[i + 0] == Open()[0];
    }
  }

  /** No secret contains more than `k` opening braces. */
  ghost predicate AtMost(secrets: Secrets, k: nat) {
    forall name :: secrets(name).Some? ==> Braces(secrets(name).value) <= k
  }

  ghost predicate Ends(secrets: Secrets, t: string) {
    exists budget: nat :: !Resolve(secrets, t, budget).Unfinished?
  }

  /** Values with one brace each still make every turn lose a brace. */
  lemma {:induction false} SingleBracesTerminate(secrets: Secrets, t: string, budget: nat)
    requires AtMost(secrets, 1)
    requires Braces(t) <= budget
    ensures !Resolve(secrets, t, budget).Unfinished?
    decreases budget
  {
    hide Braces, ScanFirst, Open, Close;
    var r := ScanFirst(t);
    if r.Reference? && secrets(r.name).Some? {
      var value := secrets(r.name).value;
      ReplacementCountsBraces(t, value);
      if budget > 0 {
        SingleBracesTerminate(secrets, r.before + value + r.after, budget - 1);
      }
    }
  }

  /** The store that holds one secret, a reference to itself. */
  function SelfStore(): Secrets {
    (name: string) => if name == "a" then Some(Open() + "a" + Close()) else None
  }

  lemma SelfStoreHasTwoBraces(k: nat)
    requires k >= 2
    ensures AtMost(SelfStore(), k)
  {
    hide Open, Close;
    OpenHasTwoBraces();
    BracesConcat(Open(), "a");
    BracesConcat(Open() + "a", Close());
    CloseHasNoBrace();
    BracelessSuffix("a", 0);
    assert "a"[..0] == "";
  }

  lemma CloseHasNoBrace()
    ensures Braces(Close()) == 0
  {
    BracelessSuffix(Close(), 0);
    assert Close()[..0] == "";
  }

  lemma CloseBeginsWithSpace()
    ensures Close()[0] == ' '
  {
  }

  lemma SuffixOccurs(a: string, part: string)
    ensures OccursAt(a + part, part, |a|)
  {
  }

  /** A name without spaces is found whole. */
  lemma SpacelessNameFound(name: string)
    requires ' ' !in name
    ensures Find(name + Close(), Close()) == Some(|name|)
  {
    hide Find, Close, OccursAt;
    CloseBeginsWithSpace();
    var s := name + Close();
    SuffixOccurs(name, Close());
    FindIsFirst(s, Close(), |name|);
    OccurrenceBegins(s, Close(), Find(s, Close()).value);
  }

  lemma OccurrenceBegins(s: string, part: string, i: nat)
    requires part != "" && OccursAt(s, part, i)
    ensures i < |s| && s[i] == part[0]
  {
    assert s[i + 0] == part[0];
  }

  /**
    * The loop ends for every store whose values have at most `k` braces, and every template, exactly
    * for `k` up to 1.
    */
  lemma EndsForAllIff(k: nat)
    ensures (forall secrets, t :: AtMost(secrets, k) ==> Ends(secrets, t)) <==> k <= 1
  {
    if k <= 1 {
      forall secrets, t | AtMost(secrets, k) ensures Ends(secrets, t) {
        assert AtMost(secrets, 1);
        SingleBracesTerminate(secrets, t, Braces(t));
      }
    } else {
      var t := Open() + "a" + Close();
      SelfStoreHasTwoBraces(k);
      SpacelessNameFound("a");
      forall budget: nat ensures Resolve(SelfStore(), t, budget).Unfinished? {
        SelfReferenceNeverEnds(SelfStore(), "a", budget);
      }
      assert !Ends(SelfStore(), t);
    }
  }

  lemma LoneReference(name: string)
    requires Find(name + Close(), Close()) == Some(|name|)
    ensures ScanFirst(Open() + name + Close()) == Reference("", name, "")
  {
    hide Find, Open, Close, OccursAt;
    var t, n := Open() + name + Close(), |Open()|;
    PrefixOccurs(Open(), name + Close());
    assert t == Open() + (name + Close());
    FindIsFirst(t, Open(), 0);
    assert t[n..] == name + Close();
    assert t[..0] == "" && t[n..|name| + n] == name && t[|name| + n + |Close()|..] == "";
  }

  lemma PrefixOccurs(part: string, more: string)
    ensures OccursAt(part + more, part, 0)
  {
  }

  // ---- One pass -------------------------------------------------------------------------------------------

  /** Substitution that never looks at what it has put in. */
  function OnePass(secrets: Secrets, t: string): Result<string, Failure>
    decreases |t|
  {
    match ScanFirst(t)
    case NoReference => Ok(t)
    case NoClose => Err(Unclosed)
    case Reference(before, name, after) =>
      var value := secrets(name);
      if value == None then Err(NoSuchSecret(name))
      else
        var rest := OnePass(secrets, after);
        if rest.Err? then rest else Ok(before + value.value + rest.value)
  }

  function References(t: string): nat
    decreases |t|
  {
    var r := ScanFirst(t);
    if r.Reference? then 1 + References(r.after) else 0
  }

  /** From position `i` on, the text could be the beginning of a reference. */
  predicate MayOpen(s: string, i: nat)
    requires i <= |s|
  {
    forall j :: 0 <= j < |Open()| && i + j < |s| ==> s[i + j] == Open()[j]
  }

  /** No reference can begin inside this text, whatever follows it. */
  predicate Inert(s: string) {
    forall i :: 0 <= i < |s| ==> !MayOpen(s, i)
  }

  /** Inertness is exactly that: no continuation makes a reference begin inside. */
  lemma InertIff(s: string)
    ensures Inert(s) <==> forall i, more: string :: 0 <= i < |s| ==> !OccursAt(s + more, Open(), i)
  {
    hide Open;
    if Inert(s) {
      forall i, more: string | 0 <= i < |s| ensures !OccursAt(s + more, Open(), i) {
        InertBlocks(s, more, i);
      }
    } else {
      var i :| 0 <= i < |s| && MayOpen(s, i);
      var n := Min(|s| - i, |Open()|);
      var more := Open()[n..];
      assert forall j :: n <= j < |Open()| ==> more[j - n] == Open()[j];
      assert OccursAt(s + more, Open(), i);
    }
  }

  lemma OccurrenceMayOpen(s: string, more: string, i: nat)
    requires i < |s|
    ensures OccursAt(s + more, Open(), i) ==> MayOpen(s, i)
  {
    hide Open;
  }

  lemma InertBlocks(s: string, more: string, i: nat)
    requires Inert(s) && i < |s|
    ensures !OccursAt(s + more, Open(), i)
  {
    assert !MayOpen(s, i);
    OccurrenceMayOpen(s, more, i);
  }

  lemma MayOpenShorter(a: string, b: string, i: nat)
    requires i < |a|
    ensures MayOpen(a + b, i) ==> MayOpen(a, i)
  {
    hide Open;
    if MayOpen(a + b, i) {
      forall j | 0 <= j < |Open()| && i + j < |a| ensures a[i + j] == Open()[j] {
        assert (a + b)[i + j] == Open()[j];
      }
    }
  }

  lemma MayOpenShifted(a: string, b: string, i: nat)
    requires |a| <= i < |a + b|
    ensures MayOpen(a + b, i) ==> MayOpen(b, i - |a|)
  {
    hide Open;
    if MayOpen(a + b, i) {
      forall j | 0 <= j < |Open()| && i - |a| + j < |b| ensures b[i - |a| + j] == Open()[j] {
        assert (a + b)[i + j] == Open()[j];
      }
    }
  }

  lemma InertConcat(a: string, b: string)
    requires Inert(a) && Inert(b)
    ensures Inert(a + b)
  {
    hide MayOpen, Open;
    forall i | 0 <= i < |a + b| ensures !MayOpen(a + b, i) {
      if i < |a| {
        assert !MayOpen(a, i);
        MayOpenShorter(a, b, i);
      } else {
        assert !MayOpen(b, i - |a|);
        MayOpenShifted(a, b, i);
      }
    }
  }

  /** No reference begins in `done` when `t` follows it. */
  predicate NoneOpens(done: string, t: string) {
    forall i :: 0 <= i < |done| ==> !OccursAt(done + t, Open(), i)
  }

  lemma InertOpensNone(done: string, t: string)
    requires Inert(done)
    ensures NoneOpens(done, t)
  {
    hide Inert, Open;
    forall i | 0 <= i < |done| ensures !OccursAt(done + t, Open(), i) {
      InertBlocks(done, t, i);
    }
  }

  /** Text in which no reference begins does not change what the scan finds behind it. */
  lemma ScanBehind(done: string, t: string)
    requires NoneOpens(done, t)
    ensures ScanFirst(done + t) ==
            match ScanFirst(t)
            case Reference(before, name, after) => Reference(done + before, name, after)
            case other => other
  {
    hide Find, NoneOpens, Open, Close;
    FindBehind(done, t);
    var start := Find(t, Open());
    if start.Some? {
      var afterPrefix := start.value + |Open()|;
      OccursWithin(t, Open(), start.value);
      var found := Find(t[afterPrefix..], Close());
      SliceShifted(done, t, afterPrefix, |t|);
      if found.Some? {
        SliceShifted(done, t, afterPrefix, found.value + afterPrefix);
        SliceShifted(done, t, found.value + afterPrefix + |Close()|, |t|);
        assert (done + t)[..|done| + start.value] == done + t[..start.value];
      }
    }
  }

  lemma SliceShifted(a: string, s: string, lo: nat, hi: nat)
    requires lo <= hi <= |s|
    ensures (a + s)[|a| + lo..|a| + hi] == s[lo..hi]
    ensures hi == |s| ==> (a + s)[|a| + lo..] == s[lo..]
  {
  }

  lemma FindBehind(done: string, t: string)
    requires NoneOpens(done, t)
    ensures Find(done + t, Open()) == if Find(t, Open()) == None then None else Some(|done| + Find(t, Open()).value)
  {
    hide Find, Open, OccursAt;
    var whole, part := Find(done + t, Open()), Find(t, Open());
    if whole.Some? {
      var i := whole.value;
      assert i >= |done|;
      OccursShifted(done, t, Open(), i - |done|);
      FindIsFirst(t, Open(), i - |done|);
    }
    if part.Some? {
      var i := part.value;
      OccursShifted(done, t, Open(), i);
      FindIsFirst(done + t, Open(), |done| + i);
    }
  }

  /** The text before each reference and the value of each referenced secret are inert. */
  predicate Clean(secrets: Secrets, t: string)
    decreases |t|
  {
    match ScanFirst(t)
    case Reference(before, name, after) =>
      && Inert(before)
      && (secrets(name).Some? ==> Inert(secrets(name).value))
      && Clean(secrets, after)
    case _ => true
  }

  function Expected(done: string, r: Result<string, Failure>): Outcome {
    if r.Ok? then Done(done + r.value) else Failed(r.error)
  }

  /**
    * On a clean template the rescanning loop is one-pass substitution, with the same result or the
    * same failure, after as many replacements as there are references.
    */
  lemma {:induction false} RescanIsOnePass(secrets: Secrets, done: string, t: string, budget: nat)
    requires Inert(done) && Clean(secrets, t)
    requires References(t) <= budget
    ensures Resolve(secrets, done + t, budget) == Expected(done, OnePass(secrets, t))
    decreases |t|
  {
    hide ScanFirst, Inert, NoneOpens, Open, Close;
    InertOpensNone(done, t);
    ScanBehind(done, t);
    var r := ScanFirst(t);
    if r.Reference? && secrets(r.name).Some? {
      var value := secrets(r.name).value;
      InertConcat(done, r.before);
      InertConcat(done + r.before, value);
      RescanIsOnePass(secrets, done + r.before + value, r.after, budget - 1);
    }
  }

  /** With fewer replacements than references the loop is not done, unless a reference fails. */
  lemma {:induction false} EachReferenceTakesOne(secrets: Secrets, done: string, t: string, budget: nat)
    requires Inert(done) && Clean(secrets, t)
    requires budget < References(t) && OnePass(secrets, t).Ok?
    ensures Resolve(secrets, done + t, budget).Unfinished?
    decreases |t|
  {
    hide ScanFirst, Inert, NoneOpens, Open, Close;
    InertOpensNone(done, t);
    ScanBehind(done, t);
    var r := ScanFirst(t);
    if budget > 0 {
      var value := secrets(r.name).value;
      InertConcat(done, r.before);
      InertConcat(done + r.before, value);
      EachReferenceTakesOne(secrets, done + r.before + value, r.after, budget - 1);
    }
  }

  lemma TemplateIsOnePass(secrets: Secrets, t: string)
    requires Clean(secrets, t)
    ensures Resolve(secrets, t, References(t)) == Expected("", OnePass(secrets, t))
  {
    assert "" + t == t;
    RescanIsOnePass(secrets, "", t, References(t));
  }

  /** Text without `{` is inert, so braceless literals and values make a template clean. */
  lemma BracelessIsInert(s: string)
    requires '{' !in s
    ensures Inert(s)
  {
    forall i | 0 <= i < |s| ensures !MayOpen(s, i) {
      assert s[i + 0] != Open()[0];
    }
  }

  // ---- Exactly when rescanning is one pass ---------------------------------------------------------------------

  lemma OpenHasNoBorder(d: nat)
    requires 0 < d < |Open()|
    ensures Open()[d] != Open()[0] || (d + 1 < |Open()| && Open()[d + 1] != Open()[1])
  {
  }

  /** Two openings do not overlap. */
  lemma OpeningsApart(s: string, i: nat, k: nat)
    requires OccursAt(s, Open(), i) && OccursAt(s, Open(), k) && i < k
    ensures i + |Open()| <= k
  {
    hide Open;
    if k < i + |Open()| {
      var d := k - i;
      assert s[k + 0] == Open()[0] && s[k + 1] == Open()[1] && s[i + d] == Open()[d];
      assert d + 1 < |Open()| ==> s[i + (d + 1)] == Open()[d + 1];
      OpenHasNoBorder(d);
      assert false;
    }
  }

  /** What the loop returns holds no opening. */
  lemma {:induction false} DoneHoldsNoOpening(secrets: Secrets, t: string, budget: nat)
    ensures Resolve(secrets, t, budget).Done? ==> Find(Resolve(secrets, t, budget).text, Open()) == None
    decreases budget
  {
    hide Find, Open, Close;
    var r := ScanFirst(t);
    if r.Reference? && secrets(r.name).Some? && budget > 0 {
      DoneHoldsNoOpening(secrets, r.before + secrets(r.name).value + r.after, budget - 1);
    }
  }

  lemma OccursInPrefix(s: string, t: string, part: string, i: nat, n: nat)
    requires OccursAt(s, part, i) && i + |part| <= n <= |s| && n <= |t|
    requires s[..n] == t[..n]
    ensures OccursAt(t, part, i)
  {
    forall j | 0 <= j < |part| ensures t[i + j] == part[j] {
      assert s[..n][i + j] == t[..n][i + j];
      assert s[i + j] == part[j];
    }
  }

  lemma ReferenceOpens(t: string)
    ensures var r := ScanFirst(t); r.Reference? ==> OccursAt(t, Open(), |r.before|)
  {
    hide Open, Close;
  }

  /** An opening that begins before `after` survives the substitution in `after`. */
  lemma OpeningSurvives(secrets: Secrets, done: string, after: string, i: nat)
    requires i < |done| && OccursAt(done + after, Open(), i)
    requires OnePass(secrets, after).Ok?
    ensures OccursAt(done + OnePass(secrets, after).value, Open(), i)
  {
    hide ScanFirst, OccursAt, Open, Close;
    var r := ScanFirst(after);
    if r.Reference? {
      var whole, k := done + after, |done| + |r.before|;
      var result := done + OnePass(secrets, after).value;
      ReferenceOpens(after);
      OccursShifted(done, after, Open(), |r.before|);
      OpeningsApart(whole, i, k);
      assert whole[..k] == done + r.before;
      assert result[..k] == done + r.before;
      OccursInPrefix(whole, result, Open(), i, k);
    }
  }

  lemma NoReferenceNoOpening(t: string)
    ensures ScanFirst(t) == NoReference <==> Find(t, Open()) == None
  {
    hide Open, Close;
  }

  lemma {:induction false} SpliceIff(secrets: Secrets, done: string, t: string, budget: nat)
    requires NoneOpens(done, t)
    requires References(t) <= budget && OnePass(secrets, t).Ok?
    ensures var result := done + OnePass(secrets, t).value;
            Resolve(secrets, done + t, budget) == Done(result) <==> Find(result, Open()) == None
    decreases |t|
  {
    hide ScanFirst, Find, NoneOpens, Open, Close;
    ScanBehind(done, t);
    NoReferenceNoOpening(done + t);
    var r := ScanFirst(t);
    if r.Reference? {
      var value := secrets(r.name).value;
      var done', rest := done + r.before + value, OnePass(secrets, r.after).value;
      assert done + (r.before + value + rest) == done' + rest;
      if NoneOpens(done', r.after) {
        SpliceIff(secrets, done', r.after, budget - 1);
      } else {
        OpeningStays(secrets, done', r.after);
        DoneHoldsNoOpening(secrets, done' + r.after, budget - 1);
      }
    }
  }

  lemma OpeningStays(secrets: Secrets, done: string, after: string)
    requires !NoneOpens(done, after) && OnePass(secrets, after).Ok?
    ensures Find(done + OnePass(secrets, after).value, Open()).Some?
  {
    hide OnePass, Find, Open;
    var i :| 0 <= i < |done| && OccursAt(done + after, Open(), i);
    OpeningSurvives(secrets, done, after, i);
    FindIsFirst(done + OnePass(secrets, after).value, Open(), i);
  }

  /**
    * For every template that one-pass substitution resolves, the loop returns the same text exactly
    * when that text holds no opening of a reference.
    */
  lemma RescanIsOnePassIff(secrets: Secrets, t: string, budget: nat)
    requires References(t) <= budget && OnePass(secrets, t).Ok?
    ensures var result := OnePass(secrets, t).value;
            Resolve(secrets, t, budget) == Done(result) <==> Find(result, Open()) == None
  {
    hide OnePass, References, Resolve, Find;
    assert "" + t == t && "" + OnePass(secrets, t).value == OnePass(secrets, t).value;
    SpliceIff(secrets, "", t, budget);
  }

  // ---- Templates that one pass cannot resolve -------------------------------------------------------------------

  /** How far one pass gets: the text it has put together, and the rest from the failing reference on. */
  datatype Split = Split(done: string, rest: string)

  function Progress(secrets: Secrets, t: string): Split
    decreases |t|
  {
    var r := ScanFirst(t);
    if r.Reference? && secrets(r.name).Some?
    then
      var p := Progress(secrets, r.after);
      Split(r.before + secrets(r.name).value + p.done, p.rest)
    else Split("", t)
  }

  /** An opening that begins before `after` is still there when one pass is stuck. */
  lemma OpeningSurvivesProgress(secrets: Secrets, done: string, after: string, i: nat)
    requires i < |done| && OccursAt(done + after, Open(), i)
    ensures var p := Progress(secrets, after); OccursAt(done + p.done + p.rest, Open(), i)
  {
    hide ScanFirst, OccursAt, Open, Close;
    var r, p := ScanFirst(after), Progress(secrets, after);
    if r.Reference? && secrets(r.name).Some? {
      var whole, k := done + after, |done| + |r.before|;
      var result := done + p.done + p.rest;
      ReferenceOpens(after);
      OccursShifted(done, after, Open(), |r.before|);
      OpeningsApart(whole, i, k);
      assert whole[..k] == done + r.before;
      assert result[..k] == done + r.before;
      OccursInPrefix(whole, result, Open(), i, k);
    } else {
      assert done + "" + after == done + after;
    }
  }

  lemma NoneOpensYet(secrets: Secrets, done: string, after: string)
    requires var p := Progress(secrets, after); NoneOpens(done + p.done, p.rest)
    ensures NoneOpens(done, after)
  {
    hide Progress, OccursAt, Open;
    var p := Progress(secrets, after);
    forall i | 0 <= i < |done| ensures !OccursAt(done + after, Open(), i) {
      assert !OccursAt(done + p.done + p.rest, Open(), i);
      if OccursAt(done + after, Open(), i) {
        OpeningSurvivesProgress(secrets, done, after, i);
        assert false;
      }
    }
  }

  lemma {:induction false} FailsBehind(secrets: Secrets, done: string, t: string, budget: nat)
    requires References(t) <= budget && OnePass(secrets, t).Err?
    requires var p := Progress(secrets, t); NoneOpens(done + p.done, p.rest)
    ensures Resolve(secrets, done + t, budget) == Failed(OnePass(secrets, t).error)
    decreases |t|
  {
    hide ScanFirst, NoneOpens, Open, Close;
    NoneOpensYet(secrets, done, t);
    ScanBehind(done, t);
    var r := ScanFirst(t);
    if r.Reference? && secrets(r.name).Some? {
      var value, p := secrets(r.name).value, Progress(secrets, r.after);
      assert done + (r.before + value + p.done) == done + r.before + value + p.done;
      FailsBehind(secrets, done + r.before + value, r.after, budget - 1);
    }
  }

  /** If no opening begins in the text put together before one pass fails, the loop fails in the same way. */
  lemma SameFailure(secrets: Secrets, t: string, budget: nat)
    requires References(t) <= budget && OnePass(secrets, t).Err?
    requires var p := Progress(secrets, t); NoneOpens(p.done, p.rest)
    ensures Resolve(secrets, t, budget) == Failed(OnePass(secrets, t).error)
  {
    hide Progress, NoneOpens, OnePass, References, Resolve;
    assert "" + t == t && "" + Progress(secrets, t).done == Progress(secrets, t).done;
    FailsBehind(secrets, "", t, budget);
  }

  predicate Nameable(name: string) {
    Find(name + Close(), Close()) == Some(|name|)
  }

  function Ref(name: string): string {
    Open() + name + Close()
  }

  lemma FindExtends(s: string, more: string, part: string)
    requires Find(s, part).Some?
    ensures Find(s + more, part) == Find(s, part)
  {
    hide Find, OccursAt;
    var i := Find(s, part).value;
    OccursWithin(s, part, i);
    OccursInPrefix(s, s + more, part, i, |s|);
    FindIsFirst(s + more, part, i);
    var j := Find(s + more, part).value;
    OccursInPrefix(s + more, s, part, j, |s|);
    FindIsFirst(s, part, j);
  }

  /** Text behind a whole reference does not change it. */
  lemma ScanExtends(v: string, after: string)
    requires ScanFirst(v).Reference?
    ensures var r := ScanFirst(v); ScanFirst(v + after) == Reference(r.before, r.name, r.after + after)
  {
    hide Find, OccursAt, Open, Close;
    var start := Find(v, Open()).value;
    var n := start + |Open()|;
    OccursWithin(v, Open(), start);
    FindExtends(v, after, Open());
    var k := Find(v[n..], Close()).value;
    OccursWithin(v[n..], Close(), k);
    FindExtends(v[n..], after, Close());
    assert (v + after)[n..] == v[n..] + after;
    assert (v + after)[..start] == v[..start] && (v + after)[n..k + n] == v[n..k + n];
    assert (v + after)[k + n + |Close()|..] == v[k + n + |Close()|..] + after;
  }

  lemma RefThen(name: string, after: string)
    requires Nameable(name)
    ensures ScanFirst(Ref(name) + after) == Reference("", name, after)
  {
    hide ScanFirst;
    LoneReference(name);
    ScanExtends(Ref(name), after);
    assert "" + after == after;
  }

  /** Otherwise it may fail in another way: a value that is itself a reference fails first. */
  lemma OtherFailure(secrets: Secrets, a: string, b: string, c: string, budget: nat)
    requires Nameable(a) && Nameable(b) && Nameable(c)
    requires secrets(a) == Some(Ref(b)) && secrets(b) == None && secrets(c) == None && budget > 0
    ensures OnePass(secrets, Ref(a) + Ref(c)) == Err(NoSuchSecret(c))
    ensures Resolve(secrets, Ref(a) + Ref(c), budget) == Failed(NoSuchSecret(b))
  {
    hide ScanFirst, Ref, Nameable;
    RefThen(a, Ref(c));
    RefThen(b, Ref(c));
    RefThen(c, "");
    assert Ref(c) + "" == Ref(c) && "" + Ref(b) + Ref(c) == Ref(b) + Ref(c);
  }

  // ---- References inside values ------------------------------------------------------------------------------------

  type Rank = string -> nat

  /** Every reference in the text has a rank below `r`. */
  predicate Below(t: string, rank: Rank, r: nat)
    decreases |t|
  {
    var s := ScanFirst(t);
    s.Reference? ==> rank(s.name) < r && Below(s.after, rank, r)
  }

  lemma {:induction false} BelowGrows(t: string, rank: Rank, r: nat, r': nat)
    requires Below(t, rank, r) && r <= r'
    ensures Below(t, rank, r')
    decreases |t|
  {
    hide ScanFirst;
    if ScanFirst(t).Reference? {
      BelowGrows(ScanFirst(t).after, rank, r, r');
    }
  }

  /** Every template has such a bound. */
  lemma {:induction false} BoundOf(t: string, rank: Rank) returns (r: nat)
    ensures Below(t, rank, r)
    decreases |t|
  {
    hide ScanFirst;
    var s := ScanFirst(t);
    r := 0;
    if s.Reference? {
      var rest := BoundOf(s.after, rank);
      r := Max(rest, rank(s.name) + 1);
      BelowGrows(s.after, rank, rest, r);
    }
  }

  /** All references are closed and all text between them is inert. */
  predicate Tidy(t: string)
    decreases |t|
  {
    match ScanFirst(t)
    case NoReference => Inert(t)
    case NoClose => false
    case Reference(before, _, after) => Inert(before) && Tidy(after)
  }

  /** Values refer only to names of lower rank, so no chain of references comes back to its start. */
  ghost predicate Ranked(secrets: Secrets, rank: Rank) {
    forall name :: secrets(name).Some? ==> Tidy(secrets(name).value) && Below(secrets(name).value, rank, rank(name))
  }

  /** Substitution in the template, in the values it puts in, and so on. */
  ghost function Expand(secrets: Secrets, rank: Rank, t: string, r: nat): Result<string, Failure>
    requires Ranked(secrets, rank) && Below(t, rank, r)
    decreases r, |t|
  {
    match ScanFirst(t)
    case NoReference => Ok(t)
    case NoClose => Err(Unclosed)
    case Reference(before, name, after) =>
      if secrets(name) == None then Err(NoSuchSecret(name))
      else
        var inner := Expand(secrets, rank, secrets(name).value, rank(name));
        var rest := Expand(secrets, rank, after, r);
        if inner.Err? then inner
        else if rest.Err? then rest
        else Ok(before + inner.value + rest.value)
  }

  /** One turn for each reference that comes up. */
  ghost function Turns(secrets: Secrets, rank: Rank, t: string, r: nat): nat
    requires Ranked(secrets, rank) && Below(t, rank, r)
    decreases r, |t|
  {
    match ScanFirst(t)
    case Reference(_, name, after) =>
      if secrets(name) == None then 0
      else 1 + Turns(secrets, rank, secrets(name).value, rank(name)) + Turns(secrets, rank, after, r)
    case _ => 0
  }

  lemma ExpandStep(secrets: Secrets, rank: Rank, t: string, r: nat)
    requires Ranked(secrets, rank) && Below(t, rank, r)
    requires ScanFirst(t).Reference? && secrets(ScanFirst(t).name).Some?
    ensures var s := ScanFirst(t);
            var value, q := secrets(s.name).value, rank(s.name);
            && q < r && Below(s.after, rank, r) && Below(value, rank, q) && Tidy(value)
            && Turns(secrets, rank, t, r) == 1 + Turns(secrets, rank, value, q) + Turns(secrets, rank, s.after, r)
            && var inner, rest := Expand(secrets, rank, value, q), Expand(secrets, rank, s.after, r);
               Expand(secrets, rank, t, r) ==
               if inner.Err? then inner else if rest.Err? then rest else Ok(s.before + inner.value + rest.value)
  {
    hide ScanFirst;
  }

  lemma ExpandEnd(secrets: Secrets, rank: Rank, t: string, r: nat)
    requires Ranked(secrets, rank) && Below(t, rank, r)
    requires ScanFirst(t).Reference? ==> secrets(ScanFirst(t).name) == None
    ensures Turns(secrets, rank, t, r) == 0
    ensures Expand(secrets, rank, t, r) ==
            match ScanFirst(t)
            case NoReference => Ok(t)
            case NoClose => Err(Unclosed)
            case Reference(_, name, _) => Err(NoSuchSecret(name))
  {
    hide ScanFirst;
  }

  /** The loop at the first reference of a value that stands between settled text and the rest of the template. */
  lemma TurnInPlace(secrets: Secrets, done: string, v: string, after: string, budget: nat)
    requires Inert(done) && ScanFirst(v).Reference?
    requires secrets(ScanFirst(v).name).Some? ==> budget > 0
    ensures var s := ScanFirst(v);
            Resolve(secrets, done + v + after, budget) ==
            if secrets(s.name) == None then Failed(NoSuchSecret(s.name))
            else Resolve(secrets, done + s.before + secrets(s.name).value + (s.after + after), budget - 1)
  {
    hide ScanFirst, Inert, Open, Close;
    InertOpensNone(done, v + after);
    ScanExtends(v, after);
    ScanBehind(done, v + after);
    assert done + (v + after) == done + v + after;
  }

  /** What the loop does to a value in place: it expands it, or fails as the expansion does. */
  lemma {:induction false} ExpandsInPlace(
    secrets: Secrets, rank: Rank, done: string, v: string, r: nat, after: string, budget: nat)
    requires Ranked(secrets, rank) && Below(v, rank, r) && Tidy(v) && Inert(done)
    requires Turns(secrets, rank, v, r) <= budget
    ensures var x := Expand(secrets, rank, v, r);
            && (x.Ok? ==> Inert(x.value))
            && Resolve(secrets, done + v + after, budget) ==
               if x.Err? then Failed(x.error)
               else Resolve(secrets, done + x.value + after, budget - Turns(secrets, rank, v, r))
    decreases r, |v|
  {
    hide ScanFirst, Inert, Open, Close, Resolve, Expand, Turns, Below, Ranked;
    var s := ScanFirst(v);
    if !s.Reference? {
      ExpandEnd(secrets, rank, v, r);
    } else if secrets(s.name) == None {
      ExpandEnd(secrets, rank, v, r);
      TurnInPlace(secrets, done, v, after, budget);
    } else {
      ExpandStep(secrets, rank, v, r);
      TurnInPlace(secrets, done, v, after, budget);
      var value, q := secrets(s.name).value, rank(s.name);
      var done', more := done + s.before, s.after + after;
      var inner, rest := Expand(secrets, rank, value, q), Expand(secrets, rank, s.after, r);
      var used := 1 + Turns(secrets, rank, value, q);
      InertConcat(done, s.before);
      ExpandsInPlace(secrets, rank, done', value, q, more, budget - 1);
      if inner.Ok? {
        InertConcat(done', inner.value);
        assert done' + inner.value + more == done' + inner.value + s.after + after;
        ExpandsInPlace(secrets, rank, done' + inner.value, s.after, r, after, budget - used);
        if rest.Ok? {
          InertConcat(s.before, inner.value);
          InertConcat(s.before + inner.value, rest.value);
          assert done' + inner.value + rest.value + after == done + (s.before + inner.value + rest.value) + after;
        }
      }
    }
  }

  /** All text before a reference is inert; what follows the last one is free. */
  predicate InertBefore(t: string)
    decreases |t|
  {
    var s := ScanFirst(t);
    s.Reference? ==> Inert(s.before) && InertBefore(s.after)
  }

  lemma EndsBehind(secrets: Secrets, done: string, t: string, budget: nat)
    requires Inert(done) && !ScanFirst(t).Reference?
    ensures Resolve(secrets, done + t, budget) == if ScanFirst(t) == NoClose then Failed(Unclosed) else Done(done + t)
  {
    hide ScanFirst, Inert;
    InertOpensNone(done, t);
    ScanBehind(done, t);
  }

  lemma {:induction false} ExpandsBehind(secrets: Secrets, rank: Rank, done: string, t: string, r: nat, budget: nat)
    requires Ranked(secrets, rank) && Below(t, rank, r) && InertBefore(t) && Inert(done)
    requires Turns(secrets, rank, t, r) <= budget
    ensures Resolve(secrets, done + t, budget) == Expected(done, Expand(secrets, rank, t, r))
    decreases |t|
  {
    hide ScanFirst, Inert, Open, Close, Resolve, Expand, Turns, Below, Ranked;
    var s := ScanFirst(t);
    assert done + t + "" == done + t;
    if !s.Reference? {
      ExpandEnd(secrets, rank, t, r);
      EndsBehind(secrets, done, t, budget);
    } else if secrets(s.name) == None {
      ExpandEnd(secrets, rank, t, r);
      TurnInPlace(secrets, done, t, "", budget);
    } else {
      ExpandStep(secrets, rank, t, r);
      TurnInPlace(secrets, done, t, "", budget);
      assert s.after + "" == s.after;
      var value, q := secrets(s.name).value, rank(s.name);
      var done' := done + s.before;
      InertConcat(done, s.before);
      ExpandsInPlace(secrets, rank, done', value, q, s.after, budget - 1);
      var inner, rest := Expand(secrets, rank, value, q), Expand(secrets, rank, s.after, r);
      if inner.Ok? {
        InertConcat(done', inner.value);
        ExpandsBehind(secrets, rank, done' + inner.value, s.after, r, budget - 1 - Turns(secrets, rank, value, q));
        if rest.Ok? {
          assert done' + inner.value + rest.value == done + (s.before + inner.value + rest.value);
        }
      }
    }
  }

  /**
    * Secrets that refer to one another without a cycle end: the loop returns the recursive
    * expansion, or its failure, after one turn for each reference that comes up.
    */
  lemma RankedSecretsEnd(secrets: Secrets, rank: Rank, t: string, r: nat, budget: nat)
    requires Ranked(secrets, rank) && Below(t, rank, r) && InertBefore(t)
    requires Turns(secrets, rank, t, r) <= budget
    ensures Resolve(secrets, t, budget) == Expected("", Expand(secrets, rank, t, r))
  {
    hide Resolve, Expand, Turns, Ranked, Below, InertBefore;
    assert "" + t == t;
    ExpandsBehind(secrets, rank, "", t, r, budget);
  }

  // ---- The code ----------------------------------------------------------------------------------------------

  method FindReference(t: string) returns (scan: Scan)
    ensures scan == ScanFirst(t)
  {
    hide Find, OccursAt, Open, Close;
    var start := Find(t, Open());
    if start == None {
      return NoReference;
    }
    var afterPrefix := start.value + |Open()|;
    OccursWithin(t, Open(), start.value);
    var found := Find(t[afterPrefix..], Close());
    if found == None {
      return NoClose;
    }
    var end := found.value + afterPrefix;
    SplitReference(t, start.value, found.value);
    return Reference(t[..start.value], t[afterPrefix..end], t[end + |Close()|..]);
  }

  method ResolveTemplate(secrets: Secrets, template: string, budget: nat) returns (outcome: Outcome)
    ensures outcome == Resolve(secrets, template, budget)
  {
    hide ScanFirst;
    var result := template;
    var left := budget;
    while true
      invariant Resolve(secrets, result, left) == Resolve(secrets, template, budget)
      decreases left
    {
      var scan := FindReference(result);
      if scan == NoReference {
        return Done(result);
      }
      if scan == NoClose {
        return Failed(Unclosed);
      }
      var value := secrets(scan.name);
      if value == None {
        return Failed(NoSuchSecret(scan.name));
      }
      if left == 0 {
        return Unfinished(result);
      }
      result := scan.before + value.value + scan.after;
      left := left - 1;
    }
  }
}
