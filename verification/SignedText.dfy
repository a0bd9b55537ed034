/** The text an entry's HMAC is taken over, and how far it determines the entry. */
module SignedText {
  import opened Prelude
  import opened AuditTypes
  import opened AuditChain

  /** Equal in every signed field, where an absent hash or command is the same as an empty one. */
  ghost predicate SameSigned(e: Entry, e': Entry) {
    && e.prevHash.GetOr("") == e'.prevHash.GetOr("")
    && e.timestamp == e'.timestamp
    && e.requestId == e'.requestId
    && e.action == e'.action
    && e.command.GetOr("") == e'.command.GetOr("")
    && e.decision == e'.decision
    && e.matchedRule == e'.matchedRule
    && e.exitCode == e'.exitCode
    && e.durationMs == e'.durationMs
    && e.callerKey == e'.callerKey
    && e.reason == e'.reason
  }

  /** No text field other than the link and the reason holds a pipe. */
  ghost predicate Unpiped(e: Entry) {
    && '|' !in e.requestId
    && '|' !in e.action
    && '|' !in e.command.GetOr("")
    && '|' !in e.decision
    && '|' !in e.matchedRule
    && '|' !in e.callerKey
  }

  // ---- Cutting text at its pipes ----------------------------------------------------------------

  /** The pieces of a text between its pipes. */
  function Pieces(s: string): (pieces: seq<string>)
    ensures pieces != []
  {
    if s == "" then [""]
    else
      var rest := Pieces(s[1..]);
      if s[0] == '|' then [""] + rest else [[s[0]] + rest[0]] + rest[1..]
  }

  /** The pieces of all fields, one field after the other. */
  function AllPieces(fields: seq<string>): (pieces: seq<string>)
    ensures |pieces| >= |fields|
  {
    if fields == [] then [] else Pieces(fields[0]) + AllPieces(fields[1..])
  }

  lemma {:induction false} PiecesInjective(s: string, t: string)
    requires Pieces(s) == Pieces(t)
    ensures s == t
  {
    if s != "" && t != "" {
      var ps, pt := Pieces(s[1..]), Pieces(t[1..]);
      assert Pieces(s)[0] == Pieces(t)[0] && Pieces(s)[1..] == Pieces(t)[1..];
      assert s[0] == t[0] by {
        assert if s[0] == '|' then Pieces(s)[0] == "" else Pieces(s)[0][0] == s[0];
        assert if t[0] == '|' then Pieces(t)[0] == "" else Pieces(t)[0][0] == t[0];
      }
      assert ps == pt by {
        assert ps == [ps[0]] + ps[1..] && pt == [pt[0]] + pt[1..];
        if s[0] != '|' {
          assert Pieces(s)[0][1..] == ps[0] && Pieces(t)[0][1..] == pt[0];
        }
      }
      PiecesInjective(s[1..], t[1..]);
      assert s == [s[0]] + s[1..] && t == [t[0]] + t[1..];
    }
  }

  lemma {:induction false} PiecesOfClosed(s: string, t: string)
    ensures Pieces(s + "|" + t) == Pieces(s) + Pieces(t)
  {
    var whole := s + "|" + t;
    if s == "" {
      assert whole[1..] == t;
    } else {
      assert whole[1..] == s[1..] + "|" + t;
      PiecesOfClosed(s[1..], t);
    }
  }

  lemma {:induction false} PiecesOfPiped(fields: seq<string>)
    ensures Pieces(Piped(fields)) == AllPieces(fields) + [""]
  {
    if fields != [] {
      PiecesOfClosed(fields[0], Piped(fields[1..]));
      PiecesOfPiped(fields[1..]);
    }
  }

  /** Piped lists of fields are equal exactly when the fields fall into the same pieces. */
  lemma PipedAgreeIff(a: seq<string>, b: seq<string>)
    ensures Piped(a) == Piped(b) <==> AllPieces(a) == AllPieces(b)
  {
    PiecesOfPiped(a);
    PiecesOfPiped(b);
    var pa, pb := AllPieces(a), AllPieces(b);
    if Piped(a) == Piped(b) {
      assert (pa + [""])[..|pa|] == pa && (pb + [""])[..|pb|] == pb;
    } else if pa == pb {
      PiecesInjective(Piped(a), Piped(b));
    }
  }

  lemma {:induction false} OnePieceIff(s: string)
    ensures |Pieces(s)| == 1 <==> '|' !in s
    ensures |Pieces(s)| == 1 ==> Pieces(s) == [s]
  {
    if s != "" {
      OnePieceIff(s[1..]);
      assert s == [s[0]] + s[1..];
      assert '|' in s <==> s[0] == '|' || '|' in s[1..];
    }
  }

  ghost predicate AllUnpiped(fields: seq<string>) {
    forall i :: 0 <= i < |fields| ==> '|' !in fields[i]
  }

  lemma {:induction false} UnpipedPieces(fields: seq<string>)
    ensures |AllPieces(fields)| == |fields| <==> AllUnpiped(fields)
    ensures AllUnpiped(fields) ==> AllPieces(fields) == fields
  {
    if fields != [] {
      OnePieceIff(fields[0]);
      UnpipedPieces(fields[1..]);
      assert AllUnpiped(fields) <==> '|' !in fields[0] && AllUnpiped(fields[1..]);
      assert fields == [fields[0]] + fields[1..];
    }
  }

  /** A list of unpiped fields shares its piped text only with longer lists that end up shorter, hence with none. */
  lemma UnpipedIsAlone(a: seq<string>, b: seq<string>)
    requires AllUnpiped(a) && Piped(a) == Piped(b)
    ensures |b| <= |a|
    ensures |b| == |a| ==> b == a
    ensures AllUnpiped(b) ==> b == a
  {
    PipedAgreeIff(a, b);
    UnpipedPieces(a);
    UnpipedPieces(b);
  }

  // ---- The text of an entry -----------------------------------------------------------------------

  lemma NumbersUnpiped(e: Entry)
    ensures '|' !in Decimal(e.durationMs)
    ensures e.exitCode.Some? ==> '|' !in Decimal(e.exitCode.value) && Decimal(e.exitCode.value) != ""
  {
  }

  /** The signed fields determine every field they are made from. */
  lemma FieldsDetermine(f: Foreign, e: Entry, e': Entry)
    requires f.PipeFree()
    ensures SignedFields(f, e) == SignedFields(f, e') <==> SameSigned(e, e')
  {
    hide Decimal;
    var a, b := SignedFields(f, e), SignedFields(f, e');
    if a == b {
      assert forall i :: 0 <= i < |a| ==> a[i] == b[i];
      assert e.timestamp == e'.timestamp by {
        assert a[1] == b[1];
      }
      assert e.durationMs == e'.durationMs by {
        assert a[8] == b[8];
        DecimalInjective(e.durationMs, e'.durationMs);
      }
      SameExitCode(e, e', a[7]);
      assert a[0] == b[0] && a[2] == b[2] && a[3] == b[3] && a[4] == b[4] && a[5] == b[5] && a[6] == b[6];
      assert a[9] == b[9];
      if e.reason.Some? {
        assert a[10] == b[10];
      }
    }
  }

  lemma SameExitCode(e: Entry, e': Entry, text: string)
    requires text == if e.exitCode == None then "" else Decimal(e.exitCode.value)
    requires text == if e'.exitCode == None then "" else Decimal(e'.exitCode.value)
    ensures e.exitCode == e'.exitCode
  {
    hide Decimal;
    NumbersUnpiped(e);
    NumbersUnpiped(e');
    if e.exitCode.Some? && e'.exitCode.Some? {
      DecimalInjective(e.exitCode.value, e'.exitCode.value);
    }
  }

  lemma SignedUnpiped(f: Foreign, e: Entry)
    requires f.PipeFree()
    requires '|' !in e.prevHash.GetOr("") && Unpiped(e) && '|' !in e.reason.GetOr("")
    ensures AllUnpiped(SignedFields(f, e))
  {
    hide Decimal;
    NumbersUnpiped(e);
  }

  /** Entries without pipes share their text exactly when they agree field by field. */
  lemma UnpipedTextsAgreeIff(f: Foreign, e: Entry, e': Entry)
    requires f.PipeFree()
    requires '|' !in e.prevHash.GetOr("") && Unpiped(e) && '|' !in e.reason.GetOr("")
    requires '|' !in e'.prevHash.GetOr("") && Unpiped(e') && '|' !in e'.reason.GetOr("")
    ensures CanonicalText(f, e) == CanonicalText(f, e') <==> SameSigned(e, e')
  {
    hide SignedFields, Piped, SameSigned, Unpiped;
    SignedUnpiped(f, e);
    SignedUnpiped(f, e');
    FieldsDetermine(f, e, e');
    if CanonicalText(f, e) == CanonicalText(f, e') {
      UnpipedIsAlone(SignedFields(f, e), SignedFields(f, e'));
    }
  }

  /** An entry without a reason and without pipes shares its text with no entry that differs from it. */
  lemma PlainTextDetermines(f: Foreign, e: Entry, e': Entry)
    requires f.PipeFree()
    requires '|' !in e.prevHash.GetOr("") && Unpiped(e) && e.reason == None
    ensures CanonicalText(f, e) == CanonicalText(f, e') <==> SameSigned(e, e')
  {
    hide SignedFields, Piped, SameSigned, Unpiped;
    SignedUnpiped(f, e);
    FieldsDetermine(f, e, e');
    if CanonicalText(f, e) == CanonicalText(f, e') {
      UnpipedIsAlone(SignedFields(f, e), SignedFields(f, e'));
    }
  }

  // ---- Where the text is ambiguous -------------------------------------------------------------------

  /** The first pipe of a text that holds one. */
  function FirstPipe(s: string): (i: nat)
    requires '|' in s
    ensures i < |s| && s[i] == '|'
  {
    if s[0] == '|' then 0 else 1 + FirstPipe(s[1..])
  }

  function Before(s: string): string
    requires '|' in s
  {
    s[..FirstPipe(s)]
  }

  function After(s: string): string
    requires '|' in s
  {
    s[FirstPipe(s) + 1..]
  }

  lemma AroundPipe(s: string)
    requires '|' in s
    ensures s == Before(s) + "|" + After(s)
    ensures Before(s) != s && After(s) != s
  {
  }

  /** A different entry with the same text, wherever a reason or a pipe allows one. */
  function Twin(e: Entry): Entry
    requires e.reason.Some? || !Unpiped(e)
  {
    if e.reason.Some? then e.(reason := None, callerKey := e.callerKey + "|" + e.reason.value)
    else if '|' in e.callerKey then e.(callerKey := Before(e.callerKey), reason := Some(After(e.callerKey)))
    else if '|' in e.matchedRule
    then e.(decision := e.decision + "|" + Before(e.matchedRule), matchedRule := After(e.matchedRule))
    else if '|' in e.decision
    then e.(decision := Before(e.decision), matchedRule := After(e.decision) + "|" + e.matchedRule)
    else if '|' in e.command.GetOr("")
    then e.(command := Some(Before(e.command.GetOr(""))), decision := After(e.command.GetOr("")) + "|" + e.decision)
    else if '|' in e.action
    then e.(action := Before(e.action), command := Some(After(e.action) + "|" + e.command.GetOr("")))
    else e.(requestId := Before(e.requestId), action := After(e.requestId) + "|" + e.action)
  }

  lemma {:induction false} PipedAppend(a: seq<string>, b: seq<string>)
    ensures Piped(a + b) == Piped(a) + Piped(b)
  {
    if a == [] {
      assert a + b == b;
    } else {
      assert (a + b)[1..] == a[1..] + b;
      PipedAppend(a[1..], b);
    }
  }

  lemma PipedPair(x: string, y: string)
    ensures Piped([x]) == x + "|"
    ensures Piped([x, y]) == x + "|" + y + "|"
  {
    assert [x][1..] == [] && [x, y][1..] == [y] && [y][1..] == [];
  }

  lemma PipedAround(before: seq<string>, x: string, y: string, after: seq<string>)
    ensures Piped(before + [x, y] + after) == Piped(before) + (x + "|" + y + "|") + Piped(after)
  {
    hide Piped;
    PipedAppend(before + [x, y], after);
    PipedAppend(before, [x, y]);
    PipedPair(x, y);
  }

  /** A pipe moved between two neighbours is not seen in the text. */
  lemma MovedPipe(a: seq<string>, i: nat, x: string, y: string)
    requires i + 2 <= |a|
    requires a[i] + "|" + a[i + 1] == x + "|" + y
    ensures Piped(a[i := x][i + 1 := y]) == Piped(a)
  {
    hide Piped;
    PipedAround(a[..i], a[i], a[i + 1], a[i + 2..]);
    PipedAround(a[..i], x, y, a[i + 2..]);
    assert a == a[..i] + [a[i], a[i + 1]] + a[i + 2..];
    assert a[i := x][i + 1 := y] == a[..i] + [x, y] + a[i + 2..];
  }

  /** Nor are two last fields joined to one. */
  lemma JoinedEnd(a: seq<string>, x: string, y: string)
    ensures Piped(a + [x, y]) == Piped(a + [x + "|" + y])
  {
    PipedAppend(a, [x, y]);
    PipedAppend(a, [x + "|" + y]);
    PipedPair(x, y);
    PipedPair(x + "|" + y, "");
  }

  lemma TwinWithReason(f: Foreign, e: Entry)
    requires e.reason.Some? || '|' in e.callerKey
    ensures CanonicalText(f, Twin(e)) == CanonicalText(f, e)
  {
    hide Piped, Decimal;
    var a, b := SignedFields(f, e), SignedFields(f, Twin(e));
    if e.reason.Some? {
      assert a == a[..9] + [e.callerKey, e.reason.value];
      assert b == a[..9] + [e.callerKey + "|" + e.reason.value];
      JoinedEnd(a[..9], e.callerKey, e.reason.value);
    } else {
      AroundPipe(e.callerKey);
      assert a == a[..9] + [Before(e.callerKey) + "|" + After(e.callerKey)];
      assert b == a[..9] + [Before(e.callerKey), After(e.callerKey)];
      JoinedEnd(a[..9], Before(e.callerKey), After(e.callerKey));
    }
  }

  /** An entry whose field `i` is cut at its first pipe and the rest put in front of the next field. */
  lemma MovedRight(f: Foreign, e: Entry, e': Entry, i: nat)
    requires i + 2 <= |SignedFields(f, e)| && '|' in SignedFields(f, e)[i]
    requires var a := SignedFields(f, e);
             SignedFields(f, e') == a[i := Before(a[i])][i + 1 := After(a[i]) + "|" + a[i + 1]]
    ensures CanonicalText(f, e') == CanonicalText(f, e)
  {
    hide Piped, SignedFields, Before, After;
    var a := SignedFields(f, e);
    AroundPipe(a[i]);
    assert a[i] + "|" + a[i + 1] == Before(a[i]) + "|" + (After(a[i]) + "|" + a[i + 1]);
    MovedPipe(a, i, Before(a[i]), After(a[i]) + "|" + a[i + 1]);
  }

  lemma TwinMovesRight(f: Foreign, e: Entry)
    requires e.reason == None && '|' !in e.callerKey && '|' !in e.matchedRule && !Unpiped(e)
    ensures CanonicalText(f, Twin(e)) == CanonicalText(f, e)
  {
    hide CanonicalText, Decimal, Before, After;
    if '|' in e.decision {
      MovedRight(f, e, Twin(e), 5);
    } else if '|' in e.command.GetOr("") {
      MovedRight(f, e, Twin(e), 4);
    } else if '|' in e.action {
      MovedRight(f, e, Twin(e), 3);
    } else {
      MovedRight(f, e, Twin(e), 2);
    }
  }

  lemma TwinMovesLeft(f: Foreign, e: Entry)
    requires e.reason == None && '|' !in e.callerKey && '|' in e.matchedRule
    ensures CanonicalText(f, Twin(e)) == CanonicalText(f, e)
  {
    hide Piped, Decimal, Before, After;
    var a, b := SignedFields(f, e), SignedFields(f, Twin(e));
    assert b == a[5 := a[5] + "|" + Before(a[6])][6 := After(a[6])];
    AroundPipe(a[6]);
    assert a[5] + "|" + a[6] == a[5] + "|" + Before(a[6]) + "|" + After(a[6]);
    MovedPipe(a, 5, a[5] + "|" + Before(a[6]), After(a[6]));
  }

  /** The twin has the same text and is not the same. */
  lemma TwinSharesText(f: Foreign, e: Entry)
    requires e.reason.Some? || !Unpiped(e)
    ensures CanonicalText(f, Twin(e)) == CanonicalText(f, e)
    ensures !SameSigned(e, Twin(e))
  {
    hide CanonicalText, FirstPipe;
    if e.reason.Some? || '|' in e.callerKey {
      TwinWithReason(f, e);
    } else if '|' in e.matchedRule {
      TwinMovesLeft(f, e);
    } else {
      TwinMovesRight(f, e);
    }
  }

  /**
    * The joining of fields is not one to one. An entry is the only one with its text, up to an absent
    * link or command read as empty, exactly when it gives no reason and no pipe is in its fields.
    */
  lemma OnlyEntryWithItsTextIff(f: Foreign, e: Entry)
    requires f.PipeFree()
    requires '|' !in e.prevHash.GetOr("")
    ensures (forall e' :: CanonicalText(f, e') == CanonicalText(f, e) ==> SameSigned(e, e')) <==>
            e.reason == None && Unpiped(e)
  {
    hide *;
    if e.reason == None && Unpiped(e) {
      forall e' | CanonicalText(f, e') == CanonicalText(f, e) ensures SameSigned(e, e') {
        PlainTextDetermines(f, e, e');
      }
    } else {
      TwinSharesText(f, e);
    }
  }

  // ---- What an HMAC and a whole file commit to ----------------------------------------------------------

  /** Two texts under one key with one HMAC. */
  ghost predicate MacCollision(f: Foreign, key: Key, e: Entry, e': Entry) {
    && CanonicalText(f, e) != CanonicalText(f, e')
    && f.mac(key, CanonicalText(f, e)) == f.mac(key, CanonicalText(f, e'))
  }

  /** Neither entry can be taken for the other by a pipe or a reason in the wrong place. */
  ghost predicate Distinguishable(e: Entry, e': Entry) {
    && Unpiped(e)
    && (e.reason == None || ('|' !in e.reason.value && Unpiped(e') && '|' !in e'.reason.GetOr("")))
  }

  /** One HMAC means equal signed fields or a collision of the MAC. */
  lemma HmacCoversEveryField(f: Foreign, key: Key, e: Entry, e': Entry)
    requires f.PipeFree() && Distinguishable(e, e')
    requires '|' !in e.prevHash.GetOr("") && '|' !in e'.prevHash.GetOr("")
    ensures ComputeHmac(f, key, e) == ComputeHmac(f, key, e') <==> SameSigned(e, e') || MacCollision(f, key, e, e')
  {
    hide CanonicalText, SameSigned, Unpiped;
    if e.reason == None {
      PlainTextDetermines(f, e, e');
    } else {
      UnpipedTextsAgreeIff(f, e, e');
    }
  }

  lemma LinkUnpiped(f: Foreign, es: seq<Entry>, i: nat)
    requires f.PipeFree() && i < |es| && Linked(f, es, i)
    ensures '|' !in es[i].prevHash.GetOr("")
  {
  }

  /** Every readable line of an accepted file carries the HMAC of its own fields. */
  lemma {:induction false} AcceptedLineIsSigned(f: Foreign, key: Key, lines: seq<string>, k: nat)
    requires f.Lawful() && f.PipeFree() && Accepts(f, key, lines)
    requires k < |lines| && f.fromJson(lines[k]).Some?
    ensures SignedWith(f, key, f.fromJson(lines[k]).value)
    ensures '|' !in f.fromJson(lines[k]).value.prevHash.GetOr("")
  {
    hide SignedWith;
    var before, last := Entries(f, Front(lines)), Last(lines);
    EntriesSnoc(f, Front(lines), last);
    assert lines == Front(lines) + [last];
    if !Blank(last) {
      var es := before.value + [f.fromJson(last).value];
      assert Linked(f, es, |es| - 1);
      LinkUnpiped(f, es, |es| - 1);
      ChainOkSnoc(f, key, before.value, f.fromJson(last).value);
    }
    if k < |lines| - 1 {
      AcceptedLineIsSigned(f, key, Front(lines), k);
    }
  }

  /** One readable line replaced by another is one entry replaced; a later readable line is a later entry. */
  lemma {:induction false} ReplacedLine(f: Foreign, lines: seq<string>, k: nat, line: string) returns (i: nat)
    requires f.Lawful() && Entries(f, lines).Some?
    requires k < |lines| && f.fromJson(lines[k]).Some? && f.fromJson(line).Some?
    ensures var es := Entries(f, lines).value;
            && i < |es| && es[i] == f.fromJson(lines[k]).value
            && Entries(f, lines[k := line]) == Some(es[i := f.fromJson(line).value])
            && ((exists j :: k < j < |lines| && f.fromJson(lines[j]).Some?) ==> i + 1 < |es|)
  {
    hide Blank;
    var before, last := Front(lines), Last(lines);
    assert lines == before + [last];
    EntriesSnoc(f, before, last);
    if k == |lines| - 1 {
      assert lines[k := line] == before + [line];
      EntriesSnoc(f, before, line);
      var es := Entries(f, before).value;
      i := |es|;
      assert (es + [f.fromJson(last).value])[i := f.fromJson(line).value] == es + [f.fromJson(line).value];
    } else {
      i := ReplacedLine(f, before, k, line);
      var es, e := Entries(f, before).value, f.fromJson(line).value;
      assert !Blank(last) ==> (es + [f.fromJson(last).value])[i := e] == es[i := e] + [f.fromJson(last).value];
      assert lines[k := line] == before[k := line] + [last];
      EntriesSnoc(f, before[k := line], last);
    }
  }

  /** An entry inside a chain cannot be changed at all without a SHA-256 collision. */
  lemma EditedInside(f: Foreign, key: Key, es: seq<Entry>, i: nat, e: Entry)
    requires f.Lawful() && i + 1 < |es|
    requires ChainOk(f, key, es) && ChainOk(f, key, es[i := e])
    ensures es[i] == e || Collide(f.sha, f.toJson(es[i]), f.toJson(e))
  {
    assert Linked(f, es, i + 1) && Linked(f, es[i := e], i + 1);
    SameHashSameEntry(f, es[i], e);
  }

  /**
    * One line of an accepted file replaced. If only the HMAC is changed the file is rejected. If any signed
    * field is changed under the same HMAC it is rejected or the MAC has a collision. If anything at all is
    * changed in a line that is not the last it is rejected or SHA-256 has a collision.
    */
  lemma EditedLineIsRejected(f: Foreign, key: Key, lines: seq<string>, k: nat, line: string)
    requires f.Lawful() && f.PipeFree()
    requires Accepts(f, key, lines)
    requires k < |lines| && f.fromJson(lines[k]).Some? && f.fromJson(line).Some?
    ensures var e, e' := f.fromJson(lines[k]).value, f.fromJson(line).value;
            && (SameSigned(e, e') && e.hmac != e'.hmac ==> !Accepts(f, key, lines[k := line]))
            && (!SameSigned(e, e') && e.hmac == e'.hmac && Distinguishable(e, e') ==>
                  !Accepts(f, key, lines[k := line]) || MacCollision(f, key, e, e'))
            && (e != e' && (exists j :: k < j < |lines| && f.fromJson(lines[j]).Some?) ==>
                  !Accepts(f, key, lines[k := line]) || Collide(f.sha, f.toJson(e), f.toJson(e')))
  {
    hide ChainOk, SameSigned, Distinguishable, MacCollision, CanonicalText, Entries;
    var e, e' := f.fromJson(lines[k]).value, f.fromJson(line).value;
    AcceptedLineIsSigned(f, key, lines, k);
    if Accepts(f, key, lines[k := line]) {
      AcceptedLineIsSigned(f, key, lines[k := line], k);
      if SameSigned(e, e') {
        SameText(f, e, e');
      } else if e.hmac == e'.hmac && Distinguishable(e, e') {
        HmacCoversEveryField(f, key, e, e');
      }
      var i := ReplacedLine(f, lines, k, line);
      if i + 1 < |Entries(f, lines).value| {
        EditedInside(f, key, Entries(f, lines).value, i, e');
      }
    }
  }

  /**
    * The last entry changed under the same HMAC: short of a MAC collision the chain stays accepted exactly
    * if no signed field changed, so exactly for an absent command written as empty, or an absent first link.
    */
  lemma EditedLastIff(f: Foreign, key: Key, before: seq<Entry>, e: Entry, e': Entry)
    requires f.Lawful() && f.PipeFree()
    requires ChainOk(f, key, before + [e]) && e.hmac == e'.hmac
    requires Distinguishable(e, e') && !MacCollision(f, key, e, e')
    ensures ChainOk(f, key, before + [e']) <==> SameSigned(e, e') && (before == [] || e.prevHash == e'.prevHash)
  {
    hide Distinguishable, MacCollision, CanonicalText, ChainOk;
    ChainOkSnoc(f, key, before, e);
    ChainOkSnoc(f, key, before, e');
    if SameSigned(e, e') {
      SameText(f, e, e');
    }
    if ChainOk(f, key, before + [e']) {
      EndIsSigned(f, key, before, e);
      EndIsSigned(f, key, before, e');
      HmacCoversEveryField(f, key, e, e');
    }
  }

  lemma EndIsSigned(f: Foreign, key: Key, before: seq<Entry>, e: Entry)
    requires f.PipeFree() && ChainOk(f, key, before + [e])
    ensures SignedWith(f, key, e) && '|' !in e.prevHash.GetOr("")
  {
    var es := before + [e];
    assert Linked(f, es, |before|);
    LinkUnpiped(f, es, |before|);
  }

  lemma SameText(f: Foreign, e: Entry, e': Entry)
    requires SameSigned(e, e')
    ensures CanonicalText(f, e) == CanonicalText(f, e')
  {
    assert SignedFields(f, e) == SignedFields(f, e');
  }

  /**
    * An accepted chain is determined by its last HMAC: two of them with one last HMAC agree in all
    * earlier entries and in every signed field of the last, or SHA-256 or the MAC has a collision.
    */
  lemma DeterminedByLastHmac(f: Foreign, key: Key, es: seq<Entry>, fs: seq<Entry>)
    requires f.Lawful() && f.PipeFree()
    requires ChainOk(f, key, es) && ChainOk(f, key, fs)
    requires es != [] && fs != [] && Last(es).hmac == Last(fs).hmac
    requires Distinguishable(Last(es), Last(fs))
    ensures || (Front(es) == Front(fs) && SameSigned(Last(es), Last(fs)))
            || HashCollision(f, es, fs)
            || MacCollision(f, key, Last(es), Last(fs))
  {
    hide Distinguishable, MacCollision, HashCollision, CanonicalText;
    var e, e' := Last(es), Last(fs);
    assert es == Front(es) + [e] && fs == Front(fs) + [e'];
    EndIsSigned(f, key, Front(es), e);
    EndIsSigned(f, key, Front(fs), e');
    HmacCoversEveryField(f, key, e, e');
    if SameSigned(e, e') {
      SameLinkSameFront(f, key, Front(es), Front(fs), e, e');
    }
  }

  lemma SameLinkSameFront(f: Foreign, key: Key, before: seq<Entry>, before': seq<Entry>, e: Entry, e': Entry)
    requires f.Lawful()
    requires ChainOk(f, key, before + [e]) && ChainOk(f, key, before' + [e'])
    requires e.prevHash.GetOr("") == e'.prevHash.GetOr("")
    ensures before == before' || HashCollision(f, before + [e], before' + [e'])
  {
    hide HashCollision, CanonicalText;
    ChainOkSnoc(f, key, before, e);
    ChainOkSnoc(f, key, before', e');
    if before != [] && before' != [] {
      DeterminedByEnd(f, key, before, before');
      if before != before' {
        HashCollisionExtends(f, before, e, before', e');
      }
    }
  }
}
