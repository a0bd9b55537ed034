/** Types and small facts shared by every component of the model. */
module Prelude {

  datatype Option<+T> = None | Some(value: T) {
    function GetOr(default: T): T {
      if Some? then value else default
    }
  }

  datatype Result<+T, +E> = Ok(value: T) | Err(error: E)

  /** An octet, kept as a bounded integer so that arithmetic on it stays linear. */
  type byte = x: int | 0 <= x < 256

  /** Hex text of a 32-byte digest. */
  type Digest = s: string | |s| == 64 witness seq(64, _ => '0')

  /** Two different values with one digest. */
  ghost predicate Collide<T(!new)>(sha: T -> Digest, x: T, y: T) {
    x != y && sha(x) == sha(y)
  }

  function Max(x: int, y: int): int {
    if x < y then y else x
  }

  function Min(x: int, y: int): int {
    if x < y then x else y
  }

  function Last<T>(s: seq<T>): T
    requires s != []
  {
    s[|s| - 1]
  }

  /** All elements but the last one. */
  function Front<T>(s: seq<T>): seq<T>
    requires s != []
  {
    s[..|s| - 1]
  }

  /** The elements of `s` that satisfy `keep`, in order. */
  function Filter<T>(s: seq<T>, keep: T -> bool): (r: seq<T>)
    ensures |r| <= |s|
  {
    if s == [] then []
    else Filter(Front(s), keep) + if keep(Last(s)) then [Last(s)] else []
  }

  lemma FilterSnoc<T>(s: seq<T>, x: T, keep: T -> bool)
    ensures Filter(s + [x], keep) == Filter(s, keep) + if keep(x) then [x] else []
  {
    assert Front(s + [x]) == s;
  }

  lemma FilterSameLength<T>(s: seq<T>, keep: T -> bool)
    ensures |Filter(s, keep)| == |s| ==> Filter(s, keep) == s
  {
    if s != [] {
      FilterSameLength(Front(s), keep);
      assert s == Front(s) + [Last(s)];
    }
  }

  lemma FilterAll<T>(s: seq<T>, keep: T -> bool)
    requires forall x :: x in s ==> keep(x)
    ensures Filter(s, keep) == s
  {
    if s != [] {
      FilterAll(Front(s), keep);
      assert s == Front(s) + [Last(s)];
    }
  }

  lemma FilterCounts<T>(s: seq<T>, keep: T -> bool, x: T)
    ensures multiset(Filter(s, keep))[x] == if keep(x) then multiset(s)[x] else 0
  {
    if s != [] {
      FilterCounts(Front(s), keep, x);
      assert s == Front(s) + [Last(s)];
    }
  }

  lemma FilterSame<T>(s: seq<T>, keep: T -> bool, keep': T -> bool)
    requires forall x :: x in s ==> keep(x) == keep'(x)
    ensures Filter(s, keep) == Filter(s, keep')
  {
    if s != [] {
      FilterSame(Front(s), keep, keep');
    }
  }

  lemma FilterTwice<T>(s: seq<T>, keep: T -> bool, keep': T -> bool, both: T -> bool)
    requires forall x :: x in s ==> (both(x) <==> keep(x) && keep'(x))
    ensures Filter(Filter(s, keep), keep') == Filter(s, both)
  {
    if s != [] {
      FilterTwice(Front(s), keep, keep', both);
      assert !keep(Last(s)) ==> Filter(s, keep) == Filter(Front(s), keep);
      FilterSnoc(Filter(Front(s), keep), Last(s), keep');
    }
  }

  /** The elements of `a` are found in `b` in the same order. */
  ghost predicate Subsequence<T(!new)>(a: seq<T>, b: seq<T>)
    decreases |b|
  {
    || a == []
    || (b != [] && Last(a) == Last(b) && Subsequence(Front(a), Front(b)))
    || (b != [] && Subsequence(a, Front(b)))
  }

  lemma FilterIsSubsequence<T(!new)>(s: seq<T>, keep: T -> bool)
    ensures Subsequence(Filter(s, keep), s)
  {
    if s != [] {
      FilterIsSubsequence(Front(s), keep);
      var front := Filter(Front(s), keep);
      assert if keep(Last(s)) then Front(Filter(s, keep)) == front else Filter(s, keep) == front;
    }
  }

  predicate OccursAt(s: string, part: string, i: nat) {
    i + |part| <= |s| && forall j :: 0 <= j < |part| ==> s[i + j] == part[j]
  }

  predicate Contains(s: string, part: string) {
    exists i :: 0 <= i <= |s| && OccursAt(s, part, i)
  }

  ghost predicate Substring(part: string, s: string) {
    exists before, after :: s == before + part + after
  }

  lemma ContainsIff(s: string, part: string)
    ensures Contains(s, part) <==> Substring(part, s)
  {
    if Contains(s, part) {
      var i :| 0 <= i <= |s| && OccursAt(s, part, i);
      assert s == s[..i] + part + s[i + |part|..];
    }
    if before, after :| s == before + part + after {
      assert OccursAt(s, part, |before|);
    }
  }

  /** Base-ten text of a non-negative number. */
  function DecimalNat(n: nat): (s: string)
    ensures s != []
    ensures forall i :: 0 <= i < |s| ==> '0' <= s[i] <= '9'
  {
    if n < 10 then [('0' as int + n) as char]
    else DecimalNat(n / 10) + [('0' as int + n % 10) as char]
  }

  /** Base-ten text of an integer, with a leading minus sign when negative. */
  function Decimal(n: int): (s: string)
    ensures s != []
    ensures forall i :: 0 <= i < |s| ==> s[i] == '-' || '0' <= s[i] <= '9'
  {
    if n < 0 then "-" + DecimalNat(-n) else DecimalNat(n)
  }

  /** The number a text of digits stands for. */
  function ReadNat(s: string): int {
    if s == "" then 0 else 10 * ReadNat(Front(s)) + (Last(s) as int - '0' as int)
  }

  function ReadInt(s: string): int {
    if s != "" && s[0] == '-' then -ReadNat(s[1..]) else ReadNat(s)
  }

  lemma {:induction false} DecimalNatReadsBack(n: nat)
    ensures ReadNat(DecimalNat(n)) == n
  {
    if n < 10 {
      assert Front(DecimalNat(n)) == "";
    } else {
      DecimalNatReadsBack(n / 10);
      assert Front(DecimalNat(n)) == DecimalNat(n / 10);
    }
  }

  lemma DecimalReadsBack(n: int)
    ensures ReadInt(Decimal(n)) == n
  {
    hide DecimalNat;
    if n < 0 {
      DecimalNatReadsBack(-n);
      assert Decimal(n)[1..] == DecimalNat(-n);
    } else {
      DecimalNatReadsBack(n);
    }
  }

  lemma DecimalInjective(m: int, n: int)
    requires Decimal(m) == Decimal(n)
    ensures m == n
  {
    hide Decimal;
    DecimalReadsBack(m);
    DecimalReadsBack(n);
  }

  /** Fields, each closed by a pipe. */
  function Piped(fields: seq<string>): string {
    if fields == [] then "" else fields[0] + "|" + Piped(fields[1..])
  }
}
