/** Base64, section 4 of RFC 4648. */
module Base64 {
  import opened Prelude

  function Upper(): string {
    "ABCDEFGHIJKLMNOPQRSTUVWXYZ"
  }

  function Lower(): string {
    "abcdefghijklmnopqrstuvwxyz"
  }

  function Digits(): string {
    "0123456789"
  }

  /** The encoding table. */
  function Alphabet(): string {
    Upper() + Lower() + Digits() + "+/"
  }

  type sextet = n: nat | n < 64

  /** The character for six bits, by the ranges of the alphabet. */
  function Symbol(n: sextet): (c: char)
    ensures Meaning(c) == Some(n) && c != '='
  {
    if n < 26 then ('A' as int + n) as char
    else if n < 52 then ('a' as int + (n - 26)) as char
    else if n < 62 then ('0' as int + (n - 52)) as char
    else if n == 62 then '+' else '/'
  }

  function Meaning(c: char): (r: Option<sextet>)
    ensures r.Some? ==> c == if r.value < 26 then ('A' as int + r.value) as char
                             else if r.value < 52 then ('a' as int + (r.value - 26)) as char
                             else if r.value < 62 then ('0' as int + (r.value - 52)) as char
                             else if r.value == 62 then '+' else '/'
  {
    if 'A' <= c <= 'Z' then Some(c as int - 'A' as int)
    else if 'a' <= c <= 'z' then Some(c as int - 'a' as int + 26)
    else if '0' <= c <= '9' then Some(c as int - '0' as int + 52)
    else if c == '+' then Some(62)
    else if c == '/' then Some(63)
    else None
  }

  // The four sextets of three bytes: the bits are split 6 and 2, 4 and 4, 2 and 6.

  function First(b0: byte): sextet {
    b0 / 4
  }

  function Second(b0: byte, b1: byte): sextet {
    b0 % 4 * 16 + b1 / 16
  }

  function Third(b1: byte, b2: byte): sextet {
    b1 % 16 * 4 + b2 / 64
  }

  function Fourth(b2: byte): sextet {
    b2 % 64
  }

  /** The four characters of one group of one to three bytes; missing bits are zero. */
  function EncodeGroup(g: seq<byte>): (q: string)
    requires 1 <= |g| <= 3
    ensures |q| == 4
  {
    if |g| == 1 then [Symbol(First(g[0])), Symbol(Second(g[0], 0)), '=', '=']
    else if |g| == 2 then [Symbol(First(g[0])), Symbol(Second(g[0], g[1])), Symbol(Third(g[1], 0)), '=']
    else [Symbol(First(g[0])), Symbol(Second(g[0], g[1])), Symbol(Third(g[1], g[2])), Symbol(Fourth(g[2]))]
  }

  function Encode(data: seq<byte>): string {
    if data == [] then ""
    else if |data| <= 3 then EncodeGroup(data)
    else EncodeGroup(data[..3]) + Encode(data[3..])
  }

  function Byte0(a: sextet, b: sextet): byte {
    a * 4 + b / 16
  }

  function Byte1(b: sextet, c: sextet): byte {
    b % 16 * 16 + c / 4
  }

  function Byte2(c: sextet, d: sextet): byte {
    c % 4 * 64 + d
  }

  /** A strict reader of one group: padding only at the end, and unused bits must be zero. */
  function DecodeGroup(q: string): (g: Option<seq<byte>>)
    requires |q| == 4
    ensures g.Some? ==> 1 <= |g.value| <= 3
  {
    var a, b, c, d := Meaning(q[0]), Meaning(q[1]), Meaning(q[2]), Meaning(q[3]);
    if a == None || b == None then None
    else if q[2] == '=' && q[3] == '=' then
      if b.value % 16 == 0 then Some([Byte0(a.value, b.value)]) else None
    else if c == None then None
    else if q[3] == '=' then
      if c.value % 4 == 0 then Some([Byte0(a.value, b.value), Byte1(b.value, c.value)]) else None
    else if d == None then None
    else Some([Byte0(a.value, b.value), Byte1(b.value, c.value), Byte2(c.value, d.value)])
  }

  function Decode(s: string): Option<seq<byte>> {
    if s == "" then Some([])
    else if |s| < 4 then None
    else
      var g := DecodeGroup(s[..4]);
      if g == None || |s| == 4 then g
      else if |g.value| < 3 then None
      else
        var rest := Decode(s[4..]);
        if rest == None || rest.value == [] then None else Some(g.value + rest.value)
  }

  /** Bytes cut into sextets and put together again. */
  lemma BytesOfSextets(b0: byte, b1: byte, b2: byte)
    ensures Byte0(First(b0), Second(b0, b1)) == b0
    ensures Byte1(Second(b0, b1), Third(b1, b2)) == b1
    ensures Byte2(Third(b1, b2), Fourth(b2)) == b2
    ensures Second(b0, 0) % 16 == 0 && Third(b1, 0) % 4 == 0
  {
  }

  /** Sextets put together as bytes and cut again. */
  lemma SextetsOfBytes(a: sextet, b: sextet, c: sextet, d: sextet)
    ensures First(Byte0(a, b)) == a
    ensures Second(Byte0(a, b), Byte1(b, c)) == b && (b % 16 == 0 ==> Second(Byte0(a, b), 0) == b)
    ensures Third(Byte1(b, c), Byte2(c, d)) == c && (c % 4 == 0 ==> Third(Byte1(b, c), 0) == c)
    ensures Fourth(Byte2(c, d)) == d
  {
  }

  lemma DecodeEncodeGroup(g: seq<byte>)
    requires 1 <= |g| <= 3
    ensures DecodeGroup(EncodeGroup(g)) == Some(g)
  {
    hide Symbol, Meaning, First, Second, Third, Fourth, Byte0, Byte1, Byte2;
    var b0: byte, b1: byte, b2: byte := g[0], if |g| > 1 then g[1] else 0, if |g| > 2 then g[2] else 0;
    BytesOfSextets(b0, b1, b2);
    assert g == if |g| == 1 then [b0] else if |g| == 2 then [b0, b1] else [b0, b1, b2];
  }

  lemma EncodeDecodeGroup(q: string)
    requires |q| == 4 && DecodeGroup(q).Some?
    ensures EncodeGroup(DecodeGroup(q).value) == q
  {
    hide Meaning, Symbol, First, Second, Third, Fourth, Byte0, Byte1, Byte2;
    SymbolOfMeaning(q[0]);
    SymbolOfMeaning(q[1]);
    SymbolOfMeaning(q[2]);
    SymbolOfMeaning(q[3]);
    assert q == [q[0], q[1], q[2], q[3]];
    SextetsOfBytes(Meaning(q[0]).value, Meaning(q[1]).value, Meaning(q[2]).GetOr(0), Meaning(q[3]).GetOr(0));
  }

  lemma SymbolOfMeaning(c: char)
    ensures Meaning(c).Some? ==> Symbol(Meaning(c).value) == c
  {
  }

  lemma {:induction false} DecodeEncode(data: seq<byte>)
    ensures Decode(Encode(data)) == Some(data)
  {
    hide EncodeGroup, DecodeGroup;
    if 0 < |data| <= 3 {
      DecodeEncodeGroup(data);
      assert EncodeGroup(data)[..4] == EncodeGroup(data);
    } else if |data| > 3 {
      var first, rest := EncodeGroup(data[..3]), Encode(data[3..]);
      DecodeEncodeGroup(data[..3]);
      DecodeEncode(data[3..]);
      EncodeLength(data[3..]);
      assert (first + rest)[..4] == first && (first + rest)[4..] == rest;
      assert data == data[..3] + data[3..];
    }
  }

  lemma {:induction false} EncodeDecode(s: string)
    requires Decode(s).Some?
    ensures Encode(Decode(s).value) == s
  {
    hide EncodeGroup, DecodeGroup;
    if s != "" {
      EncodeDecodeGroup(s[..4]);
      if |s| == 4 {
        assert s[..4] == s;
      } else {
        EncodeDecode(s[4..]);
        var g, rest := DecodeGroup(s[..4]).value, Decode(s[4..]).value;
        assert (g + rest)[..3] == g && (g + rest)[3..] == rest;
        assert s == s[..4] + s[4..];
      }
    }
  }

  /** A text is accepted by the strict reader, as these bytes, exactly when it is their encoding. */
  lemma DecodeIff(s: string, data: seq<byte>)
    ensures Decode(s) == Some(data) <==> s == Encode(data)
  {
    DecodeEncode(data);
    if Decode(s) == Some(data) {
      EncodeDecode(s);
    }
  }

  lemma {:induction false} EncodeLength(data: seq<byte>)
    ensures |Encode(data)| == (|data| + 2) / 3 * 4
  {
    hide EncodeGroup;
    if |data| > 3 {
      EncodeLength(data[3..]);
    }
  }

  function Padding(data: seq<byte>): nat {
    (3 - |data| % 3) % 3
  }

  lemma GroupPadding(g: seq<byte>, i: nat)
    requires 1 <= |g| <= 3 && i < 4
    ensures EncodeGroup(g)[i] == '=' <==> i >= |g| + 1
    ensures EncodeGroup(g)[i] != '=' ==> Meaning(EncodeGroup(g)[i]).Some?
  {
    hide Symbol, Meaning;
  }

  /** Padding fills the end and nothing else; every other character belongs to the alphabet. */
  lemma {:induction false} PaddingAtEnd(data: seq<byte>, i: nat)
    requires i < |Encode(data)|
    ensures Encode(data)[i] == '=' <==> i >= |Encode(data)| - Padding(data)
    ensures Encode(data)[i] != '=' ==> Meaning(Encode(data)[i]).Some?
  {
    hide Symbol, Meaning, EncodeGroup;
    if 0 < |data| <= 3 {
      GroupPadding(data, i);
    } else if |data| > 3 {
      var first, rest := EncodeGroup(data[..3]), Encode(data[3..]);
      EncodeLength(data[3..]);
      if i >= 4 {
        PaddingAtEnd(data[3..], i - 4);
        assert (first + rest)[i] == rest[i - 4];
      } else {
        GroupPadding(data[..3], i);
      }
    }
  }

  // ---- The encoder --------------------------------------------------------------------------------------

  lemma UpperAt(n: nat)
    ensures |Upper()| == 26 && (n < 26 ==> Upper()[n] == ('A' as int + n) as char)
  {
  }

  lemma LowerAt(n: nat)
    ensures |Lower()| == 26 && (n < 26 ==> Lower()[n] == ('a' as int + n) as char)
  {
  }

  lemma DigitAt(n: nat)
    ensures |Digits()| == 10 && (n < 10 ==> Digits()[n] == ('0' as int + n) as char)
  {
  }

  /** The table and the ranges agree. */
  lemma AlphabetIsSymbols(n: sextet)
    ensures |Alphabet()| == 64 && Alphabet()[n] == Symbol(n)
  {
    hide Upper, Lower, Digits;
    UpperAt(n);
    LowerAt(if n < 26 then 0 else n - 26);
    DigitAt(if n < 52 then 0 else n - 52);
  }

  function Word(b0: byte, b1: byte, b2: byte): nat {
    b0 * 65536 + b1 * 256 + b2
  }

  /** Six bits of a word, from the bit of weight `d` on. */
  function Bits(n: nat, d: nat): sextet
    requires d > 0
  {
    n / d % 64
  }

  /** A number given as quotient and remainder. */
  lemma Quotient(n: nat, d: nat, q: nat, r: nat)
    requires d in {64, 4096, 262144} && n == q * d + r && r < d
    ensures n / d == q
  {
  }

  lemma LowSix(q: nat, r: nat)
    requires r < 64
    ensures (q * 64 + r) % 64 == r
  {
  }

  lemma FirstOfWord(b0: byte, b1: byte, b2: byte)
    ensures Bits(Word(b0, b1, b2), 262144) == First(b0)
  {
    var low := b0 % 4 * 65536 + b1 * 256 + b2;
    assert b0 == b0 / 4 * 4 + b0 % 4;
    Quotient(Word(b0, b1, b2), 262144, b0 / 4, low);
  }

  lemma SecondOfWord(b0: byte, b1: byte, b2: byte)
    ensures Bits(Word(b0, b1, b2), 4096) == Second(b0, b1)
  {
    var low := b1 % 16 * 256 + b2;
    assert b1 == b1 / 16 * 16 + b1 % 16;
    Quotient(Word(b0, b1, b2), 4096, b0 * 16 + b1 / 16, low);
    assert b0 == b0 / 4 * 4 + b0 % 4;
    LowSix(b0 / 4, b0 % 4 * 16 + b1 / 16);
  }

  lemma ThirdOfWord(b0: byte, b1: byte, b2: byte)
    ensures Bits(Word(b0, b1, b2), 64) == Third(b1, b2)
  {
    assert b2 == b2 / 64 * 64 + b2 % 64;
    Quotient(Word(b0, b1, b2), 64, b0 * 1024 + b1 * 4 + b2 / 64, b2 % 64);
    assert b1 == b1 / 16 * 16 + b1 % 16;
    LowSix(b0 * 16 + b1 / 16, b1 % 16 * 4 + b2 / 64);
  }

  lemma FourthOfWord(b0: byte, b1: byte, b2: byte)
    ensures Bits(Word(b0, b1, b2), 1) == Fourth(b2)
  {
    assert b2 == b2 / 64 * 64 + b2 % 64;
    LowSix(b0 * 1024 + b1 * 4 + b2 / 64, b2 % 64);
  }

  /** The twenty-four bit number of a group, cut into four sextets. */
  lemma SextetsOfWord(b0: byte, b1: byte, b2: byte)
    ensures var n := Word(b0, b1, b2);
            && Bits(n, 262144) == First(b0)
            && Bits(n, 4096) == Second(b0, b1)
            && Bits(n, 64) == Third(b1, b2)
            && Bits(n, 1) == Fourth(b2)
  {
    hide *;
    FirstOfWord(b0, b1, b2);
    SecondOfWord(b0, b1, b2);
    ThirdOfWord(b0, b1, b2);
    FourthOfWord(b0, b1, b2);
  }

  lemma EncodeStep(data: seq<byte>, i: nat)
    requires i < |data|
    ensures var next := Min(i + 3, |data|);
            Encode(data[i..]) == EncodeGroup(data[i..next]) + Encode(data[next..])
  {
    hide EncodeGroup;
    var next := Min(i + 3, |data|);
    if |data[i..]| <= 3 {
      assert data[i..next] == data[i..] && data[next..] == [];
    } else {
      assert data[i..][..3] == data[i..next] && data[i..][3..] == data[next..];
    }
  }

  /** The loop over three-byte chunks, with absent bytes read as zero. */
  method Base64Encode(data: seq<byte>) returns (out: string)
    ensures out == Encode(data)
    ensures Decode(out) == Some(data)
  {
    hide EncodeGroup, Encode, Decode;
    out := "";
    var i := 0;
    EncodeNothing();
    assert data[0..] == data;
    while i < |data|
      invariant 0 <= i <= |data|
      invariant Encode(data) == out + Encode(data[i..])
    {
      var next := Min(i + 3, |data|);
      var q := EncodeChunk(data[i..next]);
      EncodeStep(data, i);
      assert out + (q + Encode(data[next..])) == out + q + Encode(data[next..]);
      out, i := out + q, next;
    }
    assert data[|data|..] == [] && out + "" == out;
    DecodeEncode(data);
  }

  lemma EncodeNothing()
    ensures Encode([]) == ""
  {
  }

  method EncodeChunk(chunk: seq<byte>) returns (q: string)
    requires 1 <= |chunk| <= 3
    ensures q == EncodeGroup(chunk)
  {
    hide Symbol, Alphabet, Word, Bits, First, Second, Third, Fourth;
    var b0 := chunk[0];
    var b1: byte := if |chunk| > 1 then chunk[1] else 0;
    var b2: byte := if |chunk| > 2 then chunk[2] else 0;
    var n := Word(b0, b1, b2);
    SextetsOfWord(b0, b1, b2);
    var s0, s1, s2, s3 := Bits(n, 262144), Bits(n, 4096), Bits(n, 64), Bits(n, 1);
    AlphabetIsSymbols(s0);
    AlphabetIsSymbols(s1);
    AlphabetIsSymbols(s2);
    AlphabetIsSymbols(s3);
    q := [Alphabet()[s0], Alphabet()[s1]];
    if |chunk| > 1 {
      q := q + [Alphabet()[s2]];
    } else {
      q := q + ['='];
    }
    if |chunk| > 2 {
      q := q + [Alphabet()[s3]];
    } else {
      q := q + ['='];
    }
  }
}
