/**
 * The short-code generator: six entropy bytes are mapped, one by one, onto
 * a fixed 62-symbol alphabet. The entropy source itself (a cryptographic
 * reader with a clock-based fallback) is not modelled; its six bytes are
 * the input.
 */
module ShortCode {

  newtype byte = b: int | 0 <= b < 256

  const CodeLength: nat := 6

  /** The three character ranges of the alphabet. */
  const Lower: string := "abcdefghijklmnopqrstuvwxyz"
  const Upper: string := "ABCDEFGHIJKLMNOPQRSTUVWXYZ"
  const Digits: string := "0123456789"

  /**
   * The generator's 62-symbol alphabet, "abc…xyzABC…XYZ0…9": lower case,
   * upper case, then digits.
   */
  const Charset: string := Lower + Upper + Digits

  /** The byte buffer the generator fills: always exactly CodeLength bytes. */
  type Entropy = b: seq<byte> | |b| == CodeLength witness [0, 0, 0, 0, 0, 0]

  /** A character of the redirect route's class `[a-zA-Z0-9]`. */
  predicate IsRouteChar(c: char) {
    ('a' <= c <= 'z') || ('A' <= c <= 'Z') || ('0' <= c <= '9')
  }

  /** A path segment the redirect route `{code:[a-zA-Z0-9]{6}}` accepts. */
  predicate MatchesRoute(s: string) {
    |s| == CodeLength && forall i :: 0 <= i < |s| ==> IsRouteChar(s[i])
  }

  /**
   * The alphabet symbol a byte selects: the byte modulo 62, as a byte. It is a
   * route character, found again at that position.
   */
  function Symbol(b: byte): (c: char)
    ensures IsRouteChar(c) && IndexOf(c) == (b % 62) as int
  {
    SymbolIsRouteChar((b % 62) as int);
    Charset[(b % 62) as int]
  }

  /**
   * Specification of the generator: symbol i is selected by byte i. Every
   * such code is accepted by the redirect route, so every issued code is
   * reachable.
   */
  function ShortCodeOf(b: Entropy): (code: string)
    ensures MatchesRoute(code)
  {
    seq(CodeLength, i requires 0 <= i < CodeLength => Symbol(b[i]))
  }

  /** Position i of the alphabet, stated by character range. */
  lemma {:induction false} CharsetAt(i: nat)
    requires i < 62
    ensures |Charset| == 62
    ensures i < 26 ==> Charset[i] == ('a' as int + i) as char
    ensures 26 <= i < 52 ==> Charset[i] == ('A' as int + (i - 26)) as char
    ensures 52 <= i ==> Charset[i] == ('0' as int + (i - 52)) as char
  {
  }

  /** The position of a route character in the alphabet. */
  function IndexOf(c: char): (i: nat)
    requires IsRouteChar(c)
    ensures i < 62 && Charset[i] == c
  {
    var i := if 'a' <= c <= 'z' then c as int - 'a' as int
             else if 'A' <= c <= 'Z' then 26 + (c as int - 'A' as int)
             else 52 + (c as int - '0' as int);
    CharsetAt(i);
    i
  }

  /** Every alphabet symbol is a route character, found again by IndexOf. */
  lemma {:induction false} SymbolIsRouteChar(i: nat)
    requires i < 62
    ensures IsRouteChar(Charset[i]) && IndexOf(Charset[i]) == i
  {
    CharsetAt(i);
  }

  /** Two alphabet positions hold the same symbol only if they are the same. */
  lemma {:induction false} CharsetDistinct(i: nat, j: nat)
    requires i < 62 && j < 62 && Charset[i] == Charset[j]
    ensures i == j
  {
    SymbolIsRouteChar(i);
    SymbolIsRouteChar(j);
  }

  /** Byte value m selects symbol i exactly when m leaves remainder i. */
  lemma SelectsExactly(m: nat, i: nat)
    requires m < 256 && i < 62
    ensures Symbol(m as byte) == Charset[i] <==> m % 62 == i
  {
    assert ((m as byte) % 62) as int == m % 62;
    if Symbol(m as byte) == Charset[i] {
      CharsetDistinct(m % 62, i);
    }
  }

  /** How many byte values below n select the symbol at alphabet position i. */
  function SelectingBytes(i: nat, n: nat): nat
    requires i < 62 && n <= 256
  {
    if n == 0 then 0
    else SelectingBytes(i, n - 1) + (if Symbol((n - 1) as byte) == Charset[i] then 1 else 0)
  }

  /** Division by 62 of a successor, in terms of the predecessor's. */
  lemma NextRound(m: nat)
    ensures m % 62 == 61 ==> (m + 1) / 62 == m / 62 + 1 && (m + 1) % 62 == 0
    ensures m % 62 < 61 ==> (m + 1) / 62 == m / 62 && (m + 1) % 62 == m % 62 + 1
  {
  }

  /**
   * Among the byte values below n, symbol i is selected by one for every full
   * round of 62 values, plus one more if the last partial round reaches it.
   */
  lemma {:induction false} SymbolWeight(i: nat, n: nat)
    requires i < 62 && n <= 256
    ensures SelectingBytes(i, n) == n / 62 + (if i < n % 62 then 1 else 0)
  {
    if n > 0 {
      var m := n - 1;
      SymbolWeight(i, m);
      NextRound(m);
      SelectsExactly(m, i);
    }
  }

  /**
   * Reducing a uniformly random byte modulo 62 is not uniform: each of the
   * first eight symbols, `a` to `h`, is selected by 5 of the 256 byte values,
   * every other symbol by 4.
   */
  lemma {:induction false} ModuloBias(i: nat)
    requires i < 62
    ensures SelectingBytes(i, 256) == if i < 8 then 5 else 4
  {
    SymbolWeight(i, 256);
  }

  /**
   * Fills a code of CodeLength symbols from the entropy buffer, one symbol per
   * byte. The code is the one ShortCodeOf specifies and it is accepted by the
   * redirect route, so every issued code can be redirected.
   */
  method GenerateShortCode(b: Entropy) returns (code: string)
    ensures |code| == CodeLength
    ensures forall i :: 0 <= i < CodeLength ==> code[i] == Charset[(b[i] % 62) as int]
    ensures code == ShortCodeOf(b)
    ensures MatchesRoute(code)
  {
    code := "";
    for i := 0 to CodeLength
      invariant |code| == i
      invariant forall k :: 0 <= k < i ==> code[k] == Symbol(b[k])
      invariant forall k :: 0 <= k < i ==> IsRouteChar(code[k])
    {
      SymbolIsRouteChar((b[i] % 62) as int);
      code := code + [Charset[(b[i] % 62) as int]];
    }
  }

  /** The alphabet positions a route-shaped code spells. */
  function Decode(code: string): (d: seq<nat>)
    requires MatchesRoute(code)
    ensures |d| == CodeLength
    ensures forall i :: 0 <= i < CodeLength ==> d[i] < 62 && Charset[d[i]] == code[i]
  {
    seq(CodeLength, i requires 0 <= i < CodeLength => IndexOf(code[i]))
  }

  /**
   * A code keeps exactly each byte's residue modulo 62: decoding a generated
   * code gives back `b[i] % 62` for every byte.
   */
  lemma {:induction false} DecodeShortCode(b: Entropy)
    ensures MatchesRoute(ShortCodeOf(b))
    ensures Decode(ShortCodeOf(b)) == seq(CodeLength, i requires 0 <= i < CodeLength => (b[i] % 62) as nat)
  {
    forall i | 0 <= i < CodeLength
      ensures Decode(ShortCodeOf(b))[i] == (b[i] % 62) as nat
    {
      SymbolIsRouteChar((b[i] % 62) as int);
    }
  }

  /**
   * Exactly the buffers whose bytes leave, modulo 62, the code's alphabet
   * positions generate that code.
   */
  lemma {:induction false} GeneratesCodeIff(code: string, b: Entropy)
    requires MatchesRoute(code)
    ensures ShortCodeOf(b) == code <==>
              forall i :: 0 <= i < CodeLength ==> (b[i] % 62) as int == Decode(code)[i]
  {
    var d := Decode(code);
    if forall i :: 0 <= i < CodeLength ==> (b[i] % 62) as int == d[i] {
      forall i | 0 <= i < CodeLength
        ensures ShortCodeOf(b)[i] == code[i]
      {
        assert Symbol(b[i]) == Charset[d[i]];
      }
    }
    if ShortCodeOf(b) == code {
      forall i | 0 <= i < CodeLength
        ensures (b[i] % 62) as int == d[i]
      {
        assert IndexOf(Symbol(b[i])) == IndexOf(code[i]);
      }
    }
  }

  /**
   * A buffer that generates the given route-shaped code: every one of the
   * 62^6 codes can be issued.
   */
  function EntropyFor(code: string): (b: Entropy)
    requires MatchesRoute(code)
    ensures ShortCodeOf(b) == code
  {
    var d := Decode(code);
    var b: Entropy := seq(CodeLength, i requires 0 <= i < CodeLength => d[i] as byte);
    GeneratesCodeIff(code, b);
    b
  }
}
