/** Join codes: four symbols drawn from a 36-symbol alphabet. The random
    source is a parameter: `draws` are the successive results of
    `nextInt(36)`. */
module GameCode {

  /** The symbols a join code is made of. */
  const Alphabet: string := "ABCDEFGHIJKLMNOPQRSTUVWXYZ0123456789"

  const CodeLength: nat := 4

  /** A well-formed join code. */
  predicate IsGameCode(s: string) {
    |s| == CodeLength && forall i :: 0 <= i < |s| ==> s[i] in Alphabet
  }

  /** What `nextInt(36)` can return, once per symbol. */
  predicate ValidDraws(draws: seq<int>) {
    |draws| == CodeLength && forall i :: 0 <= i < |draws| ==> 0 <= draws[i] < |Alphabet|
  }

  /** The code a sequence of draws selects: symbol `i` is the alphabet entry
      picked by draw `i`. */
  function CodeFor(draws: seq<int>): (code: string)
    requires ValidDraws(draws)
    ensures IsGameCode(code)
  {
    seq(CodeLength, i requires 0 <= i < CodeLength => Alphabet[draws[i]])
  }

  /** Where a symbol sits in a string. */
  function IndexOf(c: char, s: string): (i: nat)
    requires c in s
    ensures i < |s| && s[i] == c
    ensures forall j :: 0 <= j < i ==> s[j] != c
  {
    if s[0] == c then 0 else 1 + IndexOf(c, s[1..])
  }

  /** The draws that produce a given code: the inverse of `CodeFor`. */
  function DrawsFor(code: string): (draws: seq<int>)
    requires IsGameCode(code)
    ensures ValidDraws(draws)
  {
    seq(CodeLength, i requires 0 <= i < CodeLength => IndexOf(code[i], Alphabet))
  }

  /** Every well-formed code is what some draws produce, so the generator
      can reach the whole code space. */
  lemma {:induction false} EveryCodeCanBeDrawn(code: string)
    requires IsGameCode(code)
    ensures CodeFor(DrawsFor(code)) == code
  {
    var d := DrawsFor(code);
    forall i | 0 <= i < CodeLength
      ensures CodeFor(d)[i] == code[i]
    {
      assert d[i] == IndexOf(code[i], Alphabet);
    }
  }

  /** Symbol `k` of the alphabet: the letters A to Z, then the digits 0 to 9. */
  function SymbolAt(k: nat): char
    requires k < 36
  {
    if k < 26 then ('A' as int + k) as char else ('0' as int + (k - 26)) as char
  }

  /** The alphabet is the 26 capital letters in order, then the 10 digits. */
  lemma AlphabetIsLettersThenDigits()
    ensures |Alphabet| == 36
    ensures forall k :: 0 <= k < 36 ==> Alphabet[k] == SymbolAt(k)
  {
  }

  /** No symbol occurs twice in the alphabet. Going through the closed form
      of `AlphabetIsLettersThenDigits` compares character codes instead of
      all 630 pairs of literal characters, which keeps the proof small. */
  lemma {:induction false} AlphabetDistinct()
    ensures forall j, k :: 0 <= j < k < |Alphabet| ==> Alphabet[j] != Alphabet[k]
  {
    AlphabetIsLettersThenDigits();
  }

  /** Different draws give different codes: together with
      `EveryCodeCanBeDrawn`, draws and codes are in one-to-one
      correspondence (36^4 codes). */
  lemma {:induction false} CodeForIsInjective(d1: seq<int>, d2: seq<int>)
    requires ValidDraws(d1) && ValidDraws(d2)
    requires CodeFor(d1) == CodeFor(d2)
    ensures d1 == d2
  {
    AlphabetDistinct();
    forall i | 0 <= i < CodeLength
      ensures d1[i] == d2[i]
    {
      assert CodeFor(d1)[i] == CodeFor(d2)[i];
    }
  }

  /** `generateGameCode`: four appends of a drawn symbol. It does not look at
      the codes already in use. */
  method GenerateGameCode(draws: seq<int>) returns (code: string)
    requires ValidDraws(draws)
    ensures IsGameCode(code)
    ensures code == CodeFor(draws)
  {
    code := "";
    for i := 0 to CodeLength
      invariant |code| == i
      invariant forall k :: 0 <= k < i ==> code[k] == Alphabet[draws[k]]
    {
      code := code + [Alphabet[draws[i]]];
    }
  }
}
