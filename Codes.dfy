/** The random six-character identifiers: `generate_class_code`,
    `generate_quiz_id` and `generate_result_id` are the same function. The
    random device is replaced by the six draws of the uniform distribution
    over [0, 35], passed in. */
module Codes {
  const Alphabet: string := "0123456789ABCDEFGHIJKLMNOPQRSTUVWXYZ"
  const CodeLength: nat := 6

  /** Six draws of `uniform_int_distribution<>(0, chars.size() - 1)`. */
  predicate IsDraws(draws: seq<int>) {
    |draws| == CodeLength && forall i :: 0 <= i < |draws| ==> 0 <= draws[i] < |Alphabet|
  }

  /** A string of six characters of [0-9A-Z]. */
  predicate IsCode(s: string) {
    |s| == CodeLength && forall i :: 0 <= i < |s| ==> s[i] in Alphabet
  }

  /** The stringstream loop: character i is the alphabet entry draw i picks. */
  method Generate(draws: seq<int>) returns (code: string)
    requires IsDraws(draws)
    ensures IsCode(code)
    ensures forall i :: 0 <= i < CodeLength ==> code[i] == Alphabet[draws[i]]
  {
    code := "";
    for i := 0 to CodeLength
      invariant |code| == i
      invariant forall j :: 0 <= j < i ==> code[j] == Alphabet[draws[j]]
    {
      code := code + [Alphabet[draws[i]]];
    }
  }

  /** Where c first sits in s. */
  function IndexOf(s: string, c: char): (i: nat)
    requires c in s
    ensures i < |s| && s[i] == c
  {
    if s[0] == c then 0 else 1 + IndexOf(s[1..], c)
  }

  /** No code is out of reach: every six-character string over [0-9A-Z] is
      what some six draws generate. */
  lemma EveryCodeReachable(s: string)
    requires IsCode(s)
    ensures exists draws :: IsDraws(draws) && forall i :: 0 <= i < CodeLength ==> s[i] == Alphabet[draws[i]]
  {
    var draws := seq(CodeLength, i requires 0 <= i < CodeLength => IndexOf(Alphabet, s[i]) as int);
    assert IsDraws(draws);
    assert forall i :: 0 <= i < CodeLength ==> s[i] == Alphabet[draws[i]];
  }
}
