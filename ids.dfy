/**
 * IDGenerator: an 8-character identifier drawn from [0-9a-z]. The random
 * source is replaced by its draws, each one a value of `nextInt(36)`.
 */
module Ids {

  const Alphanumeric := "0123456789abcdefghijklmnopqrstuvwxyz"
  const IdLength := 8

  /** One draw of `random.nextInt(ALPHANUMERIC.length())`. */
  type Draw = d: int | 0 <= d < 36

  /** A digit or a lower-case ASCII letter. */
  predicate IsIdChar(c: char)
  {
    '0' <= c <= '9' || 'a' <= c <= 'z'
  }

  /** Position of an identifier character in the alphabet. */
  function IndexOf(c: char): (d: Draw)
    requires IsIdChar(c)
    ensures Alphanumeric[d] == c
  {
    if c <= '9' then c as int - '0' as int else c as int - 'a' as int + 10
  }

  /** The alphabet is exactly the digits and the lower-case ASCII letters, each once. */
  lemma AlphabetIsDigitsAndLetters(d: Draw)
    ensures IsIdChar(Alphanumeric[d])
    ensures IndexOf(Alphanumeric[d]) == d
  {
    assert Alphanumeric[d] == if d < 10 then (d + '0' as int) as char else (d - 10 + 'a' as int) as char;
  }

  /** Reads the draws back out of an identifier. */
  function Decode(id: string): (draws: seq<Draw>)
    requires forall i :: 0 <= i < |id| ==> IsIdChar(id[i])
    ensures |draws| == |id|
    ensures forall i :: 0 <= i < |id| ==> Alphanumeric[draws[i]] == id[i]
  {
    seq(|id|, i requires 0 <= i < |id| => IndexOf(id[i]))
  }

  /** `generate()`: appends ALPHANUMERIC.charAt(draw) for each of the 8 draws, in order. */
  method Generate(draws: seq<Draw>) returns (id: string)
    requires |draws| == IdLength
    ensures |id| == IdLength
    ensures forall i :: 0 <= i < |id| ==> IsIdChar(id[i])
    ensures forall i :: 0 <= i < IdLength ==> id[i] == Alphanumeric[draws[i]]
    ensures Decode(id) == draws
  {
    var sb := "";
    for i := 0 to IdLength
      invariant |sb| == i
      invariant forall k :: 0 <= k < i ==> sb[k] == Alphanumeric[draws[k]]
      invariant forall k :: 0 <= k < i ==> IsIdChar(sb[k])
    {
      AlphabetIsDigitsAndLetters(draws[i]);
      sb := sb + [Alphanumeric[draws[i]]];
    }
    id := sb;
    forall i | 0 <= i < IdLength
      ensures Decode(id)[i] == draws[i]
    {
      AlphabetIsDigitsAndLetters(draws[i]);
    }
  }
}
