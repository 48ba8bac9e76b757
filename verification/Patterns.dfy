/** Word boundaries, runs of characters, and patterns as functions that give the length of a match. */
module Patterns {
  import opened Strings

  /** A pattern: the length of its match at a position of a text, or 0. */
  type Pattern = (string, nat) -> nat

  predicate IsHexLetter(c: char)
  {
    'a' <= c <= 'f' || 'A' <= c <= 'F'
  }

  predicate IsHex(c: char)
  {
    IsDigit(c) || IsHexLetter(c)
  }

  predicate IsWord(c: char)
  {
    IsDigit(c) || 'a' <= c <= 'z' || 'A' <= c <= 'Z' || c == '_'
  }

  lemma ClassesExactly(c: char)
    ensures IsHexLetter(c) <==> c in "abcdefABCDEF"
    ensures IsHex(c) <==> c in "0123456789" || c in "abcdefABCDEF"
    ensures IsWord(c) <==>
              c in "0123456789_" || c in "ABCDEFGHIJKLMNOPQRSTUVWXYZ" || c in "abcdefghijklmnopqrstuvwxyz"
  {
  }

  predicate WordAt(s: string, i: int)
  {
    0 <= i < |s| && IsWord(s[i])
  }

  /** A word boundary: exactly one side of position i is a word character. */
  predicate Boundary(s: string, i: nat)
  {
    WordAt(s, i - 1) != WordAt(s, i)
  }

  /** The length of the run of hex digits at position i. */
  function HexRun(s: string, i: nat): nat
    decreases |s| - i
  {
    if i < |s| && IsHex(s[i]) then 1 + HexRun(s, i + 1) else 0
  }

  lemma {:induction false} HexRunIsHex(s: string, i: nat, k: nat)
    requires i <= k < i + HexRun(s, i)
    ensures k < |s| && IsHex(s[k])
    decreases |s| - i
  {
    if i < k { HexRunIsHex(s, i + 1, k); }
  }
}
