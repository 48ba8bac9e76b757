/** Occurrences of one string in another, trimming and letter case, as the runtime's string methods have them. */
module Strings {

  /** w stands at position k of t. */
  predicate At(t: string, k: nat, w: string)
  {
    k + |w| <= |t| && t[k..k + |w|] == w
  }

  predicate Occurs(w: string, t: string)
  {
    exists k: nat :: k <= |t| && At(t, k, w)
  }

  predicate StartsWith(s: string, prefix: string)
  {
    prefix <= s
  }

  predicate IsSpace(c: char)
  {
    var n := c as int;
    9 <= n <= 13 || n == 0x20 || n == 0xA0 || n == 0x1680 || 0x2000 <= n <= 0x200A ||
    n == 0x2028 || n == 0x2029 || n == 0x202F || n == 0x205F || n == 0x3000 || n == 0xFEFF
  }

  function TrimStart(s: string): string
  {
    if s != "" && IsSpace(s[0]) then TrimStart(s[1..]) else s
  }

  function TrimEnd(s: string): string
  {
    if s != "" && IsSpace(s[|s| - 1]) then TrimEnd(s[..|s| - 1]) else s
  }

  function Trim(s: string): string
  {
    TrimEnd(TrimStart(s))
  }

  lemma {:induction false} TrimStartShortens(s: string)
    ensures |TrimStart(s)| <= |s|
  {
    if s != "" && IsSpace(s[0]) { TrimStartShortens(s[1..]); }
  }

  lemma {:induction false} TrimEndShortens(s: string)
    ensures |TrimEnd(s)| <= |s|
  {
    if s != "" && IsSpace(s[|s| - 1]) { TrimEndShortens(s[..|s| - 1]); }
  }

  lemma TrimShortens(s: string)
    ensures |Trim(s)| <= |s|
  {
    TrimStartShortens(s);
    TrimEndShortens(TrimStart(s));
  }

  ghost predicate OnlySpaces(s: string)
  {
    forall k :: 0 <= k < |s| ==> IsSpace(s[k])
  }

  /** u is the text s without the spaces at both ends. */
  ghost predicate IsTrimmed(s: string, u: string)
  {
    && (exists a, b :: OnlySpaces(a) && OnlySpaces(b) && s == a + u + b)
    && (u != "" ==> !IsSpace(u[0]) && !IsSpace(u[|u| - 1]))
  }

  lemma {:induction false} TrimStartExactly(s: string) returns (a: string)
    ensures OnlySpaces(a) && s == a + TrimStart(s) && (TrimStart(s) != "" ==> !IsSpace(TrimStart(s)[0]))
  {
    a := "";
    if s != "" && IsSpace(s[0]) {
      a := TrimStartExactly(s[1..]);
      a := [s[0]] + a;
    }
  }

  lemma {:induction false} TrimEndExactly(s: string) returns (b: string)
    ensures var u := TrimEnd(s);
            OnlySpaces(b) && s == u + b && (u != "" ==> !IsSpace(u[|u| - 1]) && u[0] == s[0])
  {
    b := "";
    if s != "" && IsSpace(s[|s| - 1]) {
      b := TrimEndExactly(s[..|s| - 1]);
      b := b + [s[|s| - 1]];
    }
  }

  lemma TrimExactly(s: string)
    ensures IsTrimmed(s, Trim(s))
  {
    var a := TrimStartExactly(s);
    var b := TrimEndExactly(TrimStart(s));
    assert s == a + Trim(s) + b;
  }

  function Join(parts: seq<string>, glue: string): string
    requires parts != []
  {
    if |parts| == 1 then parts[0] else parts[0] + glue + Join(parts[1..], glue)
  }

  lemma {:induction false} JoinCons(c: char, parts: seq<string>, glue: string)
    requires parts != []
    ensures Join([[c] + parts[0]] + parts[1..], glue) == [c] + Join(parts, glue)
  {
    var longer := [[c] + parts[0]] + parts[1..];
    if |parts| > 1 {
      assert longer[1..] == parts[1..];
      assert [c] + parts[0] + glue + Join(parts[1..], glue) == [c] + (parts[0] + glue + Join(parts[1..], glue));
    }
  }

  predicate IsDigit(c: char)
  {
    '0' <= c <= '9'
  }

  function LowerChar(c: char): char
  {
    if 'A' <= c <= 'Z' then (c as int + 32) as char else c
  }

  /** ASCII letters in lower case. */
  function Lower(s: string): string
  {
    seq(|s|, i requires 0 <= i < |s| => LowerChar(s[i]))
  }
}
