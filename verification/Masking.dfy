/**
 Masking before the PII scan. UUIDs and hex strings are swapped for numbered placeholders, the PII
 patterns run, and the placeholders are swapped back. When no pattern fires, the text comes back
 unchanged exactly when it held no placeholder of its own.
 */
module Masking {
  import opened Patterns
  import opened Seqs
  import Strings

  const NUL: char := '\0'

  datatype Kind = Uuid | Hex

  /** The letter that marks a placeholder of the kind. */
  function Mark(kind: Kind): char
  {
    match kind case Uuid => 'U' case Hex => 'H'
  }

  // ---------------------------------------------------------------- matching

  /** Hex groups of 8, 4, 4, 4 and 12 digits joined by hyphens, between word boundaries. */
  predicate UuidAt(s: string, i: nat)
  {
    && i + 36 <= |s| && Boundary(s, i) && Boundary(s, i + 36)
    && forall j :: i <= j < i + 36 ==> UuidChar(s[j], j - i)
  }

  predicate UuidChar(c: char, k: int)
  {
    if k == 8 || k == 13 || k == 18 || k == 23 then c == '-' else IsHex(c)
  }

  predicate HexStringAt(s: string, i: nat, n: nat)
  {
    && i + n <= |s| && n >= 7 && Boundary(s, i) && Boundary(s, i + n)
    && exists k :: i <= k < i + n && IsHexLetter(s[k])
  }

  function UuidPattern(): Pattern
  {
    (s: string, i: nat) => if UuidAt(s, i) then 36 else 0
  }

  /** At least seven hex digits, one of them a letter, between word boundaries. */
  function HexPattern(): Pattern
  {
    (s: string, i: nat) => var n := HexRun(s, i); if HexStringAt(s, i, n) then n else 0
  }

  /** Text that a restored placeholder may contribute: no NUL, not a number, not starting with U. */
  ghost predicate Plain(e: string)
  {
    e != "" && e[0] != 'U' && NUL !in e && !AllDigits(e)
  }

  predicate AllDigits(s: string)
  {
    forall k :: 0 <= k < |s| ==> Strings.IsDigit(s[k])
  }

  ghost predicate MatchedWord(s: string, i: nat, m: nat)
  {
    i + m <= |s| && m > 0 && IsHex(s[i]) && !WordAt(s, i - 1) && !WordAt(s, i + m) && Plain(s[i..i + m])
  }

  /** Every match is a plain hex-led word with no word character on either side. */
  ghost predicate WordBounded(f: Pattern)
  {
    forall s, i: nat {:trigger MatchedWord(s, i, f(s, i))} :: f(s, i) > 0 ==> MatchedWord(s, i, f(s, i))
  }

  lemma UuidPatternBounded()
    ensures WordBounded(UuidPattern())
  {
    forall s: string, i: nat | UuidAt(s, i) ensures MatchedWord(s, i, 36) {
      assert UuidChar(s[i], 0) && UuidChar(s[i + 35], 35) && UuidChar(s[i + 8], 8);
      var e := s[i..i + 36];
      assert !Strings.IsDigit(e[8]);
      forall k | 0 <= k < 36 ensures e[k] != NUL { assert e[k] == s[i + k] && UuidChar(s[i + k], k); }
    }
  }

  lemma {:induction false} HexMatchIsPlain(s: string, i: nat, n: nat)
    requires n == HexRun(s, i) && HexStringAt(s, i, n)
    ensures Plain(s[i..i + n]) && IsHex(s[i])
  {
    HexRunIsHex(s, i, i);
    var k :| i <= k < i + n && IsHexLetter(s[k]);
    var e := s[i..i + n];
    assert e[k - i] == s[k] && !Strings.IsDigit(e[k - i]);
    forall j | 0 <= j < n ensures e[j] != NUL {
      HexRunIsHex(s, i, i + j);
      assert e[j] == s[i + j];
    }
  }

  lemma {:induction false} HexMatchIsWord(s: string, i: nat, n: nat)
    requires n == HexRun(s, i) && HexStringAt(s, i, n)
    ensures MatchedWord(s, i, n)
  {
    HexMatchIsPlain(s, i, n);
    HexRunIsHex(s, i, i + n - 1);
    assert WordAt(s, i) && WordAt(s, i + n - 1);
  }

  lemma HexPatternBounded()
    ensures WordBounded(HexPattern())
  {
    forall s: string, i: nat ensures HexPattern()(s, i) > 0 ==> MatchedWord(s, i, HexPattern()(s, i)) {
      if HexStringAt(s, i, HexRun(s, i)) { HexMatchIsWord(s, i, HexRun(s, i)); }
    }
  }

  // ---------------------------------------------------------------- decimal numbers

  function Dec(n: nat): string
  {
    if n < 10 then [('0' as int + n) as char] else Dec(n / 10) + [('0' as int + n % 10) as char]
  }

  function ParseInt(s: string): int
  {
    if s == "" then 0 else 10 * ParseInt(s[..|s| - 1]) + (s[|s| - 1] as int - '0' as int)
  }

  lemma {:induction false} DecRoundTrip(n: nat)
    ensures AllDigits(Dec(n)) && Dec(n) != "" && ParseInt(Dec(n)) == n
  {
    if n >= 10 {
      DecRoundTrip(n / 10);
      assert Dec(n)[..|Dec(n)| - 1] == Dec(n / 10);
    } else {
      assert Dec(n)[..0] == "";
    }
  }

  // ---------------------------------------------------------------- masking

  function Placeholder(kind: Kind, n: nat): string
  {
    [NUL, Mark(kind)] + Dec(n) + [NUL]
  }

  /** s from position i on, with each match of f replaced by a placeholder, numbered from n. */
  function Masked(f: Pattern, kind: Kind, s: string, i: nat, n: nat): string
    decreases |s| - i
  {
    if i >= |s| then ""
    else if f(s, i) > 0 then Placeholder(kind, n) + Masked(f, kind, s, i + f(s, i), n + 1)
    else [s[i]] + Masked(f, kind, s, i + 1, n)
  }

  /** The matches of f in s from position i on. */
  function Table(f: Pattern, s: string, i: nat): seq<string>
    decreases |s| - i
  {
    if i >= |s| then []
    else if f(s, i) > 0 then [Slice(s, i, i + f(s, i))] + Table(f, s, i + f(s, i))
    else Table(f, s, i + 1)
  }

  /** The characters of s from lo to hi, as far as s reaches. */
  function Slice(s: string, lo: nat, hi: nat): string
  {
    if lo <= hi <= |s| then s[lo..hi] else ""
  }

  /** The pass at position i: what is written and listed so far, continued from there, is the whole. */
  ghost predicate MaskedUpTo(f: Pattern, kind: Kind, s: string, i: nat, masked: string, table: seq<string>)
  {
    && masked + Masked(f, kind, s, i, |table|) == Masked(f, kind, s, 0, 0)
    && table + Table(f, s, i) == Table(f, s, 0)
  }

  lemma MaskMatch(f: Pattern, kind: Kind, s: string, i: nat, masked: string, table: seq<string>)
    requires i < |s| && f(s, i) > 0 && MaskedUpTo(f, kind, s, i, masked, table)
    ensures var m := f(s, i);
            MaskedUpTo(f, kind, s, i + m, masked + Placeholder(kind, |table|), table + [Slice(s, i, i + m)])
  {
    var m := f(s, i);
    Reassociate(masked, Placeholder(kind, |table|), Masked(f, kind, s, i + m, |table| + 1));
    Reassociate(table, [Slice(s, i, i + m)], Table(f, s, i + m));
  }

  lemma MaskLiteral(f: Pattern, kind: Kind, s: string, i: nat, masked: string, table: seq<string>)
    requires i < |s| && f(s, i) == 0 && MaskedUpTo(f, kind, s, i, masked, table)
    ensures MaskedUpTo(f, kind, s, i + 1, masked + [s[i]], table)
  {
    Reassociate(masked, [s[i]], Masked(f, kind, s, i + 1, |table|));
  }

  /** The replacement pass over the text: matches are pushed to the table as they are met. */
  method Mask(f: Pattern, kind: Kind, s: string) returns (masked: string, table: seq<string>)
    ensures masked == Masked(f, kind, s, 0, 0) && table == Table(f, s, 0)
  {
    masked, table := "", [];
    var i := 0;
    while i < |s|
      invariant MaskedUpTo(f, kind, s, i, masked, table)
    {
      var m := f(s, i);
      if m > 0 {
        MaskMatch(f, kind, s, i, masked, table);
        masked := masked + Placeholder(kind, |table|);
        table := table + [Slice(s, i, i + m)];
        i := i + m;
      } else {
        MaskLiteral(f, kind, s, i, masked, table);
        masked := masked + [s[i]];
        i := i + 1;
      }
    }
    assert masked + "" == masked && table + [] == table;
  }

  // ---------------------------------------------------------------- restoring

  /** The number of digits before a NUL at the front of x, or -1 when x does not start that way. */
  function TailLen(x: string): (t: int)
    ensures -1 <= t < |x|
  {
    if x == "" then -1
    else if x[0] == NUL then 0
    else if Strings.IsDigit(x[0]) then (var t := TailLen(x[1..]); if t < 0 then -1 else t + 1)
    else -1
  }

  /** The length of mark and digits at the front of x when a NUL closes them, or 0. */
  function RunLen(kind: Kind, x: string): (r: nat)
    ensures r < |x| || r == 0
  {
    if x != "" && x[0] == Mark(kind) && TailLen(x[1..]) >= 1 then 1 + TailLen(x[1..]) else 0
  }

  function Lookup(table: seq<string>, k: int): string
  {
    if 0 <= k < |table| then table[k] else "undefined"
  }

  /** The replacement of placeholders by table entries; an unknown index gives "undefined". */
  function Restore(kind: Kind, x: string, table: seq<string>): string
  {
    if x == "" then ""
    else if x[0] == NUL && RunLen(kind, x[1..]) > 0 then
      var r := RunLen(kind, x[1..]);
      Lookup(table, ParseInt(x[2..r + 1])) + Restore(kind, x[r + 2..], table)
    else [x[0]] + Restore(kind, x[1..], table)
  }

  /** A placeholder of the kind stands somewhere in x. */
  predicate HasPlaceholder(kind: Kind, x: string)
  {
    x != "" && ((x[0] == NUL && RunLen(kind, x[1..]) > 0) || HasPlaceholder(kind, x[1..]))
  }

  // Restoration, one piece of text at a time.

  /** y is the digits ds, then a NUL, then rest. */
  ghost predicate NumberThen(y: string, ds: string, rest: string)
  {
    y != "" &&
    if ds == "" then y[0] == NUL && y[1..] == rest
    else y[0] == ds[0] && Strings.IsDigit(ds[0]) && NumberThen(y[1..], ds[1..], rest)
  }

  /** y is a mark, at least one digit, a NUL, then rest: a placeholder without its opening NUL. */
  ghost predicate RunThen(kind: Kind, y: string, ds: string, rest: string)
  {
    y != "" && y[0] == Mark(kind) && ds != "" && NumberThen(y[1..], ds, rest)
  }

  lemma {:induction false} NumberThenShape(y: string, ds: string, rest: string)
    requires NumberThen(y, ds, rest)
    ensures TailLen(y) == |ds| && |y| == |ds| + 1 + |rest|
    ensures y[..|ds|] == ds && y[|ds| + 1..] == rest
  {
    if ds != "" {
      NumberThenShape(y[1..], ds[1..], rest);
      assert y[..|ds|] == [y[0]] + y[1..][..|ds| - 1];
    }
  }

  lemma {:induction false} NumberThenConcat(ds: string, rest: string)
    requires AllDigits(ds)
    ensures NumberThen(ds + [NUL] + rest, ds, rest)
  {
    var y := ds + [NUL] + rest;
    if ds == "" {
      assert y[1..] == rest;
    } else {
      NumberThenConcat(ds[1..], rest);
      assert y[1..] == ds[1..] + [NUL] + rest;
    }
  }

  lemma {:induction false} NumberThenExists(y: string) returns (ds: string, rest: string)
    ensures TailLen(y) >= 0 ==> NumberThen(y, ds, rest)
  {
    ds, rest := "", "";
    if TailLen(y) == 0 {
      rest := y[1..];
    } else if TailLen(y) > 0 {
      ds, rest := NumberThenExists(y[1..]);
      ds := [y[0]] + ds;
      assert [y[0]] + y[1..] == y;
    }
  }

  lemma RunThenLen(kind: Kind, y: string, ds: string, rest: string)
    requires RunThen(kind, y, ds, rest)
    ensures RunLen(kind, y) == 1 + |ds|
  {
    NumberThenShape(y[1..], ds, rest);
  }

  lemma RunThenExists(kind: Kind, y: string) returns (ds: string, rest: string)
    ensures RunLen(kind, y) > 0 ==> RunThen(kind, y, ds, rest)
  {
    ds, rest := "", "";
    if RunLen(kind, y) > 0 {
      ds, rest := NumberThenExists(y[1..]);
      NumberThenShape(y[1..], ds, rest);
    }
  }

  /** Mark and digits closed by NUL: the placeholder is replaced. */
  lemma {:induction false} RestoreRun(kind: Kind, y: string, ds: string, rest: string, table: seq<string>)
    requires RunThen(kind, y, ds, rest)
    ensures Restore(kind, [NUL] + y, table) == Lookup(table, ParseInt(ds)) + Restore(kind, rest, table)
  {
    var x := [NUL] + y;
    RunThenLen(kind, y, ds, rest);
    NumberThenShape(y[1..], ds, rest);
    assert x[1..] == y;
    assert x[2..|ds| + 2] == y[1..][..|ds|];
    assert x[|ds| + 3..] == y[1..][|ds| + 1..];
  }

  /** x is a text with a placeholder of the kind in it: NUL, the mark, at least one digit, NUL. */
  ghost predicate HoldsPlaceholder(kind: Kind, x: string)
  {
    exists a, ds, b :: AllDigits(ds) && ds != "" && x == a + ([NUL, Mark(kind)] + ds + [NUL]) + b
  }

  lemma {:induction false} NumberIsDigits(y: string, ds: string, rest: string)
    requires NumberThen(y, ds, rest)
    ensures AllDigits(ds) && y == ds + [NUL] + rest
  {
    if ds != "" { NumberIsDigits(y[1..], ds[1..], rest); }
  }

  lemma {:induction false} PlaceholderFound(kind: Kind, x: string) returns (a: string, ds: string, b: string)
    requires HasPlaceholder(kind, x)
    ensures AllDigits(ds) && ds != "" && x == a + ([NUL, Mark(kind)] + ds + [NUL]) + b
  {
    if x[0] == NUL && RunLen(kind, x[1..]) > 0 {
      a := "";
      ds, b := RunThenExists(kind, x[1..]);
      NumberIsDigits(x[1..][1..], ds, b);
      assert x == [x[0]] + ([x[1..][0]] + x[1..][1..]);
    } else {
      a, ds, b := PlaceholderFound(kind, x[1..]);
      var h := [NUL, Mark(kind)] + ds + [NUL];
      assert x == [x[0]] + (a + h + b) == ([x[0]] + a) + h + b;
      a := [x[0]] + a;
    }
  }

  lemma {:induction false} FoundPlaceholder(kind: Kind, a: string, ds: string, b: string)
    requires AllDigits(ds) && ds != ""
    ensures HasPlaceholder(kind, a + ([NUL, Mark(kind)] + ds + [NUL]) + b)
  {
    var h := [NUL, Mark(kind)] + ds + [NUL];
    var x := a + h + b;
    if a == "" {
      NumberThenConcat(ds, b);
      assert x[1..] == [Mark(kind)] + (ds + [NUL] + b);
      assert x[1..][1..] == ds + [NUL] + b;
      RunThenLen(kind, x[1..], ds, b);
    } else {
      FoundPlaceholder(kind, a[1..], ds, b);
      assert x[1..] == a[1..] + h + b;
    }
  }

  lemma HasPlaceholderExactly(kind: Kind, x: string)
    ensures HasPlaceholder(kind, x) <==> HoldsPlaceholder(kind, x)
  {
    if HasPlaceholder(kind, x) {
      var a, ds, b := PlaceholderFound(kind, x);
    }
    if HoldsPlaceholder(kind, x) {
      var a, ds, b :| AllDigits(ds) && ds != "" && x == a + ([NUL, Mark(kind)] + ds + [NUL]) + b;
      FoundPlaceholder(kind, a, ds, b);
    }
  }

  /** A placeholder is recognized, and its number read back. */
  lemma {:induction false} RestorePlaceholder(kind: Kind, n: nat, rest: string, table: seq<string>)
    ensures Restore(kind, Placeholder(kind, n) + rest, table) == Lookup(table, n) + Restore(kind, rest, table)
  {
    DecRoundTrip(n);
    NumberThenConcat(Dec(n), rest);
    var y := [Mark(kind)] + (Dec(n) + [NUL] + rest);
    assert y[1..] == Dec(n) + [NUL] + rest;
    RestoreRun(kind, y, Dec(n), rest, table);
    PlaceholderThen(kind, n, rest);
  }

  lemma {:induction false} PlaceholderThen(kind: Kind, n: nat, rest: string)
    ensures Placeholder(kind, n) + rest == [NUL] + ([Mark(kind)] + (Dec(n) + [NUL] + rest))
  {
  }

  lemma {:induction false} RestoreChar(kind: Kind, c: char, x: string, table: seq<string>)
    requires c != NUL || RunLen(kind, x) == 0
    ensures Restore(kind, [c] + x, table) == [c] + Restore(kind, x, table)
  {
    assert ([c] + x)[1..] == x;
  }

  /** Text without NUL passes through a restoration. */
  lemma {:induction false} RestoreClean(kind: Kind, a: string, x: string, table: seq<string>)
    requires NUL !in a
    ensures Restore(kind, a + x, table) == a + Restore(kind, x, table)
  {
    if a == "" {
      assert a + x == x && a + Restore(kind, x, table) == Restore(kind, x, table);
    } else {
      RestoreClean(kind, a[1..], x, table);
      RestoreChar(kind, a[0], a[1..] + x, table);
      HeadOfSum(a, x);
      HeadOfSum(a, Restore(kind, x, table));
    }
  }

  // ---------------------------------------------------------------- the front of a text

  lemma MaskedLiteral(f: Pattern, kind: Kind, s: string, i: nat, n: nat)
    requires i < |s| && f(s, i) == 0
    ensures Masked(f, kind, s, i, n) == [s[i]] + Masked(f, kind, s, i + 1, n)
    ensures Table(f, s, i) == Table(f, s, i + 1)
    ensures s[i..] == [s[i]] + s[i + 1..]
  {
  }

  lemma {:induction false} TailCons(c: char, x: string)
    ensures TailLen([c] + x) ==
            if c == NUL then 0 else if Strings.IsDigit(c) && TailLen(x) >= 0 then TailLen(x) + 1 else -1
  {
    assert ([c] + x)[1..] == x;
  }

  lemma {:induction false} RunCons(k: Kind, c: char, x: string)
    ensures RunLen(k, [c] + x) == if c == Mark(k) && TailLen(x) >= 1 then 1 + TailLen(x) else 0
  {
    assert ([c] + x)[1..] == x;
  }

  /** A match starts at a hex digit that no word character stands before. */
  lemma NoMatchInWord(f: Pattern, s: string, j: nat)
    requires WordBounded(f) && 0 < j < |s| && (IsHex(s[j]) ==> IsWord(s[j - 1]))
    ensures f(s, j) == 0
  {
    assert f(s, j) > 0 ==> MatchedWord(s, j, f(s, j));
  }

  /** After a word character, masking does not change which digits and NUL come next. */
  lemma {:induction false} MaskTail(f: Pattern, kind: Kind, s: string, j: nat, n: nat) returns (ds: string, e: nat)
    requires WordBounded(f) && 0 < j <= |s| && IsWord(s[j - 1])
    ensures TailLen(Masked(f, kind, s, j, n)) == TailLen(s[j..])
    ensures TailLen(s[j..]) >= 0 ==>
              && j < e <= |s| && NumberThen(s[j..], ds, s[e..])
              && NumberThen(Masked(f, kind, s, j, n), ds, Masked(f, kind, s, e, n))
              && Table(f, s, j) == Table(f, s, e)
    decreases |s| - j
  {
    ds, e := "", j;
    if j < |s| {
      NoMatchInWord(f, s, j);
      MaskedLiteral(f, kind, s, j, n);
      TailCons(s[j], Masked(f, kind, s, j + 1, n));
      TailCons(s[j], s[j + 1..]);
      if s[j] == NUL {
        e := j + 1;
      } else if Strings.IsDigit(s[j]) {
        ds, e := MaskTail(f, kind, s, j + 1, n);
        if TailLen(s[j + 1..]) >= 0 {
          ds := [s[j]] + ds;
        }
      }
    }
  }

  /**
   Masking neither makes nor breaks the part of a placeholder behind its opening NUL: it is there in
   the masked text when it is there in the text, digit for digit.
   */
  lemma MaskRun(f: Pattern, kind: Kind, s: string, j: nat, n: nat, k: Kind) returns (ds: string, e: nat)
    requires WordBounded(f) && j <= |s|
    ensures RunLen(k, Masked(f, kind, s, j, n)) == RunLen(k, s[j..])
    ensures RunLen(k, s[j..]) > 0 ==>
              && j < e <= |s| && RunThen(k, s[j..], ds, s[e..])
              && RunThen(k, Masked(f, kind, s, j, n), ds, Masked(f, kind, s, e, n))
              && Table(f, s, j) == Table(f, s, e)
  {
    ds, e := "", j;
    if j < |s| {
      if f(s, j) > 0 {
        assert MatchedWord(s, j, f(s, j));
        assert Masked(f, kind, s, j, n)[0] == NUL;
      } else {
        MaskedLiteral(f, kind, s, j, n);
        RunCons(k, s[j], Masked(f, kind, s, j + 1, n));
        RunCons(k, s[j], s[j + 1..]);
        if s[j] == Mark(k) {
          ds, e := MaskTail(f, kind, s, j + 1, n);
          if TailLen(s[j + 1..]) >= 1 {
            NumberThenShape(s[j + 1..], ds, s[e..]);
            assert s[j..][1..] == s[j + 1..];
            assert Masked(f, kind, s, j, n)[1..] == Masked(f, kind, s, j + 1, n);
          }
        }
      }
    }
  }

  // ---------------------------------------------------------------- masking then restoring one kind

  lemma MatchIsText(f: Pattern, s: string, i: nat)
    requires WordBounded(f) && i < |s| && f(s, i) > 0
    ensures var e := Slice(s, i, i + f(s, i));
            i + f(s, i) <= |s| && Plain(e) && s[i..] == e + s[i + f(s, i)..]
  {
    assert MatchedWord(s, i, f(s, i));
    CutTail(s, i, f(s, i));
  }

  /** What restoring does to the masked text from i on equals what it does to the text. */
  ghost predicate Restores(f: Pattern, kind: Kind, s: string, i: nat, n: nat, table: seq<string>)
    requires i <= |s|
  {
    Restore(kind, Masked(f, kind, s, i, n), table) == Restore(kind, s[i..], table)
  }

  lemma MatchRestores(f: Pattern, kind: Kind, s: string, i: nat, n: nat, table: seq<string>)
    requires WordBounded(f) && i < |s| && f(s, i) > 0 && i + f(s, i) <= |s|
    requires n < |table| && table[n] == Slice(s, i, i + f(s, i))
    requires Restores(f, kind, s, i + f(s, i), n + 1, table)
    ensures Restores(f, kind, s, i, n, table)
  {
    var m := f(s, i);
    MatchIsText(f, s, i);
    RestorePlaceholder(kind, n, Masked(f, kind, s, i + m, n + 1), table);
    RestoreClean(kind, Slice(s, i, i + m), s[i + m..], table);
  }

  lemma RunRestores(
    f: Pattern, kind: Kind, s: string, i: nat, n: nat, table: seq<string>, ds: string, e: nat)
    requires i < e <= |s| && f(s, i) == 0 && s[i] == NUL
    requires RunThen(kind, s[i + 1..], ds, s[e..])
    requires RunThen(kind, Masked(f, kind, s, i + 1, n), ds, Masked(f, kind, s, e, n))
    requires Restores(f, kind, s, e, n, table)
    ensures Restores(f, kind, s, i, n, table)
  {
    MaskedLiteral(f, kind, s, i, n);
    RestoreRun(kind, s[i + 1..], ds, s[e..], table);
    RestoreRun(kind, Masked(f, kind, s, i + 1, n), ds, Masked(f, kind, s, e, n), table);
  }

  lemma CharRestores(f: Pattern, kind: Kind, s: string, i: nat, n: nat, table: seq<string>)
    requires i < |s| && f(s, i) == 0
    requires s[i] == NUL ==> RunLen(kind, s[i + 1..]) == 0 && RunLen(kind, Masked(f, kind, s, i + 1, n)) == 0
    requires Restores(f, kind, s, i + 1, n, table)
    ensures Restores(f, kind, s, i, n, table)
  {
    MaskedLiteral(f, kind, s, i, n);
  }

  /** Masking and restoring one kind does to a text what restoring alone does. */
  lemma {:induction false} RestoreMasked(f: Pattern, kind: Kind, s: string, i: nat, n: nat, table: seq<string>)
    requires WordBounded(f) && i <= |s| && n <= |table| && table[n..] == Table(f, s, i)
    ensures Restores(f, kind, s, i, n, table)
    decreases |s| - i, 1
  {
    if i < |s| {
      if f(s, i) > 0 {
        RestoreMatch(f, kind, s, i, n, table);
      } else {
        MaskedLiteral(f, kind, s, i, n);
        RestoreLiteral(f, kind, s, i, n, table);
      }
    }
  }

  lemma {:induction false} RestoreMatch(f: Pattern, kind: Kind, s: string, i: nat, n: nat, table: seq<string>)
    requires WordBounded(f) && i < |s| && f(s, i) > 0 && n <= |table| && table[n..] == Table(f, s, i)
    ensures Restores(f, kind, s, i, n, table)
    decreases |s| - i, 0
  {
    var m := f(s, i);
    MatchIsText(f, s, i);
    TableHead(table, n, Slice(s, i, i + m), Table(f, s, i + m));
    RestoreMasked(f, kind, s, i + m, n + 1, table);
    MatchRestores(f, kind, s, i, n, table);
  }

  lemma {:induction false} RestoreLiteral(f: Pattern, kind: Kind, s: string, i: nat, n: nat, table: seq<string>)
    requires WordBounded(f) && i < |s| && f(s, i) == 0 && n <= |table| && table[n..] == Table(f, s, i + 1)
    ensures Restores(f, kind, s, i, n, table)
    decreases |s| - i, 0
  {
    var ds, e := MaskRun(f, kind, s, i + 1, n, kind);
    if s[i] == NUL && RunLen(kind, s[i + 1..]) > 0 {
      RestoreMasked(f, kind, s, e, n, table);
      RunRestores(f, kind, s, i, n, table, ds, e);
    } else {
      RestoreMasked(f, kind, s, i + 1, n, table);
      CharRestores(f, kind, s, i, n, table);
    }
  }

  lemma TableHead(table: seq<string>, n: nat, e: string, rest: seq<string>)
    requires n <= |table| && table[n..] == [e] + rest
    ensures n < |table| && table[n] == e && table[n + 1..] == rest
  {
    assert table[n] == table[n..][0];
    assert table[n + 1..] == table[n..][1..];
  }

  // ---------------------------------------------------------------- both kinds

  ghost predicate PlainTable(table: seq<string>)
  {
    forall k :: 0 <= k < |table| ==> Plain(table[k])
  }

  lemma {:induction false} TableIsPlain(f: Pattern, s: string, i: nat)
    requires WordBounded(f)
    ensures PlainTable(Table(f, s, i))
    decreases |s| - i
  {
    if i < |s| {
      if f(s, i) > 0 {
        MatchIsText(f, s, i);
        TableIsPlain(f, s, i + f(s, i));
      } else {
        TableIsPlain(f, s, i + 1);
      }
    }
  }

  lemma LookupIsPlain(table: seq<string>, k: int)
    requires PlainTable(table)
    ensures Plain(Lookup(table, k))
  {
    assert !Strings.IsDigit("undefined"[0]);
  }

  /** Text that is not a number hides whatever digits and NUL follow it. */
  lemma {:induction false} TailBehind(e: string, x: string)
    requires NUL !in e && !AllDigits(e)
    ensures TailLen(e + x) == -1
  {
    assert [e[0]] + (e[1..] + x) == e + x;
    TailCons(e[0], e[1..] + x);
    if Strings.IsDigit(e[0]) {
      TailBehind(e[1..], x);
    }
  }

  /** How restoring hex strings changes the digits and NUL at the front of a text. */
  lemma {:induction false} RestoreTail(y: string, ds: string, rest: string, table: seq<string>)
    requires PlainTable(table) && NumberThen(y, ds, rest)
    ensures if RunLen(Hex, rest) == 0
            then NumberThen(Restore(Hex, y, table), ds, Restore(Hex, rest, table))
            else TailLen(Restore(Hex, y, table)) == -1
  {
    assert y == [y[0]] + y[1..];
    if ds == "" {
      if RunLen(Hex, rest) == 0 {
      } else {
        var num, rest' := RunThenExists(Hex, rest);
        RestoreRun(Hex, rest, num, rest', table);
        LookupIsPlain(table, ParseInt(num));
        TailBehind(Lookup(table, ParseInt(num)), Restore(Hex, rest', table));
      }
    } else {
      RestoreTail(y[1..], ds[1..], rest, table);
      TailCons(y[0], Restore(Hex, y[1..], table));
    }
  }

  lemma {:induction false} RestoreNoTail(y: string, table: seq<string>)
    requires PlainTable(table) && TailLen(y) == -1
    ensures TailLen(Restore(Hex, y, table)) == -1
  {
    if y != "" {
      assert y == [y[0]] + y[1..];
      TailCons(y[0], Restore(Hex, y[1..], table));
      if Strings.IsDigit(y[0]) {
        RestoreNoTail(y[1..], table);
      }
    }
  }

  /** Restoring hex strings changes a UUID placeholder only by putting text into its closing NUL. */
  lemma {:induction false} RestoreKeepsRun(y: string, ds: string, rest: string, table: seq<string>)
    requires PlainTable(table) && RunThen(Uuid, y, ds, rest)
    ensures if RunLen(Hex, rest) == 0
            then RunThen(Uuid, Restore(Hex, y, table), ds, Restore(Hex, rest, table))
            else RunLen(Uuid, Restore(Hex, y, table)) == 0
  {
    assert y == ['U'] + y[1..];
    RestoreTail(y[1..], ds, rest, table);
    RunCons(Uuid, 'U', Restore(Hex, y[1..], table));
    assert (['U'] + Restore(Hex, y[1..], table))[1..] == Restore(Hex, y[1..], table);
  }

  lemma {:induction false} RestoreMakesNoRun(y: string, table: seq<string>)
    requires PlainTable(table) && RunLen(Uuid, y) == 0
    ensures RunLen(Uuid, Restore(Hex, y, table)) == 0
  {
    if y != "" {
      assert y == [y[0]] + y[1..];
      if y[0] == NUL && RunLen(Hex, y[1..]) > 0 {
        var num, rest := RunThenExists(Hex, y[1..]);
        RestoreRun(Hex, y[1..], num, rest, table);
        LookupIsPlain(table, ParseInt(num));
      } else {
        RunCons(Uuid, y[0], Restore(Hex, y[1..], table));
        if y[0] == 'U' {
          ShortTail(y[1..], table);
        }
      }
    }
  }

  lemma {:induction false} ShortTail(y: string, table: seq<string>)
    requires PlainTable(table) && TailLen(y) < 1
    ensures TailLen(Restore(Hex, y, table)) < 1
  {
    if TailLen(y) == -1 {
      RestoreNoTail(y, table);
    } else {
      var ds, rest := NumberThenExists(y);
      NumberThenShape(y, ds, rest);
      RestoreTail(y, ds, rest, table);
      if RunLen(Hex, rest) == 0 {
        NumberThenShape(Restore(Hex, y, table), ds, Restore(Hex, rest, table));
      }
    }
  }

  /** Restoring hex strings, then UUIDs. */
  function RestoreBoth(x: string, uuids: seq<string>, hexes: seq<string>): string
  {
    Restore(Uuid, Restore(Hex, x, hexes), uuids)
  }

  lemma BothClean(a: string, x: string, uuids: seq<string>, hexes: seq<string>)
    requires NUL !in a
    ensures RestoreBoth(a + x, uuids, hexes) == a + RestoreBoth(x, uuids, hexes)
  {
    RestoreClean(Hex, a, x, hexes);
    RestoreClean(Uuid, a, Restore(Hex, x, hexes), uuids);
  }

  lemma {:induction false} BothHexRun(y: string, ds: string, rest: string, uuids: seq<string>, hexes: seq<string>)
    requires PlainTable(hexes) && RunThen(Hex, y, ds, rest)
    ensures RestoreBoth([NUL] + y, uuids, hexes) ==
            Lookup(hexes, ParseInt(ds)) + RestoreBoth(rest, uuids, hexes)
  {
    RestoreRun(Hex, y, ds, rest, hexes);
    LookupIsPlain(hexes, ParseInt(ds));
    RestoreClean(Uuid, Lookup(hexes, ParseInt(ds)), Restore(Hex, rest, hexes), uuids);
  }

  lemma {:induction false} BothUuidRun(y: string, ds: string, rest: string, uuids: seq<string>, hexes: seq<string>)
    requires PlainTable(hexes) && RunThen(Uuid, y, ds, rest) && RunLen(Hex, rest) == 0
    ensures RestoreBoth([NUL] + y, uuids, hexes) ==
            Lookup(uuids, ParseInt(ds)) + RestoreBoth(rest, uuids, hexes)
  {
    RestoreKeepsRun(y, ds, rest, hexes);
    RestoreRun(Uuid, Restore(Hex, y, hexes), ds, Restore(Hex, rest, hexes), uuids);
  }

  /** A NUL is kept when what follows it is no placeholder, or one whose end is taken by another. */
  lemma BothNul(y: string, uuids: seq<string>, hexes: seq<string>)
    requires PlainTable(hexes) && RunLen(Hex, y) == 0
    requires forall ds, rest :: RunThen(Uuid, y, ds, rest) ==> RunLen(Hex, rest) > 0
    ensures RestoreBoth([NUL] + y, uuids, hexes) == [NUL] + RestoreBoth(y, uuids, hexes)
  {
    if RunLen(Uuid, y) > 0 {
      var ds, rest := RunThenExists(Uuid, y);
      RestoreKeepsRun(y, ds, rest, hexes);
    } else {
      RestoreMakesNoRun(y, hexes);
    }
  }

  lemma BothPlaceholder(n: nat, x: string, uuids: seq<string>, hexes: seq<string>)
    requires PlainTable(hexes) && RunLen(Hex, x) == 0
    ensures RestoreBoth(Placeholder(Uuid, n) + x, uuids, hexes) == Lookup(uuids, n) + RestoreBoth(x, uuids, hexes)
  {
    DecRoundTrip(n);
    NumberThenConcat(Dec(n), x);
    var y := ['U'] + (Dec(n) + [NUL] + x);
    assert y[1..] == Dec(n) + [NUL] + x;
    BothUuidRun(y, Dec(n), x, uuids, hexes);
    PlaceholderThen(Uuid, n, x);
  }

  lemma RunThenUnique(kind: Kind, y: string, ds: string, rest: string, ds': string, rest': string)
    requires RunThen(kind, y, ds, rest) && RunThen(kind, y, ds', rest')
    ensures ds == ds' && rest == rest'
  {
    NumberThenShape(y[1..], ds, rest);
    NumberThenShape(y[1..], ds', rest');
  }

  /** A NUL kept by both restorations, stated for the text at hand and for its masked form alike. */
  lemma BothNulAt(y: string, ds: string, rest: string, uuids: seq<string>, hexes: seq<string>)
    requires PlainTable(hexes) && RunLen(Hex, y) == 0
    requires RunLen(Uuid, y) > 0 ==> RunThen(Uuid, y, ds, rest) && RunLen(Hex, rest) > 0
    ensures RestoreBoth([NUL] + y, uuids, hexes) == [NUL] + RestoreBoth(y, uuids, hexes)
  {
    forall ds', rest' | RunThen(Uuid, y, ds', rest') ensures RunLen(Hex, rest') > 0 {
      RunThenLen(Uuid, y, ds', rest');
      RunThenUnique(Uuid, y, ds, rest, ds', rest');
    }
    BothNul(y, uuids, hexes);
  }

  lemma NoRunBehindMatch(f: Pattern, s: string, i: nat, n: nat)
    requires WordBounded(f) && i < |s| && f(s, i) > 0
    ensures i + f(s, i) <= |s| && RunLen(Hex, Masked(f, Uuid, s, i + f(s, i), n)) == 0
  {
    MatchIsText(f, s, i);
    var j := i + f(s, i);
    var _, _ := MaskRun(f, Uuid, s, j, n, Hex);
    assert MatchedWord(s, i, f(s, i));
    assert j < |s| ==> s[j..][0] == s[j];
  }

  /** From position i on, masking UUIDs makes no difference once both kinds are restored. */
  ghost predicate Returns(f: Pattern, s: string, i: nat, n: nat, uuids: seq<string>, hexes: seq<string>)
  {
    i <= |s| && RestoreBoth(Masked(f, Uuid, s, i, n), uuids, hexes) == RestoreBoth(s[i..], uuids, hexes)
  }

  lemma MatchReturns(f: Pattern, s: string, i: nat, n: nat, uuids: seq<string>, hexes: seq<string>)
    requires WordBounded(f) && PlainTable(hexes) && i < |s| && f(s, i) > 0
    requires n < |uuids| && uuids[n] == Slice(s, i, i + f(s, i))
    requires Returns(f, s, i + f(s, i), n + 1, uuids, hexes)
    ensures Returns(f, s, i, n, uuids, hexes)
  {
    var m := f(s, i);
    MatchIsText(f, s, i);
    NoRunBehindMatch(f, s, i, n + 1);
    BothPlaceholder(n, Masked(f, Uuid, s, i + m, n + 1), uuids, hexes);
    BothClean(Slice(s, i, i + m), s[i + m..], uuids, hexes);
  }

  lemma CharReturns(f: Pattern, s: string, i: nat, n: nat, uuids: seq<string>, hexes: seq<string>)
    requires i < |s| && f(s, i) == 0 && s[i] != NUL && Returns(f, s, i + 1, n, uuids, hexes)
    ensures Returns(f, s, i, n, uuids, hexes)
  {
    MaskedLiteral(f, Uuid, s, i, n);
    BothClean([s[i]], s[i + 1..], uuids, hexes);
    BothClean([s[i]], Masked(f, Uuid, s, i + 1, n), uuids, hexes);
  }

  /** Masking UUIDs makes no difference once both kinds are restored. */
  lemma {:induction false} UuidsReturn(f: Pattern, s: string, i: nat, n: nat, uuids: seq<string>, hexes: seq<string>)
    requires WordBounded(f) && PlainTable(hexes) && i <= |s|
    requires n <= |uuids| && uuids[n..] == Table(f, s, i)
    ensures RestoreBoth(Masked(f, Uuid, s, i, n), uuids, hexes) == RestoreBoth(s[i..], uuids, hexes)
    decreases |s| - i
  {
    if i < |s| {
      var m := f(s, i);
      if m > 0 {
        MatchIsText(f, s, i);
        TableHead(uuids, n, Slice(s, i, i + m), Table(f, s, i + m));
        UuidsReturn(f, s, i + m, n + 1, uuids, hexes);
        MatchReturns(f, s, i, n, uuids, hexes);
      } else if s[i] == NUL {
        MaskedLiteral(f, Uuid, s, i, n);
        UuidsReturnNul(f, s, i, n, uuids, hexes);
      } else {
        UuidsReturn(f, s, i + 1, n, uuids, hexes);
        CharReturns(f, s, i, n, uuids, hexes);
      }
    }
  }

  lemma {:induction false} UuidsReturnNul(f: Pattern, s: string, i: nat, n: nat, uuids: seq<string>, hexes: seq<string>)
    requires WordBounded(f) && PlainTable(hexes) && i < |s| && f(s, i) == 0 && s[i] == NUL
    requires n <= |uuids| && uuids[n..] == Table(f, s, i)
    ensures RestoreBoth([NUL] + Masked(f, Uuid, s, i + 1, n), uuids, hexes) ==
            RestoreBoth([NUL] + s[i + 1..], uuids, hexes)
    decreases |s| - i, 0
  {
    var y, x := Masked(f, Uuid, s, i + 1, n), s[i + 1..];
    MaskedLiteral(f, Uuid, s, i, n);
    var ds, e := MaskRun(f, Uuid, s, i + 1, n, Hex);
    var ds', e' := MaskRun(f, Uuid, s, i + 1, n, Uuid);
    if RunLen(Hex, x) > 0 {
      UuidsReturn(f, s, e, n, uuids, hexes);
      BothHexRun(y, ds, Masked(f, Uuid, s, e, n), uuids, hexes);
      BothHexRun(x, ds, s[e..], uuids, hexes);
    } else {
      if RunLen(Uuid, x) > 0 {
        var _, _ := MaskRun(f, Uuid, s, e', n, Hex);
      }
      if RunLen(Uuid, x) > 0 && RunLen(Hex, s[e'..]) == 0 {
        UuidsReturn(f, s, e', n, uuids, hexes);
        BothUuidRun(y, ds', Masked(f, Uuid, s, e', n), uuids, hexes);
        BothUuidRun(x, ds', s[e'..], uuids, hexes);
      } else {
        UuidsReturn(f, s, i + 1, n, uuids, hexes);
        BothNulAt(y, ds', if RunLen(Uuid, x) > 0 then Masked(f, Uuid, s, e', n) else "", uuids, hexes);
        BothNulAt(x, ds', if RunLen(Uuid, x) > 0 then s[e'..] else "", uuids, hexes);
      }
    }
  }

  // ---------------------------------------------------------------- the round trip

  /** The text as the PII patterns see it. */
  ghost function Scanned(text: string): string
  {
    Masked(HexPattern(), Hex, Masked(UuidPattern(), Uuid, text, 0, 0), 0, 0)
  }

  ghost function Redacted(text: string, pii: string -> string): string
  {
    RestoreBoth(pii(Scanned(text)), Table(UuidPattern(), text, 0),
                Table(HexPattern(), Masked(UuidPattern(), Uuid, text, 0, 0), 0))
  }

  /** Without a PII match, redaction does to a text what the two restorations alone do to it. */
  lemma {:induction false} MasksCancel(text: string)
    ensures var s1 := Masked(UuidPattern(), Uuid, text, 0, 0);
            var uuids, hexes := Table(UuidPattern(), text, 0), Table(HexPattern(), s1, 0);
            RestoreBoth(Scanned(text), uuids, hexes) == RestoreBoth(text, uuids, hexes)
  {
    UuidPatternBounded();
    HexPatternBounded();
    var s1 := Masked(UuidPattern(), Uuid, text, 0, 0);
    var uuids, hexes := Table(UuidPattern(), text, 0), Table(HexPattern(), s1, 0);
    assert uuids[0..] == uuids && hexes[0..] == hexes && text[0..] == text && s1[0..] == s1;
    RestoreMasked(HexPattern(), Hex, s1, 0, 0, hexes);
    TableIsPlain(HexPattern(), s1, 0);
    UuidsReturn(UuidPattern(), text, 0, 0, uuids, hexes);
  }

  /** How many NUL characters a text has. */
  function Nuls(x: string): nat
  {
    if x == "" then 0 else (if x[0] == NUL then 1 else 0) + Nuls(x[1..])
  }

  lemma {:induction false} NulsAppend(a: string, b: string)
    ensures Nuls(a + b) == Nuls(a) + Nuls(b)
  {
    if a == "" {
      assert a + b == b;
    } else {
      NulsAppend(a[1..], b);
      assert (a + b)[1..] == a[1..] + b;
    }
  }

  lemma {:induction false} NulsClean(a: string)
    requires NUL !in a
    ensures Nuls(a) == 0
  {
    if a != "" { NulsClean(a[1..]); }
  }

  lemma {:induction false} NulsOfNumber(y: string, ds: string, rest: string)
    requires NumberThen(y, ds, rest)
    ensures Nuls(y) == 1 + Nuls(rest)
  {
    if ds != "" { NulsOfNumber(y[1..], ds[1..], rest); }
  }

  /** A placeholder in the text costs it two NULs; nothing adds one. */
  lemma {:induction false} RestoreLosesNuls(kind: Kind, x: string, table: seq<string>)
    requires PlainTable(table)
    ensures Nuls(Restore(kind, x, table)) <= Nuls(x)
    ensures HasPlaceholder(kind, x) ==> Nuls(Restore(kind, x, table)) < Nuls(x)
    ensures !HasPlaceholder(kind, x) ==> Restore(kind, x, table) == x
    decreases |x|
  {
    if x != "" {
      assert x == [x[0]] + x[1..];
      if x[0] == NUL && RunLen(kind, x[1..]) > 0 {
        var ds, rest := RunThenExists(kind, x[1..]);
        NumberThenShape(x[1..][1..], ds, rest);
        RestoreRun(kind, x[1..], ds, rest, table);
        LookupIsPlain(table, ParseInt(ds));
        NulsAppend(Lookup(table, ParseInt(ds)), Restore(kind, rest, table));
        NulsClean(Lookup(table, ParseInt(ds)));
        RestoreLosesNuls(kind, rest, table);
        NulsOfNumber(x[1..][1..], ds, rest);
      } else {
        RestoreLosesNuls(kind, x[1..], table);
        NulsAppend([x[0]], Restore(kind, x[1..], table));
        NulsAppend([x[0]], x[1..]);
      }
    }
  }

  /**
   When no PII pattern fires, a text comes back unchanged exactly when it holds no placeholder of its
   own: no NUL, a mark U or H, digits, NUL.
   */
  lemma {:induction false} RoundTripExactly(text: string, pii: string -> string)
    requires pii(Scanned(text)) == Scanned(text)
    ensures Redacted(text, pii) == text <==> !HoldsPlaceholder(Uuid, text) && !HoldsPlaceholder(Hex, text)
  {
    HasPlaceholderExactly(Uuid, text);
    HasPlaceholderExactly(Hex, text);
    MasksCancel(text);
    UuidPatternBounded();
    HexPatternBounded();
    var s1 := Masked(UuidPattern(), Uuid, text, 0, 0);
    var uuids, hexes := Table(UuidPattern(), text, 0), Table(HexPattern(), s1, 0);
    TableIsPlain(UuidPattern(), text, 0);
    TableIsPlain(HexPattern(), s1, 0);
    RestoreLosesNuls(Hex, text, hexes);
    RestoreLosesNuls(Uuid, Restore(Hex, text, hexes), uuids);
  }

  /** Redaction of one text field: mask UUIDs, mask hex strings, scan for PII, restore both. */
  method RedactText(text: string, pii: string -> string) returns (result: string)
    ensures result == Redacted(text, pii)
    ensures pii(Scanned(text)) == Scanned(text) ==>
              (result == text <==> !HoldsPlaceholder(Uuid, text) && !HoldsPlaceholder(Hex, text))
  {
    var s, uuids := Mask(UuidPattern(), Uuid, text);
    var hexes;
    s, hexes := Mask(HexPattern(), Hex, s);
    s := pii(s);
    s := Restore(Hex, s, hexes);
    s := Restore(Uuid, s, uuids);
    result := s;
    if pii(Scanned(text)) == Scanned(text) { RoundTripExactly(text, pii); }
  }

  lemma {:induction false} NulFreeHasNoPlaceholder(kind: Kind, x: string)
    requires NUL !in x
    ensures !HoldsPlaceholder(kind, x)
  {
    forall a, ds: string, b ensures x != a + ([NUL, Mark(kind)] + ds + [NUL]) + b {
      assert (a + ([NUL, Mark(kind)] + ds + [NUL]) + b)[|a|] == NUL;
    }
  }

  /** Ordinary text, free of NUL, always comes back unchanged. */
  lemma RoundTripOrdinaryText(text: string, pii: string -> string)
    requires NUL !in text && pii(Scanned(text)) == Scanned(text)
    ensures Redacted(text, pii) == text
  {
    NulFreeHasNoPlaceholder(Uuid, text);
    NulFreeHasNoPlaceholder(Hex, text);
    RoundTripExactly(text, pii);
  }

  lemma {:induction false} NothingMasked(f: Pattern, kind: Kind, s: string, i: nat, n: nat)
    requires i <= |s| && forall p: nat :: p < |s| ==> f(s, p) == 0
    ensures Masked(f, kind, s, i, n) == s[i..] && Table(f, s, i) == []
    decreases |s| - i
  {
    if i < |s| {
      NothingMasked(f, kind, s, i + 1, n);
    }
  }

  /** No match starts inside a placeholder. */
  lemma {:induction false} NoMatchInPlaceholder(f: Pattern, kind: Kind, n: nat)
    requires WordBounded(f)
    ensures forall p: nat :: p < |Placeholder(kind, n)| ==> f(Placeholder(kind, n), p) == 0
  {
    var s := Placeholder(kind, n);
    DecRoundTrip(n);
    forall p: nat | p < |s| ensures f(s, p) == 0 {
      assert 2 < p < |s| - 1 ==> s[p - 1] == Dec(n)[p - 3];
      assert f(s, p) > 0 ==> MatchedWord(s, p, f(s, p));
    }
  }

  /** A text that is a placeholder is lost, whatever its kind and number: there is no such entry to put back. */
  lemma {:induction false} PlaceholderIsLost(kind: Kind, n: nat, pii: string -> string)
    requires pii(Scanned(Placeholder(kind, n))) == Scanned(Placeholder(kind, n))
    ensures Placeholder(kind, n) == "\0" + (if kind == Uuid then "U" else "H") + Dec(n) + "\0"
    ensures Redacted(Placeholder(kind, n), pii) == "undefined"
  {
    var text := Placeholder(kind, n);
    UuidPatternBounded();
    HexPatternBounded();
    NoMatchInPlaceholder(UuidPattern(), kind, n);
    NoMatchInPlaceholder(HexPattern(), kind, n);
    NothingMasked(UuidPattern(), Uuid, text, 0, 0);
    NothingMasked(HexPattern(), Hex, text, 0, 0);
    assert text[0..] == text;
    assert Redacted(text, pii) == RestoreBoth(text, [], []);
    var y := [Mark(kind)] + (Dec(n) + [NUL] + "");
    DecRoundTrip(n);
    NumberThenConcat(Dec(n), "");
    assert y[1..] == Dec(n) + [NUL] + "";
    PlaceholderThen(kind, n, "");
    assert text + "" == text;
    if kind == Uuid {
      BothUuidRun(y, Dec(n), "", [], []);
    } else {
      BothHexRun(y, Dec(n), "", [], []);
    }
  }
}
