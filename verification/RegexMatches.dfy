/**
 What the match functions of the redactor find, in terms of the text: each gives the length of the longest stretch
 that has the form of its regular expression, and 0 when there is none.
 */
module RegexMatches {
  import opened Patterns
  import opened SecretRegexes
  import opened Strings

  /** Every character from lo to hi satisfies ok, and the text reaches that far. */
  ghost predicate All(s: string, lo: nat, hi: nat, ok: char -> bool)
  {
    (lo < hi ==> hi <= |s|) && forall k :: lo <= k < hi && k < |s| ==> ok(s[k])
  }

  lemma AllAt(s: string, lo: nat, hi: nat, ok: char -> bool, k: nat)
    ensures All(s, lo, hi, ok) && lo <= k < hi ==> k < |s| && ok(s[k])
  {
  }

  lemma AllCons(s: string, i: nat, e: nat, ok: char -> bool)
    requires i < |s| && ok(s[i]) && All(s, i + 1, e, ok)
    ensures All(s, i, e, ok)
  {
  }

  /** A run reaches as far as the characters satisfy ok, and no further. */
  lemma {:induction false} RunExactly(s: string, i: nat, ok: char -> bool)
    ensures var n := Run(s, i, ok); All(s, i, i + n, ok) && !(i + n < |s| && ok(s[i + n]))
    decreases |s| - i
  {
    if i < |s| && ok(s[i]) {
      RunExactly(s, i + 1, ok);
      var e := i + 1 + Run(s, i + 1, ok);
      AllCons(s, i, e, ok);
      assert e == i + Run(s, i, ok);
    }
  }

  lemma RunCovers(s: string, i: nat, n: nat, ok: char -> bool)
    requires All(s, i, i + n, ok)
    ensures n <= Run(s, i, ok)
  {
    RunExactly(s, i, ok);
    var r := Run(s, i, ok);
    AllAt(s, i, i + n, ok, i + r);
  }

  /** A stretch that ends before a character that does not satisfy ok is the whole run. */
  lemma RunIs(s: string, i: nat, n: nat, ok: char -> bool)
    requires All(s, i, i + n, ok) && !(i + n < |s| && ok(s[i + n]))
    ensures Run(s, i, ok) == n
  {
    RunCovers(s, i, n, ok);
    RunExactly(s, i, ok);
    AllAt(s, i, i + Run(s, i, ok), ok, i + n);
  }

  lemma {:induction false} LongestEndEnds(s: string, i: nat, lo: nat, hi: nat)
    requires 0 < lo
    ensures var n := LongestEnd(s, i, lo, hi); n > 0 ==> lo <= n <= hi && Boundary(s, i + n)
    decreases hi
  {
    if hi >= lo && !Boundary(s, i + hi) { LongestEndEnds(s, i, lo, hi - 1); }
  }

  lemma {:induction false} LongestEndCovers(s: string, i: nat, lo: nat, hi: nat, e: nat)
    requires 0 < lo && i + lo <= e <= i + hi && Boundary(s, e)
    ensures e - i <= LongestEnd(s, i, lo, hi)
    decreases hi
  {
    if !Boundary(s, i + hi) { LongestEndCovers(s, i, lo, hi - 1, e); }
  }

  // ---------------------------------------------------------------- keys

  /** sk- and twenty or more letters, digits, underscores and hyphens, between word boundaries. */
  ghost predicate KeyAt(s: string, i: nat, n: nat)
  {
    && n >= 3 + 20 && Boundary(s, i) && Boundary(s, i + n)
    && At(s, i, "sk-") && All(s, i + 3, i + n, TokenChar())
  }

  lemma KeyExactly(s: string, i: nat)
    ensures KeyMatch(s, i) > 0 ==> KeyAt(s, i, KeyMatch(s, i))
    ensures forall m: nat :: KeyAt(s, i, m) ==> m <= KeyMatch(s, i)
  {
    var run := Run(s, i + 3, TokenChar());
    RunExactly(s, i + 3, TokenChar());
    LongestEndEnds(s, i + 3, 20, run);
    forall m: nat | KeyAt(s, i, m) ensures m <= KeyMatch(s, i) {
      RunCovers(s, i + 3, m - 3, TokenChar());
      LongestEndCovers(s, i + 3, 20, run, i + m);
    }
  }

  const PREFIXES: seq<string> := ["bld_", "dsp_", "ghp_", "gho_", "github_pat_", "xoxb_", "xoxa_", "xoxp_", "xoxr_", "xoxs_"]

  /** One of the prefixes, and sixteen or more such characters. */
  ghost predicate PrefixedBy(s: string, i: nat, n: nat, p: string)
  {
    && p in PREFIXES && n >= |p| + 16 && Boundary(s, i) && Boundary(s, i + n)
    && At(s, i, p) && All(s, i + |p|, i + n, TokenChar())
  }

  ghost predicate PrefixedAt(s: string, i: nat, n: nat)
  {
    exists p :: PrefixedBy(s, i, n, p)
  }

  lemma AtMeans(s: string, i: nat, w: string)
    requires At(s, i, w)
    ensures i + |w| <= |s| && forall k :: 0 <= k < |w| ==> s[i + k] == w[k]
  {
    forall k | 0 <= k < |w| ensures s[i + k] == w[k] {
      assert s[i..i + |w|][k] == s[i + k];
    }
  }

  /** No prefix starts another one, so the first that is found is the only one. */
  lemma OnePrefix(s: string, i: nat, p: string, q: string)
    requires p in PREFIXES && q in PREFIXES && At(s, i, p) && At(s, i, q)
    ensures p == q
  {
    AtMeans(s, i, p);
    AtMeans(s, i, q);
    assert p[0] == q[0] && p[1] == q[1] && p[2] == q[2] && p[3] == q[3];
  }

  lemma PrefixIs(s: string, i: nat) returns (p: string)
    ensures PrefixAt(s, i) > 0 ==> p in PREFIXES && At(s, i, p) && |p| == PrefixAt(s, i)
    ensures forall q :: q in PREFIXES && At(s, i, q) ==> PrefixAt(s, i) > 0
  {
    p := if At(s, i, "bld_") then "bld_" else if At(s, i, "dsp_") then "dsp_" else if At(s, i, "ghp_") then "ghp_"
         else if At(s, i, "gho_") then "gho_" else if At(s, i, "github_pat_") then "github_pat_"
         else if At(s, i, "xoxb_") then "xoxb_" else if At(s, i, "xoxa_") then "xoxa_"
         else if At(s, i, "xoxp_") then "xoxp_" else if At(s, i, "xoxr_") then "xoxr_" else "xoxs_";
    assert PREFIXES[0] == "bld_" && PREFIXES[1] == "dsp_" && PREFIXES[2] == "ghp_" && PREFIXES[3] == "gho_";
    assert PREFIXES[4] == "github_pat_" && PREFIXES[5] == "xoxb_" && PREFIXES[6] == "xoxa_" && PREFIXES[7] == "xoxp_";
    assert PREFIXES[8] == "xoxr_" && PREFIXES[9] == "xoxs_";
  }

  lemma PrefixFound(s: string, i: nat, p: string)
    requires p in PREFIXES && At(s, i, p)
    ensures PrefixAt(s, i) == |p|
  {
    var q := PrefixIs(s, i);
    OnePrefix(s, i, p, q);
  }

  lemma PrefixedBody(s: string, i: nat, q: nat, n: nat)
    requires q == PrefixAt(s, i) && n == LongestEnd(s, i + q, 16, Run(s, i + q, TokenChar()))
    ensures PrefixedMatch(s, i) == if Boundary(s, i) && q > 0 && n > 0 then q + n else 0
  {
  }

  lemma PrefixedFound(s: string, i: nat)
    ensures PrefixedMatch(s, i) > 0 ==> PrefixedAt(s, i, PrefixedMatch(s, i))
  {
    var q := PrefixAt(s, i);
    var run := Run(s, i + q, TokenChar());
    var n := LongestEnd(s, i + q, 16, run);
    PrefixedBody(s, i, q, n);
    var p := PrefixIs(s, i);
    if PrefixedMatch(s, i) > 0 {
      EndWithin(s, i + q, 16, n, TokenChar());
      assert PrefixedBy(s, i, q + n, p);
    }
  }

  lemma PrefixedIsLongest(s: string, i: nat, m: nat, p: string)
    requires PrefixedBy(s, i, m, p)
    ensures m <= PrefixedMatch(s, i)
  {
    PrefixFound(s, i, p);
    var q := |p|;
    var run := Run(s, i + q, TokenChar());
    RunCovers(s, i + q, m - q, TokenChar());
    LongestEndCovers(s, i + q, 16, run, i + m);
    PrefixedBody(s, i, q, LongestEnd(s, i + q, 16, run));
  }

  lemma PrefixedExactly(s: string, i: nat)
    ensures PrefixedMatch(s, i) > 0 ==> PrefixedAt(s, i, PrefixedMatch(s, i))
    ensures forall m: nat :: PrefixedAt(s, i, m) ==> m <= PrefixedMatch(s, i)
  {
    PrefixedFound(s, i);
    forall m: nat | PrefixedAt(s, i, m) ensures m <= PrefixedMatch(s, i) {
      var p :| PrefixedBy(s, i, m, p);
      PrefixedIsLongest(s, i, m, p);
    }
  }

  // ---------------------------------------------------------------- web tokens

  /** eyJ and three stretches of eight or more such characters, with dots at p and q, between word boundaries. */
  ghost predicate JwtOf(s: string, i: nat, p: nat, q: nat, e: nat)
  {
    && i + 3 + 8 <= p && p + 1 + 8 <= q && q + 1 + 8 <= e && Boundary(s, i) && Boundary(s, e) && At(s, i, "eyJ")
    && All(s, i + 3, p, TokenChar()) && CharAt(s, p, '.')
    && All(s, p + 1, q, TokenChar()) && CharAt(s, q, '.')
    && All(s, q + 1, e, TokenChar())
  }

  ghost predicate JwtAt(s: string, i: nat, n: nat)
  {
    exists p: nat, q: nat, e: nat :: JwtOf(s, i, p, q, e) && e == i + n
  }

  lemma DotAt(s: string, i: nat)
    ensures At(s, i, ".") <==> CharAt(s, i, '.')
  {
    if i < |s| { assert s[i..i + 1] == [s[i]]; }
  }

  lemma JwtBody(s: string, i: nat, p: nat, q: nat, c: nat)
    requires p == i + 3 + Run(s, i + 3, TokenChar()) && q == p + 1 + Run(s, p + 1, TokenChar())
    requires c == LongestEnd(s, q + 1, 8, Run(s, q + 1, TokenChar()))
    ensures JwtMatch(s, i) ==
            if Boundary(s, i) && At(s, i, "eyJ") && i + 11 <= p && CharAt(s, p, '.') && p + 9 <= q && CharAt(s, q, '.') &&
               c > 0
            then q + 1 + c - i else 0
  {
    DotAt(s, p);
    DotAt(s, q);
    var a := Run(s, i + 3, TokenChar());
    assert p == i + 3 + a && p + 1 == i + 4 + a;
    var b := Run(s, p + 1, TokenChar());
    assert q == i + 4 + a + b && q + 1 == i + 5 + a + b;
  }

  /** The run from one position to another. */
  lemma RunTo(s: string, i: nat, e: nat, ok: char -> bool)
    requires e == i + Run(s, i, ok)
    ensures All(s, i, e, ok)
  {
    RunExactly(s, i, ok);
  }

  lemma EndWithin(s: string, i: nat, lo: nat, c: nat, ok: char -> bool)
    requires 0 < lo && c == LongestEnd(s, i, lo, Run(s, i, ok)) && c > 0
    ensures lo <= c && All(s, i, i + c, ok) && Boundary(s, i + c)
  {
    RunExactly(s, i, ok);
    LongestEndEnds(s, i, lo, Run(s, i, ok));
  }

  lemma JwtFound(s: string, i: nat)
    ensures JwtMatch(s, i) > 0 ==> JwtAt(s, i, JwtMatch(s, i))
  {
    var p := i + 3 + Run(s, i + 3, TokenChar());
    var q := p + 1 + Run(s, p + 1, TokenChar());
    var c := LongestEnd(s, q + 1, 8, Run(s, q + 1, TokenChar()));
    JwtBody(s, i, p, q, c);
    if JwtMatch(s, i) > 0 {
      RunTo(s, i + 3, p, TokenChar());
      RunTo(s, p + 1, q, TokenChar());
      EndWithin(s, q + 1, 8, c, TokenChar());
      JwtFits(s, i, p, q, q + 1 + c);
    }
  }

  lemma JwtFits(s: string, i: nat, p: nat, q: nat, e: nat)
    requires JwtOf(s, i, p, q, e)
    ensures JwtAt(s, i, e - i)
  {
    assert JwtOf(s, i, p, q, e) && e == i + (e - i);
  }

  lemma JwtIsLongest(s: string, i: nat, p: nat, q: nat, e: nat)
    requires JwtOf(s, i, p, q, e)
    ensures e - i <= JwtMatch(s, i)
  {
    RunIs(s, i + 3, p - (i + 3), TokenChar());
    RunIs(s, p + 1, q - (p + 1), TokenChar());
    RunCovers(s, q + 1, e - (q + 1), TokenChar());
    var run := Run(s, q + 1, TokenChar());
    LongestEndCovers(s, q + 1, 8, run, e);
    JwtBody(s, i, p, q, LongestEnd(s, q + 1, 8, run));
  }

  lemma JwtExactly(s: string, i: nat)
    ensures JwtMatch(s, i) > 0 ==> JwtAt(s, i, JwtMatch(s, i))
    ensures forall m: nat :: JwtAt(s, i, m) ==> m <= JwtMatch(s, i)
  {
    JwtFound(s, i);
    forall m: nat | JwtAt(s, i, m) ensures m <= JwtMatch(s, i) {
      var p: nat, q: nat, e: nat :| JwtOf(s, i, p, q, e) && e == i + m;
      JwtIsLongest(s, i, p, q, e);
    }
  }

  // ---------------------------------------------------------------- long strings

  function HexChar(): char -> bool
  {
    (c: char) => IsHex(c)
  }

  /** Forty-eight or more hex digits, between word boundaries. */
  ghost predicate HexAt(s: string, i: nat, n: nat)
  {
    n >= 48 && Boundary(s, i) && Boundary(s, i + n) && All(s, i, i + n, HexChar())
  }

  lemma {:induction false} HexRunIsRun(s: string, i: nat)
    ensures HexRun(s, i) == Run(s, i, HexChar())
    decreases |s| - i
  {
    if i < |s| { HexRunIsRun(s, i + 1); }
  }

  lemma HexExactly(s: string, i: nat)
    ensures HexMatch(s, i) > 0 ==> HexAt(s, i, HexMatch(s, i))
    ensures forall m: nat :: HexAt(s, i, m) ==> m <= HexMatch(s, i)
  {
    HexRunIsRun(s, i);
    RunExactly(s, i, HexChar());
    LongestEndEnds(s, i, 48, HexRun(s, i));
    forall m: nat | HexAt(s, i, m) ensures m <= HexMatch(s, i) {
      RunCovers(s, i, m, HexChar());
      LongestEndCovers(s, i, 48, HexRun(s, i), i + m);
    }
  }

  /** From i on stands a stretch of the long alphabet that ends with such a character. */
  ghost predicate Ahead(s: string, i: nat, ok: char -> bool)
  {
    exists k: nat :: AheadAt(s, i, ok, k)
  }

  ghost predicate AheadAt(s: string, i: nat, ok: char -> bool, k: nat)
  {
    i <= k < |s| && All(s, i, k, LongChar()) && ok(s[k])
  }

  function Letter(): char -> bool
  {
    (c: char) => IsLetter(c)
  }

  function Digit(): char -> bool
  {
    (c: char) => IsDigit(c)
  }

  /** Forty-eight or more characters of the long alphabet, between word boundaries, with a letter and a digit ahead. */
  ghost predicate LongAt(s: string, i: nat, n: nat)
  {
    && n >= 48 && Boundary(s, i) && Boundary(s, i + n) && All(s, i, i + n, LongChar())
    && Ahead(s, i, Letter()) && Ahead(s, i, Digit())
  }

  lemma AheadExactly(s: string, i: nat)
    ensures var run := Run(s, i, LongChar());
            && (Ahead(s, i, Letter()) <==> HasLetter(s, i, i + run))
            && (Ahead(s, i, Digit()) <==> HasDigit(s, i, i + run))
  {
    var run := Run(s, i, LongChar());
    RunExactly(s, i, LongChar());
    if Ahead(s, i, Letter()) {
      var k: nat :| AheadAt(s, i, Letter(), k);
      RunCovers(s, i, k + 1 - i, LongChar());
    }
    if Ahead(s, i, Digit()) {
      var k: nat :| AheadAt(s, i, Digit(), k);
      RunCovers(s, i, k + 1 - i, LongChar());
    }
    if HasLetter(s, i, i + run) {
      var k :| i <= k < i + run && k < |s| && IsLetter(s[k]);
      assert AheadAt(s, i, Letter(), k);
    }
    if HasDigit(s, i, i + run) {
      var k :| i <= k < i + run && k < |s| && IsDigit(s[k]);
      assert AheadAt(s, i, Digit(), k);
    }
  }

  lemma LongExactly(s: string, i: nat)
    ensures LongMatch(s, i) > 0 ==> LongAt(s, i, LongMatch(s, i))
    ensures forall m: nat :: LongAt(s, i, m) ==> m <= LongMatch(s, i)
  {
    AheadExactly(s, i);
    RunExactly(s, i, LongChar());
    LongestEndEnds(s, i, 48, Run(s, i, LongChar()));
    forall m: nat | LongAt(s, i, m) ensures m <= LongMatch(s, i) {
      RunCovers(s, i, m, LongChar());
      LongestEndCovers(s, i, 48, Run(s, i, LongChar()), i + m);
    }
  }

  // ---------------------------------------------------------------- headers

  ghost predicate IsScheme(scheme: string)
  {
    scheme == "bearer" || scheme == "basic" || scheme == "token"
  }

  function Alphanumeric(): char -> bool
  {
    (c: char) => IsLetter(c) || IsDigit(c)
  }

  /** What follows the colon: spaces up to n, a scheme in any letter case, spaces up to c, and credentials up to e. */
  ghost predicate ValueOf(s: string, j: nat, n: nat, scheme: string, c: nat, e: nat)
  {
    && j <= n && All(s, j, n, Space()) && SchemeAt(s, n, scheme)
    && n + |scheme| < c && All(s, n + |scheme|, c, Space()) && CredentialsAt(s, c, e)
  }

  ghost predicate SchemeAt(s: string, n: nat, scheme: string)
  {
    IsScheme(scheme) && At(Lower(s), n, scheme)
  }

  /** A letter or digit, and characters up to the next separator. */
  ghost predicate CredentialsAt(s: string, c: nat, e: nat)
  {
    c < e && c < |s| && Alphanumeric()(s[c]) && All(s, c + 1, e, HeaderChar())
  }

  /** The name of the header in any letter case, spaces, a colon at p, and the value. */
  ghost predicate HeaderOf(s: string, i: nat, p: nat, n: nat, scheme: string, c: nat, e: nat)
  {
    && Boundary(s, i) && At(Lower(s), i, "authorization")
    && i + 13 <= p && All(s, i + 13, p, Space()) && CharAt(s, p, ':') && ValueOf(s, p + 1, n, scheme, c, e)
  }

  ghost predicate HeaderAt(s: string, i: nat, m: nat)
  {
    exists p: nat, n: nat, scheme, c: nat, e: nat :: HeaderOf(s, i, p, n, scheme, c, e) && e == i + m
  }

  lemma SchemeIs(s: string, i: nat) returns (scheme: string)
    ensures SchemeLength(s, i) > 0 ==> SchemeAt(s, i, scheme) && |scheme| == SchemeLength(s, i)
    ensures forall other :: SchemeAt(s, i, other) ==> SchemeLength(s, i) > 0
  {
    scheme := if At(Lower(s), i, "bearer") then "bearer" else if At(Lower(s), i, "basic") then "basic" else "token";
  }

  /** No scheme starts another one. */
  lemma OneScheme(s: string, i: nat, a: string, b: string)
    requires SchemeAt(s, i, a) && SchemeAt(s, i, b)
    ensures a == b
  {
    AtMeans(Lower(s), i, a);
    AtMeans(Lower(s), i, b);
    assert a[0] == b[0] && a[1] == b[1];
  }

  lemma SchemeFound(s: string, i: nat, scheme: string)
    requires SchemeAt(s, i, scheme)
    ensures SchemeLength(s, i) == |scheme| && i < |s| && !IsSpace(s[i])
  {
    AtMeans(Lower(s), i, scheme);
    assert Lower(s)[i + 0] == scheme[0] && Lower(s)[i] == LowerChar(s[i]);
    var other := SchemeIs(s, i);
    OneScheme(s, i, scheme, other);
  }

  lemma CredentialsFound(s: string, c: nat)
    ensures CredentialsLength(s, c) > 0 ==> CredentialsAt(s, c, c + CredentialsLength(s, c))
  {
    RunExactly(s, c + 1, HeaderChar());
  }

  lemma CredentialsCover(s: string, c: nat, e: nat)
    requires CredentialsAt(s, c, e)
    ensures e <= c + CredentialsLength(s, c) && !IsSpace(s[c])
  {
    RunCovers(s, c + 1, e - (c + 1), HeaderChar());
  }

  lemma ValueBody(s: string, j: nat, n: nat, f: nat, c: nat)
    requires n == j + Run(s, j, Space()) && f == n + SchemeLength(s, n) && c == f + Run(s, f, Space())
    ensures var v := CredentialsLength(s, c);
            ValueLength(s, j) == if n < f < c && v > 0 then c + v - j else 0
  {
  }

  lemma ValueFound(s: string, j: nat) returns (n: nat, scheme: string, c: nat)
    ensures ValueLength(s, j) > 0 ==> ValueOf(s, j, n, scheme, c, j + ValueLength(s, j))
  {
    n := j + Run(s, j, Space());
    scheme := SchemeIs(s, n);
    var f := n + SchemeLength(s, n);
    c := f + Run(s, f, Space());
    ValueBody(s, j, n, f, c);
    RunTo(s, j, n, Space());
    RunTo(s, f, c, Space());
    CredentialsFound(s, c);
  }

  lemma ValueIsLongest(s: string, j: nat, n: nat, scheme: string, c: nat, e: nat)
    requires ValueOf(s, j, n, scheme, c, e)
    ensures e <= j + ValueLength(s, j) && ValueLength(s, j) > 0
  {
    SchemeFound(s, n, scheme);
    CredentialsCover(s, c, e);
    RunIs(s, j, n - j, Space());
    RunIs(s, n + |scheme|, c - (n + |scheme|), Space());
    ValueBody(s, j, n, n + |scheme|, c);
  }

  lemma HeaderBody(s: string, i: nat, p: nat)
    requires p == i + 13 + Run(s, i + 13, Space())
    ensures var v := ValueLength(s, p + 1);
            HeaderMatch(s, i) ==
            if Boundary(s, i) && At(Lower(s), i, "authorization") && CharAt(s, p, ':') && v > 0 then p + 1 + v - i else 0
  {
    assert p + 1 == i + 14 + Run(s, i + 13, Space());
  }

  lemma HeaderFound(s: string, i: nat)
    ensures HeaderMatch(s, i) > 0 ==> HeaderAt(s, i, HeaderMatch(s, i))
  {
    var p := i + 13 + Run(s, i + 13, Space());
    HeaderBody(s, i, p);
    var n, scheme, c := ValueFound(s, p + 1);
    if HeaderMatch(s, i) > 0 {
      RunTo(s, i + 13, p, Space());
      assert HeaderOf(s, i, p, n, scheme, c, p + 1 + ValueLength(s, p + 1));
    }
  }

  lemma HeaderIsLongest(s: string, i: nat, p: nat, n: nat, scheme: string, c: nat, e: nat)
    requires HeaderOf(s, i, p, n, scheme, c, e)
    ensures e <= i + HeaderMatch(s, i)
  {
    RunIs(s, i + 13, p - (i + 13), Space());
    ValueIsLongest(s, p + 1, n, scheme, c, e);
    HeaderBody(s, i, p);
  }

  lemma HeaderExactly(s: string, i: nat)
    ensures HeaderMatch(s, i) > 0 ==> HeaderAt(s, i, HeaderMatch(s, i))
    ensures forall m: nat :: HeaderAt(s, i, m) ==> m <= HeaderMatch(s, i)
  {
    HeaderFound(s, i);
    forall m: nat | HeaderAt(s, i, m) ensures m <= HeaderMatch(s, i) {
      var p: nat, n: nat, scheme, c: nat, e: nat :| HeaderOf(s, i, p, n, scheme, c, e) && e == i + m;
      HeaderIsLongest(s, i, p, n, scheme, c, e);
    }
  }
}
