/**
 The six patterns of the secret redactor, as the lengths of their leftmost longest matches, and texts on
 which the redactor shows a listed value.
 */
module SecretRegexes {
  import opened JsonBodies
  import opened Options
  import opened Patterns
  import opened SecretPatterns
  import opened SecretRedaction
  import opened Seqs
  import opened Strings

  // ---------------------------------------------------------------- the patterns

  predicate IsLetter(c: char)
  {
    'a' <= c <= 'z' || 'A' <= c <= 'Z'
  }

  function TokenChar(): char -> bool
  {
    (c: char) => IsLetter(c) || IsDigit(c) || c == '_' || c == '-'
  }

  function LongChar(): char -> bool
  {
    (c: char) => IsLetter(c) || IsDigit(c) || c == '_' || c == '-' || c == '+' || c == '/' || c == '='
  }

  function HeaderChar(): char -> bool
  {
    (c: char) => !IsSpace(c) && c != ',' && c != ';' && c != '"' && c != '\''
  }

  function Space(): char -> bool
  {
    (c: char) => IsSpace(c)
  }

  /** The number of characters from position i on that satisfy ok. */
  function Run(s: string, i: nat, ok: char -> bool): nat
    decreases |s| - i
  {
    if i < |s| && ok(s[i]) then 1 + Run(s, i + 1, ok) else 0
  }

  /** The longest stretch from i, between lo and hi characters, that ends at a word boundary; 0 without one. */
  function LongestEnd(s: string, i: nat, lo: nat, hi: nat): (n: nat)
    requires 0 < lo
    ensures n > 0 ==> lo <= n <= hi
  {
    if hi < lo then 0 else if Boundary(s, i + hi) then hi else LongestEnd(s, i, lo, hi - 1)
  }

  predicate CharAt(s: string, i: nat, c: char)
  {
    i < |s| && s[i] == c
  }

  /** The length of the name of an authentication scheme at i, in any letter case; 0 without one. */
  function SchemeLength(s: string, i: nat): nat
  {
    if At(Lower(s), i, "bearer") then 6
    else if At(Lower(s), i, "basic") || At(Lower(s), i, "token") then 5
    else 0
  }

  /** The credentials behind a scheme at i: one letter or digit, and on to the next separator. */
  function CredentialsLength(s: string, i: nat): nat
  {
    if i < |s| && (IsLetter(s[i]) || IsDigit(s[i])) then 1 + Run(s, i + 1, HeaderChar()) else 0
  }

  /** What follows the colon of a header: spaces, a scheme, spaces, credentials. */
  function ValueLength(s: string, i: nat): nat
  {
    var lead := Run(s, i, Space());
    var name := SchemeLength(s, i + lead);
    var gap := Run(s, i + lead + name, Space());
    var value := CredentialsLength(s, i + lead + name + gap);
    if name > 0 && gap > 0 && value > 0 then lead + name + gap + value else 0
  }

  predicate NameAt(s: string, i: nat)
  {
    Boundary(s, i) && At(Lower(s), i, "authorization")
  }

  /** An authorization header in any letter case, up to the end of its credentials. */
  function HeaderMatch(s: string, i: nat): nat
  {
    var gap := Run(s, i + 13, Space());
    var value := ValueLength(s, i + 14 + gap);
    if NameAt(s, i) && CharAt(s, i + 13 + gap, ':') && value > 0 then 14 + gap + value else 0
  }

  function JwtMatch(s: string, i: nat): nat
  {
    if !Boundary(s, i) || !At(s, i, "eyJ") then 0
    else
      var a := Run(s, i + 3, TokenChar());
      var b := Run(s, i + 4 + a, TokenChar());
      var c := LongestEnd(s, i + 5 + a + b, 8, Run(s, i + 5 + a + b, TokenChar()));
      if a >= 8 && At(s, i + 3 + a, ".") && b >= 8 && At(s, i + 4 + a + b, ".") && c > 0 then 5 + a + b + c else 0
  }

  function KeyMatch(s: string, i: nat): nat
  {
    var n := LongestEnd(s, i + 3, 20, Run(s, i + 3, TokenChar()));
    if Boundary(s, i) && At(s, i, "sk-") && n > 0 then 3 + n else 0
  }

  function PrefixAt(s: string, i: nat): nat
  {
    if At(s, i, "bld_") || At(s, i, "dsp_") || At(s, i, "ghp_") || At(s, i, "gho_") then 4
    else if At(s, i, "github_pat_") then 11
    else if At(s, i, "xoxb_") || At(s, i, "xoxa_") || At(s, i, "xoxp_") || At(s, i, "xoxr_") || At(s, i, "xoxs_") then 5
    else 0
  }

  function PrefixedMatch(s: string, i: nat): nat
  {
    var p := PrefixAt(s, i);
    var n := LongestEnd(s, i + p, 16, Run(s, i + p, TokenChar()));
    if Boundary(s, i) && p > 0 && n > 0 then p + n else 0
  }

  function HexMatch(s: string, i: nat): nat
  {
    if Boundary(s, i) then LongestEnd(s, i, 48, HexRun(s, i)) else 0
  }

  function LongMatch(s: string, i: nat): nat
  {
    var run := Run(s, i, LongChar());
    if Boundary(s, i) && HasLetter(s, i, i + run) && HasDigit(s, i, i + run) then LongestEnd(s, i, 48, run) else 0
  }

  predicate HasLetter(s: string, lo: nat, hi: nat)
  {
    exists k :: lo <= k < hi && k < |s| && IsLetter(s[k])
  }

  predicate HasDigit(s: string, lo: nat, hi: nat)
  {
    exists k :: lo <= k < hi && k < |s| && IsDigit(s[k])
  }

  function Regexes(): (finds: seq<Pattern>)
    ensures |finds| == 6
  {
    [HeaderMatch, JwtMatch, KeyMatch, PrefixedMatch, HexMatch, LongMatch]
  }

  // ---------------------------------------------------------------- the redactor with these patterns

  lemma RegexesAllowed()
    ensures Allowed(Regexes())
  {
    forall s: string, k: nat ensures 0 < k < |s| && HeaderMatch(s, k) > 0 ==> !IsWord(s[k - 1]) {
      if 0 < k < |s| && HeaderMatch(s, k) > 0 {
        assert Lower(s)[k..k + 13] == "authorization";
        assert LowerChar(s[k]) == Lower(s)[k] == Lower(s)[k..k + 13][0];
      }
    }
  }

  ghost function SecretRedactor(valid: seq<Secret>): string -> string
    requires NonEmptyValues(valid)
  {
    (t: string) => Redacted(valid, Regexes(), t)
  }

  /** No string value anywhere in a redacted body shows a listed value, when the list itself shows none. */
  lemma {:induction false} BodyHidesSecrets(valid: seq<Secret>, value: Json, s: string, j: nat)
    requires Plainly(valid) && Ranked(valid) && NothingShows(valid)
    requires HasText(Visit(SecretRedactor(valid), value), s) && j < |valid|
    ensures !Occurs(valid[j].value, s)
  {
    var u := TextsComeFrom(SecretRedactor(valid), value, s);
    RegexesAllowed();
    RedactorHides(valid, Regexes(), u, j);
  }

  /** s is a string value or a key of the body. */
  ghost predicate HasString(value: Json, s: string)
  {
    HasText(value, s) || HasKey(value, s)
  }

  ghost predicate ShowsNone(valid: seq<Secret>, value: Json)
  {
    forall s :: HasString(value, s) ==> SecretFree(valid, s)
  }

  /** With the keys included: a redacted body shows no listed value exactly when no key of the body did. */
  lemma {:induction false} BodyHidesSecretsExactly(valid: seq<Secret>, value: Json)
    requires Plainly(valid) && Ranked(valid) && NothingShows(valid)
    ensures ShowsNone(valid, Visit(SecretRedactor(valid), value)) <==>
            forall k :: HasKey(value, k) ==> SecretFree(valid, k)
  {
    var redacted := Visit(SecretRedactor(valid), value);
    forall k ensures HasKey(redacted, k) <==> HasKey(value, k) {
      KeysStay(SecretRedactor(valid), value, k);
    }
    forall s, j: nat | HasText(redacted, s) && j < |valid| ensures !Occurs(valid[j].value, s) {
      BodyHidesSecrets(valid, value, s, j);
    }
    if ShowsNone(valid, redacted) {
      forall k | HasKey(value, k) ensures SecretFree(valid, k) {
        assert HasString(redacted, k);
      }
    }
  }

  /** A listed value that is used as a key is still there after redaction. */
  lemma SecretKeySurvives(valid: seq<Secret>, j: nat, child: Json)
    requires Plainly(valid) && j < |valid|
    ensures HasString(Visit(SecretRedactor(valid), Obj([Field(valid[j].value, child)])), valid[j].value)
  {
    var body := Obj([Field(valid[j].value, child)]);
    assert body.fields[0].key == valid[j].value;
    KeysStay(SecretRedactor(valid), body, valid[j].value);
  }

  // ---------------------------------------------------------------- a hex credential

  ghost predicate AllHex(h: string)
  {
    forall k :: 0 <= k < |h| ==> IsHex(h[k])
  }

  lemma {:induction false} HexRunAll(h: string, i: nat)
    requires AllHex(h) && i <= |h|
    ensures HexRun(h, i) == |h| - i
    decreases |h| - i
  {
    if i < |h| { HexRunAll(h, i + 1); }
  }

  /** None of the first four patterns matches anywhere in hex digits. */
  lemma HexIsNoOther(h: string, i: nat)
    requires AllHex(h) && i < |h|
    ensures HeaderMatch(h, i) == 0 && JwtMatch(h, i) == 0 && KeyMatch(h, i) == 0 && PrefixedMatch(h, i) == 0
  {
    NotAt(Lower(h), i, "authorization", 1);
    NotAt(h, i, "eyJ", 1);
    NotAt(h, i, "sk-", 0);
    PrefixNeedsUnderscore(h, i);
  }

  lemma PrefixNeedsUnderscore(s: string, i: nat)
    ensures PrefixAt(s, i) > 0 ==> '_' in s
  {
    var p := PrefixAt(s, i);
    if p > 0 { assert s[i..i + p][p - 1] == s[i + p - 1]; }
  }

  /** One character tells that w does not stand at i. */
  lemma NotAt(s: string, i: nat, w: string, m: nat)
    requires m < |w| && (i + m >= |s| || s[i + m] != w[m])
    ensures !At(s, i, w)
  {
    assert i + |w| <= |s| ==> s[i..i + |w|][m] == s[i + m];
  }

  lemma ShortHasNoLong(s: string, i: nat)
    requires |s| < 48
    ensures HexMatch(s, i) == 0 && LongMatch(s, i) == 0
  {
    HexRunFits(s, i);
    RunFits(s, i, LongChar());
  }

  lemma {:induction false} HexRunFits(s: string, i: nat)
    ensures HexRun(s, i) <= |s|
    ensures i <= |s| ==> i + HexRun(s, i) <= |s|
    decreases |s| - i
  {
    if i < |s| && IsHex(s[i]) { HexRunFits(s, i + 1); }
  }

  lemma {:induction false} RunFits(s: string, i: nat, ok: char -> bool)
    ensures Run(s, i, ok) <= |s|
    ensures i <= |s| ==> i + Run(s, i, ok) <= |s|
    decreases |s| - i
  {
    if i < |s| && ok(s[i]) { RunFits(s, i + 1, ok); }
  }

  lemma HexMatchesWhole(h: string)
    requires AllHex(h) && |h| >= 48
    ensures HexMatch(h, 0) == |h|
  {
    HexRunAll(h, 0);
    assert WordAt(h, 0) && WordAt(h, |h| - 1);
  }

  ghost predicate StageGoes(rule: Rule, s: string, next: string)
  {
    Scanned(rule.find, Written(rule), s, 0) == next
  }

  /** stages[r] is the text before the r-th pattern. */
  ghost predicate InTurn(rules: seq<Rule>, stages: seq<string>)
  {
    |stages| == |rules| + 1 && forall r :: 0 <= r < |rules| ==> StageGoes(rules[r], stages[r], stages[r + 1])
  }

  lemma {:induction false} PassesInTurn(rules: seq<Rule>, stages: seq<string>, r: nat)
    requires InTurn(rules, stages) && r <= |rules|
    ensures Passed(rules[..r], stages[0]) == stages[r]
  {
    if r > 0 {
      PassesInTurn(rules, stages, r - 1);
      PassedSnoc(rules, r - 1, stages[0]);
      assert StageGoes(rules[r - 1], stages[r - 1], stages[r]);
    }
  }

  lemma NoMatchNoChange(rule: Rule, s: string)
    requires forall i: nat :: i < |s| ==> rule.find(s, i) == 0
    ensures StageGoes(rule, s, s)
  {
    ScanNever(rule.find, Written(rule), s, 0);
  }

  lemma WholeMatch(rule: Rule, s: string)
    requires s != "" && rule.find(s, 0) == |s|
    ensures StageGoes(rule, s, Written(rule))
  {
    assert Scanned(rule.find, Written(rule), s, |s|) == "" && Written(rule) + "" == Written(rule);
  }

  ghost predicate FindsAre(rules: seq<Rule>, finds: seq<Pattern>)
  {
    |rules| == |finds| && forall k :: 0 <= k < |rules| ==> rules[k].find == finds[k]
  }

  lemma HexGoesOn(h: string, rules: seq<Rule>, r: nat)
    requires AllHex(h) && FindsAre(rules, Regexes()) && r < 4
    ensures StageGoes(rules[r], h, h)
  {
    forall i: nat | i < |h| ensures rules[r].find(h, i) == 0 {
      HexIsNoOther(h, i);
    }
    NoMatchNoChange(rules[r], h);
  }

  lemma ShortGoesOn(s: string, rules: seq<Rule>, r: nat)
    requires |s| < 48 && FindsAre(rules, Regexes()) && 4 <= r < 6
    ensures StageGoes(rules[r], s, s)
  {
    forall i: nat | i < |s| ensures rules[r].find(s, i) == 0 {
      ShortHasNoLong(s, i);
    }
    NoMatchNoChange(rules[r], s);
  }

  lemma HexChanges(h: string, rules: seq<Rule>)
    requires AllHex(h) && |h| >= 48 && FindsAre(rules, Regexes())
    ensures StageGoes(rules[4], h, Written(rules[4]))
  {
    HexMatchesWhole(h);
    WholeMatch(rules[4], h);
  }

  /** Six stages in which at most one pattern changes the text. */
  lemma {:induction false} OneChange(rules: seq<Rule>, r: nat, before: string, after: string)
    requires |rules| == 6 && r < 6 && StageGoes(rules[r], before, after)
    requires forall q :: 0 <= q < r ==> StageGoes(rules[q], before, before)
    requires forall q :: r < q < 6 ==> StageGoes(rules[q], after, after)
    ensures Passed(rules, before) == after
  {
    var stages := seq(7, q => if q <= r then before else after);
    PassesInTurn(rules, stages, 6);
    assert rules[..6] == rules;
  }

  lemma RulesFind(finds: seq<Pattern>)
    requires |finds| == 6
    ensures FindsAre(Rules(finds), finds)
  {
  }

  lemma {:induction false} HexGoesThrough(h: string, rules: seq<Rule>)
    requires AllHex(h) && |h| >= 48 && FindsAre(rules, Regexes()) && |Written(rules[4])| < 48
    ensures Passed(rules, h) == Written(rules[4])
  {
    forall r: nat | r < 4 ensures StageGoes(rules[r], h, h) {
      HexGoesOn(h, rules, r);
    }
    HexChanges(h, rules);
    ShortGoesOn(Written(rules[4]), rules, 5);
    OneChange(rules, 4, h, Written(rules[4]));
  }

  lemma {:induction false} HexRedacts(h: string)
    requires AllHex(h) && |h| >= 48
    ensures Passed(Rules(Regexes()), h) == Written(Rules(Regexes())[4])
  {
    RulesFind(Regexes());
    HexGoesThrough(h, Rules(Regexes()));
  }

  /**
   A listed part of "REDACTED:credential", such as credential itself, is shown by every long hex text that
   the loop lets through.
   */
  lemma CredentialSurvives(valid: seq<Secret>, j: nat, h: string)
    requires Plainly(valid) && j < |valid| && Occurs(valid[j].value, "REDACTED:credential")
    requires AllHex(h) && |h| >= 48 && SecretFree(valid, h)
    ensures Occurs(valid[j].value, Redacted(valid, Regexes(), h))
  {
    LongerAbsent(valid, h);
    HexRedacts(h);
    var rule := Rules(Regexes())[4];
    OccursInWritten(valid[j].value, rule.pre, rule.inner);
  }

  // ---------------------------------------------------------------- a header in capitals

  const HEADER: string := "AUTHORIZATION: Bearer abc"

  /** A few characters that start no pattern. */
  predicate Quiet(x: string)
  {
    |x| < 9 && forall k :: 0 <= k < |x| ==> x[k] != 'a' && x[k] != 'A' && !StartsOther(x[k])
  }

  predicate StartsOther(c: char)
  {
    c == 'J' || c == 'k' || c == '_'
  }

  /** Without these letters the three patterns behind the header's have no match. */
  lemma NoOtherStarts(s: string, i: nat)
    requires forall k :: 0 <= k < |s| ==> !StartsOther(s[k])
    ensures JwtMatch(s, i) == 0 && KeyMatch(s, i) == 0 && PrefixedMatch(s, i) == 0
  {
    NotAt(s, i, "eyJ", 2);
    NotAt(s, i, "sk-", 1);
    PrefixNeedsUnderscore(s, i);
  }

  lemma LowerHeader()
    ensures Lower(HEADER) == "authorization: bearer abc"
  {
  }

  lemma LowerAfter(x: string)
    ensures Lower(x + HEADER)[|x|..] == "authorization: bearer abc"
  {
    LowerHeader();
    assert Lower(x + HEADER)[|x|..] == Lower(HEADER);
  }

  lemma OneSpace(s: string, i: nat)
    requires i + 1 < |s| && IsSpace(s[i]) && !IsSpace(s[i + 1])
    ensures Run(s, i, Space()) == 1
  {
    assert Run(s, i + 1, Space()) == 0;
  }

  lemma {:induction false} HeaderSpaces(x: string)
    ensures Run(x + HEADER, |x| + 14, Space()) == 1 && Run(x + HEADER, |x| + 21, Space()) == 1
  {
    var s, n := x + HEADER, |x|;
    assert s[n + 14] == HEADER[14] && s[n + 15] == HEADER[15];
    assert s[n + 21] == HEADER[21] && s[n + 22] == HEADER[22];
    OneSpace(s, n + 14);
    OneSpace(s, n + 21);
  }

  lemma HeaderScheme(x: string)
    ensures SchemeLength(x + HEADER, |x| + 15) == 6
  {
    var s, n := Lower(x + HEADER), |x|;
    LowerAfter(x);
    assert s[n + 15..n + 21] == s[n..][15..21] == "bearer";
  }

  lemma HeaderCredentials(x: string)
    ensures CredentialsLength(x + HEADER, |x| + 22) == 3
  {
    var s, n := x + HEADER, |x|;
    assert s[n + 22] == HEADER[22] && s[n + 23] == HEADER[23] && s[n + 24] == HEADER[24];
    assert Run(s, n + 25, HeaderChar()) == 0;
    assert Run(s, n + 24, HeaderChar()) == 1;
    assert Run(s, n + 23, HeaderChar()) == 2;
  }

  lemma HeaderValue(x: string)
    ensures ValueLength(x + HEADER, |x| + 14) == 11
  {
    HeaderSpaces(x);
    HeaderScheme(x);
    HeaderCredentials(x);
  }

  lemma HeaderName(x: string)
    requires x == "" || !IsWord(x[|x| - 1])
    ensures NameAt(x + HEADER, |x|)
  {
    var s, n := x + HEADER, |x|;
    LowerAfter(x);
    assert s[n] == 'A' && WordAt(s, n);
    assert Lower(s)[n..n + 13] == Lower(s)[n..][..13] == "authorization";
  }

  lemma {:induction false} HeaderColon(x: string)
    ensures CharAt(x + HEADER, |x| + 13, ':') && Run(x + HEADER, |x| + 13, Space()) == 0
  {
    assert (x + HEADER)[|x| + 13] == HEADER[13] == ':';
  }

  lemma HeaderMatches(x: string)
    requires x == "" || !IsWord(x[|x| - 1])
    ensures HeaderMatch(x + HEADER, |x|) == 25
  {
    HeaderName(x);
    HeaderColon(x);
    HeaderValue(x);
  }

  lemma HeaderNotBefore(x: string, i: nat)
    requires Quiet(x) && i < |x|
    ensures HeaderMatch(x + HEADER, i) == 0
  {
    NotAt(Lower(x + HEADER), i, "authorization", 0);
  }

  /** The only match reaches to the end. */
  lemma LastMatch(rule: Rule, x: string, y: string)
    requires y != "" && rule.find(x + y, |x|) == |y|
    requires forall l: nat :: l < |x| ==> rule.find(x + y, l) == 0
    ensures StageGoes(rule, x + y, x + Written(rule))
  {
    var s, g := x + y, Written(rule);
    ScanUntil(rule.find, g, s, 0, |x|);
    assert Scanned(rule.find, g, s, |s|) == "";
    assert s[0..|x|] == x && g + "" == g;
  }

  lemma HeaderChanges(x: string, rules: seq<Rule>)
    requires Quiet(x) && (x == "" || !IsWord(x[|x| - 1])) && FindsAre(rules, Regexes())
    ensures StageGoes(rules[0], x + HEADER, x + Written(rules[0]))
  {
    assert rules[0].find == HeaderMatch;
    forall l: nat | l < |x| ensures rules[0].find(x + HEADER, l) == 0 {
      HeaderNotBefore(x, l);
    }
    HeaderMatches(x);
    LastMatch(rules[0], x, HEADER);
  }

  /** A short text without the letters that start a pattern is left as it is by the last five. */
  lemma RestGoesOn(s: string, rules: seq<Rule>, r: nat)
    requires |s| < 48 && FindsAre(rules, Regexes()) && 0 < r < 6
    requires forall k :: 0 <= k < |s| ==> !StartsOther(s[k])
    ensures StageGoes(rules[r], s, s)
  {
    if r < 4 {
      forall i: nat | i < |s| ensures rules[r].find(s, i) == 0 {
        NoOtherStarts(s, i);
      }
      NoMatchNoChange(rules[r], s);
    } else {
      ShortGoesOn(s, rules, r);
    }
  }

  lemma {:induction false} HeaderGoesThrough(x: string, rules: seq<Rule>)
    requires Quiet(x) && (x == "" || !IsWord(x[|x| - 1])) && FindsAre(rules, Regexes())
    requires |Written(rules[0])| <= 39 && forall k :: 0 <= k < |Written(rules[0])| ==> !StartsOther(Written(rules[0])[k])
    ensures Passed(rules, x + HEADER) == x + Written(rules[0])
  {
    var after := x + Written(rules[0]);
    HeaderChanges(x, rules);
    forall r: nat | 0 < r < 6 ensures StageGoes(rules[r], after, after) {
      RestGoesOn(after, rules, r);
    }
    OneChange(rules, 0, x + HEADER, after);
  }

  lemma HeaderIsQuiet()
    ensures var text := AUTHORIZATION + HEADER_TOKEN;
            |text| == 39 && forall k :: 0 <= k < |text| ==> !StartsOther(text[k])
  {
  }

  lemma {:induction false} HeaderRedacts(x: string)
    requires Quiet(x) && (x == "" || !IsWord(x[|x| - 1]))
    ensures Passed(Rules(Regexes()), x + HEADER) == x + (AUTHORIZATION + HEADER_TOKEN)
  {
    var rules := Rules(Regexes());
    RulesFind(Regexes());
    FirstWritten(Regexes());
    HeaderIsQuiet();
    HeaderGoesThrough(x, rules);
  }

  lemma OccursFurther(w: string, x: string, y: string, z: string)
    requires Occurs(w, x + y)
    ensures Occurs(w, x + (y + z))
  {
    OccursWider(w, "", x + y, z);
    assert "" + (x + y) + z == x + (y + z);
  }

  /**
   The unbracketed text of the first pattern: a header in capitals is rewritten to one in the usual
   spelling, which shows a listed value that stands in it or that ends in its start.
   */
  lemma HeaderSurvives(valid: seq<Secret>, j: nat, x: string)
    requires Plainly(valid) && j < |valid| && Quiet(x) && (x == "" || !IsWord(x[|x| - 1]))
    requires SecretFree(valid, x + HEADER) && Occurs(valid[j].value, x + AUTHORIZATION)
    ensures Occurs(valid[j].value, Redacted(valid, Regexes(), x + HEADER))
  {
    LongerAbsent(valid, x + HEADER);
    HeaderRedacts(x);
    OccursFurther(valid[j].value, x, AUTHORIZATION, HEADER_TOKEN);
  }

  const HEADER_NAME: string := "Authorization"

  lemma NameNotInHeader(x: string)
    ensures !Occurs(x + HEADER_NAME, x + HEADER)
  {
    var w, s := x + HEADER_NAME, x + HEADER;
    forall k: nat ensures !At(s, k, w) {
      if k + |w| <= |s| {
        assert s[k..k + |w|][|x| + 1] == s[k + |x| + 1] == HEADER[k + 1] != 'u';
      }
    }
  }

  lemma NameInAuthorization(x: string)
    ensures Occurs(x + HEADER_NAME, x + AUTHORIZATION)
  {
    assert (x + AUTHORIZATION)[0..|x| + 13] == x + HEADER_NAME;
    OccursIn(x + HEADER_NAME, x + AUTHORIZATION, 0);
  }

  lemma NameIsPlain(x: string)
    requires BracketFree(x)
    ensures BracketFree(x + HEADER_NAME)
  {
    forall k | 0 <= k < |x + HEADER_NAME| ensures !IsBracket((x + HEADER_NAME)[k]) {
      if k >= |x| { assert (x + HEADER_NAME)[k] == HEADER_NAME[k - |x|]; }
    }
  }

  lemma OnlySecretSurvives(w: string, x: string)
    requires w != "" && BracketFree(w) && Quiet(x) && (x == "" || !IsWord(x[|x| - 1]))
    requires !Occurs(w, x + HEADER) && Occurs(w, x + AUTHORIZATION)
    ensures var valid := [Secret(w, None)];
            Plainly(valid) && Ranked(valid) && Occurs(valid[0].value, Redacted(valid, Regexes(), x + HEADER))
  {
    HeaderSurvives([Secret(w, None)], 0, x);
  }

  /** A list with the name of the header, alone or with a few characters in front, is the simplest case. */
  lemma HeaderNameSurvives(x: string)
    requires Quiet(x) && BracketFree(x) && (x == "" || !IsWord(x[|x| - 1]))
    ensures var valid := [Secret(x + HEADER_NAME, None)];
            Plainly(valid) && Ranked(valid) && Occurs(valid[0].value, Redacted(valid, Regexes(), x + HEADER))
  {
    var w := x + HEADER_NAME;
    NameNotInHeader(x);
    NameInAuthorization(x);
    NameIsPlain(x);
    OnlySecretSurvives(w, x);
  }
}
