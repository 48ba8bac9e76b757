/**
 The second pass of the secret redactor. After the literal loop six patterns replace what looks like a
 credential, and each writes a fixed text of its own. The question is whether such a text, or the seam in
 front of one, can show a listed value that the loop had removed.

 Here the matches are arbitrary disjoint ranges of the text; SecretRegexes has the six regular expressions.
 */
module SecretPatterns {
  import opened Options
  import opened Patterns
  import opened SecretRedaction
  import opened Seqs
  import opened Strings

  // ---------------------------------------------------------------- one pattern

  /** Where a pattern matches, and what it writes: some text, then a text in brackets. */
  datatype Rule = Rule(find: Pattern, pre: string, inner: string)

  function Written(rule: Rule): string
  {
    rule.pre + "[" + rule.inner + "]"
  }

  /** s from position i on, with every match replaced by g. */
  function Scanned(f: Pattern, g: string, s: string, i: nat): string
    decreases |s| - i
  {
    if i >= |s| then ""
    else if f(s, i) > 0 then g + Scanned(f, g, s, i + f(s, i))
    else [s[i]] + Scanned(f, g, s, i + 1)
  }

  method ReplaceMatches(f: Pattern, g: string, s: string) returns (result: string)
    ensures result == Scanned(f, g, s, 0)
  {
    result := "";
    var i := 0;
    while i < |s|
      invariant result + Scanned(f, g, s, i) == Scanned(f, g, s, 0)
    {
      var m := f(s, i);
      if m > 0 {
        Reassociate(result, g, Scanned(f, g, s, i + m));
        result := result + g;
        i := i + m;
      } else {
        Reassociate(result, [s[i]], Scanned(f, g, s, i + 1));
        result := result + [s[i]];
        i := i + 1;
      }
    }
    assert result + "" == result;
  }

  /** w stands in the untouched text between e and a match at k, continued by what the rule writes first. */
  ghost predicate SeamAt(rule: Rule, s: string, w: string, e: nat, k: nat)
  {
    e <= k < |s| && rule.find(s, k) > 0 && Occurs(w, s[e..k] + rule.pre)
  }

  ghost predicate SeamIn(rule: Rule, s: string, w: string)
  {
    exists e: nat, k: nat :: SeamAt(rule, s, w, e, k)
  }

  lemma OccursInSlice(w: string, s: string, lo: nat, hi: nat)
    requires lo <= hi <= |s| && Occurs(w, s[lo..hi])
    ensures Occurs(w, s)
  {
    OccursWider(w, s[..lo], s[lo..hi], s[hi..]);
    assert s[..lo] + s[lo..hi] + s[hi..] == s;
  }

  lemma ScanStep(rule: Rule, s: string, e: nat, i: nat)
    requires e <= i < |s|
    ensures var rest := Scanned(rule.find, Written(rule), s, i);
            var m := rule.find(s, i);
            s[e..i] + rest ==
              if m == 0 then s[e..i + 1] + Scanned(rule.find, Written(rule), s, i + 1)
              else (s[e..i] + rule.pre) + "[" + rule.inner + "]" + Scanned(rule.find, Written(rule), s, i + m)
  {
    var m := rule.find(s, i);
    if m == 0 {
      assert s[e..i + 1] == s[e..i] + [s[i]];
      Reassociate(s[e..i], [s[i]], Scanned(rule.find, Written(rule), s, i + 1));
    } else {
      var tail := Scanned(rule.find, Written(rule), s, i + m);
      assert s[e..i] + (rule.pre + "[" + rule.inner + "]" + tail) ==
             (s[e..i] + rule.pre) + "[" + rule.inner + "]" + tail;
    }
  }

  /** Where a bracket-free word in the output comes from: the input, the bracketed text, or a seam. */
  lemma {:induction false} ScanOrigin(rule: Rule, s: string, e: nat, i: nat, w: string)
    requires BracketFree(w) && w != "" && e <= i <= |s|
    requires Occurs(w, s[e..i] + Scanned(rule.find, Written(rule), s, i))
    ensures Occurs(w, s) || Occurs(w, rule.inner) || SeamIn(rule, s, w)
    decreases |s| - i
  {
    if i == |s| {
      assert s[e..i] + "" == s[e..i];
      OccursInSlice(w, s, e, i);
    } else {
      ScanStep(rule, s, e, i);
      var m := rule.find(s, i);
      if m == 0 {
        ScanOrigin(rule, s, e, i + 1, w);
      } else {
        var tail := Scanned(rule.find, Written(rule), s, i + m);
        OccursAroundToken(w, s[e..i] + rule.pre, rule.inner, tail);
        if Occurs(w, s[e..i] + rule.pre) {
          assert SeamAt(rule, s, w, e, i);
        } else if Occurs(w, tail) && i + m <= |s| {
          assert s[i + m..i + m] + tail == tail;
          ScanOrigin(rule, s, i + m, i + m, w);
        }
      }
    }
  }

  lemma {:induction false} ScanShows(rule: Rule, s: string, w: string)
    requires BracketFree(w) && w != "" && Occurs(w, Scanned(rule.find, Written(rule), s, 0))
    ensures Occurs(w, s) || Occurs(w, rule.inner) || SeamIn(rule, s, w)
  {
    var out := Scanned(rule.find, Written(rule), s, 0);
    assert s[0..0] + out == out;
    ScanOrigin(rule, s, 0, 0, w);
  }

  /** Without text in front of its brackets a rule has no seam. */
  lemma NoSeam(rule: Rule, s: string, w: string)
    requires rule.pre == "" && SeamIn(rule, s, w)
    ensures Occurs(w, s)
  {
    var e: nat, k: nat :| SeamAt(rule, s, w, e, k);
    assert s[e..k] + "" == s[e..k];
    OccursInSlice(w, s, e, k);
  }

  // ---------------------------------------------------------------- the whole redactor

  /** Applies the rules in turn. */
  function Passed(rules: seq<Rule>, s: string): string
  {
    if rules == [] then s else Passed(rules[1..], Scanned(rules[0].find, Written(rules[0]), s, 0))
  }

  const AUTHORIZATION: string := "Authorization: "

  /** The texts that the six patterns write, in their order. */
  function Rules(finds: seq<Pattern>): seq<Rule>
    requires |finds| == 6
  {
    [Rule(finds[0], AUTHORIZATION, "REDACTED:authorization"), Rule(finds[1], "", "REDACTED:jwt"),
     Rule(finds[2], "", "REDACTED:token"), Rule(finds[3], "", "REDACTED:token"),
     Rule(finds[4], "", "REDACTED:credential"), Rule(finds[5], "", "REDACTED:credential")]
  }

  /** The redactor: the literal loop and then the patterns. */
  ghost function Redacted(valid: seq<Secret>, finds: seq<Pattern>, t: string): string
    requires NonEmptyValues(valid) && |finds| == 6
  {
    Passed(Rules(finds), RedactAll(valid, t))
  }

  lemma {:induction false} PassedSnoc(rules: seq<Rule>, k: nat, s: string)
    requires k < |rules|
    ensures Passed(rules[..k + 1], s) == Scanned(rules[k].find, Written(rules[k]), Passed(rules[..k], s), 0)
    decreases k
  {
    if k == 0 {
      assert rules[..1][1..] == [];
    } else {
      PassedSnoc(rules[1..], k - 1, Scanned(rules[0].find, Written(rules[0]), s, 0));
      assert rules[..k + 1][1..] == rules[1..][..k];
      assert rules[..k][1..] == rules[1..][..k - 1];
    }
  }

  lemma {:induction false} PassedEmpty(rules: seq<Rule>)
    ensures Passed(rules, "") == ""
    decreases |rules|
  {
    if rules != [] { PassedEmpty(rules[1..]); }
  }

  method Redact(valid: seq<Secret>, finds: seq<Pattern>, text: string) returns (result: string)
    requires NonEmptyValues(valid) && |finds| == 6
    ensures result == Redacted(valid, finds, text)
  {
    if text == "" {
      EmptyText(valid);
      PassedEmpty(Rules(finds));
      return text;
    }
    result := RedactLiterals(valid, text);
    var rules := Rules(finds);
    ghost var literal := result;
    for k := 0 to |rules|
      invariant result == Passed(rules[..k], literal)
    {
      PassedSnoc(rules, k, literal);
      result := ReplaceMatches(rules[k].find, Written(rules[k]), result);
    }
    assert rules[..|rules|] == rules;
  }

  // ---------------------------------------------------------------- what survives

  /** What is asked of the matches: the first pattern starts at a word boundary. */
  ghost predicate Allowed(finds: seq<Pattern>)
  {
    |finds| == 6 && forall s, k: nat :: 0 < k < |s| && finds[0](s, k) > 0 ==> !IsWord(s[k - 1])
  }

  /** No listed value is left in any text. */
  ghost predicate Hides(valid: seq<Secret>, finds: seq<Pattern>)
    requires NonEmptyValues(valid) && |finds| == 6
  {
    forall t, j :: 0 <= j < |valid| ==> !Occurs(valid[j].value, Redacted(valid, finds, t))
  }

  /** The value is part of a text that some pattern writes in brackets. */
  ghost predicate WrittenShows(w: string)
  {
    Occurs(w, "REDACTED:authorization") || Occurs(w, "REDACTED:jwt") || Occurs(w, "REDACTED:token") ||
    Occurs(w, "REDACTED:credential")
  }

  /** Cut after n characters, w ends in the way the unbracketed text starts, behind a boundary. */
  ghost predicate SplitsAtSeam(valid: seq<Secret>, w: string, n: nat)
  {
    0 < n < |w| && !IsWord(w[n - 1]) && w[n..] <= AUTHORIZATION && SecretFree(valid, w[..n])
  }

  /** The unbracketed text shows the value, alone or behind text that the loop lets through. */
  ghost predicate SeamShows(valid: seq<Secret>, w: string)
  {
    Occurs(w, AUTHORIZATION) || exists n: nat :: SplitsAtSeam(valid, w, n)
  }

  /** A word at the end of a joint lies on one side, or is cut by it. */
  lemma OccursAtJoint(w: string, x: string, y: string) returns (n: nat)
    requires Occurs(w, x + y) && !Occurs(w, x) && !Occurs(w, y)
    ensures 0 < n < |w| && n <= |x| && w[..n] == x[|x| - n..] && w[n..] <= y
  {
    var t := x + y;
    var k: nat :| k <= |t| && At(t, k, w);
    if k + |w| <= |x| {
      assert x[k..k + |w|] == t[k..k + |w|];
      OccursIn(w, x, k);
    }
    if k >= |x| {
      assert y[k - |x|..k - |x| + |w|] == t[k..k + |w|];
      OccursIn(w, y, k - |x|);
    }
    n := |x| - k;
    assert w == t[k..k + |w|];
    assert w[..n] == t[k..|x|] == x[k..];
    assert w[n..] == t[|x|..k + |w|] == y[..|w| - n];
  }

  /** A seam on a text without listed values is one that the list itself shows. */
  lemma SeamIsShown(valid: seq<Secret>, find: Pattern, s: string, w: string)
    requires BracketFree(w) && w != "" && SecretFree(valid, s) && !Occurs(w, s)
    requires forall k: nat :: 0 < k < |s| && find(s, k) > 0 ==> !IsWord(s[k - 1])
    requires SeamIn(Rule(find, AUTHORIZATION, "REDACTED:authorization"), s, w)
    ensures SeamShows(valid, w)
  {
    var rule := Rule(find, AUTHORIZATION, "REDACTED:authorization");
    var e: nat, k: nat :| SeamAt(rule, s, w, e, k);
    if !Occurs(w, AUTHORIZATION) {
      if Occurs(w, s[e..k]) { OccursInSlice(w, s, e, k); }
      var n := OccursAtJoint(w, s[e..k], AUTHORIZATION);
      assert w[..n] == s[k - n..k];
      forall j | 0 <= j < |valid| ensures !Occurs(valid[j].value, w[..n]) {
        if Occurs(valid[j].value, w[..n]) { OccursInSlice(valid[j].value, s, k - n, k); }
      }
      assert w[n - 1] == s[k - 1];
      assert SplitsAtSeam(valid, w, n);
    }
  }

  /** A rule without unbracketed text keeps a word away that its bracketed text does not show. */
  lemma {:induction false} RuleKeepsAway(rule: Rule, s: string, w: string)
    requires BracketFree(w) && w != "" && rule.pre == "" && !Occurs(w, s) && !Occurs(w, rule.inner)
    ensures !Occurs(w, Scanned(rule.find, Written(rule), s, 0))
  {
    if Occurs(w, Scanned(rule.find, Written(rule), s, 0)) {
      ScanShows(rule, s, w);
      if SeamIn(rule, s, w) { NoSeam(rule, s, w); }
    }
  }

  lemma {:induction false} RulesKeepAway(rules: seq<Rule>, s: string, w: string)
    requires BracketFree(w) && w != "" && !Occurs(w, s)
    requires forall k :: 0 <= k < |rules| ==> rules[k].pre == "" && !Occurs(w, rules[k].inner)
    ensures !Occurs(w, Passed(rules, s))
    decreases |rules|
  {
    if rules != [] {
      RuleKeepsAway(rules[0], s, w);
      RulesKeepAway(rules[1..], Scanned(rules[0].find, Written(rules[0]), s, 0), w);
    }
  }

  lemma {:induction false} FirstRuleKeepsAway(valid: seq<Secret>, find: Pattern, s: string, w: string)
    requires BracketFree(w) && w != "" && SecretFree(valid, s) && !Occurs(w, s)
    requires forall k: nat :: 0 < k < |s| && find(s, k) > 0 ==> !IsWord(s[k - 1])
    requires !WrittenShows(w) && !SeamShows(valid, w)
    ensures var rule := Rule(find, AUTHORIZATION, "REDACTED:authorization");
            !Occurs(w, Scanned(rule.find, Written(rule), s, 0))
  {
    var rule := Rule(find, AUTHORIZATION, "REDACTED:authorization");
    if Occurs(w, Scanned(rule.find, Written(rule), s, 0)) {
      ScanShows(rule, s, w);
      SeamIsShown(valid, find, s, w);
    }
  }

  /** The list alone decides: its tokens, the texts of the patterns, and the one seam. */
  ghost predicate NothingShows(valid: seq<Secret>)
    requires NonEmptyValues(valid)
  {
    && TokensAreClean(valid)
    && forall j :: 0 <= j < |valid| ==> !WrittenShows(valid[j].value) && !SeamShows(valid, valid[j].value)
  }

  lemma RedactorHides(valid: seq<Secret>, finds: seq<Pattern>, t: string, j: nat)
    requires Plainly(valid) && Ranked(valid) && NothingShows(valid) && Allowed(finds) && j < |valid|
    ensures !Occurs(valid[j].value, Redacted(valid, finds, t))
  {
    LoopHidesExactly(valid);
    var w, u, rules := valid[j].value, RedactAll(valid, t), Rules(finds);
    assert SecretFree(valid, u);
    FirstRuleKeepsAway(valid, finds[0], u, w);
    RulesKeepAway(rules[1..], Scanned(rules[0].find, Written(rules[0]), u, 0), w);
  }

  // ---------------------------------------------------------------- the other direction

  /** A pattern that matches one character, at one place of one text. */
  function OnlyAt(text: string, k: nat): Pattern
  {
    (s: string, i: nat) => if s == text && i == k then 1 else 0
  }

  function Never(): Pattern
  {
    (s: string, i: nat) => 0
  }

  lemma {:induction false} ScanNever(f: Pattern, g: string, s: string, i: nat)
    requires i <= |s| && forall k: nat :: i <= k < |s| ==> f(s, k) == 0
    ensures Scanned(f, g, s, i) == s[i..]
    decreases |s| - i
  {
    if i < |s| {
      ScanNever(f, g, s, i + 1);
      assert s[i..] == [s[i]] + s[i + 1..];
    }
  }

  lemma {:induction false} ScanUntil(f: Pattern, g: string, s: string, i: nat, k: nat)
    requires i <= k < |s| && f(s, k) > 0 && forall l: nat :: i <= l < k ==> f(s, l) == 0
    ensures Scanned(f, g, s, i) == s[i..k] + (g + Scanned(f, g, s, k + f(s, k)))
    decreases k - i
  {
    if i < k {
      ScanUntil(f, g, s, i + 1, k);
      assert s[i..k] == [s[i]] + s[i + 1..k];
      Reassociate([s[i]], s[i + 1..k], g + Scanned(f, g, s, k + f(s, k)));
    } else {
      assert s[i..k] + (g + Scanned(f, g, s, k + f(s, k))) == g + Scanned(f, g, s, k + f(s, k));
    }
  }

  function Pick(r: nat, k: nat, text: string): Pattern
    requires text != ""
  {
    if k == r then OnlyAt(text, |text| - 1) else Never()
  }

  /** Six patterns of which only number r matches, and only the last character of a text. */
  function Lone(r: nat, text: string): seq<Pattern>
    requires text != ""
  {
    [Pick(r, 0, text), Pick(r, 1, text), Pick(r, 2, text), Pick(r, 3, text), Pick(r, 4, text), Pick(r, 5, text)]
  }

  lemma {:induction false} PassedNever(rules: seq<Rule>, s: string)
    requires forall k :: 0 <= k < |rules| ==> rules[k].find == Never()
    ensures Passed(rules, s) == s
    decreases |rules|
  {
    if rules != [] {
      ScanNever(rules[0].find, Written(rules[0]), s, 0);
      PassedNever(rules[1..], s);
    }
  }

  lemma {:induction false} ScanLast(rule: Rule, text: string)
    requires text != "" && rule.find == OnlyAt(text, |text| - 1)
    ensures Scanned(rule.find, Written(rule), text, 0) == text[..|text| - 1] + Written(rule)
  {
    var n := |text| - 1;
    ScanUntil(rule.find, Written(rule), text, 0, n);
    assert Scanned(rule.find, Written(rule), text, n + 1) == "";
    assert text[0..n] + (Written(rule) + "") == text[..n] + Written(rule);
  }

  /** The lone pattern cuts off the last character and writes its text there. */
  lemma {:induction false} LonePass(rules: seq<Rule>, r: nat, text: string)
    requires r < |rules| && text != "" && rules[r].find == OnlyAt(text, |text| - 1)
    requires forall k :: 0 <= k < |rules| && k != r ==> rules[k].find == Never()
    ensures Passed(rules, text) == text[..|text| - 1] + Written(rules[r])
  {
    PassedSplit(rules, r, text);
    PassedNever(rules[..r], text);
    ScanLast(rules[r], text);
    assert rules[r..][1..] == rules[r + 1..];
    PassedNever(rules[r + 1..], text[..|text| - 1] + Written(rules[r]));
  }

  lemma {:induction false} PassedSplit(rules: seq<Rule>, r: nat, s: string)
    requires r <= |rules|
    ensures Passed(rules, s) == Passed(rules[r..], Passed(rules[..r], s))
    decreases r
  {
    if r > 0 {
      PassedSplit(rules[1..], r - 1, Scanned(rules[0].find, Written(rules[0]), s, 0));
      assert rules[1..][r - 1..] == rules[r..];
      assert rules[1..][..r - 1] == rules[..r][1..];
    }
  }

  /** A text without listed values, with a bracket behind it, goes through the loop as it is. */
  lemma {:induction false} LoopPasses(valid: seq<Secret>, x: string)
    requires Plainly(valid) && SecretFree(valid, x)
    ensures RedactAll(valid, x + "[") == x + "["
  {
    forall j | 0 <= j < |valid| ensures !Occurs(valid[j].value, x + "[") {
      OccursAcross(valid[j].value, x, '[', "");
      assert x + ['['] + "" == x + "[";
    }
    LongerAbsent(valid, x + "[");
  }

  lemma LoneRedacts(valid: seq<Secret>, r: nat, x: string)
    requires Plainly(valid) && SecretFree(valid, x) && r < 6
    ensures var finds := Lone(r, x + "[");
            |finds| == 6 && Redacted(valid, finds, x + "[") == x + Written(Rules(finds)[r])
  {
    var text := x + "[";
    var finds := Lone(r, text);
    LoopPasses(valid, x);
    LonePass(Rules(finds), r, text);
    assert text[..|text| - 1] == x;
  }

  lemma LoneIsAllowed(r: nat, x: string)
    requires r < 6 && (r == 0 && x != "" ==> !IsWord(x[|x| - 1]))
    ensures Allowed(Lone(r, x + "["))
  {
    var text := x + "[";
    var finds := Lone(r, text);
    forall s, k: nat | 0 < k < |s| && finds[0](s, k) > 0 ensures !IsWord(s[k - 1]) {
      assert r == 0 && s == text && k == |x|;
    }
  }

  lemma NotHidden(valid: seq<Secret>, finds: seq<Pattern>, t: string, j: nat)
    requires Plainly(valid) && Allowed(finds) && j < |valid| && Occurs(valid[j].value, Redacted(valid, finds, t))
    ensures exists finds :: Allowed(finds) && !Hides(valid, finds)
  {
    assert !Hides(valid, finds);
  }

  /** Some pattern, where it matches, writes a text that shows the value. */
  lemma RuleShows(valid: seq<Secret>, j: nat, r: nat)
    requires Plainly(valid) && j < |valid| && r < 6
    requires Occurs(valid[j].value, Written(Rules(Lone(r, "["))[r]))
    ensures exists finds :: Allowed(finds) && !Hides(valid, finds)
  {
    var finds := Lone(r, "[");
    LoneIsAllowed(r, "");
    assert "" + "[" == "[";
    forall i | 0 <= i < |valid| ensures !Occurs(valid[i].value, "") {
    }
    LoneRedacts(valid, r, "");
    assert "" + Written(Rules(finds)[r]) == Written(Rules(finds)[r]);
    NotHidden(valid, finds, "[", j);
  }

  lemma OccursInWritten(w: string, pre: string, inner: string)
    requires Occurs(w, pre) || Occurs(w, inner)
    ensures Occurs(w, pre + "[" + inner + "]")
  {
    if Occurs(w, pre) {
      OccursWider(w, "", pre, "[" + inner + "]");
      assert "" + pre + ("[" + inner + "]") == pre + "[" + inner + "]";
    } else {
      OccursWider(w, pre + "[", inner, "]");
    }
  }

  lemma WrittenSurvives(valid: seq<Secret>, j: nat)
    requires Plainly(valid) && j < |valid|
    requires WrittenShows(valid[j].value) || Occurs(valid[j].value, AUTHORIZATION)
    ensures exists finds :: Allowed(finds) && !Hides(valid, finds)
  {
    var w := valid[j].value;
    var r: nat := if Occurs(w, AUTHORIZATION) || Occurs(w, "REDACTED:authorization") then 0
                  else if Occurs(w, "REDACTED:jwt") then 1
                  else if Occurs(w, "REDACTED:token") then 2 else 4;
    var rule := Rules(Lone(r, "["))[r];
    OccursInWritten(w, rule.pre, rule.inner);
    RuleShows(valid, j, r);
  }

  const HEADER_TOKEN: string := "[REDACTED:authorization]"

  lemma FirstWritten(finds: seq<Pattern>)
    requires |finds| == 6
    ensures Written(Rules(finds)[0]) == AUTHORIZATION + HEADER_TOKEN
  {
    assert Written(Rules(finds)[0]) == AUTHORIZATION + "[" + "REDACTED:authorization" + "]";
  }

  lemma SeamRebuilds(w: string, n: nat, pre: string, rest: string)
    requires n <= |w| && w[n..] <= pre
    ensures Occurs(w, w[..n] + (pre + rest))
  {
    var out := w[..n] + (pre + rest);
    assert pre[..|w| - n] == w[n..];
    assert out[0..|w|] == w[..n] + w[n..] == w;
    OccursIn(w, out, 0);
  }

  lemma SeamSurvives(valid: seq<Secret>, j: nat, n: nat)
    requires Plainly(valid) && j < |valid| && SplitsAtSeam(valid, valid[j].value, n)
    ensures exists finds :: Allowed(finds) && !Hides(valid, finds)
  {
    var w := valid[j].value;
    var x := w[..n];
    var finds := Lone(0, x + "[");
    LoneIsAllowed(0, x);
    LoneRedacts(valid, 0, x);
    SeamRebuilds(w, n, AUTHORIZATION, HEADER_TOKEN);
    FirstWritten(finds);
    NotHidden(valid, finds, x + "[", j);
  }

  lemma LoopAlone(valid: seq<Secret>)
    requires Plainly(valid) && Ranked(valid) && !TokensAreClean(valid)
    ensures exists finds :: Allowed(finds) && !Hides(valid, finds)
  {
    LoopHidesExactly(valid);
    var t, j :| 0 <= j < |valid| && Occurs(valid[j].value, RedactAll(valid, t));
    var finds := [Never(), Never(), Never(), Never(), Never(), Never()];
    PassedNever(Rules(finds), RedactAll(valid, t));
    NotHidden(valid, finds, t, j);
  }

  /**
   Whatever the six patterns match, no listed bracket-free value is left in any text exactly when the list
   itself shows none: not in a token, not in a text that a pattern writes, and not at the one seam that
   stands outside brackets.
   */
  lemma RedactorHidesExactly(valid: seq<Secret>)
    requires Plainly(valid) && Ranked(valid)
    ensures (forall finds :: Allowed(finds) ==> Hides(valid, finds)) <==> NothingShows(valid)
  {
    if NothingShows(valid) {
      forall finds | Allowed(finds) ensures Hides(valid, finds) {
        forall t, j | 0 <= j < |valid| ensures !Occurs(valid[j].value, Redacted(valid, finds, t)) {
          RedactorHides(valid, finds, t, j);
        }
      }
    } else if !TokensAreClean(valid) {
      LoopAlone(valid);
    } else {
      var j: nat :| j < |valid| && (WrittenShows(valid[j].value) || SeamShows(valid, valid[j].value));
      var w := valid[j].value;
      if WrittenShows(w) || Occurs(w, AUTHORIZATION) {
        WrittenSurvives(valid, j);
      } else {
        var n: nat :| SplitsAtSeam(valid, w, n);
        SeamSurvives(valid, j, n);
      }
    }
  }

  lemma RedactedIsWritten()
    ensures WrittenShows("REDACTED")
  {
    assert "REDACTED:token"[0..8] == "REDACTED";
    assert At("REDACTED:token", 0, "REDACTED");
  }

  ghost predicate WordsOnly(w: string)
  {
    |w| >= MIN_SECRET_LEN && forall k :: 0 <= k < |w| ==> IsWord(w[k])
  }

  /** For unlabelled values of letters, digits and underscores the condition is a comparison with fixed texts. */
  lemma UnlabelledWordsExactly(valid: seq<Secret>)
    requires Plainly(valid) && Ranked(valid)
    requires forall i :: 0 <= i < |valid| ==> valid[i].tag.None? && WordsOnly(valid[i].value)
    ensures (forall finds :: Allowed(finds) ==> Hides(valid, finds)) <==>
            forall j :: 0 <= j < |valid| ==> !WrittenShows(valid[j].value) && !Occurs(valid[j].value, AUTHORIZATION)
  {
    RedactorHidesExactly(valid);
    RedactedIsWritten();
    UnlabelledLoopExactly(valid);
    LoopHidesExactly(valid);
  }
}
