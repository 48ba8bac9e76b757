/**
 The literal loop of the secret redactor. Each listed value is replaced, longest first, by a bracketed
 token; the question is whether a replacement can leave or create an occurrence of a listed value,
 in particular across the seam between a token and the text around it. What the redactor does after the
 loop is the subject of SecretPatterns.
 */
module SecretRedaction {
  import opened Options
  import opened Seqs
  import opened Strings

  const MIN_SECRET_LEN: nat := 8

  /** A caller passes a bare value, a labelled value, or something without a string value. */
  datatype SecretInput = Plain(value: string) | Labelled(tag: string, value: string) | Missing

  datatype Secret = Secret(value: string, tag: Option<string>)

  // ---------------------------------------------------------------- strings

  /** The parts of t between the leftmost, non-overlapping occurrences of sep. */
  function Split(t: string, sep: string): (parts: seq<string>)
    requires sep != ""
    ensures parts != []
  {
    if |t| < |sep| then [t]
    else if At(t, 0, sep) then [""] + Split(t[|sep|..], sep)
    else
      var rest := Split(t[1..], sep);
      [[t[0]] + rest[0]] + rest[1..]
  }

  /** Replaces the leftmost, non-overlapping occurrences of s in t by g. */
  ghost function Replace(t: string, s: string, g: string): string
    requires s != ""
  {
    if |t| < |s| then t
    else if At(t, 0, s) then g + Replace(t[|s|..], s, g)
    else [t[0]] + Replace(t[1..], s, g)
  }

  lemma {:induction false} JoinEmpty(parts: seq<string>, glue: string)
    requires parts != []
    ensures Join([""] + parts, glue) == glue + Join(parts, glue)
  {
    assert ([""] + parts)[1..] == parts;
    assert "" + glue == glue;
  }

  lemma {:induction false} JoinSplitReplaces(t: string, s: string, g: string)
    requires s != ""
    ensures Join(Split(t, s), g) == Replace(t, s, g)
  {
    if |t| < |s| {
      assert Split(t, s) == [t];
    } else if At(t, 0, s) {
      JoinSplitReplaces(t[|s|..], s, g);
      JoinEmpty(Split(t[|s|..], s), g);
    } else {
      JoinSplitReplaces(t[1..], s, g);
      JoinCons(t[0], Split(t[1..], s), g);
    }
  }

  lemma OccursIn(w: string, t: string, k: nat)
    requires At(t, k, w)
    ensures Occurs(w, t)
  {
  }

  lemma OccursWider(w: string, a: string, t: string, b: string)
    requires Occurs(w, t)
    ensures Occurs(w, a + t + b)
  {
    var k: nat :| k <= |t| && At(t, k, w);
    assert (a + t + b)[|a| + k..|a| + k + |w|] == w;
    OccursIn(w, a + t + b, |a| + k);
  }

  lemma AbsentInTail(s: string, t: string)
    requires t != "" && !Occurs(s, t)
    ensures !At(t, 0, s) && !Occurs(s, t[1..])
  {
    forall k: nat | k <= |t[1..]| ensures !At(t[1..], k, s) {
      assert k + |s| <= |t| - 1 ==> t[1..][k..k + |s|] == t[k + 1..k + 1 + |s|];
      assert !At(t, k + 1, s);
    }
  }

  lemma {:induction false} ReplaceAbsent(t: string, s: string, g: string)
    requires s != "" && !Occurs(s, t)
    ensures Replace(t, s, g) == t
  {
    if |t| >= |s| {
      AbsentInTail(s, t);
      ReplaceAbsent(t[1..], s, g);
    }
  }

  // ---------------------------------------------------------------- brackets and seams

  predicate IsBracket(c: char)
  {
    c == '[' || c == ']'
  }

  predicate BracketFree(w: string)
  {
    forall i :: 0 <= i < |w| ==> !IsBracket(w[i])
  }

  lemma CrossingShows(w: string, a: string, c: char, b: string, k: nat)
    requires At(a + [c] + b, k, w)
    ensures k + |w| <= |a| || k > |a| || c in w
  {
    if k <= |a| < k + |w| {
      assert (a + [c] + b)[k..k + |w|][|a| - k] == c;
    }
  }

  lemma TwoReadings(a: string, c: char, b: string)
    ensures a + [c] + b == "" + a + ([c] + b) == (a + [c]) + b + ""
  {
  }

  /** A bracket-free word never reaches across a bracket. */
  lemma OccursAcross(w: string, a: string, c: char, b: string)
    requires BracketFree(w) && IsBracket(c)
    ensures Occurs(w, a + [c] + b) <==> Occurs(w, a) || Occurs(w, b)
  {
    var t := a + [c] + b;
    TwoReadings(a, c, b);
    if Occurs(w, t) {
      var k: nat :| k <= |t| && At(t, k, w);
      CrossingShows(w, a, c, b, k);
      if k + |w| <= |a| {
        OccursIn(w, a, k);
      } else if k > |a| {
        OccursIn(w, b, k - |a| - 1);
      }
    }
    if Occurs(w, a) { OccursWider(w, "", a, [c] + b); }
    if Occurs(w, b) { OccursWider(w, a + [c], b, ""); }
  }

  lemma AtFront(s: string, a: string, c: char, b: string)
    requires BracketFree(s) && s != "" && IsBracket(c)
    ensures At(a + [c] + b, 0, s) <==> At(a, 0, s)
  {
    var t := a + [c] + b;
    assert |a| < |s| <= |t| ==> t[0..|s|][|a|] == c;
    assert |s| <= |a| ==> a[0..|s|] == t[0..|s|];
  }

  lemma TailAcross(a: string, c: char, b: string, k: nat)
    requires k <= |a|
    ensures (a + [c] + b)[k..] == a[k..] + [c] + b
  {
  }

  /** What replacing does on the two sides of a bracket. */
  ghost predicate ActsApart(a: string, c: char, b: string, s: string, g: string)
    requires s != ""
  {
    Replace(a + [c] + b, s, g) == Replace(a, s, g) + [c] + Replace(b, s, g)
  }

  lemma FrontParts(x: string, a: string, c: char, b: string)
    ensures x + (a + [c] + b) == x + a + [c] + b
  {
  }

  lemma ApartAfterMatch(a: string, c: char, b: string, s: string, g: string)
    requires s != "" && At(a, 0, s) && At(a + [c] + b, 0, s) && ActsApart(a[|s|..], c, b, s, g)
    ensures ActsApart(a, c, b, s, g)
  {
    TailAcross(a, c, b, |s|);
    FrontParts(g, Replace(a[|s|..], s, g), c, Replace(b, s, g));
  }

  lemma ApartAfterSkip(a: string, c: char, b: string, s: string, g: string)
    requires s != "" && a != "" && !At(a, 0, s) && !At(a + [c] + b, 0, s) && ActsApart(a[1..], c, b, s, g)
    ensures ActsApart(a, c, b, s, g)
  {
    TailAcross(a, c, b, 1);
    FrontParts([a[0]], Replace(a[1..], s, g), c, Replace(b, s, g));
    ShortUnchanged(a + [c] + b, s, g);
    ShortUnchanged(a, s, g);
  }

  /** Without a match at the front the first character stays. */
  lemma {:induction false} ShortUnchanged(t: string, s: string, g: string)
    requires s != "" && t != "" && !At(t, 0, s)
    ensures Replace(t, s, g) == [t[0]] + Replace(t[1..], s, g)
  {
    if |t| < |s| {
      assert Replace(t[1..], s, g) == t[1..];
      assert t == [t[0]] + t[1..];
    }
  }

  /** Replacing a bracket-free value acts independently on the two sides of a bracket. */
  lemma {:induction false} ReplaceAcross(a: string, c: char, b: string, s: string, g: string)
    requires BracketFree(s) && s != "" && IsBracket(c)
    ensures Replace(a + [c] + b, s, g) == Replace(a, s, g) + [c] + Replace(b, s, g)
    decreases |a|
  {
    AtFront(s, a, c, b);
    if a == "" {
      ShortUnchanged([c] + b, s, g);
      assert "" + [c] + b == [c] + b && ([c] + b)[1..] == b;
    } else if At(a, 0, s) {
      ReplaceAcross(a[|s|..], c, b, s, g);
      ApartAfterMatch(a, c, b, s, g);
    } else {
      ReplaceAcross(a[1..], c, b, s, g);
      ApartAfterSkip(a, c, b, s, g);
    }
  }

  /** s does not stand in t before position n. */
  ghost predicate NotBefore(t: string, s: string, n: nat)
  {
    forall k: nat :: k < n ==> !At(t, k, s)
  }

  /** t is a, then s, then b; that s is the first one; and replacing starts with it. */
  ghost predicate StartsReplacing(t: string, s: string, g: string, a: string, b: string)
    requires s != ""
  {
    t == a + s + b && NotBefore(t, s, |a|) && Replace(t, s, g) == a + g + Replace(b, s, g)
  }

  lemma ReplacingHere(t: string, s: string, g: string)
    requires s != "" && At(t, 0, s)
    ensures StartsReplacing(t, s, g, "", t[|s|..])
  {
    assert t == s + t[|s|..];
  }

  lemma AtInTail(t: string, s: string, k: nat)
    requires t != "" && At(t, k, s) && k > 0
    ensures At(t[1..], k - 1, s)
  {
    assert t[1..][k - 1..k - 1 + |s|] == t[k..k + |s|];
  }

  lemma ConsParts(c: char, a: string, s: string, b: string)
    ensures [c] + (a + s + b) == [c] + a + s + b
  {
  }

  lemma ReplacingLater(t: string, s: string, g: string, a: string, b: string)
    requires s != "" && t != "" && !At(t, 0, s) && StartsReplacing(t[1..], s, g, a, b)
    ensures StartsReplacing(t, s, g, [t[0]] + a, b)
  {
    ConsParts(t[0], a, s, b);
    ConsParts(t[0], a, g, Replace(b, s, g));
    assert t == [t[0]] + t[1..];
    forall k: nat | k < |a| + 1 ensures !At(t, k, s) {
      if k > 0 && At(t, k, s) { AtInTail(t, s, k); }
    }
  }

  /** What stands before the first s holds no s. */
  lemma StartsFree(t: string, s: string, g: string, a: string, b: string)
    requires s != "" && StartsReplacing(t, s, g, a, b)
    ensures !Occurs(s, a)
  {
    forall k: nat | k <= |a| ensures !At(a, k, s) {
      if k + |s| <= |a| {
        assert t[k..k + |s|] == a[k..k + |s|];
        assert !At(t, k, s);
      }
    }
  }

  /** The first replacement, made explicit. */
  lemma {:induction false} FirstReplacement(t: string, s: string, g: string) returns (a: string, b: string)
    requires s != "" && Occurs(s, t)
    ensures StartsReplacing(t, s, g, a, b)
  {
    if At(t, 0, s) {
      a, b := "", t[|s|..];
      ReplacingHere(t, s, g);
    } else {
      TailOccurs(s, t);
      a, b := FirstReplacement(t[1..], s, g);
      ReplacingLater(t, s, g, a, b);
      a := [t[0]] + a;
    }
  }

  lemma TailOccurs(s: string, t: string)
    requires Occurs(s, t) && !At(t, 0, s)
    ensures t != "" && Occurs(s, t[1..])
  {
    var k: nat :| k <= |t| && At(t, k, s);
    assert t[1..][k - 1..k - 1 + |s|] == t[k..k + |s|];
    OccursIn(s, t[1..], k - 1);
  }

  // ---------------------------------------------------------------- the redactor

  function Inner(tag: Option<string>): string
  {
    if tag.Some? then "REDACTED:" + tag.value else "REDACTED"
  }

  function Token(tag: Option<string>): string
  {
    "[" + Inner(tag) + "]"
  }

  ghost function RedactOne(secret: Secret, t: string): string
    requires secret.value != ""
  {
    Replace(t, secret.value, Token(secret.tag))
  }

  ghost predicate NonEmptyValues(valid: seq<Secret>)
  {
    forall i :: 0 <= i < |valid| ==> valid[i].value != ""
  }

  /** Replaces every listed secret in turn. */
  ghost function RedactAll(valid: seq<Secret>, t: string): string
    requires NonEmptyValues(valid)
  {
    if valid == [] then t else RedactAll(valid[1..], RedactOne(valid[0], t))
  }

  lemma {:induction false} RedactAllSnoc(valid: seq<Secret>, k: nat, t: string)
    requires NonEmptyValues(valid) && k < |valid|
    ensures RedactAll(valid[..k + 1], t) == RedactOne(valid[k], RedactAll(valid[..k], t))
    decreases k
  {
    if k == 0 {
      assert valid[..1][1..] == [];
    } else {
      RedactAllSnoc(valid[1..], k - 1, RedactOne(valid[0], t));
      assert valid[..k + 1][1..] == valid[1..][..k];
      assert valid[..k][1..] == valid[1..][..k - 1];
    }
  }

  /** The literal-replacement loop of the redactor. */
  method RedactLiterals(valid: seq<Secret>, text: string) returns (result: string)
    requires NonEmptyValues(valid)
    ensures result == RedactAll(valid, text)
  {
    result := text;
    if text == "" {
      EmptyText(valid);
      return;
    }
    for k := 0 to |valid|
      invariant result == RedactAll(valid[..k], text)
    {
      var secret := valid[k];
      RedactAllSnoc(valid, k, text);
      if Occurs(secret.value, result) {
        JoinSplitReplaces(result, secret.value, Token(secret.tag));
        result := Join(Split(result, secret.value), Token(secret.tag));
      } else {
        ReplaceAbsent(result, secret.value, Token(secret.tag));
      }
    }
    assert valid[..|valid|] == valid;
  }

  lemma {:induction false} EmptyText(valid: seq<Secret>)
    requires NonEmptyValues(valid)
    ensures RedactAll(valid, "") == ""
  {
    if valid != [] {
      EmptyText(valid[1..]);
    }
  }

  ghost predicate Plainly(valid: seq<Secret>)
  {
    forall i :: 0 <= i < |valid| ==> valid[i].value != "" && BracketFree(valid[i].value)
  }

  lemma {:induction false} RedactAllAcross(valid: seq<Secret>, a: string, c: char, b: string)
    requires Plainly(valid) && IsBracket(c)
    ensures RedactAll(valid, a + [c] + b) == RedactAll(valid, a) + [c] + RedactAll(valid, b)
  {
    if valid != [] {
      var v := valid[0];
      ReplaceAcross(a, c, b, v.value, Token(v.tag));
      RedactAllAcross(valid[1..], RedactOne(v, a), c, RedactOne(v, b));
    }
  }

  lemma {:induction false} RedactAroundToken(valid: seq<Secret>, a: string, inner: string, b: string)
    requires Plainly(valid)
    ensures RedactAll(valid, a + ("[" + inner + "]") + b) ==
            RedactAll(valid, a) + "[" + RedactAll(valid, inner) + "]" + RedactAll(valid, b)
  {
    RedactAllAcross(valid, a, '[', inner + "]" + b);
    RedactAllAcross(valid, inner, ']', b);
    assert a + ("[" + inner + "]") + b == a + ['['] + (inner + "]" + b);
    assert inner + "]" + b == inner + [']'] + b;
  }

  lemma OccursAroundToken(w: string, a: string, inner: string, b: string)
    requires BracketFree(w)
    ensures Occurs(w, a + "[" + inner + "]" + b) <==> Occurs(w, a) || Occurs(w, inner) || Occurs(w, b)
  {
    OccursAcross(w, a, '[', inner + "]" + b);
    OccursAcross(w, inner, ']', b);
    assert a + "[" + inner + "]" + b == a + ['['] + (inner + "]" + b);
    assert inner + "]" + b == inner + [']'] + b;
  }

  /** The token of secret i, after the secrets behind it have been replaced, contains w. */
  ghost predicate TokenShows(valid: seq<Secret>, i: nat, w: string)
    requires NonEmptyValues(valid) && i < |valid|
  {
    Occurs(w, RedactAll(valid[i + 1..], Inner(valid[i].tag)))
  }

  ghost predicate SomeTokenShows(valid: seq<Secret>, w: string)
    requires NonEmptyValues(valid)
  {
    exists i: nat :: i < |valid| && TokenShows(valid, i, w)
  }

  lemma TokenShowsLater(valid: seq<Secret>, w: string)
    requires NonEmptyValues(valid) && valid != [] && SomeTokenShows(valid[1..], w)
    ensures SomeTokenShows(valid, w)
  {
    var i: nat :| i < |valid[1..]| && TokenShows(valid[1..], i, w);
    assert valid[1..][i + 1..] == valid[i + 2..];
    assert TokenShows(valid, i + 1, w);
  }

  /** Cuts a text at the first occurrence of the first secret; the output falls into three pieces. */
  lemma {:induction false} CutAtFirst(valid: seq<Secret>, t: string, w: string) returns (a: string, b: string)
    requires Plainly(valid) && valid != [] && BracketFree(w)
    requires Occurs(valid[0].value, t) && Occurs(w, RedactAll(valid, t))
    ensures |b| < |t| && !Occurs(valid[0].value, a)
    ensures Occurs(w, a) || Occurs(w, b) ==> Occurs(w, t)
    ensures Occurs(w, RedactAll(valid[1..], a)) || TokenShows(valid, 0, w) || Occurs(w, RedactAll(valid, b))
  {
    var rest, v := valid[1..], valid[0];
    a, b := FirstReplacement(t, v.value, Token(v.tag));
    StartsFree(t, v.value, Token(v.tag), a, b);
    var c := RedactOne(v, b);
    RedactAroundToken(rest, a, Inner(v.tag), c);
    OccursAroundToken(w, RedactAll(rest, a), RedactAll(rest, Inner(v.tag)), RedactAll(rest, c));
    OccursInPieces(w, a, v.value, b);
  }

  lemma OccursInPieces(w: string, a: string, s: string, b: string)
    ensures Occurs(w, a) || Occurs(w, b) ==> Occurs(w, a + s + b)
  {
    if Occurs(w, a) {
      OccursWider(w, "", a, s + b);
      assert "" + a + (s + b) == a + s + b;
    }
    if Occurs(w, b) {
      OccursWider(w, a + s, b, "");
      assert (a + s) + b + "" == a + s + b;
    }
  }

  /** A word found in the output was in the input, or a token shows it: seams create nothing. */
  lemma {:induction false} Origin(valid: seq<Secret>, t: string, w: string)
    requires Plainly(valid) && BracketFree(w)
    requires Occurs(w, RedactAll(valid, t))
    ensures Occurs(w, t) || SomeTokenShows(valid, w)
    decreases |valid|, |t| + 1
  {
    if valid != [] {
      if Occurs(valid[0].value, t) {
        var a, b := CutAtFirst(valid, t, w);
        if Occurs(w, RedactAll(valid[1..], a)) {
          OriginLater(valid, a, w);
        } else if Occurs(w, RedactAll(valid, b)) {
          Origin(valid, b, w);
        }
      } else {
        ReplaceAbsent(t, valid[0].value, Token(valid[0].tag));
        OriginLater(valid, t, w);
      }
    }
  }

  lemma {:induction false} OriginLater(valid: seq<Secret>, t: string, w: string)
    requires Plainly(valid) && BracketFree(w) && valid != []
    requires Occurs(w, RedactAll(valid[1..], t))
    ensures Occurs(w, t) || SomeTokenShows(valid, w)
    decreases |valid|, 0
  {
    Origin(valid[1..], t, w);
    if SomeTokenShows(valid[1..], w) { TokenShowsLater(valid, w); }
  }

  /** After its own replacement the first secret can only come back through a token. */
  lemma {:induction false} FirstIsGone(valid: seq<Secret>, t: string)
    requires Plainly(valid) && valid != []
    requires Occurs(valid[0].value, RedactAll(valid, t))
    ensures SomeTokenShows(valid, valid[0].value)
    decreases |t|
  {
    var w := valid[0].value;
    if Occurs(w, t) {
      var a, b := CutAtFirst(valid, t, w);
      if Occurs(w, RedactAll(valid[1..], a)) {
        OriginLater(valid, a, w);
      } else if Occurs(w, RedactAll(valid, b)) {
        FirstIsGone(valid, b);
      }
    } else {
      Origin(valid, t, w);
    }
  }

  lemma {:induction false} RedactAllSplit(valid: seq<Secret>, k: nat, t: string)
    requires NonEmptyValues(valid) && k <= |valid|
    ensures RedactAll(valid, t) == RedactAll(valid[k..], RedactAll(valid[..k], t))
    decreases k
  {
    if k > 0 {
      RedactAllSplit(valid[1..], k - 1, RedactOne(valid[0], t));
      assert valid[1..][k - 1..] == valid[k..];
      assert valid[1..][..k - 1] == valid[..k][1..];
    }
  }

  lemma TokenShowsSuffix(valid: seq<Secret>, k: nat, w: string)
    requires NonEmptyValues(valid) && k <= |valid| && SomeTokenShows(valid[k..], w)
    ensures exists i: nat :: k <= i < |valid| && TokenShows(valid, i, w)
  {
    var i: nat :| i < |valid[k..]| && TokenShows(valid[k..], i, w);
    assert valid[k..][i + 1..] == valid[k + i + 1..];
    assert TokenShows(valid, k + i, w);
  }

  ghost predicate LoopHides(valid: seq<Secret>)
    requires NonEmptyValues(valid)
  {
    forall t, j :: 0 <= j < |valid| ==> !Occurs(valid[j].value, RedactAll(valid, t))
  }

  /** No token, as the later replacements leave it, shows a secret replaced with it or before it. */
  ghost predicate TokensAreClean(valid: seq<Secret>)
    requires NonEmptyValues(valid)
  {
    forall i: nat, j: nat :: j <= i < |valid| ==> !TokenShows(valid, i, valid[j].value)
  }

  /** The list as the redactor builds it: no value twice, longest first. */
  ghost predicate Ranked(valid: seq<Secret>)
  {
    forall i, j :: 0 <= i < j < |valid| ==>
      valid[i].value != valid[j].value && |valid[i].value| >= |valid[j].value|
  }

  lemma {:induction false} LongerAbsent(valid: seq<Secret>, s: string)
    requires NonEmptyValues(valid)
    requires forall i :: 0 <= i < |valid| ==> !Occurs(valid[i].value, s)
    ensures RedactAll(valid, s) == s
  {
    if valid != [] {
      ReplaceAbsent(s, valid[0].value, Token(valid[0].tag));
      LongerAbsent(valid[1..], s);
    }
  }

  lemma {:induction false} ReplaceWhole(s: string, g: string)
    requires s != ""
    ensures Replace(s, s, g) == g
  {
    assert At(s, 0, s) && s[|s|..] == "";
    assert Replace("", s, g) == "";
  }

  /** Longest first: a listed secret standing alone is replaced whole, with nothing of it left over. */
  lemma {:induction false} SecretAlone(valid: seq<Secret>, i: nat)
    requires NonEmptyValues(valid) && Ranked(valid) && i < |valid|
    ensures RedactAll(valid, valid[i].value) == RedactAll(valid[i + 1..], Token(valid[i].tag))
  {
    var s := valid[i].value;
    RedactAllSplit(valid, i, s);
    LongerAbsent(valid[..i], s);
    ReplaceWhole(s, Token(valid[i].tag));
    assert valid[i..][1..] == valid[i + 1..];
  }

  lemma {:induction false} CleanTokensHide(valid: seq<Secret>, t: string, j: nat)
    requires Plainly(valid) && TokensAreClean(valid) && j < |valid|
    ensures !Occurs(valid[j].value, RedactAll(valid, t))
  {
    RedactAllSplit(valid, j, t);
    if Occurs(valid[j].value, RedactAll(valid, t)) {
      FirstIsGone(valid[j..], RedactAll(valid[..j], t));
      TokenShowsSuffix(valid, j, valid[j].value);
    }
  }

  lemma {:induction false} RedactToken(valid: seq<Secret>, inner: string)
    requires Plainly(valid)
    ensures RedactAll(valid, "[" + inner + "]") == "[" + RedactAll(valid, inner) + "]"
  {
    var token, redacted := "[" + inner + "]", "[" + RedactAll(valid, inner) + "]";
    EmptyText(valid);
    RedactAroundToken(valid, "", inner, "");
    assert "" + token + "" == token;
    assert "" + "[" + RedactAll(valid, inner) + "]" + "" == redacted;
  }

  /**
   No listed secret survives in any text exactly when no token shows one, a condition on the list
   alone that can be checked by redacting the tokens themselves.
   */
  lemma LoopHidesExactly(valid: seq<Secret>)
    requires Plainly(valid) && Ranked(valid)
    ensures LoopHides(valid) <==> TokensAreClean(valid)
  {
    if TokensAreClean(valid) {
      forall t, j | 0 <= j < |valid| ensures !Occurs(valid[j].value, RedactAll(valid, t)) {
        CleanTokensHide(valid, t, j);
      }
    } else {
      var i: nat, j: nat :| j <= i < |valid| && TokenShows(valid, i, valid[j].value);
      SecretAlone(valid, i);
      RedactToken(valid[i + 1..], Inner(valid[i].tag));
      OccursWider(valid[j].value, "[", RedactAll(valid[i + 1..], Inner(valid[i].tag)), "]");
    }
  }

  function Opens(t: string): nat
  {
    multiset(t)['[']
  }

  lemma OpensIn(t: string, k: nat)
    requires k <= |t|
    ensures Opens(t) == Opens(t[..k]) + Opens(t[k..])
  {
    assert t == t[..k] + t[k..];
  }

  /** Replacing a bracket-free value by a text with an opening bracket only adds brackets. */
  lemma {:induction false} ReplaceOpens(t: string, s: string, g: string)
    requires s != "" && BracketFree(s) && Opens(g) > 0
    ensures Opens(Replace(t, s, g)) >= Opens(t)
    ensures Occurs(s, t) ==> Opens(Replace(t, s, g)) > Opens(t)
  {
    if |t| >= |s| {
      if At(t, 0, s) {
        OpensIn(t, |s|);
        assert Opens(t[..|s|]) == 0;
        ReplaceOpens(t[|s|..], s, g);
      } else {
        OpensIn(t, 1);
        assert t[..1] == [t[0]];
        if Occurs(s, t) { TailOccurs(s, t); }
        ReplaceOpens(t[1..], s, g);
      }
    }
  }

  lemma RedactOneOpens(v: Secret, t: string)
    requires v.value != "" && BracketFree(v.value)
    ensures Opens(RedactOne(v, t)) >= Opens(t)
    ensures Occurs(v.value, t) ==> Opens(RedactOne(v, t)) > Opens(t)
  {
    assert Token(v.tag)[0] == '[';
    ReplaceOpens(t, v.value, Token(v.tag));
  }

  lemma {:induction false} RedactOpens(valid: seq<Secret>, t: string)
    requires Plainly(valid)
    ensures Opens(RedactAll(valid, t)) >= Opens(t)
  {
    if valid != [] {
      RedactOneOpens(valid[0], t);
      RedactOpens(valid[1..], RedactOne(valid[0], t));
    }
  }

  /** Whatever is replaced leaves more brackets than before. */
  lemma {:induction false} ReplacedOpens(valid: seq<Secret>, t: string, j: nat)
    requires Plainly(valid) && j < |valid| && Occurs(valid[j].value, t)
    ensures Opens(RedactAll(valid, t)) > Opens(t)
  {
    var v := valid[0];
    RedactOneOpens(v, t);
    RedactOpens(valid[1..], RedactOne(v, t));
    if !Occurs(v.value, t) {
      ReplaceAbsent(t, v.value, Token(v.tag));
      ReplacedOpens(valid[1..], t, j - 1);
    }
  }

  /** No listed value stands in t. */
  ghost predicate SecretFree(valid: seq<Secret>, t: string)
  {
    forall j :: 0 <= j < |valid| ==> !Occurs(valid[j].value, t)
  }

  /** Redacting every text twice is redacting it once exactly under the same condition. */
  lemma {:induction false} LoopIdempotentExactly(valid: seq<Secret>)
    requires Plainly(valid) && Ranked(valid)
    ensures (forall t :: RedactAll(valid, RedactAll(valid, t)) == RedactAll(valid, t)) <==> TokensAreClean(valid)
  {
    LoopHidesExactly(valid);
    if TokensAreClean(valid) {
      forall t ensures RedactAll(valid, RedactAll(valid, t)) == RedactAll(valid, t) {
        LongerAbsent(valid, RedactAll(valid, t));
      }
    } else {
      var t, j :| 0 <= j < |valid| && Occurs(valid[j].value, RedactAll(valid, t));
      ReplacedOpens(valid, RedactAll(valid, t), j);
      assert RedactAll(valid, RedactAll(valid, t)) != RedactAll(valid, t);
    }
  }

  /** The condition in plain terms: no secret is part of the text inside a token. */
  lemma DisjointFromTokens(valid: seq<Secret>)
    requires Plainly(valid) && Ranked(valid)
    requires forall i, j :: 0 <= i < |valid| && 0 <= j < |valid| ==> !Occurs(valid[j].value, Inner(valid[i].tag))
    ensures LoopHides(valid)
  {
    forall i: nat, j: nat | j <= i < |valid| ensures !TokenShows(valid, i, valid[j].value) {
      LongerAbsent(valid[i + 1..], Inner(valid[i].tag));
    }
    LoopHidesExactly(valid);
  }

  lemma TokenTextShows(valid: seq<Secret>, j: nat)
    requires Plainly(valid) && Ranked(valid) && j < |valid|
    requires valid[j].value == "REDACTED" && valid[j].tag.None?
    requires forall i :: j < i < |valid| ==> !Occurs(valid[i].value, "REDACTED")
    ensures TokenShows(valid, j, valid[j].value)
  {
    LongerAbsent(valid[j + 1..], "REDACTED");
    OccursIn("REDACTED", "REDACTED", 0);
  }

  /** Unlabelled secrets of the minimum length are all hidden unless one of them is "REDACTED". */
  lemma UnlabelledLoopExactly(valid: seq<Secret>)
    requires Plainly(valid) && Ranked(valid)
    requires forall i :: 0 <= i < |valid| ==> valid[i].tag.None? && |valid[i].value| >= MIN_SECRET_LEN
    ensures LoopHides(valid) <==> forall i :: 0 <= i < |valid| ==> valid[i].value != "REDACTED"
  {
    if j: nat :| j < |valid| && valid[j].value == "REDACTED" {
      TokenTextShows(valid, j);
      LoopHidesExactly(valid);
    } else {
      DisjointFromTokens(valid);
    }
  }

  // ---------------------------------------------------------------- one value, with or without brackets

  /** The value is rebuilt by the text g in its place, with its own start in front and its own end behind. */
  ghost predicate RebuiltAt(s: string, g: string, i: nat, j: nat)
  {
    i < |s| && 0 < j <= |s| && NotBefore(s[..i] + s, s, i) && Occurs(s, s[..i] + g + s[j..])
  }

  ghost predicate Rebuilt(s: string, g: string)
  {
    exists i: nat, j: nat :: RebuiltAt(s, g, i, j)
  }

  lemma AtCharacters(t: string, k: nat, s: string, m: nat)
    requires At(t, k, s) && m < |s|
    ensures t[k + m] == s[m]
  {
    assert t[k..k + |s|][m] == t[k + m];
  }

  lemma AtByCharacters(t: string, k: nat, s: string)
    requires k + |s| <= |t| && forall m :: 0 <= m < |s| ==> t[k + m] == s[m]
    ensures At(t, k, s)
  {
    assert t[k..k + |s|] == s;
  }

  /** Where an occurrence lies that begins in a or g and does not lie in a: only parts of s stand outside g. */
  lemma RebuiltBy(s: string, g: string, a: string, r: string, k: nat) returns (i: nat, j: nat)
    requires s != "" && At(a + g + r, k, s) && k < |a| + |g| && k + |s| > |a|
    ensures i < |s| && 0 < j <= |s| && i <= |a| && s[..i] == a[|a| - i..]
    ensures Occurs(s, s[..i] + g + s[j..])
  {
    var t := a + g + r;
    i := if k < |a| then |a| - k else 0;
    j := if k + |s| > |a| + |g| then |a| + |g| - k else |s|;
    var u, p := s[..i] + g + s[j..], if k < |a| then 0 else k - |a|;
    forall m | 0 <= m < i ensures s[m] == a[|a| - i..][m] {
      AtCharacters(t, k, s, m);
    }
    assert s[..i] == a[|a| - i..];
    forall m | 0 <= m < |s| ensures u[p + m] == s[m] {
      AtCharacters(t, k, s, m);
      if k + m < |a| {
        assert u[m] == s[..i][m];
      } else if k + m < |a| + |g| {
        assert u[p + m] == g[k + m - |a|];
      } else {
        assert u[p + m] == s[j..][k + m - |a| - |g|];
      }
    }
    AtByCharacters(u, p, s);
    OccursIn(s, u, p);
  }

  lemma FirstStaysFirst(t: string, s: string, a: string, b: string, i: nat)
    requires t == a + s + b && NotBefore(t, s, |a|) && i <= |a|
    ensures NotBefore(a[|a| - i..] + s, s, i)
  {
    var u := a[|a| - i..] + s;
    forall k: nat | k < i ensures !At(u, k, s) {
      assert k + |s| <= |u| ==> u[k..k + |s|] == t[|a| - i + k..|a| - i + k + |s|];
      assert !At(t, |a| - i + k, s);
    }
  }

  /** An occurrence that begins before the rest of the output. */
  lemma {:induction false} ReturnsAround(t: string, s: string, g: string, a: string, b: string, k: nat)
    requires s != "" && StartsReplacing(t, s, g, a, b) && At(a + g + Replace(b, s, g), k, s) && k < |a| + |g|
    ensures Rebuilt(s, g)
  {
    StartsFree(t, s, g, a, b);
    if k + |s| <= |a| {
      assert a[k..k + |s|] == (a + g + Replace(b, s, g))[k..k + |s|];
      OccursIn(s, a, k);
    }
    var i, j := RebuiltBy(s, g, a, Replace(b, s, g), k);
    FirstStaysFirst(t, s, a, b, i);
    assert RebuiltAt(s, g, i, j);
  }

  lemma OccursInRest(s: string, x: string, y: string, k: nat)
    requires At(x + y, k, s) && k >= |x|
    ensures Occurs(s, y)
  {
    assert y[k - |x|..k - |x| + |s|] == (x + y)[k..k + |s|];
    OccursIn(s, y, k - |x|);
  }

  lemma {:induction false} ReturnsRebuilt(t: string, s: string, g: string)
    requires s != "" && Occurs(s, Replace(t, s, g))
    ensures Rebuilt(s, g)
    decreases |t|
  {
    if !Occurs(s, t) {
      ReplaceAbsent(t, s, g);
    } else {
      var a, b := FirstReplacement(t, s, g);
      var r := Replace(b, s, g);
      var out := a + g + r;
      var k: nat :| k <= |out| && At(out, k, s);
      if k < |a| + |g| {
        ReturnsAround(t, s, g, a, b, k);
      } else {
        OccursInRest(s, a + g, r, k);
        ReturnsRebuilt(b, s, g);
      }
    }
  }

  lemma {:induction false} ReplaceAtFirst(t: string, s: string, g: string, n: nat)
    requires s != "" && At(t, n, s) && NotBefore(t, s, n)
    ensures Replace(t, s, g) == t[..n] + g + Replace(t[n + |s|..], s, g)
  {
    OccursIn(s, t, n);
    var a, b := FirstReplacement(t, s, g);
    assert t[|a|..|a| + |s|] == s;
    assert At(t, |a|, s);
    assert |a| == n;
    assert a == t[..n] && b == t[n + |s|..];
  }

  lemma NotBeforeLonger(t: string, z: string, s: string, n: nat)
    requires NotBefore(t, s, n) && n + |s| <= |t|
    ensures NotBefore(t + z, s, n)
  {
    forall k: nat | k < n ensures !At(t + z, k, s) {
      assert (t + z)[k..k + |s|] == t[k..k + |s|];
      assert !At(t, k, s);
    }
  }

  lemma {:induction false} RebuiltReturns(s: string, g: string, i: nat, j: nat)
    requires s != "" && RebuiltAt(s, g, i, j)
    ensures Occurs(s, Replace(s[..i] + s + s[j..], s, g))
  {
    var front, back := s[..i], s[j..];
    var t := front + s + back;
    NotBeforeLonger(front + s, back, s, i);
    assert t[i..i + |s|] == s && t[..i] == front && t[i + |s|..] == back;
    ReplaceAtFirst(t, s, g, i);
  }

  /**
   For a list of one value, which may hold brackets, the value survives in some text exactly when its own
   token, between a start and an end of the value, rebuilds it: a condition on two fixed texts.
   */
  lemma LoneValueExactly(s: string, tag: Option<string>)
    requires s != ""
    ensures LoopHides([Secret(s, tag)]) <==> !Rebuilt(s, Token(tag))
  {
    var valid, g := [Secret(s, tag)], Token(tag);
    forall t ensures RedactAll(valid, t) == Replace(t, s, g) {
      assert valid[1..] == [];
    }
    if Rebuilt(s, g) {
      var i: nat, j: nat :| RebuiltAt(s, g, i, j);
      RebuiltReturns(s, g, i, j);
      assert Occurs(valid[0].value, RedactAll(valid, s[..i] + s + s[j..]));
    } else {
      forall t, j | 0 <= j < |valid| ensures !Occurs(valid[j].value, RedactAll(valid, t)) {
        if Occurs(s, Replace(t, s, g)) { ReturnsRebuilt(t, s, g); }
      }
    }
  }

  /** Brackets matter: a value that ends in an opening bracket is rebuilt by its own token. */
  lemma BracketedSecretReturns(p: string, tag: Option<string>)
    requires BracketFree(p)
    ensures Rebuilt(p + "[", Token(tag)) && !LoopHides([Secret(p + "[", tag)])
  {
    var s, g := p + "[", Token(tag);
    var i: nat, j: nat := |p|, |s|;
    assert s[..i] == p && s[j..] == "";
    forall k: nat | k < i ensures !At(p + s, k, s) {
      assert k + |s| <= |p + s| ==> (p + s)[k..k + |s|][|p|] == (p + s)[k + |p|] != '[';
    }
    assert (p + g + "")[0..|s|] == s;
    OccursIn(s, p + g + "", 0);
    assert RebuiltAt(s, g, i, j);
    LoneValueExactly(s, tag);
  }

  // ---------------------------------------------------------------- building the list

  predicate IsTagChar(c: char)
  {
    'A' <= c <= 'Z' || 'a' <= c <= 'z' || '0' <= c <= '9' || c == '_' || c == '.' || c == '-'
  }

  function SanitizeTag(raw: string): (tag: Option<string>)
    ensures tag.None? <==> raw == ""
    ensures tag.Some? ==> BracketFree(tag.value) && |tag.value| == |raw|
    ensures tag.Some? ==> forall i :: 0 <= i < |raw| ==>
              IsTagChar(tag.value[i]) && tag.value[i] in [raw[i], '_'] && (IsTagChar(raw[i]) ==> tag.value[i] == raw[i])
  {
    var clean := seq(|raw|, i requires 0 <= i < |raw| => if IsTagChar(raw[i]) then raw[i] else '_');
    if clean == "" then None else Some(clean)
  }

  function ValueOf(input: SecretInput): Option<string>
  {
    match input
    case Plain(v) => Some(v)
    case Labelled(_, v) => Some(v)
    case Missing => None
  }

  function TagOf(input: SecretInput): Option<string>
  {
    if input.Labelled? then SanitizeTag(input.tag) else None
  }

  /** Values shorter than eight characters once trimmed are not secrets worth replacing. */
  predicate Eligible(input: SecretInput)
  {
    var v := ValueOf(input);
    v.Some? && |Trim(v.value)| >= MIN_SECRET_LEN
  }

  /** A map insertion that keeps the position of a value already present. */
  function Put(entries: seq<Secret>, secret: Secret): seq<Secret>
  {
    if entries == [] then [secret]
    else if entries[0].value == secret.value then [secret] + entries[1..]
    else [entries[0]] + Put(entries[1..], secret)
  }

  ghost predicate DistinctValues(entries: seq<Secret>)
  {
    forall i, j :: 0 <= i < j < |entries| ==> entries[i].value != entries[j].value
  }

  lemma {:induction false} PutFacts(entries: seq<Secret>, secret: Secret)
    requires DistinctValues(entries)
    ensures DistinctValues(Put(entries, secret))
    ensures forall e :: e in Put(entries, secret) <==> e == secret || (e in entries && e.value != secret.value)
  {
    if entries != [] {
      assert entries == [entries[0]] + entries[1..];
      if entries[0].value != secret.value {
        PutFacts(entries[1..], secret);
      }
    }
  }

  ghost function Values(entries: seq<Secret>): seq<string>
  {
    seq(|entries|, i requires 0 <= i < |entries| => entries[i].value)
  }

  /** A value already present keeps its place; a new one goes to the end. */
  lemma {:induction false} PutKeepsPlaces(entries: seq<Secret>, secret: Secret)
    ensures Values(Put(entries, secret)) ==
            if secret.value in Values(entries) then Values(entries) else Values(entries) + [secret.value]
  {
    var values := Values(entries);
    if entries != [] {
      assert values == [entries[0].value] + Values(entries[1..]);
      if entries[0].value == secret.value {
        assert values[0] == secret.value;
        assert Values(Put(entries, secret)) == values;
      } else {
        PutKeepsPlaces(entries[1..], secret);
        assert Values(Put(entries, secret)) == [entries[0].value] + Values(Put(entries[1..], secret));
      }
    }
  }

  ghost predicate Mentions(input: SecretInput, value: string)
  {
    Eligible(input) && ValueOf(input) == Some(value)
  }

  /** The tag that the inputs give a value, that of its last eligible mention; None without a mention. */
  ghost function LastTag(inputs: seq<SecretInput>, value: string): Option<Option<string>>
  {
    if inputs == [] then None
    else if Mentions(inputs[|inputs| - 1], value) then Some(TagOf(inputs[|inputs| - 1]))
    else LastTag(inputs[..|inputs| - 1], value)
  }

  lemma {:induction false} LastTagFacts(inputs: seq<SecretInput>, value: string)
    ensures var tag := LastTag(inputs, value);
            tag.Some? ==> |value| >= MIN_SECRET_LEN && BracketFree(Inner(tag.value))
  {
    if inputs != [] {
      TrimShortens(value);
      LastTagFacts(inputs[..|inputs| - 1], value);
    }
  }

  /** The first eligible mention of v comes before every one of w. */
  ghost predicate MentionedBefore(inputs: seq<SecretInput>, v: string, w: string)
  {
    exists p :: 0 <= p < |inputs| && Mentions(inputs[p], v) && forall q :: 0 <= q <= p ==> !Mentions(inputs[q], w)
  }

  ghost predicate Mentioned(inputs: seq<SecretInput>, v: string)
  {
    exists p :: 0 <= p < |inputs| && Mentions(inputs[p], v)
  }

  /** The values of a list are those mentioned, in the order of their first mentions. */
  ghost predicate InOrderOfMention(inputs: seq<SecretInput>, values: seq<string>)
  {
    && (forall v :: v in values <==> Mentioned(inputs, v))
    && (forall i, j :: 0 <= i < j < |values| ==> MentionedBefore(inputs, values[i], values[j]))
  }

  lemma MentionedSnoc(inputs: seq<SecretInput>, input: SecretInput, v: string)
    ensures Mentioned(inputs + [input], v) <==> Mentioned(inputs, v) || Mentions(input, v)
  {
    var more := inputs + [input];
    assert more[|inputs|] == input;
    if Mentioned(inputs, v) {
      var p :| 0 <= p < |inputs| && Mentions(inputs[p], v);
      assert more[p] == inputs[p];
    }
  }

  lemma MentionedBeforeLonger(inputs: seq<SecretInput>, input: SecretInput, v: string, w: string)
    requires MentionedBefore(inputs, v, w)
    ensures MentionedBefore(inputs + [input], v, w)
  {
    var p :| 0 <= p < |inputs| && Mentions(inputs[p], v) && forall q :: 0 <= q <= p ==> !Mentions(inputs[q], w);
    var more := inputs + [input];
    assert Mentions(more[p], v) && forall q :: 0 <= q <= p ==> more[q] == inputs[q];
  }

  lemma NewMentionIsLast(inputs: seq<SecretInput>, input: SecretInput, v: string, w: string)
    requires Mentioned(inputs, v) && !Mentioned(inputs, w)
    ensures MentionedBefore(inputs + [input], v, w)
  {
    var p :| 0 <= p < |inputs| && Mentions(inputs[p], v);
    var more := inputs + [input];
    assert Mentions(more[p], v) && forall q :: 0 <= q <= p ==> more[q] == inputs[q];
  }

  /** What one more input does to the values collected so far. */
  function Collect(values: seq<string>, input: SecretInput): seq<string>
  {
    if !Eligible(input) || ValueOf(input).value in values then values else values + [ValueOf(input).value]
  }

  lemma MentionStep(inputs: seq<SecretInput>, input: SecretInput, values: seq<string>)
    requires InOrderOfMention(inputs, values)
    ensures InOrderOfMention(inputs + [input], Collect(values, input))
  {
    var more, next := inputs + [input], Collect(values, input);
    forall v ensures v in next <==> Mentioned(more, v) {
      MentionedSnoc(inputs, input, v);
    }
    forall i, j | 0 <= i < j < |next| ensures MentionedBefore(more, next[i], next[j]) {
      if j < |values| {
        MentionedBeforeLonger(inputs, input, values[i], values[j]);
      } else {
        assert values[i] in values && next[j] !in values;
        NewMentionIsLast(inputs, input, values[i], next[j]);
      }
    }
  }

  function ByLengthDescending(): (Secret, Secret) -> bool
  {
    (a: Secret, b: Secret) => |a.value| >= |b.value|
  }

  lemma {:induction false} LengthSort(entries: seq<Secret>)
    requires DistinctValues(entries)
    ensures var valid := Sort(entries, ByLengthDescending());
            Ranked(valid) && forall e :: e in valid <==> e in entries
  {
    var le := ByLengthDescending();
    assert TotalPreorder(le);
    SortSorts(entries, le);
    var valid := Sort(entries, le);
    PermutationMembers(valid, entries);
    var a := seq(|entries|, i requires 0 <= i < |entries| => entries[i]);
    assert a == entries && Distinct(entries);
    DistinctPermutation(entries, valid);
    forall i, j | 0 <= i < j < |valid|
      ensures valid[i].value != valid[j].value && |valid[i].value| >= |valid[j].value|
    {
      assert le(valid[i], valid[j]);
      assert valid[i] in entries && valid[j] in entries;
      var p :| 0 <= p < |entries| && entries[p] == valid[i];
      var q :| 0 <= q < |entries| && entries[q] == valid[j];
      assert valid[i] != valid[j];
    }
  }

  lemma RankedOneWay(valid: seq<Secret>, i: nat, j: nat)
    requires Ranked(valid) && i < j < |valid|
    ensures !Before(valid, valid[j], valid[i])
  {
    forall a, b | 0 <= a < b < |valid| ensures !(valid[a] == valid[j] && valid[b] == valid[i]) {
      assert valid[a].value != valid[b].value;
      assert a < j ==> valid[a].value != valid[j].value;
      assert a > j ==> valid[j].value != valid[a].value;
      assert b > i ==> valid[i].value != valid[b].value;
    }
  }

  /** Values of one length keep the order of their first mentions through the sort. */
  lemma {:induction false} TiesKeepOrder(inputs: seq<SecretInput>, entries: seq<Secret>, i: nat, j: nat)
    requires DistinctValues(entries) && InOrderOfMention(inputs, Values(entries))
    requires var valid := Sort(entries, ByLengthDescending());
             i < j < |valid| && |valid[i].value| == |valid[j].value|
    ensures var valid := Sort(entries, ByLengthDescending());
            MentionedBefore(inputs, valid[i].value, valid[j].value)
  {
    var le := ByLengthDescending();
    var valid := Sort(entries, le);
    LengthSort(entries);
    var x, y := valid[i], valid[j];
    assert x in entries && y in entries;
    RankedOneWay(valid, i, j);
    var p :| 0 <= p < |entries| && entries[p] == x;
    var q :| 0 <= q < |entries| && entries[q] == y;
    if q < p {
      assert Before(entries, y, x);
      SortKeepsBefore(entries, le, y, x);
    }
    assert Values(entries)[p] == x.value && Values(entries)[q] == y.value;
  }

  /** The map from values to labels after the inputs, as a list in its order of insertion. */
  ghost predicate Collected(inputs: seq<SecretInput>, byValue: seq<Secret>)
  {
    && DistinctValues(byValue) && InOrderOfMention(inputs, Values(byValue))
    && forall secret :: secret in byValue <==> LastTag(inputs, secret.value) == Some(secret.tag)
  }

  lemma {:induction false} CollectTags(inputs: seq<SecretInput>, input: SecretInput, byValue: seq<Secret>, next: seq<Secret>)
    requires DistinctValues(byValue)
    requires forall secret :: secret in byValue <==> LastTag(inputs, secret.value) == Some(secret.tag)
    requires next == if Eligible(input) then Put(byValue, Secret(ValueOf(input).value, TagOf(input))) else byValue
    ensures DistinctValues(next)
    ensures forall secret :: secret in next <==> LastTag(inputs + [input], secret.value) == Some(secret.tag)
  {
    assert (inputs + [input])[..|inputs|] == inputs;
    if Eligible(input) { PutFacts(byValue, Secret(ValueOf(input).value, TagOf(input))); }
  }

  lemma {:induction false} CollectStep(inputs: seq<SecretInput>, k: nat, byValue: seq<Secret>)
    requires k < |inputs| && Collected(inputs[..k], byValue)
    ensures var input := inputs[k];
            Collected(inputs[..k + 1],
                      if Eligible(input) then Put(byValue, Secret(ValueOf(input).value, TagOf(input))) else byValue)
  {
    var input := inputs[k];
    var next := if Eligible(input) then Put(byValue, Secret(ValueOf(input).value, TagOf(input))) else byValue;
    assert inputs[..k + 1] == inputs[..k] + [input];
    MentionStep(inputs[..k], input, Values(byValue));
    if Eligible(input) { PutKeepsPlaces(byValue, Secret(ValueOf(input).value, TagOf(input))); }
    CollectTags(inputs[..k], input, byValue, next);
  }

  /** What the sorted list promises. */
  ghost predicate IsList(inputs: seq<SecretInput>, valid: seq<Secret>)
  {
    && (forall secret :: secret in valid <==> LastTag(inputs, secret.value) == Some(secret.tag))
    && Ranked(valid) && NonEmptyValues(valid)
    && (forall i, j :: 0 <= i < j < |valid| && |valid[i].value| == |valid[j].value| ==>
          MentionedBefore(inputs, valid[i].value, valid[j].value))
    && (forall secret :: secret in valid ==> |secret.value| >= MIN_SECRET_LEN && BracketFree(Inner(secret.tag)))
  }

  lemma {:induction false} SortedIsList(inputs: seq<SecretInput>, byValue: seq<Secret>)
    requires Collected(inputs, byValue)
    ensures IsList(inputs, Sort(byValue, ByLengthDescending()))
  {
    var valid := Sort(byValue, ByLengthDescending());
    LengthSort(byValue);
    forall i, j | 0 <= i < j < |valid| && |valid[i].value| == |valid[j].value|
      ensures MentionedBefore(inputs, valid[i].value, valid[j].value)
    {
      TiesKeepOrder(inputs, byValue, i, j);
    }
    forall secret | secret in valid ensures |secret.value| >= MIN_SECRET_LEN && BracketFree(Inner(secret.tag)) {
      LastTagFacts(inputs, secret.value);
    }
    forall i | 0 <= i < |valid| ensures valid[i].value != "" { assert valid[i] in valid; }
  }

  /** The redactor's list: every eligible value once, under its last label, longest first, then by first mention. */
  method BuildList(inputs: seq<SecretInput>) returns (valid: seq<Secret>)
    ensures IsList(inputs, valid)
  {
    var byValue: seq<Secret> := [];
    for k := 0 to |inputs|
      invariant Collected(inputs[..k], byValue)
    {
      var input := inputs[k];
      var value := ValueOf(input);
      CollectStep(inputs, k, byValue);
      if value.Some? && |Trim(value.value)| >= MIN_SECRET_LEN {
        byValue := Put(byValue, Secret(value.value, TagOf(input)));
      }
    }
    assert inputs[..|inputs|] == inputs;
    SortedIsList(inputs, byValue);
    valid := Sort(byValue, ByLengthDescending());
  }

  // What a list holds, in terms of the secrets given.

  /** A text of eight or more characters between its spaces. */
  ghost predicate LongEnough(value: string)
  {
    exists u :: IsTrimmed(value, u) && |u| >= 8
  }

  lemma LongEnoughExactly(value: string)
    ensures LongEnough(value) <==> |Trim(value)| >= MIN_SECRET_LEN
  {
    TrimExactly(value);
    if LongEnough(value) {
      var u :| IsTrimmed(value, u) && |u| >= 8;
      TrimmedOnce(value, u, Trim(value));
    }
  }

  /** Where a text trimmed to u has its first and its last character that is no space. */
  lemma TrimBounds(s: string, a: string, u: string, b: string)
    requires s == a + u + b && OnlySpaces(a) && OnlySpaces(b)
    requires u != "" ==> !IsSpace(u[0]) && !IsSpace(u[|u| - 1])
    ensures forall k :: 0 <= k < |s| && (k < |a| || k >= |a| + |u|) ==> IsSpace(s[k])
    ensures u != "" ==> !IsSpace(s[|a|]) && !IsSpace(s[|a| + |u| - 1])
    ensures u == s[|a|..|a| + |u|]
  {
    forall k | 0 <= k < |s| && (k < |a| || k >= |a| + |u|) ensures IsSpace(s[k]) {
      if k < |a| { assert s[k] == a[k]; } else { assert s[k] == b[k - |a| - |u|]; }
    }
  }

  lemma TrimmedOnce(s: string, u: string, v: string)
    requires IsTrimmed(s, u) && IsTrimmed(s, v) && u != ""
    ensures u == v
  {
    var a, b :| OnlySpaces(a) && OnlySpaces(b) && s == a + u + b;
    var c, d :| OnlySpaces(c) && OnlySpaces(d) && s == c + v + d;
    TrimBounds(s, a, u, b);
    TrimBounds(s, c, v, d);
  }

  /** The secret at a position gives the value. */
  ghost predicate Gives(input: SecretInput, value: string)
  {
    (input.Plain? && input.value == value) || (input.Labelled? && input.value == value)
  }

  /**
   A value is listed exactly when it is given somewhere and is long enough. Its label is that of the last
   secret with the value: the cleaned one of a labelled secret, and none of a plain one.
   */
  lemma ListedExactly(inputs: seq<SecretInput>, valid: seq<Secret>, value: string)
    requires IsList(inputs, valid)
    ensures (exists tag :: Secret(value, tag) in valid) <==>
              LongEnough(value) && exists p :: 0 <= p < |inputs| && Gives(inputs[p], value)
  {
    LongEnoughExactly(value);
    LastTagGiven(inputs, value);
    if LastTag(inputs, value).Some? {
      assert Secret(value, LastTag(inputs, value).value) in valid;
    }
    if tag :| Secret(value, tag) in valid { assert LastTag(inputs, Secret(value, tag).value) == Some(tag); }
  }

  lemma {:induction false} LastTagGiven(inputs: seq<SecretInput>, value: string)
    ensures LastTag(inputs, value).Some? <==>
              |Trim(value)| >= MIN_SECRET_LEN && exists p :: 0 <= p < |inputs| && Gives(inputs[p], value)
  {
    if inputs != [] {
      var n := |inputs| - 1;
      LastTagGiven(inputs[..n], value);
      if p :| 0 <= p < n && Gives(inputs[..n][p], value) { assert Gives(inputs[p], value); }
      if p :| 0 <= p < |inputs| && Gives(inputs[p], value) {
        if p < n { assert Gives(inputs[..n][p], value); }
      }
    }
  }

  lemma ListedLabel(inputs: seq<SecretInput>, valid: seq<Secret>, p: nat, secret: Secret)
    requires IsList(inputs, valid) && secret in valid
    requires p < |inputs| && Gives(inputs[p], secret.value)
    requires forall q :: p < q < |inputs| ==> !Gives(inputs[q], secret.value)
    ensures secret.tag == if inputs[p].Labelled? then SanitizeTag(inputs[p].tag) else None
  {
    LastTagGiven(inputs, secret.value);
    LastTagIs(inputs, p, secret.value);
  }

  lemma {:induction false} LastTagIs(inputs: seq<SecretInput>, p: nat, value: string)
    requires p < |inputs| && Gives(inputs[p], value) && |Trim(value)| >= MIN_SECRET_LEN
    requires forall q :: p < q < |inputs| ==> !Gives(inputs[q], value)
    ensures LastTag(inputs, value) == Some(if inputs[p].Labelled? then SanitizeTag(inputs[p].tag) else None)
    decreases |inputs|
  {
    var n := |inputs| - 1;
    if p < n { LastTagIs(inputs[..n], p, value); }
  }
}
