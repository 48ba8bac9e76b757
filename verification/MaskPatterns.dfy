/** What the two patterns of the masking pass match, in terms of words that stand alone in the text. */
module MaskPatterns {
  import opened Masking
  import opened Patterns

  ghost predicate HexGroup(w: string, n: nat)
  {
    |w| == n && forall k :: 0 <= k < n ==> IsHex(w[k])
  }

  /** Five groups of hex digits joined by hyphens. */
  ghost predicate Grouped(w: string, a: string, b: string, c: string, d: string, e: string)
  {
    && HexGroup(a, 8) && HexGroup(b, 4) && HexGroup(c, 4) && HexGroup(d, 4) && HexGroup(e, 12)
    && w == a + "-" + b + "-" + c + "-" + d + "-" + e
  }

  ghost predicate IsUuid(w: string)
  {
    exists a, b, c, d, e :: Grouped(w, a, b, c, d, e)
  }

  /** Seven or more hex digits, one of them a letter. */
  ghost predicate IsHexWord(w: string)
  {
    HexGroup(w, |w|) && |w| >= 7 && exists k :: 0 <= k < |w| && IsHexLetter(w[k])
  }

  /** The stretch of n characters from i on, with no word character on either side. */
  ghost predicate StandsAlone(s: string, i: nat, n: nat)
  {
    i + n <= |s| && !WordAt(s, i - 1) && !WordAt(s, i + n)
  }

  /** Where a stretch starts and ends with a word character, word boundaries mean that it stands alone. */
  lemma BoundariesMeanAlone(s: string, i: nat, n: nat)
    requires n > 0 && i + n <= |s| && IsWord(s[i]) && IsWord(s[i + n - 1])
    ensures Boundary(s, i) && Boundary(s, i + n) <==> StandsAlone(s, i, n)
  {
  }

  // ---------------------------------------------------------------- UUIDs

  ghost predicate UuidChars(w: string)
  {
    |w| == 36 && forall k :: 0 <= k < 36 ==> UuidChar(w[k], k)
  }

  lemma CharsAreGrouped(w: string)
    requires UuidChars(w)
    ensures IsUuid(w)
  {
    assert UuidChar(w[8], 8) && UuidChar(w[13], 13) && UuidChar(w[18], 18) && UuidChar(w[23], 23);
    forall k | 0 <= k < 36 && k != 8 && k != 13 && k != 18 && k != 23 ensures IsHex(w[k]) {
      assert UuidChar(w[k], k);
    }
    assert Grouped(w, w[..8], w[9..13], w[14..18], w[19..23], w[24..]);
  }

  lemma GroupedAreChars(w: string)
    requires IsUuid(w)
    ensures UuidChars(w)
  {
    var a, b, c, d, e :| Grouped(w, a, b, c, d, e);
    forall k | 0 <= k < 36 ensures UuidChar(w[k], k) {
    }
  }

  lemma CharsInPlace(s: string, i: nat)
    requires i + 36 <= |s|
    ensures UuidChars(s[i..i + 36]) <==> forall j :: i <= j < i + 36 ==> UuidChar(s[j], j - i)
  {
    var w := s[i..i + 36];
    if UuidChars(w) {
      forall j | i <= j < i + 36 ensures UuidChar(s[j], j - i) {
        assert UuidChar(w[j - i], j - i);
      }
    }
    if forall j :: i <= j < i + 36 ==> UuidChar(s[j], j - i) {
      forall k | 0 <= k < 36 ensures UuidChar(w[k], k) {
        assert UuidChar(s[i + k], i + k - i);
      }
    }
  }

  lemma CharsStartAndEnd(w: string)
    requires UuidChars(w)
    ensures IsHex(w[0]) && IsHex(w[35])
  {
    assert UuidChar(w[0], 0) && UuidChar(w[35], 35);
  }

  lemma CharsAtBoundaries(s: string, i: nat)
    requires i + 36 <= |s| && UuidChars(s[i..i + 36])
    ensures Boundary(s, i) && Boundary(s, i + 36) <==> StandsAlone(s, i, 36)
  {
    CharsStartAndEnd(s[i..i + 36]);
    BoundariesMeanAlone(s, i, 36);
  }

  /** The first pattern matches exactly the UUIDs that stand alone. */
  lemma UuidPatternExactly(s: string, i: nat)
    ensures UuidPattern()(s, i) == if StandsAlone(s, i, 36) && IsUuid(s[i..i + 36]) then 36 else 0
  {
    if i + 36 <= |s| {
      var w := s[i..i + 36];
      CharsInPlace(s, i);
      if UuidChars(w) {
        CharsAreGrouped(w);
        CharsAtBoundaries(s, i);
      }
      if IsUuid(w) { GroupedAreChars(w); }
    }
  }

  // ---------------------------------------------------------------- hex strings

  lemma {:induction false} HexRunIs(s: string, i: nat, n: nat)
    requires i + n <= |s| && (forall k :: i <= k < i + n ==> IsHex(s[k])) && (i + n < |s| ==> !IsHex(s[i + n]))
    ensures HexRun(s, i) == n
    decreases n
  {
    if n > 0 { HexRunIs(s, i + 1, n - 1); }
  }

  lemma {:induction false} HexRunFits(s: string, i: nat)
    ensures HexRun(s, i) > 0 ==> i + HexRun(s, i) <= |s| && HexGroup(s[i..i + HexRun(s, i)], HexRun(s, i))
    decreases |s| - i
  {
    var n := HexRun(s, i);
    if n > 0 {
      HexRunIsHex(s, i, i + n - 1);
      var w := s[i..i + n];
      forall k | 0 <= k < n ensures IsHex(w[k]) {
        HexRunIsHex(s, i, i + k);
        assert w[k] == s[i + k];
      }
    }
  }

  lemma HexFound(s: string, i: nat, n: nat)
    requires n == HexRun(s, i) && HexStringAt(s, i, n)
    ensures StandsAlone(s, i, n) && IsHexWord(s[i..i + n])
  {
    HexRunFits(s, i);
    var w := s[i..i + n];
    var j :| i <= j < i + n && IsHexLetter(s[j]);
    assert IsHexLetter(w[j - i]);
    assert IsHex(w[0]) && IsHex(w[n - 1]);
    BoundariesMeanAlone(s, i, n);
  }

  lemma HexWordFound(s: string, i: nat, n: nat)
    requires StandsAlone(s, i, n) && IsHexWord(s[i..i + n])
    ensures HexRun(s, i) == n && HexStringAt(s, i, n)
  {
    var w := s[i..i + n];
    forall k | i <= k < i + n ensures IsHex(s[k]) {
      assert IsHex(w[k - i]);
    }
    if i + n < |s| { assert !IsWord(s[i + n]); }
    HexRunIs(s, i, n);
    assert IsHex(w[0]) && IsHex(w[n - 1]);
    BoundariesMeanAlone(s, i, n);
    var k :| 0 <= k < |w| && IsHexLetter(w[k]);
    assert IsHexLetter(s[i + k]);
  }

  /** The second pattern matches exactly the hex words that stand alone, whole. */
  lemma HexPatternExactly(s: string, i: nat)
    ensures var n := HexPattern()(s, i); n > 0 ==> StandsAlone(s, i, n) && IsHexWord(s[i..i + n])
    ensures forall n: nat :: StandsAlone(s, i, n) && IsHexWord(s[i..i + n]) ==> HexPattern()(s, i) == n
  {
    var run := HexRun(s, i);
    if HexStringAt(s, i, run) { HexFound(s, i, run); }
    forall n: nat | StandsAlone(s, i, n) && IsHexWord(s[i..i + n]) ensures HexPattern()(s, i) == n {
      HexWordFound(s, i, n);
    }
  }

  // ---------------------------------------------------------------- what the scan sees

  /** A word without NUL that starts and ends with a hex digit. */
  ghost predicate HexEnds(w: string)
  {
    w != "" && IsHex(w[0]) && IsHex(w[|w| - 1]) && NUL !in w
  }

  /** The word w stands alone at p in x; before tells whether a word character stands in front of x. */
  ghost predicate Lone(x: string, p: nat, w: string, before: bool)
  {
    && HexEnds(w) && p + |w| <= |x| && x[p..p + |w|] == w
    && !WordAt(x, p + |w|) && (if p == 0 then !before else !WordAt(x, p - 1))
  }

  lemma LoneInTail(head: string, rest: string, p: nat, w: string, before: bool)
    requires Lone(head + rest, p, w, before) && head != "" && p >= |head|
    ensures Lone(rest, p - |head|, w, IsWord(head[|head| - 1]))
  {
    var x := head + rest;
    assert rest[p - |head|..p - |head| + |w|] == x[p..p + |w|];
  }

  lemma LoneStartsWord(x: string, p: nat, w: string)
    requires HexEnds(w) && p + |w| <= |x| && x[p..p + |w|] == w
    ensures WordAt(x, p)
  {
    assert x[p] == w[0];
  }

  /** No such word starts inside a placeholder. */
  lemma {:induction false} NotInPlaceholder(kind: Kind, n: nat, rest: string, p: nat, w: string, before: bool)
    requires Lone(Placeholder(kind, n) + rest, p, w, before)
    ensures p >= |Placeholder(kind, n)|
  {
    var h := Placeholder(kind, n);
    var x := h + rest;
    DecRoundTrip(n);
    assert forall k :: 1 <= k < |h| - 1 ==> WordAt(h, k);
    assert x[p] == w[0];
  }

  /** Such a word at the front of masked text is text: no placeholder is inside it. */
  lemma {:induction false} FrontStays(f: Pattern, kind: Kind, s: string, i: nat, n: nat, w: string, rest: string)
    requires i <= |s| && Masked(f, kind, s, i, n) == w + rest && NUL !in w
    ensures i + |w| <= |s| && s[i..i + |w|] == w && Masked(f, kind, s, i + |w|, n) == rest
    ensures w != "" ==> f(s, i) == 0
    decreases |w|
  {
    if w != "" {
      assert (w + rest)[0] == w[0];
      assert f(s, i) == 0;
      MaskedLiteral(f, kind, s, i, n);
      assert w + rest == [w[0]] + (w[1..] + rest);
      assert Masked(f, kind, s, i + 1, n) == (w + rest)[1..] == w[1..] + rest;
      FrontStays(f, kind, s, i + 1, n, w[1..], rest);
    } else {
      assert w + rest == rest;
    }
  }

  /** Behind a word character, masked text goes on with a word character when the text does. */
  lemma {:induction false} MaskedNext(f: Pattern, kind: Kind, s: string, i: nat, n: nat)
    requires WordBounded(f) && 0 < i <= |s| && IsWord(s[i - 1])
    ensures WordAt(Masked(f, kind, s, i, n), 0) == WordAt(s, i)
  {
    if i < |s| {
      assert f(s, i) > 0 ==> MatchedWord(s, i, f(s, i));
      MaskedLiteral(f, kind, s, i, n);
    }
  }

  /** Behind a match masked text does not go on with a word. */
  lemma {:induction false} BehindMatch(f: Pattern, kind: Kind, s: string, i: nat, n: nat)
    requires WordBounded(f) && i < |s| && f(s, i) > 0
    ensures !WordAt(Masked(f, kind, s, i + f(s, i), n), 0)
  {
    assert MatchedWord(s, i, f(s, i));
    var j := i + f(s, i);
    if j < |s| && f(s, j) == 0 { MaskedLiteral(f, kind, s, j, n); }
  }

  /** The word stands alone in the text, where the pattern did not match. */
  ghost predicate Unmatched(f: Pattern, s: string, q: nat, w: string)
  {
    StandsAlone(s, q, |w|) && s[q..q + |w|] == w && f(s, q) == 0
  }

  lemma {:induction false} LoneInFront(f: Pattern, kind: Kind, s: string, i: nat, n: nat, w: string)
    requires WordBounded(f) && i <= |s| && Lone(Masked(f, kind, s, i, n), 0, w, WordAt(s, i - 1))
    ensures Unmatched(f, s, i, w)
  {
    var x := Masked(f, kind, s, i, n);
    var rest := x[|w|..];
    assert x == x[0..|w|] + rest;
    FrontStays(f, kind, s, i, n, w, rest);
    assert s[i + |w| - 1] == s[i..i + |w|][|w| - 1];
    MaskedNext(f, kind, s, i + |w|, n);
    assert WordAt(rest, 0) == WordAt(x, |w|);
  }

  lemma {:induction false} LoneBehindMatch(f: Pattern, kind: Kind, s: string, i: nat, n: nat, rest: string, p: nat, w: string)
    requires WordBounded(f) && i < |s| && f(s, i) > 0 && rest == Masked(f, kind, s, i + f(s, i), n + 1)
    requires Lone(Placeholder(kind, n) + rest, p, w, WordAt(s, i - 1))
    ensures p > |Placeholder(kind, n)|
    ensures Lone(rest, p - |Placeholder(kind, n)|, w, WordAt(s, i + f(s, i) - 1))
  {
    NotInPlaceholder(kind, n, rest, p, w, WordAt(s, i - 1));
    LoneInTail(Placeholder(kind, n), rest, p, w, WordAt(s, i - 1));
    BehindMatch(f, kind, s, i, n + 1);
    LoneStartsWord(rest, p - |Placeholder(kind, n)|, w);
  }

  lemma {:induction false} LoneBehindLiteral(c: char, rest: string, p: nat, w: string, s: string, i: nat)
    requires i < |s| && s[i] == c && p > 0 && Lone([c] + rest, p, w, WordAt(s, i - 1))
    ensures Lone(rest, p - 1, w, WordAt(s, i))
  {
    LoneInTail([c], rest, p, w, WordAt(s, i - 1));
  }

  /** A word that stands alone in the masked text stands alone in the text, where the pattern did not match. */
  lemma {:induction false} LoneWordStays(f: Pattern, kind: Kind, s: string, i: nat, n: nat, p: nat, w: string)
    returns (q: nat)
    requires WordBounded(f) && i <= |s| && Lone(Masked(f, kind, s, i, n), p, w, WordAt(s, i - 1))
    ensures Unmatched(f, s, q, w)
    decreases |s| - i
  {
    if i < |s| && f(s, i) > 0 {
      var j := i + f(s, i);
      LoneBehindMatch(f, kind, s, i, n, Masked(f, kind, s, j, n + 1), p, w);
      MatchIsText(f, s, i);
      q := LoneWordStays(f, kind, s, j, n + 1, p - |Placeholder(kind, n)|, w);
    } else if p == 0 {
      LoneInFront(f, kind, s, i, n, w);
      q := i;
    } else {
      MaskedLiteral(f, kind, s, i, n);
      LoneBehindLiteral(s[i], Masked(f, kind, s, i + 1, n), p, w, s, i);
      q := LoneWordStays(f, kind, s, i + 1, n, p - 1, w);
    }
  }

  lemma UuidIsLone(x: string, p: nat) returns (w: string)
    requires UuidPattern()(x, p) > 0
    ensures Lone(x, p, w, false) && IsUuid(w)
  {
    UuidPatternExactly(x, p);
    w := x[p..p + 36];
    GroupedAreChars(w);
    CharsStartAndEnd(w);
    forall k | 0 <= k < |w| ensures w[k] != NUL { assert UuidChar(w[k], k); }
  }

  lemma HexIsLone(x: string, p: nat) returns (w: string)
    requires HexPattern()(x, p) > 0
    ensures Lone(x, p, w, false) && IsHexWord(w)
  {
    HexPatternExactly(x, p);
    w := x[p..p + HexPattern()(x, p)];
    assert IsHex(w[0]) && IsHex(w[|w| - 1]);
    forall k | 0 <= k < |w| ensures w[k] != NUL { assert IsHex(w[k]); }
  }

  lemma UuidIsMatched(s: string, q: nat, w: string)
    requires Unmatched(UuidPattern(), s, q, w)
    ensures !IsUuid(w)
  {
    UuidPatternExactly(s, q);
    if IsUuid(w) { GroupedAreChars(w); }
  }

  lemma HexIsMatched(s: string, q: nat, w: string)
    requires Unmatched(HexPattern(), s, q, w)
    ensures !IsHexWord(w)
  {
    HexPatternExactly(s, q);
  }

  /** After a masking pass a word that stands alone is one that stood alone before, unmatched. */
  lemma AfterMasking(f: Pattern, kind: Kind, s: string, p: nat, w: string) returns (q: nat)
    requires WordBounded(f) && Lone(Masked(f, kind, s, 0, 0), p, w, false)
    ensures Unmatched(f, s, q, w)
  {
    q := LoneWordStays(f, kind, s, 0, 0, p, w);
  }

  lemma UnmatchedIsLone(f: Pattern, s: string, q: nat, w: string)
    requires Unmatched(f, s, q, w) && HexEnds(w)
    ensures Lone(s, q, w, false)
  {
  }

  lemma NoUuidLeft(text: string, p: nat)
    ensures UuidPattern()(Scanned(text), p) == 0
  {
    if UuidPattern()(Scanned(text), p) > 0 {
      UuidPatternBounded();
      HexPatternBounded();
      var w := UuidIsLone(Scanned(text), p);
      var s := Masked(UuidPattern(), Uuid, text, 0, 0);
      var q := AfterMasking(HexPattern(), Hex, s, p, w);
      UnmatchedIsLone(HexPattern(), s, q, w);
      q := AfterMasking(UuidPattern(), Uuid, text, q, w);
      UuidIsMatched(text, q, w);
    }
  }

  lemma NoHexLeft(text: string, p: nat)
    ensures HexPattern()(Scanned(text), p) == 0
  {
    if HexPattern()(Scanned(text), p) > 0 {
      HexPatternBounded();
      var w := HexIsLone(Scanned(text), p);
      var s := Masked(UuidPattern(), Uuid, text, 0, 0);
      var q := AfterMasking(HexPattern(), Hex, s, p, w);
      HexIsMatched(s, q, w);
    }
  }

  /** Nothing gets past the masks: what the PII patterns see holds no UUID and no hex string, whatever the text. */
  lemma NothingGetsPast(text: string, p: nat)
    ensures forall n: nat :: !(StandsAlone(Scanned(text), p, n) && IsHexWord(Scanned(text)[p..p + n]))
    ensures !(StandsAlone(Scanned(text), p, 36) && IsUuid(Scanned(text)[p..p + 36]))
  {
    NoUuidLeft(text, p);
    NoHexLeft(text, p);
    UuidPatternExactly(Scanned(text), p);
    HexPatternExactly(Scanned(text), p);
  }
}
