/**
 The PII pass between masking and restoring, when it does change the text. A masked text is a row of characters
 and placeholders. Whatever the pass makes of the characters between the placeholders, the placeholders that it
 leaves alone come back as the UUIDs and hex strings they stand for, with one exception.
 */
module PiiPass {
  import opened Masking
  import opened Patterns
  import opened Seqs
  import Strings

  /** One character of the text, or a placeholder. */
  datatype Token = Chr(c: char) | Hole(kind: Kind, n: nat)

  datatype Row = End | Then(head: Token, tail: Row)

  function Written(t: Token): string
  {
    if t.Chr? then [t.c] else Placeholder(t.kind, t.n)
  }

  /** The text as the patterns see it. */
  function Render(r: Row): string
  {
    if r.End? then "" else Written(r.head) + Render(r.tail)
  }

  function Original(t: Token, uuids: seq<string>, hexes: seq<string>): string
  {
    match t
    case Chr(c) => [c]
    case Hole(Uuid, n) => Lookup(uuids, n)
    case Hole(Hex, n) => Lookup(hexes, n)
  }

  /** The text with every placeholder put back. */
  function Fill(r: Row, uuids: seq<string>, hexes: seq<string>): string
  {
    if r.End? then "" else Original(r.head, uuids, hexes) + Fill(r.tail, uuids, hexes)
  }

  /** The placeholders, in order. */
  function Holes(r: Row): seq<Token>
  {
    if r.End? then [] else if r.head.Hole? then [r.head] + Holes(r.tail) else Holes(r.tail)
  }

  predicate Contains(r: Row, t: Token)
  {
    r.Then? && (r.head == t || Contains(r.tail, t))
  }

  predicate NoNul(r: Row)
  {
    r.Then? ==> (r.head.Chr? ==> r.head.c != NUL) && NoNul(r.tail)
  }

  predicate OnlyUuids(r: Row)
  {
    r.Then? ==> (r.head.Hole? ==> r.head.kind == Uuid) && OnlyUuids(r.tail)
  }

  function Length(r: Row): nat
  {
    if r.End? then 0 else 1 + Length(r.tail)
  }

  /** The row without its first m tokens. */
  function Drop(r: Row, m: nat): (rest: Row)
    ensures r.Then? && m > 0 ==> Length(rest) < Length(r)
  {
    if m == 0 || r.End? then r else if m == 1 then r.tail else Drop(r.tail, m - 1)
  }

  // ---------------------------------------------------------------- a masked text is such a row

  /** The row behind the first pass. */
  function UuidRow(f: Pattern, s: string, i: nat, n: nat): Row
    decreases |s| - i
  {
    if i >= |s| then End
    else if f(s, i) > 0 then Then(Hole(Uuid, n), UuidRow(f, s, i + f(s, i), n + 1))
    else Then(Chr(s[i]), UuidRow(f, s, i + 1, n))
  }

  /** It is what the first pass writes, and has no placeholder for hex strings yet. */
  lemma {:induction false} UuidRowIsMasked(f: Pattern, s: string, i: nat, n: nat)
    ensures Render(UuidRow(f, s, i, n)) == Masked(f, Uuid, s, i, n) && OnlyUuids(UuidRow(f, s, i, n))
    decreases |s| - i
  {
    if i < |s| {
      if f(s, i) > 0 {
        UuidRowIsMasked(f, s, i + f(s, i), n + 1);
      } else {
        UuidRowIsMasked(f, s, i + 1, n);
      }
    }
  }

  lemma TextBehindMatch(f: Pattern, s: string, i: nat, n: nat, uuids: seq<string>, hexes: seq<string>)
    requires WordBounded(f) && i < |s| && f(s, i) > 0 && n <= |uuids| && uuids[n..] == Table(f, s, i)
    ensures var m := f(s, i);
            && i + m <= |s| && n < |uuids| && uuids[n + 1..] == Table(f, s, i + m)
            && Original(Hole(Uuid, n), uuids, hexes) + s[i + m..] == s[i..]
  {
    var m := f(s, i);
    MatchIsText(f, s, i);
    TableHead(uuids, n, Slice(s, i, i + m), Table(f, s, i + m));
  }

  /** With the table, the row is the text. */
  lemma {:induction false} UuidRowIsText(f: Pattern, s: string, i: nat, n: nat, uuids: seq<string>, hexes: seq<string>)
    requires WordBounded(f) && i <= |s| && n <= |uuids| && uuids[n..] == Table(f, s, i)
    ensures Fill(UuidRow(f, s, i, n), uuids, hexes) == s[i..]
    decreases |s| - i
  {
    if i < |s| {
      if f(s, i) > 0 {
        TextBehindMatch(f, s, i, n, uuids, hexes);
        UuidRowIsText(f, s, i + f(s, i), n + 1, uuids, hexes);
      } else {
        MaskedLiteral(f, Uuid, s, i, n);
        UuidRowIsText(f, s, i + 1, n, uuids, hexes);
      }
    }
  }

  /** The row behind the second pass: r is what the first left of s from position i on. */
  function HexRow(f: Pattern, s: string, i: nat, n: nat, r: Row): Row
    decreases Length(r)
  {
    if r.End? then End
    else if f(s, i) > 0 then Then(Hole(Hex, n), HexRow(f, s, i + f(s, i), n + 1, Drop(r, f(s, i))))
    else Then(r.head, HexRow(f, s, i + |Written(r.head)|, n, r.tail))
  }

  /** Characters at the front of a row are written and filled in as they are. */
  lemma {:induction false} DropChars(r: Row, e: string, x: string, uuids: seq<string>, hexes: seq<string>)
    requires Render(r) == e + x && NUL !in e
    ensures Render(Drop(r, |e|)) == x && Fill(r, uuids, hexes) == e + Fill(Drop(r, |e|), uuids, hexes)
    decreases |e|
  {
    if e == "" {
      assert "" + x == x && "" + Fill(r, uuids, hexes) == Fill(r, uuids, hexes);
    } else {
      FrontChar(r, e[0], e[1..] + x);
      DropChars(r.tail, e[1..], x, uuids, hexes);
      assert Drop(r, |e|) == Drop(r.tail, |e[1..]|);
      Reassociate([e[0]], e[1..], Fill(Drop(r, |e|), uuids, hexes));
      assert [e[0]] + e[1..] == e;
    }
  }

  lemma FrontChar(r: Row, c: char, x: string)
    requires Render(r) != "" && Render(r)[0] == c && Render(r)[1..] == x && c != NUL
    ensures r.Then? && r.head == Chr(c) && Render(r.tail) == x
  {
  }

  lemma {:induction false} DropKeepsHoles(r: Row, e: string, x: string, t: Token)
    requires Render(r) == e + x && NUL !in e
    ensures OnlyUuids(r) ==> OnlyUuids(Drop(r, |e|))
    ensures t.Hole? && Contains(r, t) ==> Contains(Drop(r, |e|), t)
    decreases |e|
  {
    if e != "" {
      FrontChar(r, e[0], e[1..] + x);
      DropKeepsHoles(r.tail, e[1..], x, t);
    }
  }

  /** Nothing matches in a stretch of the text: it stays as it is. */
  lemma {:induction false} Quiet(f: Pattern, kind: Kind, s: string, i: nat, w: nat, n: nat)
    requires i + w <= |s| && forall j :: i <= j < i + w ==> f(s, j) == 0
    ensures Masked(f, kind, s, i, n) == s[i..i + w] + Masked(f, kind, s, i + w, n)
    ensures Table(f, s, i) == Table(f, s, i + w)
    decreases w
  {
    if w > 0 {
      MaskedLiteral(f, kind, s, i, n);
      Quiet(f, kind, s, i + 1, w - 1, n);
      assert s[i..i + w] == [s[i]] + s[i + 1..i + w];
      Reassociate([s[i]], s[i + 1..i + w], Masked(f, kind, s, i + w, n));
    }
  }

  /** Behind its first character a hex digit stands behind a word character. */
  ghost predicate NoWordInside(p: string)
  {
    p != "" && forall j :: 0 < j < |p| && IsHex(p[j]) ==> IsWord(p[j - 1])
  }

  lemma WrittenIsQuiet(t: Token)
    requires t.Hole? ==> t.kind == Uuid
    ensures NoWordInside(Written(t))
  {
    if t.Hole? {
      DecRoundTrip(t.n);
      var p, d := Written(t), Dec(t.n);
      assert p == [NUL, 'U'] + d + [NUL];
      assert forall j :: 2 <= j < |p| - 1 ==> p[j] == d[j - 2];
    }
  }

  /** No match starts inside such a piece of the text. */
  lemma NoMatchInside(f: Pattern, s: string, i: nat, p: string, x: string)
    requires WordBounded(f) && i <= |s| && s[i..] == p + x && NoWordInside(p)
    ensures i + |p| <= |s| && s[i..i + |p|] == p && s[i + |p|..] == x
    ensures forall j :: i < j < i + |p| ==> f(s, j) == 0
  {
    assert s[i..][..|p|] == p && s[i..][|p|..] == x;
    forall j | i < j < i + |p| ensures f(s, j) == 0 {
      assert s[j] == p[j - i] && s[j - 1] == p[j - 1 - i];
      NoMatchInWord(f, s, j);
    }
  }

  /** Where nothing matches, the second pass leaves such a piece as it is. */
  lemma PieceStays(f: Pattern, s: string, i: nat, n: nat, p: string, x: string)
    requires WordBounded(f) && i <= |s| && s[i..] == p + x && NoWordInside(p) && f(s, i) == 0
    ensures var j := i + |p|;
            && j <= |s| && s[j..] == x && Table(f, s, i) == Table(f, s, j)
            && Masked(f, Hex, s, i, n) == p + Masked(f, Hex, s, j, n)
  {
    NoMatchInside(f, s, i, p, x);
    Quiet(f, Hex, s, i, |p|, n);
  }

  /** The row is the text from position i on, with placeholders for UUIDs only. */
  ghost predicate IsRow(s: string, i: nat, r: Row)
  {
    i <= |s| && s[i..] == Render(r) && OnlyUuids(r)
  }

  lemma RowEnds(s: string, i: nat)
    requires IsRow(s, i, End)
    ensures i == |s|
  {
    assert |s[i..]| == 0;
  }

  lemma TokenStays(f: Pattern, s: string, i: nat, n: nat, r: Row)
    requires WordBounded(f) && IsRow(s, i, r) && r.Then? && f(s, i) == 0
    ensures var j := i + |Written(r.head)|;
            && IsRow(s, j, r.tail) && Table(f, s, i) == Table(f, s, j)
            && Masked(f, Hex, s, i, n) == Written(r.head) + Masked(f, Hex, s, j, n)
  {
    WrittenIsQuiet(r.head);
    PieceStays(f, s, i, n, Written(r.head), Render(r.tail));
  }

  lemma MatchInFront(f: Pattern, s: string, i: nat, r: Row)
    requires WordBounded(f) && f(s, i) > 0 && IsRow(s, i, r)
    ensures var m := f(s, i);
            && i + m <= |s| && |Slice(s, i, i + m)| == m && NUL !in Slice(s, i, i + m)
            && Render(r) == Slice(s, i, i + m) + s[i + m..] && r.Then?
  {
    assert MatchedWord(s, i, f(s, i));
    MatchIsText(f, s, i);
  }

  lemma MatchDrops(f: Pattern, s: string, i: nat, r: Row, uuids: seq<string>, hexes: seq<string>, t: Token)
    requires WordBounded(f) && f(s, i) > 0 && IsRow(s, i, r)
    ensures var m := f(s, i);
            && i + m <= |s| && IsRow(s, i + m, Drop(r, m)) && r.Then?
            && Fill(r, uuids, hexes) == Slice(s, i, i + m) + Fill(Drop(r, m), uuids, hexes)
            && (t.Hole? && Contains(r, t) ==> Contains(Drop(r, m), t))
  {
    MatchInFront(f, s, i, r);
    var e, x := Slice(s, i, i + f(s, i)), s[i + f(s, i)..];
    DropChars(r, e, x, uuids, hexes);
    DropKeepsHoles(r, e, x, t);
  }

  // The rest of the row behind a match, or behind a token that stays, is the row of the rest.

  lemma RestBehindMatch(f: Pattern, s: string, i: nat, r: Row)
    requires WordBounded(f) && IsRow(s, i, r) && f(s, i) > 0
    ensures r.Then? && i < i + f(s, i) <= |s| && IsRow(s, i + f(s, i), Drop(r, f(s, i)))
  {
    MatchDrops(f, s, i, r, [], [], Chr(NUL));
  }

  lemma RestBehindToken(f: Pattern, s: string, i: nat, r: Row)
    requires WordBounded(f) && IsRow(s, i, r) && f(s, i) == 0 && r.Then?
    ensures IsRow(s, i + |Written(r.head)|, r.tail) && Table(f, s, i) == Table(f, s, i + |Written(r.head)|)
  {
    TokenStays(f, s, i, 0, r);
  }

  /** The second row is what the second pass writes. */
  ghost predicate IsWritten(f: Pattern, s: string, i: nat, n: nat, r: Row)
  {
    Render(HexRow(f, s, i, n, r)) == Masked(f, Hex, s, i, n)
  }

  lemma EndWritten(f: Pattern, s: string, i: nat, n: nat)
    requires i == |s|
    ensures IsWritten(f, s, i, n, End)
  {
  }

  lemma MatchWritten(f: Pattern, s: string, i: nat, n: nat, r: Row, m: nat)
    requires i < |s| && f(s, i) == m > 0 && r.Then? && IsWritten(f, s, i + m, n + 1, Drop(r, m))
    ensures IsWritten(f, s, i, n, r)
  {
  }

  lemma TokenWritten(f: Pattern, s: string, i: nat, n: nat, r: Row, j: nat)
    requires WordBounded(f) && IsRow(s, i, r) && f(s, i) == 0 && r.Then?
    requires j == i + |Written(r.head)| && IsWritten(f, s, j, n, r.tail)
    ensures IsWritten(f, s, i, n, r)
  {
    TokenStays(f, s, i, n, r);
    TokenJoins(f, s, i, n, r, j);
  }

  lemma TokenJoins(f: Pattern, s: string, i: nat, n: nat, r: Row, j: nat)
    requires f(s, i) == 0 && r.Then? && j == i + |Written(r.head)| && IsWritten(f, s, j, n, r.tail)
    requires Masked(f, Hex, s, i, n) == Written(r.head) + Masked(f, Hex, s, j, n)
    ensures IsWritten(f, s, i, n, r)
  {
  }

  lemma {:induction false} HexRowIsMasked(f: Pattern, s: string, i: nat, n: nat, r: Row)
    requires WordBounded(f) && IsRow(s, i, r)
    ensures IsWritten(f, s, i, n, r)
    decreases |s| - i, 1
  {
    if r.End? {
      RowEnds(s, i);
      EndWritten(f, s, i, n);
    } else if f(s, i) > 0 {
      HexRowAtMatch(f, s, i, n, r);
    } else {
      HexRowAtToken(f, s, i, n, r);
    }
  }

  lemma {:induction false} HexRowAtMatch(f: Pattern, s: string, i: nat, n: nat, r: Row)
    requires WordBounded(f) && IsRow(s, i, r) && r.Then? && f(s, i) > 0
    ensures IsWritten(f, s, i, n, r)
    decreases |s| - i, 0
  {
    var j, rest := i + f(s, i), Drop(r, f(s, i));
    assert i < j && IsRow(s, j, rest) by { RestBehindMatch(f, s, i, r); }
    HexRowIsMasked(f, s, j, n + 1, rest);
    assert i < |s|;
    MatchWritten(f, s, i, n, r, f(s, i));
  }

  lemma {:induction false} HexRowAtToken(f: Pattern, s: string, i: nat, n: nat, r: Row)
    requires WordBounded(f) && IsRow(s, i, r) && r.Then? && f(s, i) == 0
    ensures IsWritten(f, s, i, n, r)
    decreases |s| - i, 0
  {
    var j := i + |Written(r.head)|;
    RestBehindToken(f, s, i, r);
    HexRowIsMasked(f, s, j, n, r.tail);
    TokenWritten(f, s, i, n, r, j);
  }

  lemma MatchFilled(f: Pattern, s: string, i: nat, n: nat, r: Row, uuids: seq<string>, hexes: seq<string>)
    requires WordBounded(f) && IsRow(s, i, r) && f(s, i) > 0 && r.Then?
    requires n < |hexes| && hexes[n] == Slice(s, i, i + f(s, i))
    requires var rest := Drop(r, f(s, i));
             Fill(HexRow(f, s, i + f(s, i), n + 1, rest), uuids, hexes) == Fill(rest, uuids, hexes)
    ensures Fill(HexRow(f, s, i, n, r), uuids, hexes) == Fill(r, uuids, hexes)
  {
    MatchDrops(f, s, i, r, uuids, hexes, Chr(NUL));
  }

  lemma TokenFilled(f: Pattern, s: string, i: nat, n: nat, r: Row, uuids: seq<string>, hexes: seq<string>)
    requires f(s, i) == 0 && r.Then?
    requires Fill(HexRow(f, s, i + |Written(r.head)|, n, r.tail), uuids, hexes) == Fill(r.tail, uuids, hexes)
    ensures Fill(HexRow(f, s, i, n, r), uuids, hexes) == Fill(r, uuids, hexes)
  {
  }

  /** With the second table it has the same text behind it as the first row. */
  lemma {:induction false} HexRowIsText(
    f: Pattern, s: string, i: nat, n: nat, r: Row, uuids: seq<string>, hexes: seq<string>)
    requires WordBounded(f) && IsRow(s, i, r) && n <= |hexes| && hexes[n..] == Table(f, s, i)
    ensures Fill(HexRow(f, s, i, n, r), uuids, hexes) == Fill(r, uuids, hexes)
    decreases Length(r)
  {
    if r.Then? {
      if f(s, i) > 0 {
        var m := f(s, i);
        RestBehindMatch(f, s, i, r);
        TableHead(hexes, n, Slice(s, i, i + m), Table(f, s, i + m));
        HexRowIsText(f, s, i + m, n + 1, Drop(r, m), uuids, hexes);
        MatchFilled(f, s, i, n, r, uuids, hexes);
      } else {
        RestBehindToken(f, s, i, r);
        HexRowIsText(f, s, i + |Written(r.head)|, n, r.tail, uuids, hexes);
        TokenFilled(f, s, i, n, r, uuids, hexes);
      }
    }
  }

  /** The row that a text becomes. */
  ghost function RowOf(text: string): Row
  {
    HexRow(HexPattern(), Masked(UuidPattern(), Uuid, text, 0, 0), 0, 0, UuidRow(UuidPattern(), text, 0, 0))
  }

  ghost function Uuids(text: string): seq<string>
  {
    Table(UuidPattern(), text, 0)
  }

  ghost function Hexes(text: string): seq<string>
  {
    Table(HexPattern(), Masked(UuidPattern(), Uuid, text, 0, 0), 0)
  }

  /** The scanned text is the row of the text, and with its placeholders put back that row is the text. */
  lemma ScannedIsRow(text: string)
    ensures Render(RowOf(text)) == Scanned(text)
    ensures Fill(RowOf(text), Uuids(text), Hexes(text)) == text
  {
    UuidPatternBounded();
    HexPatternBounded();
    var s, r := Masked(UuidPattern(), Uuid, text, 0, 0), UuidRow(UuidPattern(), text, 0, 0);
    UuidRowIsMasked(UuidPattern(), text, 0, 0);
    assert Uuids(text)[0..] == Uuids(text) && Hexes(text)[0..] == Hexes(text) && text[0..] == text && s[0..] == s;
    UuidRowIsText(UuidPattern(), text, 0, 0, Uuids(text), Hexes(text));
    HexRowIsMasked(HexPattern(), s, 0, 0, r);
    HexRowIsText(HexPattern(), s, 0, 0, r, Uuids(text), Hexes(text));
  }

  // ---------------------------------------------------------------- restoring a row

  /** The row goes on with digits and then a placeholder. */
  predicate DigitsThenHole(r: Row)
  {
    r.Then? && (r.head.Hole? || (Strings.IsDigit(r.head.c) && DigitsThenHole(r.tail)))
  }

  /** The row goes on with an H, at least one digit, and then a placeholder. */
  predicate NumberThenHole(r: Row)
  {
    r.Then? && r.head == Chr('H') && r.tail.Then? && r.tail.head.Chr? && DigitsThenHole(r.tail)
  }

  predicate GluedHere(r: Row)
  {
    r.Then? && r.head.Hole? && r.head.kind == Uuid && NumberThenHole(r.tail)
  }

  /**
   Somewhere such a number stands behind a UUID's placeholder: with the NULs on both sides it looks like a
   placeholder for a hex string.
   */
  predicate Glued(r: Row)
  {
    r.Then? && (GluedHere(r) || Glued(r.tail))
  }

  lemma {:induction false} TailOfRow(r: Row)
    requires NoNul(r)
    ensures TailLen(Render(r)) >= 0 <==> DigitsThenHole(r)
  {
    if r.Then? && r.head.Chr? {
      TailOfRow(r.tail);
      TailCons(r.head.c, Render(r.tail));
    }
  }

  lemma RunOfRow(r: Row)
    requires NoNul(r)
    ensures RunLen(Hex, Render(r)) > 0 <==> NumberThenHole(r)
  {
    if r.Then? && r.head.Chr? {
      RunCons(Hex, r.head.c, Render(r.tail));
      TailOfRow(r.tail);
      if r.tail.Then? && r.tail.head.Chr? {
        TailOfRow(r.tail.tail);
        TailCons(r.tail.head.c, Render(r.tail.tail));
      }
    }
  }

  lemma OriginalIsClean(t: Token, uuids: seq<string>, hexes: seq<string>)
    requires PlainTable(uuids) && PlainTable(hexes) && (t.Chr? ==> t.c != NUL)
    ensures Original(t, uuids, hexes) != "" && NUL !in Original(t, uuids, hexes)
  {
    if t.Hole? {
      LookupIsPlain(uuids, t.n);
      LookupIsPlain(hexes, t.n);
    }
  }

  lemma HexHole(n: nat, x: string, uuids: seq<string>, hexes: seq<string>)
    requires PlainTable(hexes)
    ensures RestoreBoth(Placeholder(Hex, n) + x, uuids, hexes) == Lookup(hexes, n) + RestoreBoth(x, uuids, hexes)
  {
    RestorePlaceholder(Hex, n, x, hexes);
    LookupIsPlain(hexes, n);
    RestoreClean(Uuid, Lookup(hexes, n), Restore(Hex, x, hexes), uuids);
  }

  /** The opening NUL of a glued placeholder stays: its closing one is taken for the next. */
  lemma GluedHole(n: nat, x: string, uuids: seq<string>, hexes: seq<string>)
    requires PlainTable(hexes) && RunLen(Hex, x) > 0
    ensures var r := RestoreBoth(Placeholder(Uuid, n) + x, uuids, hexes); r != "" && r[0] == NUL
  {
    DecRoundTrip(n);
    NumberThenConcat(Dec(n), x);
    var y := ['U'] + (Dec(n) + [NUL] + x);
    assert y[1..] == Dec(n) + [NUL] + x;
    BothNulAt(y, Dec(n), x, uuids, hexes);
    PlaceholderThen(Uuid, n, x);
  }

  lemma Cancel(a: string, x: string, y: string)
    ensures a + x == a + y <==> x == y
  {
    assert (a + x)[|a|..] == x && (a + y)[|a|..] == y;
  }

  lemma RestoreHead(r: Row, uuids: seq<string>, hexes: seq<string>)
    requires NoNul(r) && PlainTable(uuids) && PlainTable(hexes) && r.Then? && !GluedHere(r)
    ensures RestoreBoth(Render(r), uuids, hexes) ==
            Original(r.head, uuids, hexes) + RestoreBoth(Render(r.tail), uuids, hexes)
  {
    var x := Render(r.tail);
    match r.head
    case Chr(c) => BothClean([c], x, uuids, hexes);
    case Hole(Hex, n) => HexHole(n, x, uuids, hexes);
    case Hole(Uuid, n) =>
      RunOfRow(r.tail);
      BothPlaceholder(n, x, uuids, hexes);
  }

  /** Restoring a row without further NULs puts every placeholder back exactly when none is glued. */
  lemma {:induction false} RestoreRowExactly(r: Row, uuids: seq<string>, hexes: seq<string>)
    requires NoNul(r) && PlainTable(uuids) && PlainTable(hexes)
    ensures RestoreBoth(Render(r), uuids, hexes) == Fill(r, uuids, hexes) <==> !Glued(r)
  {
    if r.Then? {
      if GluedHere(r) {
        RunOfRow(r.tail);
        GluedHole(r.head.n, Render(r.tail), uuids, hexes);
        OriginalIsClean(r.head, uuids, hexes);
        assert Original(r.head, uuids, hexes)[0] in Original(r.head, uuids, hexes);
      } else {
        RestoreHead(r, uuids, hexes);
        RestoreRowExactly(r.tail, uuids, hexes);
        Cancel(Original(r.head, uuids, hexes), RestoreBoth(Render(r.tail), uuids, hexes), Fill(r.tail, uuids, hexes));
      }
    }
  }

  // ---------------------------------------------------------------- the whole pass

  lemma TablesArePlain(text: string)
    ensures PlainTable(Uuids(text)) && PlainTable(Hexes(text))
  {
    UuidPatternBounded();
    HexPatternBounded();
    TableIsPlain(UuidPattern(), text, 0);
    TableIsPlain(HexPattern(), Masked(UuidPattern(), Uuid, text, 0, 0), 0);
  }

  /**
   Whatever row the PII pass leaves, with NULs in its placeholders only, the result is that row with every
   placeholder put back exactly when no H and number stand alone between a UUID's placeholder and the next one.
   */
  lemma PassExactly(text: string, pii: string -> string, r: Row)
    requires pii(Scanned(text)) == Render(r) && NoNul(r)
    ensures Redacted(text, pii) == Fill(r, Uuids(text), Hexes(text)) <==> !Glued(r)
  {
    TablesArePlain(text);
    RestoreRowExactly(r, Uuids(text), Hexes(text));
  }

  lemma FoundAt(a: string, word: string, b: string)
    ensures Strings.Occurs(word, a + word + b)
  {
    var whole := a + word + b;
    assert whole[|a|..|a| + |word|] == word;
    assert Strings.At(whole, |a|, word);
  }

  lemma FoundBehind(a: string, rest: string, word: string)
    requires Strings.Occurs(word, rest)
    ensures Strings.Occurs(word, a + rest)
  {
    var k: nat :| k <= |rest| && Strings.At(rest, k, word);
    var behind := rest[k + |word|..];
    assert rest == rest[..k] + (word + behind);
    Reassociate(a, rest[..k], word + behind);
    Reassociate(a + rest[..k], word, behind);
    FoundAt(a + rest[..k], word, rest[k + |word|..]);
  }

  lemma {:induction false} InFill(r: Row, t: Token, uuids: seq<string>, hexes: seq<string>)
    requires Contains(r, t)
    ensures Strings.Occurs(Original(t, uuids, hexes), Fill(r, uuids, hexes))
  {
    var word, rest := Original(t, uuids, hexes), Fill(r.tail, uuids, hexes);
    if r.head == t {
      FoundAt("", word, rest);
      assert "" + word + rest == word + rest;
    } else {
      InFill(r.tail, t, uuids, hexes);
      FoundBehind(Original(r.head, uuids, hexes), rest, word);
    }
  }

  lemma {:induction false} HolesContain(r: Row, t: Token)
    ensures t in Holes(r) <==> t.Hole? && Contains(r, t)
  {
    if r.Then? { HolesContain(r.tail, t); }
  }

  lemma {:induction false} UuidHoles(f: Pattern, s: string, i: nat, n: nat, k: nat)
    requires n <= k < n + |Table(f, s, i)|
    ensures Contains(UuidRow(f, s, i, n), Hole(Uuid, k))
    decreases |s| - i
  {
    if f(s, i) > 0 {
      if k > n { UuidHoles(f, s, i + f(s, i), n + 1, k); }
    } else {
      UuidHoles(f, s, i + 1, n, k);
    }
  }

  ghost predicate HasHole(f: Pattern, s: string, i: nat, n: nat, r: Row, t: Token)
  {
    t.Hole? && (Contains(r, t) || (t.kind == Hex && n <= t.n < n + |Table(f, s, i)|))
  }

  lemma HoleBehindMatch(f: Pattern, s: string, i: nat, n: nat, r: Row, t: Token)
    requires WordBounded(f) && IsRow(s, i, r) && HasHole(f, s, i, n, r, t) && f(s, i) > 0
    ensures r.Then? && IsRow(s, i + f(s, i), Drop(r, f(s, i)))
    ensures t == Hole(Hex, n) || HasHole(f, s, i + f(s, i), n + 1, Drop(r, f(s, i)), t)
  {
    MatchDrops(f, s, i, r, [], [], t);
  }

  lemma HoleBehindToken(f: Pattern, s: string, i: nat, n: nat, r: Row, t: Token)
    requires WordBounded(f) && IsRow(s, i, r) && HasHole(f, s, i, n, r, t) && f(s, i) == 0 && r.Then?
    ensures IsRow(s, i + |Written(r.head)|, r.tail)
    ensures t == r.head || HasHole(f, s, i + |Written(r.head)|, n, r.tail, t)
  {
    TokenStays(f, s, i, n, r);
  }

  /** The second pass keeps the placeholders there are, and adds one for each of its matches. */
  lemma {:induction false} HexHoles(f: Pattern, s: string, i: nat, n: nat, r: Row, t: Token)
    requires WordBounded(f) && IsRow(s, i, r) && HasHole(f, s, i, n, r, t)
    ensures Contains(HexRow(f, s, i, n, r), t)
    decreases Length(r)
  {
    if r.End? {
      RowEnds(s, i);
    } else if f(s, i) > 0 {
      HoleBehindMatch(f, s, i, n, r, t);
      if t != Hole(Hex, n) { HexHoles(f, s, i + f(s, i), n + 1, Drop(r, f(s, i)), t); }
    } else {
      HoleBehindToken(f, s, i, n, r, t);
      if t != r.head { HexHoles(f, s, i + |Written(r.head)|, n, r.tail, t); }
    }
  }

  /** Every UUID and every hex string of the text has its placeholder in the row. */
  lemma EveryWordHasHole(text: string, t: Token)
    requires t.Hole? && t.n < |if t.kind == Uuid then Uuids(text) else Hexes(text)|
    ensures Contains(RowOf(text), t)
  {
    UuidPatternBounded();
    HexPatternBounded();
    var s, r := Masked(UuidPattern(), Uuid, text, 0, 0), UuidRow(UuidPattern(), text, 0, 0);
    UuidRowIsMasked(UuidPattern(), text, 0, 0);
    assert s[0..] == s;
    if t.kind == Uuid { UuidHoles(UuidPattern(), text, 0, 0, t.n); }
    HexHoles(HexPattern(), s, 0, 0, r, t);
  }

  lemma WordReturns(text: string, r: Row, t: Token)
    requires Holes(r) == Holes(RowOf(text))
    requires t.Hole? && t.n < |if t.kind == Uuid then Uuids(text) else Hexes(text)|
    ensures Strings.Occurs(Original(t, Uuids(text), Hexes(text)), Fill(r, Uuids(text), Hexes(text)))
  {
    EveryWordHasHole(text, t);
    HolesContain(RowOf(text), t);
    HolesContain(r, t);
    InFill(r, t, Uuids(text), Hexes(text));
  }

  /** When the PII pass leaves the placeholders alone, every masked UUID and hex string is in the result. */
  lemma EveryWordReturns(text: string, pii: string -> string, r: Row, k: nat)
    requires pii(Scanned(text)) == Render(r) && NoNul(r) && Holes(r) == Holes(RowOf(text)) && !Glued(r)
    ensures k < |Uuids(text)| ==> Strings.Occurs(Uuids(text)[k], Redacted(text, pii))
    ensures k < |Hexes(text)| ==> Strings.Occurs(Hexes(text)[k], Redacted(text, pii))
  {
    PassExactly(text, pii, r);
    if k < |Uuids(text)| { WordReturns(text, r, Hole(Uuid, k)); }
    if k < |Hexes(text)| { WordReturns(text, r, Hole(Hex, k)); }
  }

  /** H1 between the placeholders of two UUIDs. */
  const TWO_UUIDS: Row := Then(Hole(Uuid, 0), Then(Chr('H'), Then(Chr('1'), Then(Hole(Uuid, 1), End))))

  lemma TwoUuidsFilled(uuids: seq<string>, hexes: seq<string>)
    ensures Fill(TWO_UUIDS, uuids, hexes) == Lookup(uuids, 0) + "H1" + Lookup(uuids, 1)
  {
    var last := Then(Hole(Uuid, 1), End);
    assert Fill(last, uuids, hexes) == Lookup(uuids, 1) + "";
    assert Fill(Then(Chr('1'), last), uuids, hexes) == ['1'] + Fill(last, uuids, hexes);
    Reassociate(Lookup(uuids, 0), "H1", Lookup(uuids, 1));
  }

  lemma TwoUuidsGlued()
    ensures NoNul(TWO_UUIDS) && Glued(TWO_UUIDS)
  {
    assert DigitsThenHole(Then(Hole(Uuid, 1), End));
    assert NumberThenHole(TWO_UUIDS.tail);
  }

  /** A pass that writes H1 between two UUIDs: they do not both come back. */
  lemma GluedIsLost(text: string, pii: string -> string)
    requires pii(Scanned(text)) == Render(TWO_UUIDS)
    ensures Redacted(text, pii) != Lookup(Uuids(text), 0) + "H1" + Lookup(Uuids(text), 1)
  {
    TwoUuidsGlued();
    PassExactly(text, pii, TWO_UUIDS);
    TwoUuidsFilled(Uuids(text), Hexes(text));
  }
}
