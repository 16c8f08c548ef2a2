/** Every comment finds a placeholder token: the `k`-th comment the regular
    expression matches is written back at the `k`-th token holding the
    placeholder (src/fmt.ts:184-196), and there are always at least as many
    such tokens as comments. A match runs to the last `*)` of its line, so
    a line terminator, which is whitespace, follows it before the next
    match begins; each placeholder therefore lands in a token of its own,
    and neither the placement pass nor the indentation pass removes the
    placeholder from a token or puts it into one. When the input does not
    itself spell out the placeholder, the counts are equal, so every
    placeholder token receives a comment. */
module Placeholders {
  import opened Text
  import opened Comments
  import opened Tokenize
  import opened Placement
  import opened Indentation
  import opened Reinsertion

  // ---------------------------------------------------------------------
  // Counting placeholder tokens

  lemma {:induction false} LocationsAppend(a: seq<string>, b: seq<string>)
    ensures |Locations(a + b)| == |Locations(a)| + |Locations(b)|
    decreases |b|
  {
    if b == [] {
      assert a + b == a;
    } else {
      var b' := b[..|b| - 1];
      assert (a + b)[..|a + b| - 1] == a + b';
      assert (a + b)[|a + b| - 1] == b[|b| - 1];
      LocationsAppend(a, b');
    }
  }

  lemma LocationsCons(t: string, ts: seq<string>)
    ensures |Locations([t] + ts)| == (if HoldsPlaceholder(t) then 1 else 0) + |Locations(ts)|
  {
    LocationsAppend([t], ts);
    assert [t][..0] == [];
  }

  /** Tokens that keep the placeholder wherever their counterparts held it
      hold it at least as often. */
  lemma {:induction false} LocationsMono(a: seq<string>, b: seq<string>)
    requires |a| <= |b|
    requires forall j :: 0 <= j < |a| && HoldsPlaceholder(a[j]) ==> HoldsPlaceholder(b[j])
    ensures |Locations(a)| <= |Locations(b)|
    decreases |b|
  {
    if |a| < |b| {
      LocationsMono(a, b[..|a|]);
      LocationsPrefix(b, |a|);
    } else if a != [] {
      LocationsMono(a[..|a| - 1], b[..|b| - 1]);
    }
  }

  // ---------------------------------------------------------------------
  // From comments to placeholder tokens

  /** Line ends seen from inside a line are that line's end. */
  lemma {:induction false} LineEndWithin(s: string, a: nat, b: nat)
    requires a <= |s| && a <= b <= LineEnd(s, a)
    ensures LineEnd(s, b) == LineEnd(s, a)
    decreases LineEnd(s, a) - b
  {
    if b < LineEnd(s, a) {
      LineEndWithin(s, a, b + 1);
    }
  }

  /** Nothing matches between the end of a match and the end of its line,
      nor at the line terminator itself: a match starting there would end
      at a later `*)` of the same line, which the greedy match would have
      taken. */
  lemma NoMatchBeforeLineEnd(s: string, p: nat, k: nat)
    requires p < |s| && MatchAt(s, p).Some?
    requires MatchAt(s, p).value <= k < |s| && k <= LineEnd(s, p + 1)
    ensures MatchAt(s, k).None?
  {
    var e, q := MatchAt(s, p).value, LineEnd(s, p + 1);
    if k < q && IsCommentStart(s[k]) {
      LineEndWithin(s, p + 1, k + 1);
      LastCloseIsLast(s, k + 1, q);
      LastCloseIsLast(s, p + 1, q);
    }
  }

  /** Characters that start no match are copied through one by one. */
  lemma {:induction false} CharsUntil(s: string, e: nat, m: nat)
    requires e <= m <= |s|
    requires forall k :: e <= k < m ==> MatchAt(s, k).None?
    ensures Render(PiecesFrom(s, e), false) == s[e..m] + Render(PiecesFrom(s, m), false)
    ensures CommentsOf(PiecesFrom(s, e)) == CommentsOf(PiecesFrom(s, m))
    decreases m - e
  {
    if e < m {
      CharsUntil(s, e + 1, m);
      CopiedOneMore(s, e, m);
    } else {
      assert s[e..m] == [];
    }
  }

  lemma CopiedOneMore(s: string, e: nat, m: nat)
    requires e < m <= |s| && MatchAt(s, e).None?
    requires Render(PiecesFrom(s, e + 1), false) == s[e + 1..m] + Render(PiecesFrom(s, m), false)
    requires CommentsOf(PiecesFrom(s, e + 1)) == CommentsOf(PiecesFrom(s, m))
    ensures Render(PiecesFrom(s, e), false) == s[e..m] + Render(PiecesFrom(s, m), false)
    ensures CommentsOf(PiecesFrom(s, e)) == CommentsOf(PiecesFrom(s, m))
  {
    CharPiece(s, e);
    SliceHead(s, e, m);
    Regroup(Render(PiecesFrom(s, e), false), Render(PiecesFrom(s, e + 1), false), s[e], s[e + 1..m], s[e..m],
            Render(PiecesFrom(s, m), false));
  }

  lemma SliceHead(s: string, e: nat, m: nat)
    requires e < m <= |s|
    ensures s[e..m] == [s[e]] + s[e + 1..m]
  {
  }

  /** One character in front of text `b + tail`, regrouped. */
  lemma Regroup(whole: string, rest: string, c: char, b: string, cb: string, tail: string)
    requires whole == [c] + rest && rest == b + tail && cb == [c] + b
    ensures whole == cb + tail
  {
  }

  /** A character that starts no match is rendered as itself and adds no
      comment. */
  lemma CharPiece(s: string, p: nat)
    requires p < |s| && MatchAt(s, p).None?
    ensures Render(PiecesFrom(s, p), false) == [s[p]] + Render(PiecesFrom(s, p + 1), false)
    ensures CommentsOf(PiecesFrom(s, p)) == CommentsOf(PiecesFrom(s, p + 1))
  {
    var rest := PiecesFrom(s, p + 1);
    assert PiecesFrom(s, p) == [Char(s[p])] + rest;
    assert ([Char(s[p])] + rest)[1..] == rest;
  }

  /** A token run that starts with one more non-whitespace character ends
      one character later. */
  lemma {:induction false} RunEndShift(c: char, r: string, p: nat)
    requires p <= |r|
    ensures RunEnd([c] + r, p + 1) == RunEnd(r, p) + 1
    decreases |r| - p
  {
    assert ([c] + r)[p + 1..] == r[p..];
    if p < |r| {
      assert ([c] + r)[p + 1] == r[p];
      if !IsWhitespace(r[p]) {
        RunEndShift(c, r, p + 1);
      }
    }
  }

  /** A non-whitespace character in front joins the first token, so the
      number of placeholder tokens cannot drop. */
  lemma GluedInFront(c: char, r: string)
    requires !IsWhitespace(c)
    ensures |Locations(Tokens(r))| <= |Locations(Tokens([c] + r))|
  {
    var x := [c] + r;
    var q' := RunEnd(r, 0);
    RunEndShift(c, r, 0);
    assert x[0] == c;
    assert RunEnd(x, 0) == q' + 1;
    assert x[..q' + 1] == [c] + r[..q'];
    assert x[q' + 1..] == r[q'..];
    LocationsCons([c] + r[..q'], Tokens(r[q'..]));
    if q' > 0 {
      LocationsCons(r[..q'], Tokens(r[q'..]));
      if HoldsPlaceholder(r[..q']) {
        ContainsWithin([c], r[..q'], "", Placeholder);
        assert [c] + r[..q'] + "" == [c] + r[..q'];
      }
    } else {
      assert r[q'..] == r;
    }
  }

  lemma PlaceholderIsToken()
    ensures IsToken(Placeholder)
  {
  }

  /** The placeholder with any text after it yields a placeholder token. */
  lemma PlaceholderLeads(y: string)
    ensures |Locations(Tokens(Placeholder + y))| >= 1
  {
    var x := Placeholder + y;
    PlaceholderIsToken();
    assert x[0] == 's';
    var q := RunEnd(x, 0);
    assert q >= |Placeholder|;
    assert x[..q][..|Placeholder|] == Placeholder;
    assert OccursAt(x[..q], Placeholder, 0);
    LocationsCons(x[..q], Tokens(x[q..]));
  }

  /** At least as many placeholder tokens as comments, from position `p` on. */
  ghost predicate EnoughFrom(s: string, p: nat)
  {
    p <= |s| && |CommentsOf(PiecesFrom(s, p))| <= |Locations(Tokens(Render(PiecesFrom(s, p), false)))|
  }

  /** A character that starts no match: whitespace is dropped by the
      tokeniser, anything else joins the first token. */
  lemma CharStep(s: string, p: nat)
    requires p < |s| && MatchAt(s, p).None? && EnoughFrom(s, p + 1)
    ensures EnoughFrom(s, p)
  {
    var r := Render(PiecesFrom(s, p + 1), false);
    CharPiece(s, p);
    if IsWhitespace(s[p]) {
      assert ([s[p]] + r)[1..] == r;
    } else {
      GluedInFront(s[p], r);
    }
  }

  /** A match is rendered as the placeholder and recorded as one comment. */
  lemma CommentPiece(s: string, p: nat, e: nat)
    requires p < |s| && MatchAt(s, p) == Some(e)
    ensures Render(PiecesFrom(s, p), false) == Placeholder + Render(PiecesFrom(s, e), false)
    ensures |CommentsOf(PiecesFrom(s, p))| == 1 + |CommentsOf(PiecesFrom(s, e))|
  {
    var rest := PiecesFrom(s, e);
    assert PiecesFrom(s, p) == [Comment(s[p..e])] + rest;
    assert ([Comment(s[p..e])] + rest)[1..] == rest;
  }

  /** After a match nothing matches up to the end of its line, the line
      terminator included. */
  lemma NoMatchRest(s: string, p: nat, e: nat, q: nat)
    requires p < |s| && MatchAt(s, p) == Some(e) && LineEnd(s, p + 1) == q
    ensures e <= q
    ensures forall k :: e <= k < |s| && k <= q ==> MatchAt(s, k).None?
  {
    LastCloseIsLast(s, p + 1, q);
    forall k | e <= k < |s| && k <= q
      ensures MatchAt(s, k).None?
    {
      NoMatchBeforeLineEnd(s, p, k);
    }
  }

  /** The rest of the line of a match that a line terminator ends: text
      ending in that terminator, copied through as characters. */
  lemma BrokenLine(s: string, p: nat, e: nat, q: nat) returns (line: string)
    requires p < |s| && MatchAt(s, p) == Some(e) && LineEnd(s, p + 1) == q && q < |s|
    ensures |line| > 0 && IsWhitespace(line[|line| - 1])
    ensures Render(PiecesFrom(s, e), false) == line + Render(PiecesFrom(s, q + 1), false)
    ensures |CommentsOf(PiecesFrom(s, e))| == |CommentsOf(PiecesFrom(s, q + 1))|
  {
    NoMatchRest(s, p, e, q);
    CharsUntil(s, e, q + 1);
    line := s[e..q + 1];
    assert |line| > 0 && line[|line| - 1] == s[q];
    LineTerminatorIsWhitespace(s[q]);
  }

  /** The rest of the line of a match on the text's last line. */
  lemma LastLine(s: string, p: nat, e: nat)
    requires p < |s| && MatchAt(s, p) == Some(e) && LineEnd(s, p + 1) == |s|
    ensures Render(PiecesFrom(s, e), false) == s[e..]
    ensures CommentsOf(PiecesFrom(s, e)) == []
  {
    NoMatchRest(s, p, e, |s|);
    CharsUntil(s, e, |s|);
    assert PiecesFrom(s, |s|) == [];
    assert s[e..|s|] + "" == s[e..];
  }

  /** The placeholder, text ending in a whitespace character, and then
      `r`: one more placeholder token than `r` alone. */
  lemma PlaceholderThenBreak(y: string, r: string)
    requires |y| > 0 && IsWhitespace(y[|y| - 1])
    ensures |Locations(Tokens(Placeholder + (y + r)))| >= 1 + |Locations(Tokens(r))|
  {
    var x, w := y[..|y| - 1], y[|y| - 1];
    assert Placeholder + (y + r) == (Placeholder + x) + [w] + r;
    TokensSplit(Placeholder + x, w, r);
    LocationsAppend(Tokens(Placeholder + x), Tokens(r));
    PlaceholderLeads(x);
  }

  /** A match: its placeholder and the rest of its line form tokens of
      their own, one of which holds the placeholder, and the line
      terminator separates them from what follows. */
  lemma CommentStep(s: string, p: nat, e: nat, q: nat)
    requires p < |s| && MatchAt(s, p) == Some(e) && LineEnd(s, p + 1) == q
    requires q < |s| ==> EnoughFrom(s, q + 1)
    ensures EnoughFrom(s, p)
  {
    CommentPiece(s, p, e);
    if q < |s| {
      BrokenLineCount(s, p, e, q);
    } else {
      LastLine(s, p, e);
      PlaceholderLeads(s[e..]);
    }
  }

  /** After the placeholder, the rest of a terminated line and what
      follows it hold one more placeholder token than they have comments. */
  lemma BrokenLineCount(s: string, p: nat, e: nat, q: nat)
    requires p < |s| && MatchAt(s, p) == Some(e) && LineEnd(s, p + 1) == q && q < |s|
    requires EnoughFrom(s, q + 1)
    ensures 1 + |CommentsOf(PiecesFrom(s, e))| <= |Locations(Tokens(Placeholder + Render(PiecesFrom(s, e), false)))|
  {
    var line := BrokenLine(s, p, e, q);
    var r := Render(PiecesFrom(s, q + 1), false);
    PlaceholderThenBreak(line, r);
  }

  lemma {:induction false} PlaceholderTokensFrom(s: string, p: nat)
    requires p <= |s|
    ensures EnoughFrom(s, p)
    decreases |s| - p
  {
    if p < |s| {
      match MatchAt(s, p)
      case None =>
        PlaceholderTokensFrom(s, p + 1);
        CharStep(s, p);
      case Some(e) =>
        var q := LineEnd(s, p + 1);
        if q < |s| {
          PlaceholderTokensFrom(s, q + 1);
        }
        CommentStep(s, p, e, q);
    }
  }

  /** The substituted text has at least as many tokens holding the
      placeholder as the text has comments. */
  lemma PlaceholderTokens(s: string)
    ensures |Matches(s)| <= |Locations(Tokens(Substitute(s)))|
  {
    PlaceholderTokensFrom(s, 0);
  }

  // ---------------------------------------------------------------------
  // The two passes keep the placeholder tokens

  /** No keyword is long enough to hold the placeholder. */
  lemma HolderIsNoKeyword(c: string)
    requires HoldsPlaceholder(c)
    ensures !IsKeyword(c)
  {
    var k: nat :| k <= |c| && OccursAt(c, Placeholder, k);
  }

  /** A token holding the placeholder still holds it after the placement
      pass: line feeds in front, then the default rewrite's trailing space. */
  lemma PlacementKeepsPlaceholder(tokens: seq<string>, j: nat)
    requires Place(tokens).Ok? && j < |tokens| && HoldsPlaceholder(tokens[j])
    ensures j < |Place(tokens).value.tokens| && HoldsPlaceholder(Place(tokens).value.tokens[j])
  {
    PlaceGrowth(tokens);
    FinalToken(tokens, j);
    var c := CurrentText(tokens, j).value;
    assert NewlinesThen(c, tokens[j]) by {
      CurrentTextIsOriginal(tokens, j);
    }
    DefaultRewriteKeeps(c, tokens[j]);
  }

  /** Line feeds in front and the default rewrite's trailing space keep
      the placeholder. */
  lemma DefaultRewriteKeeps(c: string, t: string)
    requires NewlinesThen(c, t) && HoldsPlaceholder(t)
    ensures HoldsPlaceholder(Rewrite(c))
  {
    var n := Newlines(|c| - |t|);
    assert c == n + t + "";
    ContainsWithin(n, t, "", Placeholder);
    HolderIsNoKeyword(c);
    assert Rewrite(c) == "" + c + " ";
    ContainsWithin("", c, " ", Placeholder);
  }

  lemma PlacementKeepsCount(tokens: seq<string>)
    requires Place(tokens).Ok?
    ensures |Locations(tokens)| <= |Locations(Place(tokens).value.tokens)|
  {
    var p := Place(tokens).value;
    PlaceGrowth(tokens);
    forall j | 0 <= j < |tokens| && HoldsPlaceholder(tokens[j])
      ensures HoldsPlaceholder(p.tokens[j])
    {
      PlacementKeepsPlaceholder(tokens, j);
    }
    LocationsMono(tokens, p.tokens);
  }

  /** Tabbing keeps everything after the leading line feed, and the
      placeholder does not start with one. */
  lemma TabbedKeepsPlaceholder(t: string, m: nat)
    requires HoldsPlaceholder(t)
    ensures HoldsPlaceholder(Tabbed(t, m))
  {
    if StartsWithNewline(t) {
      assert t == "\n" + t[1..];
      ContainsFramed(t[1..], Placeholder);
      ContainsWithin("\n" + Tabs(m), t[1..], "", Placeholder);
      assert "\n" + Tabs(m) + t[1..] + "" == Tabbed(t, m);
    }
  }

  lemma IndentationKeepsCount(tokens: seq<string>, openers: seq<nat>, closers: seq<nat>)
    ensures |Locations(tokens)| <= |Locations(Indented(tokens, openers, closers))|
  {
    var r, ps := Indented(tokens, openers, closers), Pairs(openers, closers);
    IndentedEffect(tokens, openers, closers);
    forall j | 0 <= j < |tokens| && HoldsPlaceholder(tokens[j])
      ensures HoldsPlaceholder(r[j])
    {
      TabbedKeepsPlaceholder(tokens[j], Cover(ps, j));
    }
    LocationsMono(tokens, r);
  }
  // ---------------------------------------------------------------------
  // No more placeholder tokens than comments, when the input lacks the
  // placeholder

  /** The number of positions at which the placeholder starts in `x`. */
  function Occurrences(x: string): (n: nat)
    ensures n <= |x|
    decreases |x|
  {
    if |x| < |Placeholder| then 0
    else (if x[..|Placeholder|] == Placeholder then 1 else 0) + Occurrences(x[1..])
  }

  lemma {:induction false} HolderOccurs(x: string)
    requires HoldsPlaceholder(x)
    ensures Occurrences(x) >= 1
    decreases |x|
  {
    var k: nat :| k <= |x| && OccursAt(x, Placeholder, k);
    if k > 0 {
      assert x[1..][k - 1..k - 1 + |Placeholder|] == x[k..k + |Placeholder|];
      assert k - 1 <= |x[1..]| && OccursAt(x[1..], Placeholder, k - 1);
      HolderOccurs(x[1..]);
    }
  }

  /** Occurrences in two pieces are occurrences in their concatenation. */
  lemma {:induction false} OccurrencesSplit(a: string, b: string)
    ensures Occurrences(a) + Occurrences(b) <= Occurrences(a + b)
    decreases |a|
  {
    if a == [] {
      assert a + b == b;
    } else {
      assert (a + b)[1..] == a[1..] + b;
      OccurrencesSplit(a[1..], b);
      if |a| >= |Placeholder| {
        assert (a + b)[..|Placeholder|] == a[..|Placeholder|];
      }
    }
  }

  /** Each placeholder token holds an occurrence of its own. */
  lemma {:induction false} TokensOccurrences(x: string)
    ensures |Locations(Tokens(x))| <= Occurrences(x)
    decreases |x|
  {
    if x != [] {
      if IsWhitespace(x[0]) {
        TokensOccurrences(x[1..]);
      } else {
        var q := RunEnd(x, 0);
        TokensOccurrences(x[q..]);
        LocationsCons(x[..q], Tokens(x[q..]));
        assert x == x[..q] + x[q..];
        OccurrencesSplit(x[..q], x[q..]);
        if HoldsPlaceholder(x[..q]) {
          HolderOccurs(x[..q]);
        }
      }
    }
  }

  /** Text the substitution renders from position `p`, when it starts with
      a string lacking the placeholder's first character, was copied from
      the input. */
  lemma {:induction false} RenderedFromInput(s: string, p: nat, w: string)
    requires p <= |s|
    ensures var r := Render(PiecesFrom(s, p), false);
            Placeholder[0] !in w && |w| <= |r| && r[..|w|] == w ==> p + |w| <= |s| && s[p..p + |w|] == w
    decreases |w|
  {
    if w != [] {
      if p == |s| {
        assert PiecesFrom(s, p) == [];
      } else if MatchAt(s, p).Some? {
        CommentPiece(s, p, MatchAt(s, p).value);
        assert Render(PiecesFrom(s, p), false)[0] == Placeholder[0];
      } else {
        RenderedFromInput(s, p + 1, w[1..]);
        CharPiece(s, p);
        CopiedStep(s, p, w, Render(PiecesFrom(s, p + 1), false), Render(PiecesFrom(s, p), false), Placeholder[0]);
      }
    }
  }

  /** One copied character in front of text copied from the input. */
  lemma CopiedStep(s: string, p: nat, w: string, r: string, r': string, h: char)
    requires p < |s| && w != [] && r' == [s[p]] + r
    requires h !in w[1..] && |w| - 1 <= |r| && r[..|w| - 1] == w[1..] ==>
               p + |w| <= |s| && s[p + 1..p + |w|] == w[1..]
    ensures h !in w && |w| <= |r'| && r'[..|w|] == w ==> p + |w| <= |s| && s[p..p + |w|] == w
  {
    if h !in w && |w| <= |r'| && r'[..|w|] == w {
      assert r[..|w| - 1] == w[1..];
      assert s[p..p + |w|] == [s[p]] + s[p + 1..p + |w|];
    }
  }

  /** The placeholder's first character occurs in it only once. */
  lemma {:induction false} PlaceholderRest(r: string, j: nat)
    requires 1 <= j <= |Placeholder|
    ensures Occurrences((Placeholder + r)[j..]) == Occurrences(r)
    decreases |Placeholder| - j
  {
    var x := (Placeholder + r)[j..];
    if j == |Placeholder| {
      assert x == r;
    } else {
      assert x[0] == Placeholder[j] != Placeholder[0];
      assert x[1..] == (Placeholder + r)[j + 1..];
      PlaceholderRest(r, j + 1);
    }
  }

  lemma PlaceholderFront(r: string)
    ensures Occurrences(Placeholder + r) == 1 + Occurrences(r)
  {
    assert (Placeholder + r)[..|Placeholder|] == Placeholder;
    PlaceholderRest(r, 1);
  }

  /** A copied character that starts an occurrence in the substituted text
      starts one in the input. */
  lemma CopiedOccurrence(s: string, p: nat)
    requires p < |s| && MatchAt(s, p).None?
    ensures var r := Render(PiecesFrom(s, p), false);
            |r| >= |Placeholder| && r[..|Placeholder|] == Placeholder ==> OccursAt(s, Placeholder, p)
  {
    var r, rest := Render(PiecesFrom(s, p), false), Render(PiecesFrom(s, p + 1), false);
    CharPiece(s, p);
    if |r| >= |Placeholder| && r[..|Placeholder|] == Placeholder {
      CopiedRest(s, p, r, rest);
    }
  }

  lemma CopiedRest(s: string, p: nat, r: string, rest: string)
    requires p < |s| && rest == Render(PiecesFrom(s, p + 1), false) && r == [s[p]] + rest
    requires |r| >= |Placeholder| && r[..|Placeholder|] == Placeholder
    ensures OccursAt(s, Placeholder, p)
  {
    var n := |Placeholder| - 1;
    var w := Placeholder[1..];
    PlaceholderHeadOnce();
    assert rest[..n] == w by {
      SliceAfterHead(s[p], rest, n);
    }
    RenderedFromInput(s, p + 1, w);
    GlueHead(s, p, n, r, rest);
  }

  lemma SliceAfterHead(c: char, rest: string, n: nat)
    requires n + 1 <= |[c] + rest|
    ensures rest[..n] == ([c] + rest)[..n + 1][1..]
  {
  }

  lemma GlueHead(s: string, p: nat, n: nat, r: string, rest: string)
    requires p + 1 + n <= |s| && n + 1 <= |r| && r == [s[p]] + rest && s[p + 1..p + 1 + n] == rest[..n]
    ensures s[p..p + 1 + n] == r[..n + 1]
  {
    assert s[p..p + 1 + n] == [s[p]] + s[p + 1..p + 1 + n];
  }

  lemma PlaceholderHeadOnce()
    ensures Placeholder[0] !in Placeholder[1..]
  {
  }

  /** Without the placeholder in the input, the substituted text from `p`
      holds it once per comment. */
  lemma {:induction false} OccurrencesFrom(s: string, p: nat)
    requires p <= |s| && !Contains(s, Placeholder)
    ensures Occurrences(Render(PiecesFrom(s, p), false)) <= |CommentsOf(PiecesFrom(s, p))|
    decreases |s| - p
  {
    if p == |s| {
      assert PiecesFrom(s, p) == [];
    } else {
      match MatchAt(s, p)
      case None =>
        OccurrencesFrom(s, p + 1);
        CopiedOccurrence(s, p);
        assert !OccursAt(s, Placeholder, p);
        assert Render(PiecesFrom(s, p), false)[1..] == Render(PiecesFrom(s, p + 1), false);
      case Some(e) =>
        OccurrencesFrom(s, e);
        CommentPiece(s, p, e);
        PlaceholderFront(Render(PiecesFrom(s, e), false));
    }
  }

  /** When the input does not itself hold the placeholder, the substituted
      text has exactly one placeholder token per comment. */
  lemma PlaceholderTokensExact(s: string)
    requires !Contains(s, Placeholder)
    ensures |Locations(Tokens(Substitute(s)))| == |Matches(s)|
  {
    PlaceholderTokens(s);
    TokensOccurrences(Substitute(s));
    OccurrencesFrom(s, 0);
  }
  // ---------------------------------------------------------------------
  // The two passes add no placeholder tokens either

  /** A sequence with no placeholder token has no locations. */
  lemma {:induction false} LocationsNone(ts: seq<string>)
    requires forall j :: 0 <= j < |ts| ==> !HoldsPlaceholder(ts[j])
    ensures Locations(ts) == []
  {
    if ts != [] {
      LocationsNone(ts[..|ts| - 1]);
    }
  }

  /** When every placeholder token of `b` stands at the same index in `a`,
      `b` has no more of them than `a`. */
  lemma LocationsWithin(a: seq<string>, b: seq<string>)
    requires |a| <= |b|
    requires forall j :: 0 <= j < |a| && HoldsPlaceholder(b[j]) ==> HoldsPlaceholder(a[j])
    requires forall j :: |a| <= j < |b| ==> !HoldsPlaceholder(b[j])
    ensures |Locations(b)| <= |Locations(a)|
  {
    LocationsSplit(b, |a|);
    PastEndNone(b, |a|);
    FrontWithin(a, b);
  }

  lemma LocationsSplit(b: seq<string>, n: nat)
    requires n <= |b|
    ensures |Locations(b)| == |Locations(b[..n])| + |Locations(b[n..])|
  {
    assert b == b[..n] + b[n..];
    LocationsAppend(b[..n], b[n..]);
  }

  lemma FrontWithin(a: seq<string>, b: seq<string>)
    requires |a| <= |b|
    requires forall j :: 0 <= j < |a| && HoldsPlaceholder(b[j]) ==> HoldsPlaceholder(a[j])
    ensures |Locations(b[..|a|])| <= |Locations(a)|
  {
    var front := b[..|a|];
    forall j | 0 <= j < |front| && HoldsPlaceholder(front[j])
      ensures HoldsPlaceholder(a[j])
    {
      assert front[j] == b[j];
    }
    LocationsMono(front, a);
  }

  lemma PastEndNone(b: seq<string>, n: nat)
    requires n <= |b|
    requires forall j :: n <= j < |b| ==> !HoldsPlaceholder(b[j])
    ensures Locations(b[n..]) == []
  {
    var back := b[n..];
    forall j | 0 <= j < |back|
      ensures !HoldsPlaceholder(back[j])
    {
      assert back[j] == b[n + j];
    }
    LocationsNone(back);
  }

  /** Line feeds in front and the rewrite of the placement pass create no
      placeholder: keyword rewrites are too short to hold one. */
  lemma RewriteAddsNoPlaceholder(c: string, t: string)
    requires NewlinesThen(c, t)
    ensures HoldsPlaceholder(Rewrite(c)) ==> HoldsPlaceholder(t)
  {
    if IsKeyword(c) {
      assert |Rewrite(c)| < |Placeholder|;
      ShortLacks(Rewrite(c), Placeholder);
    } else {
      assert Rewrite(c) == c + " ";
      ContainsFramed(c, Placeholder);
      var n := Newlines(|c| - |t|);
      assert c == n + t;
      ContainsAfter(n, t, Placeholder);
    }
  }

  /** A token of the placement pass's result holds the placeholder only
      where the input token at the same index holds it; the slots past the
      input's end read `undefined`. */
  lemma PlacementAddsNoPlaceholder(tokens: seq<string>, j: nat)
    requires Place(tokens).Ok? && j < |Place(tokens).value.tokens|
    ensures HoldsPlaceholder(Place(tokens).value.tokens[j]) ==> j < |tokens| && HoldsPlaceholder(tokens[j])
  {
    FinalToken(tokens, j);
    var c := CurrentText(tokens, j).value;
    CurrentTextIsOriginal(tokens, j);
    RewriteAddsNoPlaceholder(c, Original(tokens, j));
    if j >= |tokens| {
      ShortLacks("undefined", Placeholder);
    }
  }

  /** The placement pass keeps the number of placeholder tokens. */
  lemma PlacementCountExact(tokens: seq<string>)
    requires Place(tokens).Ok?
    ensures |Locations(Place(tokens).value.tokens)| == |Locations(tokens)|
  {
    var p := Place(tokens).value;
    PlacementKeepsCount(tokens);
    PlaceGrowth(tokens);
    forall j | 0 <= j < |p.tokens| && HoldsPlaceholder(p.tokens[j])
      ensures j < |tokens| && HoldsPlaceholder(tokens[j])
    {
      PlacementAddsNoPlaceholder(tokens, j);
    }
    LocationsWithin(tokens, p.tokens);
  }

  /** Tabbing puts only line feeds and tabs in front. */
  lemma TabbedAddsNoPlaceholder(t: string, m: nat)
    ensures HoldsPlaceholder(Tabbed(t, m)) ==> HoldsPlaceholder(t)
  {
    if StartsWithNewline(t) {
      var front := "\n" + Tabs(m);
      assert front + t[1..] == Tabbed(t, m);
      ContainsAfter(front, t[1..], Placeholder);
      if HoldsPlaceholder(t[1..]) {
        ContainsWithin("\n", t[1..], "", Placeholder);
        assert "\n" + t[1..] + "" == t;
      }
    }
  }

  /** The indentation pass keeps the number of placeholder tokens. */
  lemma IndentationCountExact(tokens: seq<string>, openers: seq<nat>, closers: seq<nat>)
    ensures |Locations(Indented(tokens, openers, closers))| == |Locations(tokens)|
  {
    var r, ps := Indented(tokens, openers, closers), Pairs(openers, closers);
    IndentationKeepsCount(tokens, openers, closers);
    IndentedEffect(tokens, openers, closers);
    forall j | 0 <= j < |r| && HoldsPlaceholder(r[j])
      ensures j < |tokens| && HoldsPlaceholder(tokens[j])
    {
      TabbedAddsNoPlaceholder(tokens[j], Cover(ps, j));
    }
    LocationsWithin(tokens, r);
  }
  /** Each comment is a slice of the input, so whatever a comment holds the
      input holds. */
  lemma {:induction false} CommentFromInput(s: string, p: nat, c: string, sub: string)
    requires p <= |s|
    ensures c in CommentsOf(PiecesFrom(s, p)) && Contains(c, sub) ==> Contains(s, sub)
    decreases |s| - p
  {
    if p < |s| {
      match MatchAt(s, p)
      case None =>
        CharPiece(s, p);
        CommentFromInput(s, p + 1, c, sub);
      case Some(e) =>
        CommentFront(s, p, e);
        CommentFromInput(s, e, c, sub);
        ContainsSlice(s, p, e, sub);
    }
  }

  /** A match adds its own text to the comments, in front. */
  lemma CommentFront(s: string, p: nat, e: nat)
    requires p < |s| && MatchAt(s, p) == Some(e)
    ensures CommentsOf(PiecesFrom(s, p)) == [s[p..e]] + CommentsOf(PiecesFrom(s, e))
  {
    var rest := PiecesFrom(s, e);
    assert PiecesFrom(s, p) == [Comment(s[p..e])] + rest;
    assert ([Comment(s[p..e])] + rest)[1..] == rest;
  }
}
