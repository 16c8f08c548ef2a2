/** Comment extraction and substitution: the global regular expression
    `/([\(\*].*(?:\*\)))/g` of src/fmt.ts, used once by `match` to collect the
    comments and once by `replace` to put the placeholder in their stead.
    Both walk the text the same way: try a match at the current position;
    on success continue after it, otherwise move one character on. */
module Comments {
  import opened Text

  const Placeholder := "scilla-comment-placeholder"

  predicate IsCommentStart(c: char)
  {
    c == '(' || c == '*'
  }

  /** Regular-expression semantics of one match on `s[p..e]`: it starts with
      `(` or `*`, ends with `*)`, and `.*` in between crosses no line
      terminator. */
  predicate IsMatch(s: string, p: nat, e: nat)
  {
    && p + 3 <= e <= |s|
    && IsCommentStart(s[p])
    && s[e - 2] == '*' && s[e - 1] == ')'
    && forall k :: p < k < e ==> !IsLineTerminator(s[k])
  }

  /** The first line terminator at or after `k`, or the end of the text. */
  function LineEnd(s: string, k: nat): (q: nat)
    requires k <= |s|
    ensures k <= q <= |s|
    ensures q < |s| ==> IsLineTerminator(s[q])
    ensures forall m :: k <= m < q ==> !IsLineTerminator(s[m])
    decreases |s| - k
  {
    if k == |s| || IsLineTerminator(s[k]) then k else LineEnd(s, k + 1)
  }

  /** The two characters before `e` are `*)`. */
  predicate ClosesAt(s: string, e: nat)
  {
    2 <= e <= |s| && s[e - 2] == '*' && s[e - 1] == ')'
  }

  /** The largest `e` with `lo + 2 <= e <= hi` that `ClosesAt`: where a greedy
      `.*` stops backtracking. */
  function LastClose(s: string, lo: nat, hi: nat): (r: Option<nat>)
    requires hi <= |s|
    ensures r.Some? ==> lo + 2 <= r.value <= hi
    decreases hi
  {
    if hi < lo + 2 then None
    else if ClosesAt(s, hi) then Some(hi)
    else LastClose(s, lo, hi - 1)
  }

  lemma {:induction false} LastCloseIsLast(s: string, lo: nat, hi: nat)
    requires hi <= |s|
    ensures LastClose(s, lo, hi).Some? ==> ClosesAt(s, LastClose(s, lo, hi).value)
    ensures forall e: nat :: lo + 2 <= e <= hi && ClosesAt(s, e) ==>
              LastClose(s, lo, hi).Some? && e <= LastClose(s, lo, hi).value
    decreases hi
  {
    if hi >= lo + 2 && !ClosesAt(s, hi) {
      LastCloseIsLast(s, lo, hi - 1);
    }
  }

  /** The end of the match that starts at `p`, if there is one. */
  function MatchAt(s: string, p: nat): (r: Option<nat>)
    requires p < |s|
    ensures r.Some? ==> p + 3 <= r.value <= |s|
  {
    if IsCommentStart(s[p]) then LastClose(s, p + 1, LineEnd(s, p + 1)) else None
  }

  /** `MatchAt` finds exactly the greedy match of the regular expression:
      the longest `s[p..e]` that `IsMatch`, and nothing when there is none. */
  lemma MatchAtIsGreedyMatch(s: string, p: nat)
    requires p < |s|
    ensures MatchAt(s, p).Some? ==>
              IsMatch(s, p, MatchAt(s, p).value)
              && forall e: nat :: IsMatch(s, p, e) ==> e <= MatchAt(s, p).value
    ensures MatchAt(s, p).None? ==> forall e: nat :: !IsMatch(s, p, e)
  {
    if IsCommentStart(s[p]) {
      var q := LineEnd(s, p + 1);
      LastCloseIsLast(s, p + 1, q);
      forall e: nat | IsMatch(s, p, e)
        ensures LastClose(s, p + 1, q).Some? && e <= LastClose(s, p + 1, q).value
      {
        assert ClosesAt(s, e);
      }
    }
  }

  /** The text cut into single characters and comment matches. */
  datatype Piece = Char(c: char) | Comment(text: string)

  function PiecesFrom(s: string, p: nat): seq<Piece>
    requires p <= |s|
    decreases |s| - p
  {
    if p == |s| then []
    else match MatchAt(s, p)
      case Some(e) => [Comment(s[p..e])] + PiecesFrom(s, e)
      case None => [Char(s[p])] + PiecesFrom(s, p + 1)
  }

  function Pieces(s: string): seq<Piece>
  {
    PiecesFrom(s, 0)
  }

  /** The text of the pieces, each comment written out (`original`) or
      replaced by the placeholder. */
  function Render(ps: seq<Piece>, original: bool): string
  {
    if ps == [] then "" else PieceText(ps[0], original) + Render(ps[1..], original)
  }

  function PieceText(piece: Piece, original: bool): string
  {
    match piece
    case Char(c) => [c]
    case Comment(t) => if original then t else Placeholder
  }

  function CommentsOf(ps: seq<Piece>): seq<string>
  {
    if ps == [] then []
    else (if ps[0].Comment? then [ps[0].text] else []) + CommentsOf(ps[1..])
  }

  /** `rawScillaCode.match(regex)` as a list (empty where JavaScript gives
      `null`). */
  function Matches(s: string): seq<string>
  {
    CommentsOf(Pieces(s))
  }

  /** `rawScillaCode.replace(regex, "scilla-comment-placeholder")` */
  function Substitute(s: string): string
  {
    Render(Pieces(s), false)
  }

  /** `[].concat(rawScillaCode.match(regex))`: when nothing matches, the array
      holds `null`, which the reinsertion later turns into the text "null". */
  function ExtractedComments(s: string): seq<string>
  {
    var m := Matches(s);
    if m == [] then ["null"] else m
  }

  lemma {:induction false} RenderFrom(s: string, p: nat)
    requires p <= |s|
    ensures Render(PiecesFrom(s, p), true) == s[p..]
    decreases |s| - p
  {
    if p < |s| {
      match MatchAt(s, p)
      case Some(e) =>
        MatchAtIsGreedyMatch(s, p);
        RenderFrom(s, e);
        assert s[p..] == s[p..e] + s[e..];
      case None =>
        RenderFrom(s, p + 1);
        assert s[p..] == [s[p]] + s[p + 1..];
    }
  }

  /** Writing every comment back in place of its placeholder restores the
      text: extraction loses nothing and keeps the comments in order. */
  lemma RenderOriginal(s: string)
    ensures Render(Pieces(s), true) == s
  {
    RenderFrom(s, 0);
  }

  lemma {:induction false} PiecesFromShape(s: string, p: nat)
    requires p <= |s|
    ensures forall i :: 0 <= i < |PiecesFrom(s, p)| && PiecesFrom(s, p)[i].Comment? ==>
              CommentShape(PiecesFrom(s, p)[i].text)
    decreases |s| - p
  {
    if p < |s| {
      match MatchAt(s, p)
      case Some(e) =>
        MatchAtIsGreedyMatch(s, p);
        PiecesFromShape(s, e);
        assert IsMatch(s, p, e);
        assert CommentShape(s[p..e]) by {
          forall k | 0 <= k < e - p ensures !IsLineTerminator(s[p..e][k]) {
            assert s[p..e][k] == s[p + k];
          }
        }
      case None =>
        PiecesFromShape(s, p + 1);
    }
  }

  /** What one extracted comment looks like. */
  predicate CommentShape(c: string)
  {
    && |c| >= 3
    && IsCommentStart(c[0])
    && c[|c| - 2] == '*' && c[|c| - 1] == ')'
    && forall k :: 0 <= k < |c| ==> !IsLineTerminator(c[k])
  }

  lemma {:induction false} CommentsOfShape(ps: seq<Piece>)
    requires forall i :: 0 <= i < |ps| && ps[i].Comment? ==> CommentShape(ps[i].text)
    ensures forall c :: c in CommentsOf(ps) ==> CommentShape(c)
  {
    if ps != [] {
      CommentsOfShape(ps[1..]);
    }
  }

  /** Every extracted comment is a one-line text that opens with `(` or `*`
      and closes with `*)`. */
  lemma MatchesAreComments(s: string)
    ensures forall c :: c in Matches(s) ==> CommentShape(c)
  {
    PiecesFromShape(s, 0);
    CommentsOfShape(Pieces(s));
  }

  lemma {:induction false} RenderDiffers(ps: seq<Piece>)
    requires forall i :: 0 <= i < |ps| && ps[i].Comment? ==> |ps[i].text| > 0 && IsCommentStart(ps[i].text[0])
    ensures Render(ps, false) == Render(ps, true) <==> CommentsOf(ps) == []
  {
    if ps != [] {
      RenderDiffers(ps[1..]);
      var rest := ps[1..];
      match ps[0]
      case Char(c) =>
        assert Render(ps, false) == [c] + Render(rest, false);
        assert Render(ps, true) == [c] + Render(rest, true);
        if Render(ps, false) == Render(ps, true) {
          assert Render(rest, false) == Render(ps, false)[1..];
        }
      case Comment(t) =>
        assert Render(ps, false)[0] == 's';
        assert Render(ps, true)[0] == t[0];
    }
  }

  /** The placeholder text equals the input exactly when no comment was
      matched. */
  lemma SubstituteUnchangedIffNoComments(s: string)
    ensures Substitute(s) == s <==> Matches(s) == []
  {
    PiecesFromShape(s, 0);
    RenderOriginal(s);
    RenderDiffers(Pieces(s));
  }

  predicate BlankPieces(ps: seq<Piece>)
  {
    forall i :: 0 <= i < |ps| ==> ps[i].Char? && IsWhitespace(ps[i].c)
  }

  lemma {:induction false} RenderBlank(ps: seq<Piece>, original: bool)
    requires forall i :: 0 <= i < |ps| && ps[i].Comment? ==> |ps[i].text| > 0 && IsCommentStart(ps[i].text[0])
    ensures Blank(Render(ps, original)) <==> BlankPieces(ps)
  {
    if ps != [] {
      RenderBlank(ps[1..], original);
      var head, tail := PieceText(ps[0], original), Render(ps[1..], original);
      assert head[0] == (if ps[0].Char? then ps[0].c else if original then ps[0].text[0] else 's');
      if BlankPieces(ps) {
        assert BlankPieces(ps[1..]);
        assert head == [ps[0].c];
        forall k | 0 <= k < |head + tail| ensures IsWhitespace((head + tail)[k]) {
          if k > 0 { assert (head + tail)[k] == tail[k - 1]; }
        }
      }
      if Blank(head + tail) {
        assert IsWhitespace((head + tail)[0]);
        forall k | 0 <= k < |tail| ensures IsWhitespace(tail[k]) {
          assert tail[k] == (head + tail)[k + |head|];
        }
        assert BlankPieces(ps);
      }
    }
  }

  /** The placeholder text is blank exactly when the input is: a comment
      starts with `(` or `*`, and the placeholder with a letter. */
  lemma SubstituteBlankIffBlank(s: string)
    ensures Blank(Substitute(s)) <==> Blank(s)
  {
    PiecesFromShape(s, 0);
    RenderOriginal(s);
    RenderBlank(Pieces(s), true);
    RenderBlank(Pieces(s), false);
  }

  lemma {:induction false} NoStarNoPieces(s: string, p: nat)
    requires p <= |s| && '*' !in s
    ensures CommentsOf(PiecesFrom(s, p)) == []
    decreases |s| - p
  {
    if p < |s| {
      if IsCommentStart(s[p]) {
        var q := LineEnd(s, p + 1);
        LastCloseIsLast(s, p + 1, q);
      }
      NoStarNoPieces(s, p + 1);
    }
  }

  /** Text without `*` holds no comment and is left as it is. */
  lemma NoStarNoComment(s: string)
    requires '*' !in s
    ensures Matches(s) == [] && Substitute(s) == s
  {
    NoStarNoPieces(s, 0);
    SubstituteUnchangedIffNoComments(s);
  }
}
