/** Tokenisation: `text.match(/\S+/g)`, the maximal runs of non-whitespace
    characters, left to right. */
module Tokenize {
  import opened Text

  /** A token: non-empty, without whitespace. */
  predicate IsToken(t: string)
  {
    |t| > 0 && forall k :: 0 <= k < |t| ==> !IsWhitespace(t[k])
  }

  /** The end of the run of non-whitespace characters that starts at `p`. */
  function RunEnd(s: string, p: nat): (q: nat)
    requires p <= |s|
    ensures p <= q <= |s|
    ensures q < |s| ==> IsWhitespace(s[q])
    ensures forall m :: p <= m < q ==> !IsWhitespace(s[m])
    decreases |s| - p
  {
    if p == |s| || IsWhitespace(s[p]) then p else RunEnd(s, p + 1)
  }

  function Tokens(s: string): seq<string>
    decreases |s|
  {
    if s == [] then []
    else if IsWhitespace(s[0]) then Tokens(s[1..])
    else
      var q := RunEnd(s, 0);
      [s[..q]] + Tokens(s[q..])
  }

  /** Every piece the tokeniser yields is a token. */
  lemma {:induction false} TokensAreTokens(s: string)
    ensures forall i :: 0 <= i < |Tokens(s)| ==> IsToken(Tokens(s)[i])
    decreases |s|
  {
    if s != [] {
      if IsWhitespace(s[0]) {
        TokensAreTokens(s[1..]);
      } else {
        var q := RunEnd(s, 0);
        TokensAreTokens(s[q..]);
        assert IsToken(s[..q]);
      }
    }
  }

  /** The text with its whitespace removed. */
  function NonBlank(s: string): string
    decreases |s|
  {
    if s == [] then "" else (if IsWhitespace(s[0]) then "" else [s[0]]) + NonBlank(s[1..])
  }

  lemma {:induction false} NonBlankSplit(s: string, q: nat)
    requires q <= |s|
    requires forall m :: 0 <= m < q ==> !IsWhitespace(s[m])
    ensures NonBlank(s) == s[..q] + NonBlank(s[q..])
    decreases q
  {
    if q > 0 {
      NonBlankSplit(s[1..], q - 1);
      assert s[1..][q - 1..] == s[q..];
      assert s[..q] == [s[0]] + s[1..][..q - 1];
    }
  }

  /** Tokenising drops exactly the whitespace: the tokens, concatenated,
      are the text's non-whitespace characters in order. */
  lemma {:induction false} TokensKeepText(s: string)
    ensures Concat(Tokens(s)) == NonBlank(s)
    decreases |s|
  {
    if s != [] {
      if IsWhitespace(s[0]) {
        TokensKeepText(s[1..]);
      } else {
        var q := RunEnd(s, 0);
        TokensKeepText(s[q..]);
        ConcatAppend([s[..q]], Tokens(s[q..]));
        assert Concat([s[..q]]) == s[..q] by {
          assert [s[..q]][..0] == [];
        }
        NonBlankSplit(s, q);
      }
    }
  }

  /** There are no tokens exactly when the text is blank. */
  lemma {:induction false} NoTokensIffBlank(s: string)
    ensures Tokens(s) == [] <==> Blank(s)
    decreases |s|
  {
    if s != [] && IsWhitespace(s[0]) {
      NoTokensIffBlank(s[1..]);
      assert Blank(s) <==> Blank(s[1..]) by {
        if Blank(s[1..]) {
          forall k | 0 <= k < |s| ensures IsWhitespace(s[k]) {
            if k > 0 { assert s[k] == s[1..][k - 1]; }
          }
        }
      }
    }
  }

  /** Tokens written out with one space between neighbours. */
  function Joined(ts: seq<string>): string
  {
    if ts == [] then "" else if |ts| == 1 then ts[0] else ts[0] + " " + Joined(ts[1..])
  }

  /** Splitting tokens that were joined by spaces gives them back. */
  lemma {:induction false} TokensOfJoined(ts: seq<string>)
    requires forall i :: 0 <= i < |ts| ==> IsToken(ts[i])
    ensures Tokens(Joined(ts)) == ts
  {
    if |ts| == 1 {
      var t := ts[0];
      assert RunEnd(t, 0) == |t| by {
        RunEndAtEnd(t, 0);
      }
      assert t[..|t|] == t;
      assert t[|t|..] == "";
    } else if ts != [] {
      var t, rest := ts[0], Joined(ts[1..]);
      var s := t + " " + rest;
      assert RunEnd(s, 0) == |t| by {
        RunEndAt(s, 0, |t|);
      }
      assert s[..|t|] == t;
      assert s[|t|..] == " " + rest;
      assert (" " + rest)[1..] == rest;
      TokensOfJoined(ts[1..]);
    }
  }

  /** Text put after a run that it does not continue leaves the run's end
      where it was. */
  lemma {:induction false} RunEndPrefix(x: string, z: string, p: nat)
    requires p <= |x|
    requires z == [] || IsWhitespace(z[0])
    ensures RunEnd(x + z, p) == RunEnd(x, p)
    decreases |x| - p
  {
    if p < |x| && !IsWhitespace(x[p]) {
      assert (x + z)[p] == x[p];
      RunEndPrefix(x, z, p + 1);
    } else if p == |x| && z != [] {
      assert (x + z)[p] == z[0];
    } else if p < |x| {
      assert (x + z)[p] == x[p];
    }
  }

  /** A whitespace character splits the text: the tokens on its two sides
      are tokenised apart. */
  lemma {:induction false} TokensSplit(x: string, w: char, y: string)
    requires IsWhitespace(w)
    ensures Tokens(x + [w] + y) == Tokens(x) + Tokens(y)
    decreases |x|
  {
    var s := x + [w] + y;
    if x == [] {
      assert s[1..] == y;
    } else if IsWhitespace(x[0]) {
      assert s[1..] == x[1..] + [w] + y;
      TokensSplit(x[1..], w, y);
    } else {
      var q := RunEnd(x, 0);
      assert RunEnd(s, 0) == q by {
        assert s == x + ([w] + y);
        RunEndPrefix(x, [w] + y, 0);
      }
      assert s[..q] == x[..q];
      assert s[q..] == x[q..] + [w] + y;
      TokensSplit(x[q..], w, y);
    }
  }

  /** Blank text in front adds no token. */
  lemma {:induction false} TokensAfterBlank(b: string, y: string)
    requires Blank(b)
    ensures Tokens(b + y) == Tokens(y)
    decreases |b|
  {
    if b != [] {
      assert (b + y)[1..] == b[1..] + y;
      TokensAfterBlank(b[1..], y);
    } else {
      assert b + y == y;
    }
  }

  /** A token standing alone is tokenised as itself. */
  lemma TokenAlone(t: string)
    requires IsToken(t)
    ensures Tokens(t) == [t]
  {
    RunEndAtEnd(t, 0);
    assert t[..|t|] == t;
    assert t[|t|..] == "";
  }

  /** Tokens laid out with the blank gaps `gaps`: `gaps[0]` before the
      first token, `gaps[i]` between tokens `i - 1` and `i`, and the last
      gap after the last token. */
  function Spaced(ts: seq<string>, gaps: seq<string>): string
    requires |gaps| == |ts| + 1
  {
    if ts == [] then gaps[0] else gaps[0] + ts[0] + Spaced(ts[1..], gaps[1..])
  }

  /** The tokeniser inverts every such layout whose inner gaps are not
      empty: the tokens of a text are its maximal runs of non-whitespace,
      whatever blank text surrounds and separates them. */
  lemma {:induction false} TokensOfSpaced(ts: seq<string>, gaps: seq<string>)
    requires |gaps| == |ts| + 1
    requires forall i :: 0 <= i < |ts| ==> IsToken(ts[i])
    requires forall i :: 0 <= i < |gaps| ==> Blank(gaps[i])
    requires forall i :: 0 < i < |ts| ==> gaps[i] != ""
    ensures Tokens(Spaced(ts, gaps)) == ts
  {
    if ts == [] {
      NoTokensIffBlank(gaps[0]);
    } else {
      var rest := Spaced(ts[1..], gaps[1..]);
      TokensAfterBlank(gaps[0], ts[0] + rest);
      assert Spaced(ts, gaps) == gaps[0] + (ts[0] + rest);
      if |ts| == 1 {
        TokenThenBlank(ts[0], gaps[1]);
        NoTokensIffBlank(gaps[1]);
      } else {
        SpacedLeadsWithGap(ts[1..], gaps[1..]);
        TokenThenBlank(ts[0], rest);
        TokensOfSpaced(ts[1..], gaps[1..]);
        assert ts == [ts[0]] + ts[1..];
      }
    }
  }

  /** A layout whose first gap is not empty starts with whitespace. */
  lemma SpacedLeadsWithGap(ts: seq<string>, gaps: seq<string>)
    requires |gaps| == |ts| + 1 && Blank(gaps[0]) && gaps[0] != ""
    ensures Spaced(ts, gaps) != "" && IsWhitespace(Spaced(ts, gaps)[0])
  {
    assert Spaced(ts, gaps)[0] == gaps[0][0];
  }

  /** A token followed by text that is empty or starts with whitespace
      is read as that token and then the tokens of the rest. */
  lemma TokenThenBlank(t: string, rest: string)
    requires IsToken(t)
    requires rest == "" || IsWhitespace(rest[0])
    ensures Tokens(t + rest) == [t] + Tokens(rest)
  {
    TokenAlone(t);
    if rest == "" {
      assert t + rest == t;
      assert Tokens(rest) == [];
    } else {
      assert t + rest == t + [rest[0]] + rest[1..];
      TokensSplit(t, rest[0], rest[1..]);
      assert rest == [] + [rest[0]] + rest[1..];
      TokensSplit([], rest[0], rest[1..]);
      assert Tokens([]) == [];
    }
  }

  lemma RunEndAtEnd(s: string, p: nat)
    requires p <= |s|
    requires forall m :: p <= m < |s| ==> !IsWhitespace(s[m])
    ensures RunEnd(s, p) == |s|
    decreases |s| - p
  {
    if p < |s| {
      RunEndAtEnd(s, p + 1);
    }
  }

  lemma RunEndAt(s: string, p: nat, q: nat)
    requires p <= q < |s|
    requires IsWhitespace(s[q])
    requires forall m :: p <= m < q ==> !IsWhitespace(s[m])
    ensures RunEnd(s, p) == q
  {
  }
}
