/** `ScillaCode` of src/fmt.ts: the five phases one after the other, and the
    pair `[text, "success" | "fail"]` it returns. */
module Formatter {
  import opened Text
  import opened Comments
  import opened Tokenize
  import opened Placement
  import opened Indentation
  import opened Reinsertion
  import Placeholders

  datatype Status = Success | Fail

  /** The returned pair `[FormattedString, status]`. */
  datatype Outcome = Outcome(text: string, status: Status)

  /** The tokens the placement pass starts from: the whitespace-separated
      runs of the text with its comments replaced by the placeholder. */
  function SourceTokens(raw: string): seq<string>
  {
    Tokens(Substitute(raw))
  }

  /** The whole function, phase by phase. Blank text leaves `scillaCode`
      holding `null`, and the first iteration throws on `null.concat`. */
  function Format(raw: string): Run<Outcome>
  {
    var tokens := SourceTokens(raw);
    if tokens == [] then TypeError
    else
      match Place(tokens)
      case TypeError => TypeError
      case Ok(p) =>
        if |p.openers| != |p.closers| then Ok(Outcome(Substitute(raw), Fail))
        else
          var indented := Indented(p.tokens, p.openers, p.closers);
          Ok(Outcome(Concat(Reinserted(indented, ExtractedComments(raw))), Success))
  }

  /** src/fmt.ts:1-211. The regular-expression calls `match` and `replace`
      are library calls and appear as the functions that give their
      results. */
  method ScillaCode(rawScillaCode: string) returns (r: Run<Outcome>)
    ensures r == Format(rawScillaCode)
  {
    var comments := ExtractedComments(rawScillaCode);
    var substituted := Substitute(rawScillaCode);
    var tokens := Tokens(substituted);
    if tokens == [] {
      return TypeError;
    }
    var placed := PlacementLoop(tokens);
    if placed.TypeError? {
      return TypeError;
    }
    var p := placed.value;
    PlaceOpeners(tokens);
    PlaceClosers(tokens);
    var scillaCode := Indent(p.tokens, p.openers, p.closers);
    scillaCode := Reinsert(scillaCode, comments);
    var formattedString := Assemble(scillaCode);
    r := Ok(Outcome(formattedString, Success));
    if |p.openers| != |p.closers| {
      r := Ok(Outcome(substituted, Fail));
    }
  }

  // ---------------------------------------------------------------------
  // What the result says

  /** The text is reported as formatted exactly when the placement pass met
      as many block openers (`with`, and `transition` through its first
      `)`-token) as closers (`end`), counting only tokens that still read
      as the keyword when the pass reached them. */
  lemma StatusIffBalanced(raw: string)
    requires Format(raw).Ok?
    ensures var ts := SourceTokens(raw);
            var n := |ts| + 2;
            Format(raw).value.status == Success <==>
              Tally(ts, n, "with") + Tally(ts, n, "transition") == Tally(ts, n, "end")
  {
    var ts := SourceTokens(raw);
    PlaceOpeners(ts);
    PlaceClosers(ts);
  }

  /** On failure the text returned is the input with its comments replaced
      by the placeholder, which is the input itself exactly when the input
      holds no comment. */
  lemma FailReturnsSubstituted(raw: string)
    requires Format(raw).Ok? && Format(raw).value.status == Fail
    ensures Format(raw).value.text == Substitute(raw)
    ensures Format(raw).value.text == raw <==> Matches(raw) == []
  {
    SubstituteUnchangedIffNoComments(raw);
  }

  /** The function throws exactly for blank text, for a `transition` with no
      `)`-token after it, and for a `contract` whose look-ahead lands two or
      more past the end of the array. */
  lemma ThrowsIff(raw: string)
    ensures var ts := SourceTokens(raw);
            Format(raw).TypeError? <==>
              Blank(raw) || exists i: nat :: i < |ts| + 2 && Throws(ts, i)
  {
    var ts := SourceTokens(raw);
    SubstituteBlankIffBlank(raw);
    NoTokensIffBlank(Substitute(raw));
    PlaceThrowsIff(ts);
    if ts == [] {
      assert Blank(raw);
    }
  }

  /** On success the text is the final tokens, indented and with the comments
      back, concatenated; the k-th comment stands in it, a line feed in
      front, where the k-th placeholder token stood. When the input holds
      comments there are enough placeholder tokens for all of them. */
  lemma SuccessPlacesComments(raw: string, k: nat)
    requires Format(raw).Ok? && Format(raw).value.status == Success
    ensures var p := Place(SourceTokens(raw)).value;
            var indented := Indented(p.tokens, p.openers, p.closers);
            var comments := ExtractedComments(raw);
            var out := Reinserted(indented, comments);
            && Format(raw).value.text == Concat(out)
            && (Matches(raw) != [] ==> |comments| <= |Locations(indented)|)
            && (k < |comments| && k < |Locations(indented)| ==>
                  OccursAt(Format(raw).value.text, "\n" + comments[k], |Concat(out[..Locations(indented)[k]])|))
  {
    var ts := SourceTokens(raw);
    var p := Place(ts).value;
    var indented := Indented(p.tokens, p.openers, p.closers);
    var comments := ExtractedComments(raw);
    var out := Reinserted(indented, comments);
    Placeholders.PlaceholderTokens(raw);
    Placeholders.PlacementKeepsCount(ts);
    Placeholders.IndentationKeepsCount(p.tokens, p.openers, p.closers);
    if k < |comments| && k < |Locations(indented)| {
      ReinsertedEffect(indented, comments);
      ConcatContainsEach(out, Locations(indented)[k]);
    }
  }

  /** When the input does not itself hold the placeholder, a successful run
      has exactly one placeholder token per comment after both passes, and
      every one of them is filled: no token of the output still holds the
      placeholder. */
  lemma SuccessFillsEveryPlaceholder(raw: string)
    requires Format(raw).Ok? && Format(raw).value.status == Success
    requires !Contains(raw, Placeholder)
    ensures var p := Place(SourceTokens(raw)).value;
            var indented := Indented(p.tokens, p.openers, p.closers);
            var out := Reinserted(indented, ExtractedComments(raw));
            && |Locations(indented)| == |Matches(raw)|
            && (forall j :: 0 <= j < |out| ==> !HoldsPlaceholder(out[j]))
  {
    var ts := SourceTokens(raw);
    var p := Place(ts).value;
    var indented := Indented(p.tokens, p.openers, p.closers);
    Placeholders.PlaceholderTokensExact(raw);
    Placeholders.PlacementCountExact(ts);
    Placeholders.IndentationCountExact(p.tokens, p.openers, p.closers);
    forall j | 0 <= j < |indented|
      ensures !HoldsPlaceholder(Reinserted(indented, ExtractedComments(raw))[j])
    {
      FilledSlot(raw, indented, j);
    }
  }

  /** One token of the output: a placeholder token ranks below the number
      of comments and receives one, which lacks the placeholder. */
  lemma FilledSlot(raw: string, indented: seq<string>, j: nat)
    requires !Contains(raw, Placeholder) && |Locations(indented)| == |Matches(raw)| && j < |indented|
    ensures !HoldsPlaceholder(Reinserted(indented, ExtractedComments(raw))[j])
  {
    if HoldsPlaceholder(indented[j]) {
      LocationRank(indented, j);
      var k := Rank(indented, j);
      var m := Matches(raw);
      assert k < |m| && ExtractedComments(raw) == m;
      Placeholders.CommentFromInput(raw, 0, m[k], Placeholder);
      ContainsFramed(m[k], Placeholder);
    }
  }

  /** On success every comment of the input appears in the output, a line
      feed in front of it. */
  lemma SuccessKeepsEveryComment(raw: string)
    requires Format(raw).Ok? && Format(raw).value.status == Success
    ensures forall k :: 0 <= k < |Matches(raw)| ==> Contains(Format(raw).value.text, "\n" + Matches(raw)[k])
  {
    forall k | 0 <= k < |Matches(raw)|
      ensures Contains(Format(raw).value.text, "\n" + Matches(raw)[k])
    {
      SuccessPlacesComments(raw, k);
    }
  }

  /** On success the result has one token per whitespace-separated run of
      the substituted input, plus one for each iteration whose look-ahead
      landed one past the array's end, each such slot reading `undefined`;
      without such an iteration the counts agree. */
  lemma SuccessTokenCount(raw: string)
    requires Format(raw).Ok?
    ensures var ts := SourceTokens(raw);
            var p := Place(ts).value;
            && |ts| <= |p.tokens| <= |ts| + 2
            && |p.tokens| == |ts| + Overruns(ts, |ts| + 2)
            && (|p.tokens| == |ts| <==> forall j: nat :: j < |ts| + 2 ==> !RunsOff(ts, j))
            && forall j :: |ts| <= j < |p.tokens| ==> NewlinesThen(p.tokens[j], "undefined ")
  {
    PlaceGrowth(SourceTokens(raw));
    PlaceLength(SourceTokens(raw));
  }
}
