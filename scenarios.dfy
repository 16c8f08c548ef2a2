/** The function on particular inputs, worked through the model. */
module Scenarios {
  import opened Text
  import opened Comments
  import opened Tokenize
  import opened Placement
  import opened Indentation
  import opened Reinsertion
  import opened Formatter

  /** An ordinary token takes the default rewrite and looks nowhere ahead. */
  lemma PlainStep(st: Placed, i: nat)
    requires i < |st.tokens| && !IsKeyword(st.tokens[i]) && '}' !in st.tokens[i]
    ensures Step(st, i) == Ok(Placed(st.tokens[i := st.tokens[i] + " "], st.openers, st.closers))
  {
    ContainsNeedsFirst(st.tokens[i] + " ", "};");
  }

  /** An `end` is rewritten and recorded as a closer. */
  lemma EndStep(st: Placed, i: nat)
    requires i < |st.tokens| && st.tokens[i] == "end"
    ensures Step(st, i) == Ok(Placed(st.tokens[i := "\nend\n"], st.openers, st.closers + [i]))
  {
  }

  /** Empty text throws: `match` finds no token, and `null.concat` fails. */
  lemma EmptyThrows()
    ensures Format("") == TypeError
  {
    NoStarNoComment("");
    NoTokensIffBlank("");
  }

  /** Text without `*` or whitespace other than single spaces between
      tokens is cut at those spaces and left as it is by the comment phase. */
  lemma SourceTokensOfJoined(ts: seq<string>)
    requires forall i :: 0 <= i < |ts| ==> IsToken(ts[i]) && '*' !in ts[i]
    ensures SourceTokens(Joined(ts)) == ts
    ensures Substitute(Joined(ts)) == Joined(ts) && Matches(Joined(ts)) == []
  {
    JoinedChars(ts);
    NoStarNoComment(Joined(ts));
    TokensOfJoined(ts);
  }

  lemma {:induction false} JoinedChars(ts: seq<string>)
    requires forall i :: 0 <= i < |ts| ==> '*' !in ts[i]
    ensures '*' !in Joined(ts)
  {
    if |ts| > 1 {
      JoinedChars(ts[1..]);
    }
  }

  const ContractFirst := ["scilla_version", "0", "contract", "Foo", "transition", "Bar", "(x", ":", "Uint32)", "end"]

  /** A token with no `case` of its own and no `}`. */
  predicate Plain(t: string)
  {
    !IsKeyword(t) && '}' !in t
  }

  /** A run of plain tokens changes nothing but the tokens themselves. */
  lemma {:induction false} PlainRun(ts: seq<string>, i: nat, k: nat)
    requires i <= k
    requires PlaceUpTo(ts, i).Ok? && k <= |PlaceUpTo(ts, i).value.tokens|
    requires forall j :: i <= j < k ==> Plain(PlaceUpTo(ts, i).value.tokens[j])
    ensures PlaceUpTo(ts, k).Ok?
    ensures var st, st' := PlaceUpTo(ts, i).value, PlaceUpTo(ts, k).value;
            && st'.openers == st.openers && st'.closers == st.closers
            && |st'.tokens| == |st.tokens| && st'.tokens[k..] == st.tokens[k..]
    decreases k - i
  {
    if i < k {
      var st := PlaceUpTo(ts, i).value;
      PlaceUpToNext(ts, i);
      PlainStep(st, i);
      var st1 := Placed(st.tokens[i := st.tokens[i] + " "], st.openers, st.closers);
      assert PlaceUpTo(ts, i + 1) == Ok(st1);
      assert forall j :: i + 1 <= j < k ==> st1.tokens[j] == st.tokens[j];
      PlainRun(ts, i + 1, k);
      assert st1.tokens[k..] == st.tokens[k..];
    }
  }

  lemma ContractFirstSteps()
    ensures PlaceUpTo(ContractFirst, 5).Ok?
    ensures var st := PlaceUpTo(ContractFirst, 5).value;
            && st.openers == [] && st.closers == [] && |st.tokens| == 10
            && st.tokens[5..] == ContractFirst[5..]
  {
    var ts := ContractFirst;
    var s1 := ts[0 := "scilla_version "];
    Advance(ts, 0, Placed(ts, [], []));
    PlainStep(Placed(s1, [], []), 1);
    var s2 := s1[1 := s1[1] + " "];
    Advance(ts, 1, Placed(s1, [], []));
    var s3 := s2[2 := "\n\ncontract "][4 := "\n" + s2[4]];
    Advance(ts, 2, Placed(s2, [], []));
    PlainStep(Placed(s3, [], []), 3);
    var s4 := s3[3 := s3[3] + " "];
    Advance(ts, 3, Placed(s3, [], []));
    assert s4[4] == "\ntransition";
    PlainStep(Placed(s4, [], []), 4);
    var s5 := s4[4 := s4[4] + " "];
    Advance(ts, 4, Placed(s4, [], []));
    assert s5[5..] == ts[5..];
  }

  lemma SignaturePlain()
    ensures forall j :: 5 <= j < 9 ==> Plain(ContractFirst[j])
  {
    assert Plain("Bar");
    assert Plain("(x");
    assert Plain(":");
    assert Plain("Uint32)");
  }

  lemma ContractFirstPlace()
    ensures Place(ContractFirst).Ok?
    ensures Place(ContractFirst).value.openers == [] && Place(ContractFirst).value.closers == [9]
  {
    var ts := ContractFirst;
    ContractFirstSteps();
    var s5 := PlaceUpTo(ts, 5).value.tokens;
    assert forall j :: 5 <= j < 9 ==> s5[j] == ts[j];
    SignaturePlain();
    PlainRun(ts, 5, 9);
    var st := PlaceUpTo(ts, 9).value;
    assert st.tokens[9] == st.tokens[9..][0] == "end";
    EndStep(st, 9);
    Advance(ts, 9, st);
    assert [] + [9] == [9];
    Settled(ts, 10, 12);
  }

  /** A `transition` two tokens after `contract` is prefixed by the
      `contract` rule before the loop reaches it, so it opens nothing, and
      the single `end` leaves the counts unequal: the text
      `scilla_version 0 contract Foo transition Bar (x : Uint32) end` is
      returned unchanged and reported as failing. */
  lemma ContractHidesTransition()
    ensures Format(Joined(ContractFirst)) == Ok(Outcome(Joined(ContractFirst), Fail))
  {
    ContractFirstTokens();
    SourceTokensOfJoined(ContractFirst);
    ContractFirstPlace();
  }

  lemma ContractFirstTokens()
    ensures forall i :: 0 <= i < |ContractFirst| ==> IsToken(ContractFirst[i]) && '*' !in ContractFirst[i]
  {
  }

  /** A `transition` whose first `)`-token is at `j` records `j` and puts a
      line feed in front of the token after it. */
  lemma TransitionStep(st: Placed, i: nat, j: nat)
    requires i < |st.tokens| && st.tokens[i] == "transition"
    requires FirstParen(st.tokens, i + 1) == Some(j) && j + 1 < |st.tokens|
    ensures Step(st, i) == Ok(Placed(st.tokens[i := "\ntransition "][j + 1 := "\n" + st.tokens[j + 1]],
                                     st.openers + [j], st.closers))
  {
    FirstParenFrame(st.tokens[i := "\ntransition "], st.tokens, i + 1);
  }

  const ExtraEnd := ["transition", "Bar", "(x", ":", "Uint32)", "end", "end"]

  lemma ExtraEndFirstSteps()
    ensures PlaceUpTo(ExtraEnd, 2).Ok?
    ensures var st := PlaceUpTo(ExtraEnd, 2).value;
            && st.openers == [4] && st.closers == [] && |st.tokens| == 7
            && st.tokens[2] == "(x" && st.tokens[3] == ":" && st.tokens[4] == "Uint32)"
            && st.tokens[5] == "\n" + "end" && st.tokens[6] == "end"
  {
    var ts := ExtraEnd;
    assert FirstParen(ts, 1) == Some(4);
    TransitionStep(Placed(ts, [], []), 0, 4);
    var s1 := ts[0 := "\ntransition "][5 := "\n" + ts[5]];
    assert [] + [4] == [4];
    Advance(ts, 0, Placed(ts, [], []));
    PlainStep(Placed(s1, [4], []), 1);
    var s2 := s1[1 := s1[1] + " "];
    Advance(ts, 1, Placed(s1, [4], []));
  }

  lemma ExtraEndPlace()
    ensures Place(ExtraEnd).Ok?
    ensures Place(ExtraEnd).value.openers == [4] && Place(ExtraEnd).value.closers == [6]
  {
    var ts := ExtraEnd;
    ExtraEndFirstSteps();
    var st := PlaceUpTo(ts, 2).value;
    var s2 := st.tokens;
    PlainStep(Placed(s2, [4], []), 2);
    var s3 := s2[2 := s2[2] + " "];
    Advance(ts, 2, Placed(s2, [4], []));
    PlainStep(Placed(s3, [4], []), 3);
    var s4 := s3[3 := s3[3] + " "];
    Advance(ts, 3, Placed(s3, [4], []));
    PlainStep(Placed(s4, [4], []), 4);
    var s5 := s4[4 := s4[4] + " "];
    Advance(ts, 4, Placed(s4, [4], []));
    PrefixedTokenIsPlain(s5[5]);
    PlainStep(Placed(s5, [4], []), 5);
    var s6 := s5[5 := s5[5] + " "];
    Advance(ts, 5, Placed(s5, [4], []));
    EndStep(Placed(s6, [4], []), 6);
    var s7 := s6[6 := "\nend\n"];
    assert [] + [6] == [6];
    Advance(ts, 6, Placed(s6, [4], []));
    Settled(ts, 7, 9);
  }

  /** The first `end` after the `)`-token of a `transition` is prefixed by the
      `transition` rule, so only the second `end` closes: the text
      `transition Bar (x : Uint32) end end`, with one `end` too many, is
      reported as formatted. */
  lemma ExtraEndSucceeds()
    ensures Format(Joined(ExtraEnd)).Ok? && Format(Joined(ExtraEnd)).value.status == Success
  {
    ExtraEndTokens();
    SourceTokensOfJoined(ExtraEnd);
    ExtraEndPlace();
  }

  lemma ExtraEndTokens()
    ensures forall i :: 0 <= i < |ExtraEnd| ==> IsToken(ExtraEnd[i]) && '*' !in ExtraEnd[i]
  {
  }

  const NoParen := ["transition", "Foo", "end"]

  /** A `transition` with no `)`-token after it makes the `while` scan read
      past the array and throw: `transition Foo end` gives no result. */
  lemma NoParenThrows()
    ensures Format(Joined(NoParen)) == TypeError
  {
    assert forall i :: 0 <= i < |NoParen| ==> IsToken(NoParen[i]) && '*' !in NoParen[i];
    SourceTokensOfJoined(NoParen);
    var ts := NoParen;
    FirstParenFrame(ts[0 := "\ntransition "], ts, 1);
    assert FirstParen(ts, 1) == None;
    assert PlaceUpTo(ts, 1) == TypeError;
    ErrorSticks(ts, 1, 5);
  }
}
