/** The placement pass of src/fmt.ts:24-119: one forward pass over the token
    array whose `switch` on each token's current text rewrites it, puts a
    line feed in front of a token further ahead, and records the positions
    of block openers (`with`, and the first `)`-token after `transition`) and
    block closers (`end`).

    `PlaceUpTo(tokens, i)` is the state after the iterations `0 .. i-1`;
    `PlacementLoop` is the loop itself, proved to compute it. JavaScript arrays
    grow when written one past their end, so a look-ahead that lands there
    appends `"\nundefined"`; one that lands two past the end leaves a hole that
    the next iteration reads as `undefined` and throws on. */
module Placement {
  import opened Text

  /** The token array and the two location arrays
      `transitionWithLocations` and `endLocations`. */
  datatype Placed = Placed(tokens: seq<string>, openers: seq<nat>, closers: seq<nat>)

  /** The texts that have a `case` of their own in the `switch`. */
  predicate IsKeyword(t: string)
  {
    t in {"scilla_version", "let", "fun", "field", "transition", "match", "with", "end",
          "event", "contract", "library", "import", "|", "send", "builtin", "=>"}
  }

  /** The text a token is given at its own iteration (src/fmt.ts:28-116). */
  function Rewrite(t: string): string
  {
    match t
    case "scilla_version" => "scilla_version "
    case "let" => "\nlet "
    case "fun" => "\n\tfun "
    case "field" => "\nfield "
    case "transition" => "\ntransition "
    case "match" => "\nmatch "
    case "with" => "with"
    case "end" => "\nend\n"
    case "event" => "\nevent "
    case "contract" => "\n\ncontract "
    case "library" => "\n\nlibrary "
    case "import" => "\n\nimport "
    case "|" => "\n| "
    case "send" => "\nsend "
    case "builtin" => "\n\tbuiltin "
    case "=>" => "=>"
    case _ => t + " "
  }

  /** `scillaCode[j] = "\n" + scillaCode[j]`, with the array growing when
      `j` is its length; two past the end is a hole that throws next. */
  function Mark(ts: seq<string>, j: nat): (r: Run<seq<string>>)
  {
    if j <= |ts| then Ok(Grow(ts, j)) else TypeError
  }

  /** The write of `Mark` at an index no further than the array's end. */
  function Grow(ts: seq<string>, j: nat): seq<string>
    requires j <= |ts|
  {
    if j < |ts| then ts[j := "\n" + ts[j]] else ts + ["\n" + "undefined"]
  }

  /** The `while` scan of src/fmt.ts:46-49: the first token at or after
      `from` that contains `)`. */
  function FirstParen(ts: seq<string>, from: nat): (r: Option<nat>)
    ensures r.Some? ==> from <= r.value < |ts| && ')' in ts[r.value]
    ensures r.Some? ==> forall k :: from <= k < r.value ==> ')' !in ts[k]
    ensures r.None? ==> forall k :: from <= k < |ts| ==> ')' !in ts[k]
    decreases |ts| - from
  {
    if from >= |ts| then None
    else if ')' in ts[from] then Some(from)
    else FirstParen(ts, from + 1)
  }

  function Marked(ts: seq<string>, j: nat, openers: seq<nat>, closers: seq<nat>): Run<Placed>
  {
    match Mark(ts, j)
    case Ok(ts') => Ok(Placed(ts', openers, closers))
    case TypeError => TypeError
  }

  /** Iteration `i` of the placement loop. */
  function Step(st: Placed, i: nat): Run<Placed>
    requires i < |st.tokens|
  {
    var t := st.tokens[i];
    var ts := st.tokens[i := Rewrite(t)];
    match t
    case "transition" =>
      (match FirstParen(ts, i + 1)
       case Some(j) => Marked(ts, j + 1, st.openers + [j], st.closers)
       case None => TypeError)
    case "with" => Marked(ts, i + 1, st.openers + [i], st.closers)
    case "end" => Ok(Placed(ts, st.openers, st.closers + [i]))
    case "contract" => Marked(ts, i + 2, st.openers, st.closers)
    case "=>" => Marked(ts, i + 1, st.openers, st.closers)
    case _ =>
      if !IsKeyword(t) && Contains(Rewrite(t), "};") then Marked(ts, i + 1, st.openers, st.closers)
      else Ok(Placed(ts, st.openers, st.closers))
  }

  /** The state after iterations `0 .. i-1`; once the index has reached the
      array's length the loop has ended and the state stays as it is. */
  function PlaceUpTo(tokens: seq<string>, i: nat): Run<Placed>
  {
    if i == 0 then Ok(Placed(tokens, [], []))
    else
      match PlaceUpTo(tokens, i - 1)
      case TypeError => TypeError
      case Ok(st) => if i - 1 < |st.tokens| then Step(st, i - 1) else Ok(st)
  }

  /** The whole pass. The array never grows by more than two entries
      (`PlaceUpToShaped`), so the loop has ended by index `|tokens| + 2`. */
  function Place(tokens: seq<string>): Run<Placed>
  {
    PlaceUpTo(tokens, |tokens| + 2)
  }

  /** The text of token `i` when the loop reaches it, if it does. */
  function CurrentText(tokens: seq<string>, i: nat): Option<string>
  {
    match PlaceUpTo(tokens, i)
    case Ok(st) => if i < |st.tokens| then Some(st.tokens[i]) else None
    case TypeError => None
  }

  /** The text the token at `j` started from: the input token, or the
      `undefined` of a slot the array grew by. */
  function Original(tokens: seq<string>, j: nat): string
  {
    if j < |tokens| then tokens[j] else "undefined"
  }

  /** How many of the iterations `0 .. i-1` saw the text `kw`. */
  function Tally(tokens: seq<string>, i: nat, kw: string): nat
  {
    Count(SawAt(tokens, kw), i)
  }

  function SawAt(tokens: seq<string>, kw: string): nat -> bool
  {
    (j: nat) => CurrentText(tokens, j) == Some(kw)
  }

  /** How many of `0 .. k-1` satisfy `p`. */
  function Count(p: nat -> bool, k: nat): nat
  {
    if k == 0 then 0 else Count(p, k - 1) + (if p(k - 1) then 1 else 0)
  }

  lemma {:induction false} CountZero(p: nat -> bool, k: nat)
    ensures Count(p, k) == 0 <==> forall j: nat :: j < k ==> !p(j)
  {
    if k > 0 {
      CountZero(p, k - 1);
    }
  }

  // ---------------------------------------------------------------------
  // One iteration

  lemma KeywordsStartPlain(t: string)
    requires IsKeyword(t)
    ensures !StartsWithNewline(t) && ')' !in t && !Contains(t, "};")
  {
    ContainsNeedsFirst(t, "};");
  }

  /** A token that was given a line feed by an earlier iteration matches no
      `case` and takes the default rewrite: one trailing space. */
  lemma PrefixedTokenIsPlain(c: string)
    requires StartsWithNewline(c)
    ensures !IsKeyword(c) && Rewrite(c) == c + " "
  {
    if IsKeyword(c) {
      KeywordsStartPlain(c);
    }
  }

  lemma FirstParenFrame(a: seq<string>, b: seq<string>, from: nat)
    requires |a| == |b|
    requires forall k :: from <= k < |a| ==> a[k] == b[k]
    ensures FirstParen(a, from) == FirstParen(b, from)
    decreases |a| - from
  {
    if from < |a| {
      FirstParenFrame(a, b, from + 1);
    }
  }

  /** What one iteration does to the state. */
  lemma StepEffect(st: Placed, i: nat)
    requires i < |st.tokens|
    ensures var t := st.tokens[i];
            Step(st, i).TypeError? ==>
              (t == "transition" && FirstParen(st.tokens, i + 1).None?) ||
              (t == "contract" && i + 2 > |st.tokens|)
    ensures Step(st, i).Ok? ==>
              var t, st' := st.tokens[i], Step(st, i).value;
              && |st.tokens| <= |st'.tokens| <= |st.tokens| + 1
              && st'.tokens[i] == Rewrite(t)
              && (forall j :: 0 <= j < i ==> st'.tokens[j] == st.tokens[j])
              && (forall j :: i < j < |st.tokens| ==>
                    st'.tokens[j] == st.tokens[j] || st'.tokens[j] == "\n" + st.tokens[j])
              && (forall j :: i < j < |st.tokens| ==>
                    st'.tokens[j] == (if LookAhead(st, i) == Some(j) then "\n" + st.tokens[j] else st.tokens[j]))
              && (LookAhead(st, i).Some? ==> LookAhead(st, i).value <= |st.tokens|)
              && |st'.tokens| == |st.tokens| + (if LookAhead(st, i) == Some(|st.tokens|) then 1 else 0)
              && (|st'.tokens| > |st.tokens| ==>
                    && st'.tokens[|st.tokens|] == "\nundefined"
                    && (|| (|st.tokens| == i + 1 &&
                            (t == "with" || t == "=>" || t == "contract" ||
                             (!IsKeyword(t) && Contains(Rewrite(t), "};"))))
                        || (|st.tokens| == i + 2 && t == "contract")
                        || (t == "transition" && FirstParen(st.tokens, i + 1) == Some(|st.tokens| - 1))))
              && st'.closers == st.closers + (if t == "end" then [i] else [])
              && st'.openers == st.openers +
                   (if t == "with" then [i]
                    else if t == "transition" then [FirstParen(st.tokens, i + 1).value]
                    else [])
  {
    StepThrows(st, i);
    if Step(st, i).Ok? {
      StepTokens(st, i);
      StepGrows(st, i);
      StepRecords(st, i);
      StepMarks(st, i);
      StepLength(st, i);
    }
  }

  /** An iteration throws only for a `transition` with no `)`-token after it
      or a `contract` two or more from the end. */
  lemma StepThrows(st: Placed, i: nat)
    requires i < |st.tokens|
    ensures var t := st.tokens[i];
            Step(st, i).TypeError? ==>
              (t == "transition" && FirstParen(st.tokens, i + 1).None?) ||
              (t == "contract" && i + 2 > |st.tokens|)
  {
    var t := st.tokens[i];
    FirstParenFrame(st.tokens[i := Rewrite(t)], st.tokens, i + 1);
  }

  /** The array write of `Mark`: one slot gains a line feed, or the array
      grows by `"\nundefined"`. */
  lemma GrowEffect(ts: seq<string>, j: nat)
    requires j <= |ts|
    ensures var r := Grow(ts, j);
            && |ts| <= |r| <= |ts| + 1
            && (forall k :: 0 <= k < |ts| && k != j ==> r[k] == ts[k])
            && (j < |ts| ==> r[j] == "\n" + ts[j] && |r| == |ts|)
            && (|r| > |ts| ==> j == |ts| && r[|ts|] == "\nundefined")
  {
  }

  lemma StepTokens(st: Placed, i: nat)
    requires i < |st.tokens| && Step(st, i).Ok?
    ensures var t, st' := st.tokens[i], Step(st, i).value;
            && |st.tokens| <= |st'.tokens| <= |st.tokens| + 1
            && st'.tokens[i] == Rewrite(t)
            && (forall j :: 0 <= j < i ==> st'.tokens[j] == st.tokens[j])
            && (forall j :: i < j < |st.tokens| ==>
                  st'.tokens[j] == st.tokens[j] || st'.tokens[j] == "\n" + st.tokens[j])
            && (|st'.tokens| > |st.tokens| ==> st'.tokens[|st.tokens|] == "\nundefined")
  {
    var t := st.tokens[i];
    var ts := st.tokens[i := Rewrite(t)];
    FirstParenFrame(ts, st.tokens, i + 1);
    var j: nat :| Step(st, i).value.tokens == ts || (i < j <= |ts| && Step(st, i).value.tokens == Grow(ts, j));
    if Step(st, i).value.tokens != ts {
      GrowEffect(ts, j);
    }
  }

  lemma StepGrows(st: Placed, i: nat)
    requires i < |st.tokens| && Step(st, i).Ok?
    ensures var t, st' := st.tokens[i], Step(st, i).value;
            |st'.tokens| > |st.tokens| ==>
              || (|st.tokens| == i + 1 &&
                  (t == "with" || t == "=>" || t == "contract" ||
                   (!IsKeyword(t) && Contains(Rewrite(t), "};"))))
              || (|st.tokens| == i + 2 && t == "contract")
              || (t == "transition" && FirstParen(st.tokens, i + 1) == Some(|st.tokens| - 1))
  {
    var t := st.tokens[i];
    FirstParenFrame(st.tokens[i := Rewrite(t)], st.tokens, i + 1);
  }

  // ---------------------------------------------------------------------
  // The loop as a whole

  /** What holds of the state when the loop reaches index `i`: the array has
      grown by at most two, and every token not yet visited is its original
      text with line feeds in front (a grown slot at least one). */
  ghost predicate Shaped(tokens: seq<string>, i: nat, st: Placed)
  {
    && |tokens| <= |st.tokens| <= |tokens| + 2
    && (forall j :: i <= j < |st.tokens| ==> NewlinesThen(st.tokens[j], Original(tokens, j)))
    && (forall j :: i <= j < |st.tokens| && |tokens| <= j ==> StartsWithNewline(st.tokens[j]))
  }

  lemma NewlinesThenMark(a: string, b: string)
    requires NewlinesThen(a, b)
    ensures NewlinesThen("\n" + a, b)
  {
    assert "\n" + a == Newlines(|a| - |b| + 1) + b;
  }

  /** A grown slot, however many line feeds it carries, contains no `}`
      and no `)`, and is no keyword. */
  lemma GrownSlotIsInert(c: string)
    requires NewlinesThen(c, "undefined") && StartsWithNewline(c)
    ensures !IsKeyword(c) && Rewrite(c) == c + " "
    ensures !Contains(Rewrite(c), "};") && ')' !in c
  {
    PrefixedTokenIsPlain(c);
    var k := |c| - |"undefined"|;
    assert c + " " == Newlines(k) + "undefined ";
    assert '}' !in Newlines(k) && ')' !in Newlines(k);
    ContainsNeedsFirst(c + " ", "};");
  }

  /** `)` is unaffected by line feeds put in front. */
  lemma ParenThroughNewlines(a: string, b: string)
    requires NewlinesThen(a, b)
    ensures ')' in a <==> ')' in b
  {
    var k := |a| - |b|;
    assert ')' !in Newlines(k);
  }

  /** The scan for `)` over the current array finds what it would find over
      the input tokens: line feeds put in front do not matter, and grown
      slots hold no `)`. */
  lemma ParenScanSeesOriginal(tokens: seq<string>, i: nat, st: Placed, from: nat)
    requires Shaped(tokens, i, st) && i <= from
    ensures FirstParen(st.tokens, from) == FirstParen(tokens, from)
    decreases |st.tokens| - from
  {
    if from < |st.tokens| {
      ParenScanSeesOriginal(tokens, i, st, from + 1);
      if from < |tokens| {
        ParenThroughNewlines(st.tokens[from], tokens[from]);
      } else {
        GrownSlotIsInert(st.tokens[from]);
      }
    }
  }

  /** The array grows past `|tokens| + 2` in no iteration: an iteration on a
      grown slot, which holds `undefined`, looks ahead nowhere. */
  lemma StepGrowthBounded(tokens: seq<string>, i: nat, st: Placed)
    requires i < |st.tokens| && Shaped(tokens, i, st) && Step(st, i).Ok?
    ensures |Step(st, i).value.tokens| <= |tokens| + 2
  {
    StepTokens(st, i);
    StepGrows(st, i);
    if i >= |tokens| && |Step(st, i).value.tokens| > |st.tokens| {
      GrownSlotIsInert(st.tokens[i]);
    }
  }

  lemma StepShaped(tokens: seq<string>, i: nat, st: Placed)
    requires i < |st.tokens| && Shaped(tokens, i, st) && Step(st, i).Ok?
    ensures Shaped(tokens, i + 1, Step(st, i).value)
  {
    StepTokens(st, i);
    StepGrowthBounded(tokens, i, st);
    ShapeKept(tokens, i, st, Step(st, i).value);
  }

  /** `Shaped` carried over one iteration, stated on the two arrays alone. */
  lemma ShapeKept(tokens: seq<string>, i: nat, st: Placed, st': Placed)
    requires i < |st.tokens| && Shaped(tokens, i, st)
    requires |st.tokens| <= |st'.tokens| <= |st.tokens| + 1 && |st'.tokens| <= |tokens| + 2
    requires forall j :: i < j < |st.tokens| ==>
               st'.tokens[j] == st.tokens[j] || st'.tokens[j] == "\n" + st.tokens[j]
    requires |st'.tokens| > |st.tokens| ==> st'.tokens[|st.tokens|] == "\nundefined"
    ensures Shaped(tokens, i + 1, st')
  {
    forall j | i + 1 <= j < |st'.tokens|
      ensures NewlinesThen(st'.tokens[j], Original(tokens, j))
      ensures |tokens| <= j ==> StartsWithNewline(st'.tokens[j])
    {
      if j >= |st.tokens| {
        assert st'.tokens[j] == Newlines(1) + "undefined";
      } else if st'.tokens[j] != st.tokens[j] {
        NewlinesThenMark(st.tokens[j], Original(tokens, j));
      }
    }
  }

  /** The loop invariant of `PlacementLoop`, for every reachable state. */
  lemma {:induction false} PlaceUpToShaped(tokens: seq<string>, i: nat)
    requires PlaceUpTo(tokens, i).Ok?
    ensures Shaped(tokens, i, PlaceUpTo(tokens, i).value)
  {
    if i > 0 {
      var h := i - 1;
      PlaceUpToShaped(tokens, h);
      var st := PlaceUpTo(tokens, h).value;
      if h < |st.tokens| {
        StepShaped(tokens, h, st);
        assert PlaceUpTo(tokens, h + 1) == Step(st, h);
      } else {
        assert PlaceUpTo(tokens, h + 1) == Ok(st);
      }
      assert h + 1 == i;
    }
  }

  /** Once the index has passed the array's end, nothing changes any more. */
  lemma {:induction false} Settled(tokens: seq<string>, i: nat, k: nat)
    requires i <= k
    requires PlaceUpTo(tokens, i).Ok? && i >= |PlaceUpTo(tokens, i).value.tokens|
    ensures PlaceUpTo(tokens, k) == PlaceUpTo(tokens, i)
    decreases k - i
  {
    if i < k {
      assert PlaceUpTo(tokens, i + 1) == PlaceUpTo(tokens, i);
      Settled(tokens, i + 1, k);
    }
  }

  /** One more iteration of the loop is one more `Step`. */
  lemma PlaceUpToNext(tokens: seq<string>, i: nat)
    requires PlaceUpTo(tokens, i).Ok? && i < |PlaceUpTo(tokens, i).value.tokens|
    ensures PlaceUpTo(tokens, i + 1) == Step(PlaceUpTo(tokens, i).value, i)
    ensures |PlaceUpTo(tokens, i).value.tokens| <= |tokens| + 2
  {
    PlaceUpToShaped(tokens, i);
  }

  /** A thrown error ends the computation. */
  lemma {:induction false} ErrorSticks(tokens: seq<string>, i: nat, k: nat)
    requires i <= k && PlaceUpTo(tokens, i).TypeError?
    ensures PlaceUpTo(tokens, k).TypeError?
    decreases k - i
  {
    if i < k {
      assert PlaceUpTo(tokens, i + 1).TypeError?;
      ErrorSticks(tokens, i + 1, k);
    }
  }

  /** An earlier state is a prefix of a later one: visited tokens are final,
      the array only grows, and the location lists only get longer. */
  lemma {:induction false} History(tokens: seq<string>, i: nat, k: nat)
    requires i <= k && PlaceUpTo(tokens, k).Ok?
    ensures PlaceUpTo(tokens, i).Ok?
    ensures var st, st' := PlaceUpTo(tokens, i).value, PlaceUpTo(tokens, k).value;
            && |st.tokens| <= |st'.tokens|
            && (forall j :: 0 <= j < i && j < |st.tokens| ==> st'.tokens[j] == st.tokens[j])
            && st.closers <= st'.closers
            && st.openers <= st'.openers
    decreases k - i
  {
    if i < k {
      var m := k - 1;
      OkBefore(tokens, m);
      History(tokens, i, m);
      HistoryStep(tokens, m, PlaceUpTo(tokens, m).value, PlaceUpTo(tokens, k).value);
    }
  }

  /** `History` across one iteration. */
  lemma HistoryStep(tokens: seq<string>, m: nat, st: Placed, st': Placed)
    requires PlaceUpTo(tokens, m) == Ok(st) && PlaceUpTo(tokens, m + 1) == Ok(st')
    ensures && |st.tokens| <= |st'.tokens|
            && (forall j :: 0 <= j < m && j < |st.tokens| ==> st'.tokens[j] == st.tokens[j])
            && st.closers <= st'.closers
            && st.openers <= st'.openers
  {
    if m < |st.tokens| {
      assert Step(st, m) == Ok(st');
      StepTokens(st, m);
      StepRecords(st, m);
    } else {
      assert st' == st;
    }
  }

  // ---------------------------------------------------------------------
  // What the pass records

  predicate Increasing(s: seq<nat>)
  {
    forall a, b :: 0 <= a < b < |s| ==> s[a] < s[b]
  }

  /** The closers of the state at index `k`: the visited indices whose token
      read `end`, in increasing order. */
  ghost predicate ClosersSoFar(tokens: seq<string>, k: nat, st: Placed)
  {
    && (forall x: nat :: x in st.closers <==> x < k && CurrentText(tokens, x) == Some("end"))
    && (forall x :: x in st.closers ==> x < |st.tokens|)
    && Increasing(st.closers)
    && |st.closers| == Tally(tokens, k, "end")
  }

  /** Every opener of the state at index `k` is a visited `with`, which no
      later iteration touches, or a token holding `)`. */
  predicate OpenersQualify(k: nat, st: Placed)
  {
    forall x :: x in st.openers ==>
      x < |st.tokens| && ((x < k && st.tokens[x] == "with") || ')' in st.tokens[x])
  }

  /** The openers of the state at index `k`: one per visited `with` and one
      per visited `transition`, the first `)`-token after it. */
  ghost predicate OpenersSoFar(tokens: seq<string>, k: nat, st: Placed)
  {
    && OpenersQualify(k, st)
    && (forall i: nat :: i < k && CurrentText(tokens, i) == Some("with") ==> i in st.openers)
    && (forall i: nat :: i < k && CurrentText(tokens, i) == Some("transition") ==>
          FirstParen(tokens, i + 1).Some? && FirstParen(tokens, i + 1).value in st.openers)
    && |st.openers| == Tally(tokens, k, "with") + Tally(tokens, k, "transition")
  }

  /** What one iteration adds to the two location lists. */
  lemma StepRecords(st: Placed, i: nat)
    requires i < |st.tokens| && Step(st, i).Ok?
    ensures var t, st' := st.tokens[i], Step(st, i).value;
            && |st.tokens| <= |st'.tokens|
            && (t == "transition" ==> FirstParen(st.tokens, i + 1).Some?)
            && st'.closers == st.closers + (if t == "end" then [i] else [])
            && st'.openers == st.openers +
                 (if t == "with" then [i]
                  else if t == "transition" then [FirstParen(st.tokens, i + 1).value]
                  else [])
  {
    var t := st.tokens[i];
    FirstParenFrame(st.tokens[i := Rewrite(t)], st.tokens, i + 1);
  }

  /** The closers invariant carried over one iteration, stated on the two
      states alone. */
  lemma ClosersExtend(tokens: seq<string>, i: nat, st: Placed, st': Placed)
    requires ClosersSoFar(tokens, i, st)
    requires i < |st.tokens| <= |st'.tokens| && CurrentText(tokens, i) == Some(st.tokens[i])
    requires st'.closers == st.closers + (if st.tokens[i] == "end" then [i] else [])
    ensures ClosersSoFar(tokens, i + 1, st')
  {
    var added := if st.tokens[i] == "end" then [i] else [];
    forall x: nat ensures x in st'.closers <==> x < i + 1 && CurrentText(tokens, x) == Some("end") {
      assert x in st'.closers <==> x in st.closers || x in added;
    }
    forall a | 0 <= a < |st.closers| ensures st.closers[a] < i {
      assert st.closers[a] in st.closers;
    }
  }

  lemma ClosersSettled(tokens: seq<string>, i: nat)
    requires PlaceUpTo(tokens, i).Ok? && i >= |PlaceUpTo(tokens, i).value.tokens|
    requires ClosersSoFar(tokens, i, PlaceUpTo(tokens, i).value)
    ensures ClosersSoFar(tokens, i + 1, PlaceUpTo(tokens, i + 1).value)
  {
    assert PlaceUpTo(tokens, i + 1) == PlaceUpTo(tokens, i);
    assert CurrentText(tokens, i) == None;
    ClosersIdle(tokens, i, PlaceUpTo(tokens, i).value);
  }

  lemma ClosersIdle(tokens: seq<string>, i: nat, st: Placed)
    requires ClosersSoFar(tokens, i, st) && CurrentText(tokens, i) == None
    ensures ClosersSoFar(tokens, i + 1, st)
  {
    forall x: nat ensures x in st.closers <==> x < i + 1 && CurrentText(tokens, x) == Some("end") {
      if x == i { assert x !in st.closers; }
    }
  }

  lemma ClosersStep(tokens: seq<string>, i: nat)
    requires PlaceUpTo(tokens, i + 1).Ok?
    requires PlaceUpTo(tokens, i).Ok? && ClosersSoFar(tokens, i, PlaceUpTo(tokens, i).value)
    ensures ClosersSoFar(tokens, i + 1, PlaceUpTo(tokens, i + 1).value)
  {
    var st := PlaceUpTo(tokens, i).value;
    if i < |st.tokens| {
      PlaceUpToNext(tokens, i);
      StepRecords(st, i);
      var st' := Step(st, i).value;
      assert CurrentText(tokens, i) == Some(st.tokens[i]);
      ClosersExtend(tokens, i, st, st');
    } else {
      ClosersSettled(tokens, i);
    }
  }

  /** The loop reached index `i` if it reached the index after it. */
  lemma OkBefore(tokens: seq<string>, i: nat)
    requires PlaceUpTo(tokens, i + 1).Ok?
    ensures PlaceUpTo(tokens, i).Ok?
  {
  }

  lemma {:induction false} ClosersUpTo(tokens: seq<string>, k: nat)
    requires PlaceUpTo(tokens, k).Ok?
    ensures ClosersSoFar(tokens, k, PlaceUpTo(tokens, k).value)
  {
    if k > 0 {
      var i := k - 1;
      OkBefore(tokens, i);
      ClosersUpTo(tokens, i);
      ClosersStep(tokens, i);
      assert i + 1 == k;
    }
  }

  lemma OpenersQualifyStep(st: Placed, i: nat)
    requires i < |st.tokens| && Step(st, i).Ok? && OpenersQualify(i, st)
    ensures OpenersQualify(i + 1, Step(st, i).value)
  {
    var t, st' := st.tokens[i], Step(st, i).value;
    StepTokens(st, i);
    StepRecords(st, i);
    forall x | x in st'.openers
      ensures x < |st'.tokens| && ((x < i + 1 && st'.tokens[x] == "with") || ')' in st'.tokens[x])
    {
      if x in st.openers && !(x < i && st.tokens[x] == "with") {
        assert ')' in st.tokens[x];
        if x == i {
          assert !IsKeyword(t) by {
            if IsKeyword(t) { KeywordsStartPlain(t); }
          }
          assert st'.tokens[x] == t + " ";
        } else if x > i && st'.tokens[x] != st.tokens[x] {
          assert st'.tokens[x] == "\n" + st.tokens[x];
        }
      }
    }
  }

  lemma OpenersListStep(tokens: seq<string>, i: nat)
    requires PlaceUpTo(tokens, i + 1).Ok?
    requires PlaceUpTo(tokens, i).Ok? && OpenersSoFar(tokens, i, PlaceUpTo(tokens, i).value)
    ensures OpenersSoFar(tokens, i + 1, PlaceUpTo(tokens, i + 1).value)
  {
    var st := PlaceUpTo(tokens, i).value;
    if i < |st.tokens| {
      PlaceUpToNext(tokens, i);
      var st' := Step(st, i).value;
      StepOpeners(tokens, i, st);
      OpenersQualifyStep(st, i);
      OpenersExtend(tokens, i, st, st');
    } else {
      OpenersSettled(tokens, i);
    }
  }

  lemma OpenersSettled(tokens: seq<string>, i: nat)
    requires PlaceUpTo(tokens, i).Ok? && i >= |PlaceUpTo(tokens, i).value.tokens|
    requires OpenersSoFar(tokens, i, PlaceUpTo(tokens, i).value)
    ensures OpenersSoFar(tokens, i + 1, PlaceUpTo(tokens, i + 1).value)
  {
    assert PlaceUpTo(tokens, i + 1) == PlaceUpTo(tokens, i);
    assert CurrentText(tokens, i) == None;
    OpenersIdle(tokens, i, PlaceUpTo(tokens, i).value);
  }

  lemma OpenersIdle(tokens: seq<string>, i: nat, st: Placed)
    requires OpenersSoFar(tokens, i, st) && CurrentText(tokens, i) == None
    ensures OpenersSoFar(tokens, i + 1, st)
  {
    forall j: nat | j < i + 1 && CurrentText(tokens, j) == Some("with")
      ensures j in st.openers
    {
      assert j < i;
    }
    forall j: nat | j < i + 1 && CurrentText(tokens, j) == Some("transition")
      ensures FirstParen(tokens, j + 1).Some? && FirstParen(tokens, j + 1).value in st.openers
    {
      assert j < i;
    }
  }

  /** The openers one iteration adds, with the scan for `)` stated on the
      input tokens. */
  lemma StepOpeners(tokens: seq<string>, i: nat, st: Placed)
    requires PlaceUpTo(tokens, i) == Ok(st) && i < |st.tokens| && Step(st, i).Ok?
    ensures CurrentText(tokens, i) == Some(st.tokens[i])
    ensures st.tokens[i] == "transition" ==> FirstParen(tokens, i + 1).Some?
    ensures Step(st, i).value.openers == st.openers +
              (if st.tokens[i] == "with" then [i]
               else if st.tokens[i] == "transition" then [FirstParen(tokens, i + 1).value]
               else [])
  {
    StepRecords(st, i);
    if st.tokens[i] == "transition" {
      PlaceUpToShaped(tokens, i);
      ParenScanSeesOriginal(tokens, i, st, i + 1);
    }
  }

  /** The openers invariant carried over one iteration, stated on the two
      states alone. */
  lemma OpenersExtend(tokens: seq<string>, i: nat, st: Placed, st': Placed)
    requires OpenersSoFar(tokens, i, st) && OpenersQualify(i + 1, st')
    requires i < |st.tokens| && CurrentText(tokens, i) == Some(st.tokens[i])
    requires st.tokens[i] == "transition" ==> FirstParen(tokens, i + 1).Some?
    requires st'.openers == st.openers +
               (if st.tokens[i] == "with" then [i]
                else if st.tokens[i] == "transition" then [FirstParen(tokens, i + 1).value]
                else [])
    ensures OpenersSoFar(tokens, i + 1, st')
  {
    var t := st.tokens[i];
    var added := if t == "with" then [i]
                 else if t == "transition" then [FirstParen(tokens, i + 1).value]
                 else [];
    WithOpens(tokens, i, st.openers, st'.openers, t, added);
    TransitionOpens(tokens, i, st.openers, st'.openers, t, added);
    OpenersCounted(tokens, i, st.openers, st'.openers, t, added);
  }

  lemma WithOpens(tokens: seq<string>, i: nat, o: seq<nat>, o': seq<nat>, t: string, added: seq<nat>)
    requires forall j: nat :: j < i && CurrentText(tokens, j) == Some("with") ==> j in o
    requires CurrentText(tokens, i) == Some(t) && o' == o + added
    requires t == "with" ==> added == [i]
    ensures forall j: nat :: j < i + 1 && CurrentText(tokens, j) == Some("with") ==> j in o'
  {
    forall j: nat | j < i + 1 && CurrentText(tokens, j) == Some("with")
      ensures j in o'
    {
      if j < i { assert j in o; } else { assert added == [i]; }
    }
  }

  lemma TransitionOpens(tokens: seq<string>, i: nat, o: seq<nat>, o': seq<nat>, t: string, added: seq<nat>)
    requires forall j: nat :: j < i && CurrentText(tokens, j) == Some("transition") ==>
               FirstParen(tokens, j + 1).Some? && FirstParen(tokens, j + 1).value in o
    requires CurrentText(tokens, i) == Some(t) && o' == o + added
    requires t == "transition" ==> FirstParen(tokens, i + 1).Some? && added == [FirstParen(tokens, i + 1).value]
    ensures forall j: nat :: j < i + 1 && CurrentText(tokens, j) == Some("transition") ==>
              FirstParen(tokens, j + 1).Some? && FirstParen(tokens, j + 1).value in o'
  {
    forall j: nat | j < i + 1 && CurrentText(tokens, j) == Some("transition")
      ensures FirstParen(tokens, j + 1).Some? && FirstParen(tokens, j + 1).value in o'
    {
      if j < i { assert FirstParen(tokens, j + 1).value in o; }
      else { assert added == [FirstParen(tokens, i + 1).value]; }
    }
  }

  lemma OpenersCounted(tokens: seq<string>, i: nat, o: seq<nat>, o': seq<nat>, t: string, added: seq<nat>)
    requires |o| == Tally(tokens, i, "with") + Tally(tokens, i, "transition")
    requires CurrentText(tokens, i) == Some(t) && o' == o + added
    requires |added| == if t == "with" || t == "transition" then 1 else 0
    ensures |o'| == Tally(tokens, i + 1, "with") + Tally(tokens, i + 1, "transition")
  {
  }

  lemma {:induction false} OpenersUpTo(tokens: seq<string>, k: nat)
    requires PlaceUpTo(tokens, k).Ok?
    ensures OpenersSoFar(tokens, k, PlaceUpTo(tokens, k).value)
  {
    if k > 0 {
      var i := k - 1;
      OkBefore(tokens, i);
      OpenersUpTo(tokens, i);
      OpenersListStep(tokens, i);
      assert i + 1 == k;
    }
  }

  /** The opener iteration `i` records: itself when it reads `with`, the
      first later input token holding `)` when it reads `transition`. */
  function OpenedAt(tokens: seq<string>, i: nat): seq<nat>
  {
    match CurrentText(tokens, i)
    case Some("with") => [i]
    case Some("transition") => if FirstParen(tokens, i + 1).Some? then [FirstParen(tokens, i + 1).value] else []
    case _ => []
  }

  /** The openers of iterations `0 .. k-1`, in the order they are visited. */
  function OpenersAt(tokens: seq<string>, k: nat): seq<nat>
  {
    if k == 0 then [] else OpenersAt(tokens, k - 1) + OpenedAt(tokens, k - 1)
  }

  lemma OpenersListedStep(tokens: seq<string>, i: nat)
    requires PlaceUpTo(tokens, i + 1).Ok?
    requires PlaceUpTo(tokens, i).Ok? && PlaceUpTo(tokens, i).value.openers == OpenersAt(tokens, i)
    ensures PlaceUpTo(tokens, i + 1).value.openers == OpenersAt(tokens, i + 1)
  {
    var st := PlaceUpTo(tokens, i).value;
    if i < |st.tokens| {
      PlaceUpToNext(tokens, i);
      StepOpeners(tokens, i, st);
    } else {
      assert PlaceUpTo(tokens, i + 1) == PlaceUpTo(tokens, i);
      assert CurrentText(tokens, i) == None;
    }
  }

  /** The state's openers are those of the iterations run so far, in order. */
  lemma {:induction false} OpenersListed(tokens: seq<string>, k: nat)
    requires PlaceUpTo(tokens, k).Ok?
    ensures PlaceUpTo(tokens, k).value.openers == OpenersAt(tokens, k)
  {
    if k > 0 {
      var i := k - 1;
      OkBefore(tokens, i);
      OpenersListed(tokens, i);
      OpenersListedStep(tokens, i);
      assert i + 1 == k;
    }
  }

  // ---------------------------------------------------------------------
  // The pass as a whole

  /** The loop visits exactly the indices of the final array: every other
      index has no current text. */
  lemma VisitsFinalArray(tokens: seq<string>, x: nat)
    requires Place(tokens).Ok?
    ensures CurrentText(tokens, x).Some? <==> x < |Place(tokens).value.tokens|
    ensures x < |Place(tokens).value.tokens| ==> x < |tokens| + 2
  {
    var n := |tokens| + 2;
    var p := Place(tokens).value;
    PlaceUpToShaped(tokens, n);
    if x >= n {
      Settled(tokens, n, x);
    } else {
      History(tokens, x, n);
      var st := PlaceUpTo(tokens, x).value;
      if x >= |st.tokens| {
        Settled(tokens, x, n);
      }
    }
  }

  lemma FinalToken(tokens: seq<string>, i: nat)
    requires Place(tokens).Ok? && i < |Place(tokens).value.tokens|
    ensures CurrentText(tokens, i).Some?
    ensures Place(tokens).value.tokens[i] == Rewrite(CurrentText(tokens, i).value)
  {
    var n := |tokens| + 2;
    VisitsFinalArray(tokens, i);
    History(tokens, i + 1, n);
    var st := PlaceUpTo(tokens, i).value;
    PlaceUpToNext(tokens, i);
    StepTokens(st, i);
  }

  /** Each token of the result is the rewrite of the text the token had when
      the loop reached it: one rewrite per token, chosen by its current text. */
  lemma PlaceRewritesEachToken(tokens: seq<string>)
    requires Place(tokens).Ok?
    ensures forall i :: 0 <= i < |Place(tokens).value.tokens| ==>
              CurrentText(tokens, i).Some? &&
              Place(tokens).value.tokens[i] == Rewrite(CurrentText(tokens, i).value)
  {
    forall i | 0 <= i < |Place(tokens).value.tokens|
      ensures CurrentText(tokens, i).Some? &&
              Place(tokens).value.tokens[i] == Rewrite(CurrentText(tokens, i).value)
    {
      FinalToken(tokens, i);
    }
  }

  /** The text a token has when the loop reaches it is its input text with
      line feeds in front; a slot the array grew by reads `undefined` after at
      least one line feed. */
  lemma CurrentTextIsOriginal(tokens: seq<string>, i: nat)
    requires CurrentText(tokens, i).Some?
    ensures NewlinesThen(CurrentText(tokens, i).value, Original(tokens, i))
    ensures i >= |tokens| ==> StartsWithNewline(CurrentText(tokens, i).value)
  {
    PlaceUpToShaped(tokens, i);
  }

  /** The result holds the input's tokens and at most two more, each of
      which reads `undefined ` after line feeds. */
  lemma PlaceGrowth(tokens: seq<string>)
    requires Place(tokens).Ok?
    ensures |tokens| <= |Place(tokens).value.tokens| <= |tokens| + 2
    ensures forall j :: |tokens| <= j < |Place(tokens).value.tokens| ==>
              StartsWithNewline(Place(tokens).value.tokens[j]) &&
              NewlinesThen(Place(tokens).value.tokens[j], "undefined ")
  {
    var p := Place(tokens).value;
    PlaceUpToShaped(tokens, |tokens| + 2);
    forall j | |tokens| <= j < |p.tokens|
      ensures StartsWithNewline(p.tokens[j]) && NewlinesThen(p.tokens[j], "undefined ")
    {
      GrownSlot(tokens, j);
    }
  }

  /** The index iteration `i` puts a line feed in front of, if any: the
      token after a `with`, a `=>` or a token whose rewrite holds `};`, the
      second token after a `contract`, and the token after the first
      `)`-token past a `transition`. */
  function LookAhead(st: Placed, i: nat): Option<nat>
    requires i < |st.tokens|
  {
    var t := st.tokens[i];
    if t == "transition" then
      (if FirstParen(st.tokens, i + 1).Some? then Some(FirstParen(st.tokens, i + 1).value + 1) else None)
    else if t == "with" || t == "=>" || (!IsKeyword(t) && Contains(Rewrite(t), "};")) then Some(i + 1)
    else if t == "contract" then Some(i + 2)
    else None
  }

  /** An iteration grows the array, by one, exactly when its look-ahead
      lands on the array's length. */
  lemma StepLength(st: Placed, i: nat)
    requires i < |st.tokens| && Step(st, i).Ok?
    ensures |Step(st, i).value.tokens| ==
              |st.tokens| + (if LookAhead(st, i) == Some(|st.tokens|) then 1 else 0)
  {
    var t := st.tokens[i];
    var ts := st.tokens[i := Rewrite(t)];
    FirstParenFrame(ts, st.tokens, i + 1);
    match LookAhead(st, i)
    case Some(j) =>
      if j <= |ts| {
        GrowEffect(ts, j);
      }
    case None =>
  }

  /** The later token an iteration puts a line feed in front of is the one
      its look-ahead names, and no other later token changes; the look-ahead
      of an iteration that completes lands no further than the array's end. */
  lemma StepMarks(st: Placed, i: nat)
    requires i < |st.tokens| && Step(st, i).Ok?
    ensures LookAhead(st, i).Some? ==> LookAhead(st, i).value <= |st.tokens|
    ensures forall j :: i < j < |st.tokens| ==>
              Step(st, i).value.tokens[j] ==
                (if LookAhead(st, i) == Some(j) then "\n" + st.tokens[j] else st.tokens[j])
  {
    var t := st.tokens[i];
    var ts := st.tokens[i := Rewrite(t)];
    FirstParenFrame(ts, st.tokens, i + 1);
    match LookAhead(st, i)
    case Some(j) =>
      if j <= |ts| {
        GrowEffect(ts, j);
      }
    case None =>
  }

  /** Iteration `i` runs and its look-ahead names index `j`. */
  ghost predicate Aims(tokens: seq<string>, i: nat, j: nat)
  {
    && PlaceUpTo(tokens, i).Ok?
    && i < |PlaceUpTo(tokens, i).value.tokens|
    && LookAhead(PlaceUpTo(tokens, i).value, i) == Some(j)
  }

  /** How many of the iterations `0 .. k-1` put a line feed in front of
      token `j`. */
  ghost function Hits(tokens: seq<string>, j: nat, k: nat): nat
  {
    Count(AimsAt(tokens, j), k)
  }

  ghost function AimsAt(tokens: seq<string>, j: nat): nat -> bool
  {
    (i: nat) => Aims(tokens, i, j)
  }

  /** What holds of the state when the loop reaches index `k`: every token
      not yet visited is its original text after one line feed per earlier
      iteration that named it, and no iteration has named an index past the
      array's end. */
  ghost predicate AheadCounted(tokens: seq<string>, k: nat, st: Placed)
  {
    && |tokens| <= |st.tokens|
    && (forall j: nat :: k <= j < |st.tokens| ==> st.tokens[j] == Newlines(Hits(tokens, j, k)) + Original(tokens, j))
    && (forall j: nat :: k <= j && |st.tokens| <= j ==> Hits(tokens, j, k) == 0)
  }

  /** One iteration adds one line feed to the token its look-ahead names
      and leaves every other later token as it is, stated on a token that
      already carries `h` line feeds. */
  lemma MarkCounted(st: Placed, i: nat, st': Placed, j: nat, h: nat, o: string)
    requires i < |st.tokens| && Step(st, i) == Ok(st') && i < j
    requires j < |st.tokens| ==> st.tokens[j] == Newlines(h) + o
    requires |st.tokens| <= j ==> h == 0 && o == "undefined"
    ensures var h' := h + (if LookAhead(st, i) == Some(j) then 1 else 0);
            && (j < |st'.tokens| ==> st'.tokens[j] == Newlines(h') + o)
            && (|st'.tokens| <= j ==> h' == 0)
  {
    StepMarks(st, i);
    StepLength(st, i);
    StepTokens(st, i);
    MarkCountedOn(st.tokens, st'.tokens, i, LookAhead(st, i), j, h, o);
  }

  /** `MarkCounted` on the two arrays and the look-ahead alone. */
  lemma MarkCountedOn(a: seq<string>, b: seq<string>, i: nat, la: Option<nat>, j: nat, h: nat, o: string)
    requires i < j
    requires la.Some? ==> la.value <= |a|
    requires |b| == |a| + (if la == Some(|a|) then 1 else 0)
    requires forall x :: i < x < |a| ==> b[x] == (if la == Some(x) then "\n" + a[x] else a[x])
    requires |b| > |a| ==> b[|a|] == "\nundefined"
    requires j < |a| ==> a[j] == Newlines(h) + o
    requires |a| <= j ==> h == 0 && o == "undefined"
    ensures var h' := h + (if la == Some(j) then 1 else 0);
            && (j < |b| ==> b[j] == Newlines(h') + o)
            && (|b| <= j ==> h' == 0)
  {
    if j < |a| && la == Some(j) {
      OneMoreNewline(h, o);
    } else if j == |a| && la == Some(j) {
      assert Newlines(1) + o == "\nundefined";
    }
  }

  lemma OneMoreNewline(h: nat, o: string)
    ensures "\n" + (Newlines(h) + o) == Newlines(h + 1) + o
  {
    assert Newlines(h + 1) == "\n" + Newlines(h);
  }

  /** The count of look-aheads naming `j` after one more iteration. */
  lemma HitsNext(tokens: seq<string>, i: nat, st: Placed, j: nat)
    requires PlaceUpTo(tokens, i) == Ok(st)
    ensures Hits(tokens, j, i + 1) ==
              Hits(tokens, j, i) + (if i < |st.tokens| && LookAhead(st, i) == Some(j) then 1 else 0)
  {
    assert Aims(tokens, i, j) <==> i < |st.tokens| && LookAhead(st, i) == Some(j);
  }

  /** `AheadCounted` carried over one iteration, for one index. */
  lemma AheadStepAt(tokens: seq<string>, i: nat, st: Placed, st': Placed, j: nat)
    requires PlaceUpTo(tokens, i) == Ok(st) && i < |st.tokens| && Step(st, i) == Ok(st')
    requires |tokens| <= |st.tokens| && i < j
    requires j < |st.tokens| ==> st.tokens[j] == Newlines(Hits(tokens, j, i)) + Original(tokens, j)
    requires |st.tokens| <= j ==> Hits(tokens, j, i) == 0
    ensures j < |st'.tokens| ==> st'.tokens[j] == Newlines(Hits(tokens, j, i + 1)) + Original(tokens, j)
    ensures |st'.tokens| <= j ==> Hits(tokens, j, i + 1) == 0
  {
    HitsNext(tokens, i, st, j);
    MarkCounted(st, i, st', j, Hits(tokens, j, i), Original(tokens, j));
  }

  lemma AheadStep(tokens: seq<string>, i: nat, st: Placed, st': Placed)
    requires PlaceUpTo(tokens, i) == Ok(st) && PlaceUpTo(tokens, i + 1) == Ok(st')
    requires AheadCounted(tokens, i, st)
    ensures AheadCounted(tokens, i + 1, st')
  {
    if i < |st.tokens| {
      PlaceUpToNext(tokens, i);
      AheadStepRuns(tokens, i, st, st');
    } else {
      AheadStepIdle(tokens, i, st);
    }
  }

  lemma AheadStepRuns(tokens: seq<string>, i: nat, st: Placed, st': Placed)
    requires PlaceUpTo(tokens, i) == Ok(st) && i < |st.tokens| && Step(st, i) == Ok(st')
    requires AheadCounted(tokens, i, st)
    ensures AheadCounted(tokens, i + 1, st')
  {
    var k := i + 1;
    StepLength(st, i);
    forall j: nat | k <= j
      ensures j < |st'.tokens| ==> st'.tokens[j] == Newlines(Hits(tokens, j, k)) + Original(tokens, j)
      ensures |st'.tokens| <= j ==> Hits(tokens, j, k) == 0
    {
      assert j < |st.tokens| ==> st.tokens[j] == Newlines(Hits(tokens, j, i)) + Original(tokens, j);
      assert |st.tokens| <= j ==> Hits(tokens, j, i) == 0;
      AheadStepAt(tokens, i, st, st', j);
    }
  }

  lemma AheadStepIdle(tokens: seq<string>, i: nat, st: Placed)
    requires PlaceUpTo(tokens, i) == Ok(st) && |st.tokens| <= i
    requires AheadCounted(tokens, i, st)
    ensures AheadCounted(tokens, i + 1, st)
  {
    var k := i + 1;
    forall j: nat | k <= j
      ensures Hits(tokens, j, k) == 0
    {
      HitsNext(tokens, i, st, j);
    }
  }

  /** The invariant `AheadCounted` of every state the loop reaches. */
  lemma {:induction false} AheadUpTo(tokens: seq<string>, k: nat)
    requires PlaceUpTo(tokens, k).Ok?
    ensures AheadCounted(tokens, k, PlaceUpTo(tokens, k).value)
  {
    if k == 0 {
      forall j: nat | j < |tokens|
        ensures tokens[j] == Newlines(0) + Original(tokens, j)
      {
        assert Newlines(0) + tokens[j] == tokens[j];
      }
    } else {
      var i := k - 1;
      OkBefore(tokens, i);
      AheadUpTo(tokens, i);
      AheadStep(tokens, i, PlaceUpTo(tokens, i).value, PlaceUpTo(tokens, k).value);
    }
  }

  /** The text a token has when the loop reaches it is its original text
      after exactly one line feed per earlier iteration whose look-ahead
      named it. */
  lemma CurrentTextCounted(tokens: seq<string>, j: nat)
    requires CurrentText(tokens, j).Some?
    ensures CurrentText(tokens, j).value == Newlines(Hits(tokens, j, j)) + Original(tokens, j)
  {
    AheadUpTo(tokens, j);
  }

  /** An index an earlier iteration named has been named at least once. */
  lemma {:induction false} HitsCount(tokens: seq<string>, i: nat, j: nat, k: nat)
    requires Aims(tokens, i, j) && i < k
    ensures Hits(tokens, j, k) >= 1
  {
    if k - 1 > i {
      HitsCount(tokens, i, j, k - 1);
    }
  }

  /** The token at `j` is reached, and with a line feed in front. */
  ghost predicate Hidden(tokens: seq<string>, j: nat)
  {
    CurrentText(tokens, j).Some? && StartsWithNewline(CurrentText(tokens, j).value)
  }

  /** The token an iteration's look-ahead names is reached, when the pass
      completes, with a line feed in front, so it no longer reads as its
      keyword. */
  lemma AimedIsHidden(tokens: seq<string>, i: nat, j: nat)
    requires Place(tokens).Ok? && Aims(tokens, i, j)
    ensures Hidden(tokens, j)
  {
    PlaceUpToNext(tokens, i);
    History(tokens, i + 1, |tokens| + 2);
    AimLandsInside(tokens, i, j, PlaceUpTo(tokens, i).value, PlaceUpTo(tokens, i + 1).value);
    VisitsFinalArray(tokens, j);
    CurrentTextCounted(tokens, j);
    HitsCount(tokens, i, j, j);
    LeadingNewline(Hits(tokens, j, j), Original(tokens, j));
  }

  /** An index a completed iteration names lies after it and inside the
      array that iteration leaves. */
  lemma AimLandsInside(tokens: seq<string>, i: nat, j: nat, st: Placed, st': Placed)
    requires Aims(tokens, i, j) && PlaceUpTo(tokens, i) == Ok(st) && PlaceUpTo(tokens, i + 1) == Ok(st')
    ensures i < j < |st'.tokens|
  {
    PlaceUpToNext(tokens, i);
    StepMarks(st, i);
    StepLength(st, i);
  }

  lemma LeadingNewline(h: nat, o: string)
    requires h >= 1
    ensures StartsWithNewline(Newlines(h) + o)
  {
    assert (Newlines(h) + o)[0] == Newlines(h)[0];
  }

  /** The index the look-ahead of a visited token names, read from the
      token's text; the scan after `transition` finds the same `)`-token as
      over the input. */
  lemma AimsOfText(tokens: seq<string>, i: nat)
    requires CurrentText(tokens, i).Some?
    ensures var t := CurrentText(tokens, i).value;
            && ((t == "with" || t == "=>" || (!IsKeyword(t) && Contains(Rewrite(t), "};"))) ==> Aims(tokens, i, i + 1))
            && (t == "contract" ==> Aims(tokens, i, i + 2))
            && (t == "transition" && FirstParen(tokens, i + 1).Some? ==>
                  Aims(tokens, i, FirstParen(tokens, i + 1).value + 1))
  {
    var st := PlaceUpTo(tokens, i).value;
    PlaceUpToShaped(tokens, i);
    ParenScanSeesOriginal(tokens, i, st, i + 1);
  }

  /** A `transition` the completed pass visits has a `)`-token after it. */
  lemma TransitionFindsParen(tokens: seq<string>, i: nat)
    requires Place(tokens).Ok? && CurrentText(tokens, i) == Some("transition")
    ensures FirstParen(tokens, i + 1).Some?
  {
    var st := PlaceUpTo(tokens, i).value;
    VisitsFinalArray(tokens, i);
    History(tokens, i + 1, |tokens| + 2);
    PlaceUpToNext(tokens, i);
    StepThrows(st, i);
    PlaceUpToShaped(tokens, i);
    ParenScanSeesOriginal(tokens, i, st, i + 1);
  }

  /** Which token each look-ahead hides: the next one after `with`, `=>`
      and a token whose rewrite holds `};`, the second one after
      `contract`, and the one after the first `)`-token after `transition`. */
  lemma LookAheadHides(tokens: seq<string>, i: nat)
    requires Place(tokens).Ok? && CurrentText(tokens, i).Some?
    ensures var t := CurrentText(tokens, i).value;
            && ((t == "with" || t == "=>" || (!IsKeyword(t) && Contains(Rewrite(t), "};"))) ==> Hidden(tokens, i + 1))
            && (t == "contract" ==> Hidden(tokens, i + 2))
            && (t == "transition" ==>
                  FirstParen(tokens, i + 1).Some? && Hidden(tokens, FirstParen(tokens, i + 1).value + 1))
  {
    var t := CurrentText(tokens, i).value;
    AimsOfText(tokens, i);
    if t == "transition" {
      TransitionFindsParen(tokens, i);
      AimedIsHidden(tokens, i, FirstParen(tokens, i + 1).value + 1);
    } else if t == "contract" {
      AimedIsHidden(tokens, i, i + 2);
    } else if t == "with" || t == "=>" || (!IsKeyword(t) && Contains(Rewrite(t), "};")) {
      AimedIsHidden(tokens, i, i + 1);
    }
  }

  /** Iteration `i` runs and its look-ahead lands one past the array's end. */
  ghost predicate RunsOff(tokens: seq<string>, i: nat)
  {
    && PlaceUpTo(tokens, i).Ok?
    && i < |PlaceUpTo(tokens, i).value.tokens|
    && LookAhead(PlaceUpTo(tokens, i).value, i) == Some(|PlaceUpTo(tokens, i).value.tokens|)
  }

  /** How many of the iterations `0 .. k-1` ran off the end. */
  ghost function Overruns(tokens: seq<string>, k: nat): nat
  {
    Count(RunsOffAt(tokens), k)
  }

  ghost function RunsOffAt(tokens: seq<string>): nat -> bool
  {
    (j: nat) => RunsOff(tokens, j)
  }

  lemma LengthStep(tokens: seq<string>, i: nat)
    requires PlaceUpTo(tokens, i + 1).Ok?
    requires PlaceUpTo(tokens, i).Ok?
    requires |PlaceUpTo(tokens, i).value.tokens| == |tokens| + Overruns(tokens, i)
    ensures |PlaceUpTo(tokens, i + 1).value.tokens| == |tokens| + Overruns(tokens, i + 1)
  {
    var st := PlaceUpTo(tokens, i).value;
    if i < |st.tokens| {
      PlaceUpToNext(tokens, i);
      StepLength(st, i);
    } else {
      assert PlaceUpTo(tokens, i + 1) == PlaceUpTo(tokens, i);
    }
  }

  /** The array has grown by one for each iteration that ran off its end. */
  lemma {:induction false} LengthUpTo(tokens: seq<string>, k: nat)
    requires PlaceUpTo(tokens, k).Ok?
    ensures |PlaceUpTo(tokens, k).value.tokens| == |tokens| + Overruns(tokens, k)
  {
    if k > 0 {
      var i := k - 1;
      OkBefore(tokens, i);
      LengthUpTo(tokens, i);
      LengthStep(tokens, i);
      assert i + 1 == k;
    }
  }

  lemma NoOverruns(tokens: seq<string>, k: nat)
    ensures Overruns(tokens, k) == 0 <==> forall j: nat :: j < k ==> !RunsOff(tokens, j)
  {
    var p := RunsOffAt(tokens);
    CountZero(p, k);
    forall j: nat
      ensures p(j) == RunsOff(tokens, j)
    {
    }
  }

  /** The result has exactly as many tokens as the input unless some
      iteration's look-ahead ran off the end of the array, and one more for
      each that did. */
  lemma PlaceLength(tokens: seq<string>)
    requires Place(tokens).Ok?
    ensures |Place(tokens).value.tokens| == |tokens| + Overruns(tokens, |tokens| + 2)
    ensures |Place(tokens).value.tokens| == |tokens| <==>
              forall j: nat :: j < |tokens| + 2 ==> !RunsOff(tokens, j)
  {
    LengthUpTo(tokens, |tokens| + 2);
    NoOverruns(tokens, |tokens| + 2);
  }

  lemma GrownSlot(tokens: seq<string>, j: nat)
    requires Place(tokens).Ok? && |tokens| <= j < |Place(tokens).value.tokens|
    ensures StartsWithNewline(Place(tokens).value.tokens[j])
    ensures NewlinesThen(Place(tokens).value.tokens[j], "undefined ")
  {
    FinalToken(tokens, j);
    var c := CurrentText(tokens, j).value;
    CurrentTextIsOriginal(tokens, j);
    PrefixedTokenIsPlain(c);
    assert Place(tokens).value.tokens[j] == Newlines(|c| - 9) + "undefined ";
  }

  /** The closers are exactly the indices whose token reads `end` when the
      loop reaches it (so not an `end` that an earlier look-ahead prefixed),
      in increasing order. */
  lemma PlaceClosers(tokens: seq<string>)
    requires Place(tokens).Ok?
    ensures forall x: nat :: x in Place(tokens).value.closers <==> CurrentText(tokens, x) == Some("end")
    ensures forall x :: x in Place(tokens).value.closers ==> x < |Place(tokens).value.tokens|
    ensures Increasing(Place(tokens).value.closers)
    ensures |Place(tokens).value.closers| == Tally(tokens, |tokens| + 2, "end")
  {
    ClosersUpTo(tokens, |tokens| + 2);
    forall x: nat | CurrentText(tokens, x).Some?
      ensures x < |tokens| + 2
    {
      VisitsFinalArray(tokens, x);
    }
  }

  /** Every visited `with` is an opener, and so is the first token holding
      `)` after every visited `transition`; there are no other openers, and
      each one is a `with` or holds `)` in the result. */
  lemma PlaceOpeners(tokens: seq<string>)
    requires Place(tokens).Ok?
    ensures Place(tokens).value.openers == OpenersAt(tokens, |tokens| + 2)
    ensures forall i: nat :: CurrentText(tokens, i) == Some("with") ==> i in Place(tokens).value.openers
    ensures forall i: nat :: CurrentText(tokens, i) == Some("transition") ==>
              FirstParen(tokens, i + 1).Some? && FirstParen(tokens, i + 1).value in Place(tokens).value.openers
    ensures |Place(tokens).value.openers| ==
              Tally(tokens, |tokens| + 2, "with") + Tally(tokens, |tokens| + 2, "transition")
    ensures forall x :: x in Place(tokens).value.openers ==>
              x < |Place(tokens).value.tokens| &&
              (Place(tokens).value.tokens[x] == "with" || ')' in Place(tokens).value.tokens[x])
  {
    OpenersUpTo(tokens, |tokens| + 2);
    OpenersListed(tokens, |tokens| + 2);
    forall i: nat | CurrentText(tokens, i).Some?
      ensures i < |tokens| + 2
    {
      VisitsFinalArray(tokens, i);
    }
  }

  /** When the pass throws: at a `transition` with no `)`-token after it, or
      at a `contract` whose look-ahead lands two or more past the array's end. */
  ghost predicate Throws(tokens: seq<string>, i: nat)
  {
    match PlaceUpTo(tokens, i)
    case TypeError => false
    case Ok(st) =>
      && i < |st.tokens|
      && ((st.tokens[i] == "transition" && FirstParen(tokens, i + 1).None?) ||
          (st.tokens[i] == "contract" && i + 2 > |st.tokens|))
  }

  lemma ThrowsAt(tokens: seq<string>, i: nat)
    requires PlaceUpTo(tokens, i).Ok?
    ensures var st := PlaceUpTo(tokens, i).value;
            i < |st.tokens| ==> (Step(st, i).TypeError? <==> Throws(tokens, i))
  {
    var st := PlaceUpTo(tokens, i).value;
    if i < |st.tokens| {
      StepThrows(st, i);
      PlaceUpToShaped(tokens, i);
      ParenScanSeesOriginal(tokens, i, st, i + 1);
      FirstParenFrame(st.tokens[i := Rewrite(st.tokens[i])], st.tokens, i + 1);
    }
  }

  lemma {:induction false} FirstThrow(tokens: seq<string>, k: nat)
    requires PlaceUpTo(tokens, k).TypeError?
    ensures exists i: nat :: i < k && Throws(tokens, i)
  {
    var i := k - 1;
    if PlaceUpTo(tokens, i).TypeError? {
      FirstThrow(tokens, i);
    } else {
      ThrowsAt(tokens, i);
      assert Throws(tokens, i);
    }
  }

  /** The pass throws exactly when some iteration meets one of the two
      throwing cases. */
  lemma PlaceThrowsIff(tokens: seq<string>)
    ensures Place(tokens).TypeError? <==> exists i: nat :: i < |tokens| + 2 && Throws(tokens, i)
  {
    if Place(tokens).TypeError? {
      FirstThrow(tokens, |tokens| + 2);
    }
    if i: nat :| i < |tokens| + 2 && Throws(tokens, i) {
      ThrowsAt(tokens, i);
      ErrorSticks(tokens, i + 1, |tokens| + 2);
    }
  }

  // ---------------------------------------------------------------------
  // The loop

  /** One turn of the loop, as `PlacementLoop` needs it. */
  lemma Advance(tokens: seq<string>, index: nat, st: Placed)
    requires PlaceUpTo(tokens, index) == Ok(st) && index < |st.tokens|
    ensures PlaceUpTo(tokens, index + 1) == Step(st, index)
    ensures index + 1 <= |tokens| + 2
    ensures Step(st, index).Ok? ==> |st.tokens| <= |Step(st, index).value.tokens|
  {
    PlaceUpToNext(tokens, index);
    if Step(st, index).Ok? {
      StepTokens(st, index);
    }
  }

  /** The `for` loop of src/fmt.ts:24-119 on the token array `scillaCode`,
      with the location arrays `transitionWithLocations` and `endLocations`. */
  method PlacementLoop(tokens: seq<string>) returns (r: Run<Placed>)
    ensures r == Place(tokens)
  {
    var st := Placed(tokens, [], []);
    var index := 0;
    while index < |st.tokens|
      invariant index <= |st.tokens| && index <= |tokens| + 2
      invariant PlaceUpTo(tokens, index) == Ok(st)
      decreases |tokens| + 2 - index
    {
      Advance(tokens, index, st);
      var next := PlacementSwitch(st, index);
      if next.TypeError? {
        assert Place(tokens) == TypeError by {
          ErrorSticks(tokens, index + 1, |tokens| + 2);
        }
        return TypeError;
      }
      st := next.value;
      index := index + 1;
    }
    assert Place(tokens) == Ok(st) by {
      Settled(tokens, index, |tokens| + 2);
    }
    r := Ok(st);
  }

  /** One iteration: the `switch` of src/fmt.ts:27-117 on token `index`,
      with the `while` scan for `)` of src/fmt.ts:47-49. */
  method PlacementSwitch(st: Placed, index: nat) returns (r: Run<Placed>)
    requires index < |st.tokens|
    ensures r == Step(st, index)
  {
    var scillaCode, transitionWithLocations, endLocations := st.tokens, st.openers, st.closers;
    match scillaCode[index] {
      case "scilla_version" =>
        scillaCode := scillaCode[index := "scilla_version "];
      case "let" =>
        scillaCode := scillaCode[index := "\nlet "];
      case "fun" =>
        scillaCode := scillaCode[index := "\n\tfun "];
      case "field" =>
        scillaCode := scillaCode[index := "\nfield "];
      case "transition" =>
        scillaCode := scillaCode[index := "\ntransition "];
        var tspan := index + 1;
        while tspan < |scillaCode| && ')' !in scillaCode[tspan]
          invariant index + 1 <= tspan <= |scillaCode|
          invariant FirstParen(scillaCode, index + 1) == FirstParen(scillaCode, tspan)
        {
          tspan := tspan + 1;
        }
        if tspan == |scillaCode| {
          // `scillaCode[tspan]` is undefined: `indexOf` throws
          return TypeError;
        }
        transitionWithLocations := transitionWithLocations + [tspan];
        scillaCode := Grow(scillaCode, tspan + 1);
      case "match" =>
        scillaCode := scillaCode[index := "\nmatch "];
      case "with" =>
        assert scillaCode[index := Rewrite("with")] == scillaCode;
        transitionWithLocations := transitionWithLocations + [index];
        scillaCode := Grow(scillaCode, index + 1);
      case "end" =>
        endLocations := endLocations + [index];
        scillaCode := scillaCode[index := "\nend\n"];
      case "event" =>
        scillaCode := scillaCode[index := "\nevent "];
      case "contract" =>
        scillaCode := scillaCode[index := "\n\ncontract "];
        if index + 2 > |scillaCode| {
          // a hole at `index + 1`, which the next iteration reads as undefined
          return TypeError;
        }
        scillaCode := Grow(scillaCode, index + 2);
      case "library" =>
        scillaCode := scillaCode[index := "\n\nlibrary "];
      case "import" =>
        scillaCode := scillaCode[index := "\n\nimport "];
      case "|" =>
        scillaCode := scillaCode[index := "\n| "];
      case "send" =>
        scillaCode := scillaCode[index := "\nsend "];
      case "builtin" =>
        scillaCode := scillaCode[index := "\n\tbuiltin "];
      case "=>" =>
        assert scillaCode[index := Rewrite("=>")] == scillaCode;
        scillaCode := Grow(scillaCode, index + 1);
      case _ =>
        scillaCode := scillaCode[index := scillaCode[index] + " "];
        if Contains(scillaCode[index], "};") {
          scillaCode := Grow(scillaCode, index + 1);
        }
    }
    r := Ok(Placed(scillaCode, transitionWithLocations, endLocations));
  }
}
