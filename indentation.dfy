/** The indentation pass of src/fmt.ts:123-177: both location lists are
    sorted, the i-th opener is paired with the i-th closer when the lists are
    equally long, and for each pair every token strictly between the two
    whose text starts with a line feed gets a tab after that line feed.
    Pairs that overlap add one tab each. */
module Indentation {
  import opened Text

  // ---------------------------------------------------------------------
  // `sort(function (a, b) { return a - b })`

  predicate Sorted(s: seq<nat>)
  {
    forall a, b :: 0 <= a < b < |s| ==> s[a] <= s[b]
  }

  function Insert(x: nat, s: seq<nat>): (r: seq<nat>)
    ensures |r| == |s| + 1
  {
    if s == [] || x <= s[0] then [x] + s else [s[0]] + Insert(x, s[1..])
  }

  /** Numeric ascending order, as the comparator `a - b` asks for. */
  function SortAscending(s: seq<nat>): (r: seq<nat>)
    ensures |r| == |s|
  {
    if s == [] then [] else Insert(s[0], SortAscending(s[1..]))
  }

  lemma {:induction false} InsertPermutes(x: nat, s: seq<nat>)
    ensures multiset(Insert(x, s)) == multiset{x} + multiset(s)
  {
    if s != [] && x > s[0] {
      InsertPermutes(x, s[1..]);
      assert s == [s[0]] + s[1..];
    }
  }

  lemma SortedCons(a: nat, r: seq<nat>)
    requires Sorted(r) && forall k :: 0 <= k < |r| ==> a <= r[k]
    ensures Sorted([a] + r)
  {
    forall i, j | 0 <= i < j < |[a] + r| ensures ([a] + r)[i] <= ([a] + r)[j] {
      assert ([a] + r)[j] == r[j - 1];
    }
  }

  lemma {:induction false} InsertSorted(x: nat, s: seq<nat>)
    requires Sorted(s)
    ensures Sorted(Insert(x, s))
  {
    if s == [] || x <= s[0] {
      SortedCons(x, s);
    } else {
      var r := Insert(x, s[1..]);
      InsertSorted(x, s[1..]);
      InsertPermutes(x, s[1..]);
      forall k | 0 <= k < |r| ensures s[0] <= r[k] {
        assert r[k] in multiset(r);
        if r[k] != x {
          assert r[k] in multiset(s[1..]);
          var m :| 0 <= m < |s[1..]| && s[1..][m] == r[k];
          assert s[1..][m] == s[m + 1];
        }
      }
      SortedCons(s[0], r);
    }
  }

  /** The sort orders the list and keeps every element as often as before. */
  lemma {:induction false} SortAscendingSorts(s: seq<nat>)
    ensures Sorted(SortAscending(s))
    ensures multiset(SortAscending(s)) == multiset(s)
    ensures |SortAscending(s)| == |s|
  {
    if s != [] {
      SortAscendingSorts(s[1..]);
      InsertSorted(s[0], SortAscending(s[1..]));
      InsertPermutes(s[0], SortAscending(s[1..]));
      assert s == [s[0]] + s[1..];
    }
  }

  // ---------------------------------------------------------------------
  // Pairing

  /** `indentBraces`: the i-th smallest opener with the i-th smallest closer,
      or nothing when the counts differ. */
  function Pairs(openers: seq<nat>, closers: seq<nat>): (r: seq<(nat, nat)>)
  {
    var os, cs := SortAscending(openers), SortAscending(closers);
    if |openers| == |closers| then Zip(os, cs) else []
  }

  function Zip(os: seq<nat>, cs: seq<nat>): (r: seq<(nat, nat)>)
    requires |os| == |cs|
    ensures |r| == |os|
    ensures forall k :: 0 <= k < |r| ==> r[k] == (os[k], cs[k])
  {
    if os == [] then [] else Zip(os[..|os| - 1], cs[..|cs| - 1]) + [(os[|os| - 1], cs[|cs| - 1])]
  }

  /** The openers, and the closers, the pairs are made of. */
  function Firsts(ps: seq<(nat, nat)>): (r: seq<nat>)
    ensures |r| == |ps| && forall k :: 0 <= k < |ps| ==> r[k] == ps[k].0
  {
    seq(|ps|, k requires 0 <= k < |ps| => ps[k].0)
  }

  function Seconds(ps: seq<(nat, nat)>): (r: seq<nat>)
    ensures |r| == |ps| && forall k :: 0 <= k < |ps| ==> r[k] == ps[k].1
  {
    seq(|ps|, k requires 0 <= k < |ps| => ps[k].1)
  }

  /** The pairs match the sorted openers with the sorted closers, one to
      one; there are none when the counts differ. */
  lemma PairsMatchSorted(openers: seq<nat>, closers: seq<nat>)
    ensures |openers| != |closers| ==> Pairs(openers, closers) == []
    ensures |openers| == |closers| ==>
              && Sorted(Firsts(Pairs(openers, closers)))
              && Sorted(Seconds(Pairs(openers, closers)))
              && multiset(Firsts(Pairs(openers, closers))) == multiset(openers)
              && multiset(Seconds(Pairs(openers, closers))) == multiset(closers)
  {
    SortAscendingSorts(openers);
    SortAscendingSorts(closers);
    if |openers| == |closers| {
      var ps := Pairs(openers, closers);
      assert Firsts(ps) == SortAscending(openers);
      assert Seconds(ps) == SortAscending(closers);
    }
  }

  // ---------------------------------------------------------------------
  // Tabs

  function Tabs(m: nat): (r: string)
    ensures |r| == m
    ensures forall k :: 0 <= k < m ==> r[k] == '\t'
  {
    if m == 0 then "" else "\t" + Tabs(m - 1)
  }

  /** One pair's effect on one token inside it:
      `"\n\t" + t.substring(t.length, 1)` when `t` starts with a line feed. */
  function TabOnce(t: string): string
  {
    if StartsWithNewline(t) then "\n\t" + t[1..] else t
  }

  /** A token after `m` pairs have covered it. */
  function Tabbed(t: string, m: nat): (r: string)
  {
    if StartsWithNewline(t) then "\n" + Tabs(m) + t[1..] else t
  }

  lemma TabOnceTabbed(t: string, m: nat)
    ensures TabOnce(Tabbed(t, m)) == Tabbed(t, m + 1)
  {
    if StartsWithNewline(t) {
      assert ("\n" + Tabs(m) + t[1..])[1..] == Tabs(m) + t[1..];
      assert "\t" + Tabs(m) == Tabs(m + 1);
    }
  }

  /** The number of pairs that enclose index `j` strictly. */
  function Cover(pairs: seq<(nat, nat)>, j: nat): nat
  {
    if pairs == [] then 0
    else
      var p := pairs[|pairs| - 1];
      Cover(pairs[..|pairs| - 1], j) + (if p.0 < j < p.1 then 1 else 0)
  }

  /** An index is covered by a pair exactly when some pair encloses it, and
      a pair whose closer comes at most one after its opener covers nothing. */
  lemma {:induction false} CoverCountsEnclosing(pairs: seq<(nat, nat)>, j: nat)
    ensures Cover(pairs, j) > 0 <==> exists k :: 0 <= k < |pairs| && pairs[k].0 < j < pairs[k].1
    ensures Cover(pairs, j) <= |pairs|
  {
    if pairs != [] {
      var init := pairs[..|pairs| - 1];
      CoverCountsEnclosing(init, j);
      if Cover(init, j) > 0 {
        var k :| 0 <= k < |init| && init[k].0 < j < init[k].1;
        assert pairs[k] == init[k];
      }
      if exists k :: 0 <= k < |pairs| && pairs[k].0 < j < pairs[k].1 {
        var k :| 0 <= k < |pairs| && pairs[k].0 < j < pairs[k].1;
        if k < |init| {
          assert init[k] == pairs[k];
        }
      }
    }
  }

  /** The tokens after tabbing between every pair, each pair in turn. */
  function TabbedAll(tokens: seq<string>, pairs: seq<(nat, nat)>): (r: seq<string>)
    ensures |r| == |tokens|
  {
    seq(|tokens|, j requires 0 <= j < |tokens| => Tabbed(tokens[j], Cover(pairs, j)))
  }

  /** The whole pass on the token array. */
  function Indented(tokens: seq<string>, openers: seq<nat>, closers: seq<nat>): (r: seq<string>)
    ensures |r| == |tokens|
  {
    TabbedAll(tokens, Pairs(openers, closers))
  }

  /** A token that does not start with a line feed, or that no pair
      covers, keeps its text; otherwise the line feed is followed by one tab
      per covering pair and the rest of the text is kept. */
  lemma TabbedEffect(t: string, m: nat)
    ensures !StartsWithNewline(t) || m == 0 ==> Tabbed(t, m) == t
    ensures StartsWithNewline(t) ==>
              && |Tabbed(t, m)| == |t| + m
              && StartsWithNewline(Tabbed(t, m))
              && Tabbed(t, m)[1 + m..] == t[1..]
              && forall k :: 1 <= k <= m ==> Tabbed(t, m)[k] == '\t'
  {
    if StartsWithNewline(t) {
      var r := Tabbed(t, m);
      assert r == "\n" + Tabs(m) + t[1..];
      if m == 0 {
        assert r == "\n" + t[1..];
        assert t == [t[0]] + t[1..];
      }
      forall k | 1 <= k <= m ensures r[k] == '\t' {
        assert r[k] == Tabs(m)[k - 1];
      }
    }
  }

  /** What the pass does to the array: a token is left alone unless it
      starts with a line feed and lies strictly inside some pair; then it
      gets one tab per enclosing pair. When the counts differ nothing
      changes at all. */
  lemma IndentedEffect(tokens: seq<string>, openers: seq<nat>, closers: seq<nat>)
    ensures var r, ps := Indented(tokens, openers, closers), Pairs(openers, closers);
            && (|openers| != |closers| ==> r == tokens)
            && (forall j :: (0 <= j < |tokens| &&
                  !(exists k :: 0 <= k < |ps| && ps[k].0 < j < ps[k].1)) ==> r[j] == tokens[j])
            && (forall j :: 0 <= j < |tokens| ==> r[j] == Tabbed(tokens[j], Cover(ps, j)))
  {
    var r, ps := Indented(tokens, openers, closers), Pairs(openers, closers);
    PairsMatchSorted(openers, closers);
    forall j | 0 <= j < |tokens|
      ensures !(exists k :: 0 <= k < |ps| && ps[k].0 < j < ps[k].1) ==> r[j] == tokens[j]
    {
      CoverCountsEnclosing(ps, j);
      TabbedEffect(tokens[j], Cover(ps, j));
    }
  }

  // ---------------------------------------------------------------------
  // The loops

  /** The `while` loop of one `case` (src/fmt.ts:153-160 and 164-170): every
      token from `twTerminal + 1` to `endTerminal - 1` that starts with a line
      feed gets a tab after it. */
  method TabBetween(scillaCode: seq<string>, twTerminal: nat, endTerminal: nat) returns (r: seq<string>)
    requires endTerminal <= |scillaCode|
    ensures |r| == |scillaCode|
    ensures forall j :: 0 <= j < |r| ==>
              r[j] == if twTerminal < j < endTerminal then TabOnce(scillaCode[j]) else scillaCode[j]
  {
    r := scillaCode;
    var k := twTerminal + 1;
    while k < endTerminal
      invariant |r| == |scillaCode|
      invariant forall j :: 0 <= j < |r| ==>
                  r[j] == if twTerminal < j < endTerminal && j < k then TabOnce(scillaCode[j]) else scillaCode[j]
    {
      if StartsWithNewline(r[k]) {
        r := r[k := "\n\t" + r[k][1..]];
      }
      k := k + 1;
    }
  }

  /** The token an opener points at, during the pass: a `with`, or a token
      holding `)`, as the placement pass leaves it. */
  predicate Qualifies(t: string)
  {
    t == "with" || ')' in t
  }

  lemma TabbedQualifies(t: string, m: nat)
    requires Qualifies(t)
    ensures Qualifies(Tabbed(t, m))
  {
    if StartsWithNewline(t) {
      assert t != "with";
      var k :| 0 <= k < |t| && t[k] == ')';
      assert Tabbed(t, m)[k + m] == ')';
    }
  }

  /** Every pair points into the array, and its opener at a token that
      qualifies. */
  lemma PairsInRange(tokens: seq<string>, openers: seq<nat>, closers: seq<nat>)
    requires forall x :: x in openers ==> x < |tokens| && Qualifies(tokens[x])
    requires forall x :: x in closers ==> x < |tokens|
    ensures forall k :: 0 <= k < |Pairs(openers, closers)| ==>
              var p := Pairs(openers, closers)[k];
              p.0 < |tokens| && Qualifies(tokens[p.0]) && p.1 < |tokens|
  {
    var ps := Pairs(openers, closers);
    SortAscendingSorts(openers);
    SortAscendingSorts(closers);
    forall k | 0 <= k < |ps|
      ensures ps[k].0 < |tokens| && Qualifies(tokens[ps[k].0]) && ps[k].1 < |tokens|
    {
      var os, cs := SortAscending(openers), SortAscending(closers);
      assert ps[k] == (os[k], cs[k]);
      assert os[k] in multiset(os);
      assert os[k] in openers;
      assert cs[k] in multiset(cs);
      assert cs[k] in closers;
    }
  }

  /** The `for` loop of src/fmt.ts:129-131 that builds `indentBraces`. */
  method PairUp(transitionWithLocations: seq<nat>, endLocations: seq<nat>) returns (indentBraces: seq<(nat, nat)>)
    ensures indentBraces == if |transitionWithLocations| == |endLocations|
                            then Zip(transitionWithLocations, endLocations) else []
  {
    indentBraces := [];
    if |transitionWithLocations| == |endLocations| {
      var indentPairs := 0;
      while indentPairs < |transitionWithLocations|
        invariant indentPairs <= |transitionWithLocations|
        invariant indentBraces == Zip(transitionWithLocations[..indentPairs], endLocations[..indentPairs])
      {
        indentBraces := indentBraces + [(transitionWithLocations[indentPairs], endLocations[indentPairs])];
        indentPairs := indentPairs + 1;
        assert transitionWithLocations[..indentPairs][..indentPairs - 1] == transitionWithLocations[..indentPairs - 1];
        assert endLocations[..indentPairs][..indentPairs - 1] == endLocations[..indentPairs - 1];
      }
      assert transitionWithLocations[..indentPairs] == transitionWithLocations;
      assert endLocations[..indentPairs] == endLocations;
    }
  }

  /** Tabbing between one more pair moves the closed form on by that pair. */
  lemma TabbedAllNext(tokens: seq<string>, pairs: seq<(nat, nat)>, b: nat, s: seq<string>)
    requires b < |pairs| && |s| == |tokens|
    requires forall j :: 0 <= j < |s| ==>
               s[j] == if pairs[b].0 < j < pairs[b].1 then TabOnce(TabbedAll(tokens, pairs[..b])[j])
                       else TabbedAll(tokens, pairs[..b])[j]
    ensures s == TabbedAll(tokens, pairs[..b + 1])
  {
    forall j | 0 <= j < |tokens| ensures s[j] == TabbedAll(tokens, pairs[..b + 1])[j] {
      assert pairs[..b + 1][..b] == pairs[..b];
      TabOnceTabbed(tokens[j], Cover(pairs[..b], j));
    }
  }

  /** The opener of the next pair still qualifies after the earlier pairs'
      tabs. */
  lemma OpenerQualifies(tokens: seq<string>, pairs: seq<(nat, nat)>, b: nat)
    requires b < |pairs|
    requires forall k :: 0 <= k < |pairs| ==>
               pairs[k].0 < |tokens| && Qualifies(tokens[pairs[k].0]) && pairs[k].1 < |tokens|
    ensures pairs[b].0 < |tokens| && pairs[b].1 < |tokens|
    ensures Qualifies(TabbedAll(tokens, pairs[..b])[pairs[b].0])
  {
    TabbedQualifies(tokens[pairs[b].0], Cover(pairs[..b], pairs[b].0));
  }

  lemma TabbedAllNone(tokens: seq<string>)
    ensures TabbedAll(tokens, []) == tokens
  {
    forall j | 0 <= j < |tokens| ensures TabbedAll(tokens, [])[j] == tokens[j] {
      TabbedEffect(tokens[j], 0);
    }
  }

  /** src/fmt.ts:123-177 on the token array and the two location lists. */
  method Indent(tokens: seq<string>, openers: seq<nat>, closers: seq<nat>) returns (scillaCode: seq<string>)
    requires forall x :: x in openers ==> x < |tokens| && Qualifies(tokens[x])
    requires forall x :: x in closers ==> x < |tokens|
    ensures scillaCode == Indented(tokens, openers, closers)
  {
    var transitionWithLocations := SortAscending(openers);
    var endLocations := SortAscending(closers);
    var indentBraces := PairUp(transitionWithLocations, endLocations);
    assert indentBraces == Pairs(openers, closers);
    PairsInRange(tokens, openers, closers);

    scillaCode := tokens;
    TabbedAllNone(tokens);
    assert indentBraces[..0] == [];
    // declared with `var` in the source, so it keeps its value from one
    // pair to the next
    var indentationType: Option<string> := None;
    var bracesList := 0;
    while bracesList < |indentBraces|
      invariant bracesList <= |indentBraces|
      invariant scillaCode == TabbedAll(tokens, indentBraces[..bracesList])
    {
      var twTerminal := indentBraces[bracesList].0;
      var endTerminal := indentBraces[bracesList].1;
      OpenerQualifies(tokens, indentBraces, bracesList);
      if scillaCode[twTerminal] == "with" {
        indentationType := Some("with");
      }
      if ')' in scillaCode[twTerminal] {
        indentationType := Some("transition");
      }
      assert indentationType == Some("with") || indentationType == Some("transition");
      match indentationType {
        case Some("with") =>
          scillaCode := TabBetween(scillaCode, twTerminal, endTerminal);
        case Some("transition") =>
          scillaCode := TabBetween(scillaCode, twTerminal, endTerminal);
        case _ =>
      }
      TabbedAllNext(tokens, indentBraces, bracesList, scillaCode);
      bracesList := bracesList + 1;
    }
    assert indentBraces[..bracesList] == indentBraces;
  }
}
