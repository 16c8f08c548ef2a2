/** Putting the comments back and assembling the text, src/fmt.ts:179-204:
    every comment gets a line feed in front, the tokens holding the
    placeholder are listed left to right, the k-th of them is overwritten by
    the k-th comment, and the tokens are concatenated. */
module Reinsertion {
  import opened Text
  import Comments

  predicate HoldsPlaceholder(t: string)
  {
    Contains(t, Comments.Placeholder)
  }

  /** `commentLocations` after scanning the tokens `ts`. */
  function Locations(ts: seq<string>): (r: seq<nat>)
    ensures forall k :: 0 <= k < |r| ==> r[k] < |ts|
  {
    if ts == [] then []
    else Locations(ts[..|ts| - 1]) + (if HoldsPlaceholder(ts[|ts| - 1]) then [|ts| - 1] else [])
  }

  /** The locations are exactly the tokens holding the placeholder, left to
      right. */
  lemma {:induction false} LocationsAreHolders(ts: seq<string>)
    ensures forall x: nat :: x in Locations(ts) <==> x < |ts| && HoldsPlaceholder(ts[x])
    ensures forall a, b :: 0 <= a < b < |Locations(ts)| ==> Locations(ts)[a] < Locations(ts)[b]
    ensures |Locations(ts)| <= |ts|
  {
    if ts != [] {
      var init := ts[..|ts| - 1];
      LocationsAreHolders(init);
      forall x: nat | x < |init| ensures ts[x] == init[x] { }
      forall a | 0 <= a < |Locations(init)| ensures Locations(init)[a] < |ts| - 1 { }
    }
  }

  /** How many tokens before `j` hold the placeholder. */
  function Rank(ts: seq<string>, j: nat): nat
    requires j <= |ts|
  {
    |Locations(ts[..j])|
  }

  lemma {:induction false} LocationsPrefix(ts: seq<string>, j: nat)
    requires j <= |ts|
    ensures Locations(ts[..j]) <= Locations(ts)
    decreases |ts| - j
  {
    if j < |ts| {
      LocationsPrefix(ts, j + 1);
      assert ts[..j + 1][..j] == ts[..j];
    } else {
      assert ts[..j] == ts;
    }
  }

  /** The token at the k-th location has rank k, and a token holding the
      placeholder sits at the location its rank names. */
  lemma LocationRank(ts: seq<string>, j: nat)
    requires j < |ts| && HoldsPlaceholder(ts[j])
    ensures Rank(ts, j) < |Locations(ts)| && Locations(ts)[Rank(ts, j)] == j
  {
    LocationsPrefix(ts, j + 1);
    assert ts[..j + 1][..j] == ts[..j];
    assert Locations(ts[..j + 1]) == Locations(ts[..j]) + [j];
  }

  lemma LocationHasRank(ts: seq<string>, k: nat)
    requires k < |Locations(ts)|
    ensures HoldsPlaceholder(ts[Locations(ts)[k]]) && Rank(ts, Locations(ts)[k]) == k
  {
    var locs := Locations(ts);
    LocationsAreHolders(ts);
    assert locs[k] in locs;
    LocationRank(ts, locs[k]);
  }

  /** The k-th comment, line feed in front, where the k-th placeholder token
      was; when there are fewer placeholder tokens than comments the extra
      comments are written to `scillaCode[undefined]`, outside the array. */
  function Reinserted(ts: seq<string>, comments: seq<string>): (r: seq<string>)
    ensures |r| == |ts|
  {
    seq(|ts|, j requires 0 <= j < |ts| =>
      if HoldsPlaceholder(ts[j]) && Rank(ts, j) < |comments| then "\n" + comments[Rank(ts, j)] else ts[j])
  }

  /** The k-th placeholder token, for every k below both counts, is replaced
      by the k-th comment with a line feed in front; every other token keeps
      its text. */
  lemma ReinsertedEffect(ts: seq<string>, comments: seq<string>)
    ensures var r, locs := Reinserted(ts, comments), Locations(ts);
            && (forall k :: 0 <= k < |locs| && k < |comments| ==> r[locs[k]] == "\n" + comments[k])
            && (forall j :: 0 <= j < |ts| && !(exists k :: 0 <= k < |locs| && k < |comments| && locs[k] == j) ==>
                  r[j] == ts[j])
  {
    var r, locs := Reinserted(ts, comments), Locations(ts);
    forall k | 0 <= k < |locs| && k < |comments| ensures r[locs[k]] == "\n" + comments[k] {
      LocationHasRank(ts, k);
    }
    forall j | 0 <= j < |ts| && HoldsPlaceholder(ts[j]) && Rank(ts, j) < |comments|
      ensures exists k :: 0 <= k < |locs| && k < |comments| && locs[k] == j
    {
      LocationRank(ts, j);
    }
  }

  /** src/fmt.ts:179-181: a line feed in front of every comment. */
  method PrefixComments(comments: seq<string>) returns (lines: seq<string>)
    ensures |lines| == |comments|
    ensures forall k :: 0 <= k < |lines| ==> lines[k] == "\n" + comments[k]
  {
    lines := comments;
    var index := 0;
    while index < |lines|
      invariant index <= |lines| == |comments|
      invariant forall k :: 0 <= k < |lines| ==> lines[k] == if k < index then "\n" + comments[k] else comments[k]
    {
      lines := lines[index := "\n" + lines[index]];
      index := index + 1;
    }
  }

  /** src/fmt.ts:184-190: the indices of the tokens holding the placeholder. */
  method ScanLocations(tokens: seq<string>) returns (commentLocations: seq<nat>)
    ensures commentLocations == Locations(tokens)
  {
    commentLocations := [];
    var clIteration := 0;
    while clIteration < |tokens|
      invariant clIteration <= |tokens|
      invariant commentLocations == Locations(tokens[..clIteration])
    {
      if HoldsPlaceholder(tokens[clIteration]) {
        commentLocations := commentLocations + [clIteration];
      }
      clIteration := clIteration + 1;
      assert tokens[..clIteration][..clIteration - 1] == tokens[..clIteration - 1];
    }
    assert tokens[..clIteration] == tokens;
  }

  /** The three loops of src/fmt.ts:179-196. */
  method Reinsert(tokens: seq<string>, comments: seq<string>) returns (scillaCode: seq<string>)
    ensures scillaCode == Reinserted(tokens, comments)
  {
    var lines := PrefixComments(comments);
    var commentLocations := ScanLocations(tokens);
    scillaCode := tokens;
    var index := 0;
    while index < |lines|
      invariant index <= |lines|
      invariant |scillaCode| == |tokens|
      invariant forall j :: 0 <= j < |tokens| ==>
                  scillaCode[j] == if HoldsPlaceholder(tokens[j]) && Rank(tokens, j) < index
                                   then "\n" + comments[Rank(tokens, j)] else tokens[j]
    {
      if index < |commentLocations| {
        var j := commentLocations[index];
        LocationHasRank(tokens, index);
        scillaCode := scillaCode[j := lines[index]];
        forall j' | 0 <= j' < |tokens| && HoldsPlaceholder(tokens[j']) && Rank(tokens, j') == index
          ensures j' == j
        {
          LocationRank(tokens, j');
        }
      } else {
        // `scillaCode[undefined] = ...` sets a property outside the array
        forall j' | 0 <= j' < |tokens| && HoldsPlaceholder(tokens[j'])
          ensures Rank(tokens, j') < index
        {
          LocationRank(tokens, j');
        }
      }
      index := index + 1;
    }
  }

  /** The `concat` loop of src/fmt.ts:198-202. */
  method Assemble(scillaCode: seq<string>) returns (formattedString: string)
    ensures formattedString == Concat(scillaCode)
  {
    formattedString := "";
    var index := 0;
    while index < |scillaCode|
      invariant index <= |scillaCode|
      invariant formattedString == Concat(scillaCode[..index])
    {
      formattedString := formattedString + scillaCode[index];
      index := index + 1;
      assert scillaCode[..index][..index - 1] == scillaCode[..index - 1];
    }
    assert scillaCode[..index] == scillaCode;
  }
}
