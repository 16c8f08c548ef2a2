# A Dafny model of the Scilla source formatter

`ScillaCode` (src/fmt.ts) takes the text of a Scilla contract and returns the
pair `[text, "success" | "fail"]`. It works in five phases, and the model has
one module per phase plus the composition:

| module | file | phase |
|---|---|---|
| `Text` | text.dfy | shared: JavaScript whitespace and line terminators, `indexOf`, concatenation, the `Run` outcome (a value, or the `TypeError` JavaScript throws) |
| `Comments` | comments.dfy | the comment regular expression `/([\(\*].*(?:\*\)))/g`, used by `match` to collect the comments and by `replace` to put `scilla-comment-placeholder` in their stead |
| `Tokenize` | tokenize.dfy | `match(/\S+/g)`: the maximal runs of non-whitespace |
| `Placement` | placement.dfy | the `for` loop with its `switch` on each token's current text: rewrites, line feeds put in front of tokens further ahead, block openers (`with`, and the first `)`-token after `transition`) and closers (`end`) |
| `Indentation` | indentation.dfy | sorting both location lists, pairing them, and one tab after the leading line feed of every token strictly inside each pair |
| `Reinsertion` | reinsertion.dfy | the k-th placeholder token overwritten by the k-th comment, and the concatenation of the tokens |
| `Placeholders` | placeholders.dfy | how the placeholders left by the comment substitution survive tokenising, placement and indentation |
| `Formatter` | formatter.dfy | the whole function and what its result means |
| `Scenarios` | scenarios.dfy | particular inputs worked through the model |

Each loop of the source is a method with its loop invariants, proved equal to a
function that states the phase's result in closed form. The token array is a
local `seq<string>` that the methods update by index; JavaScript's growth of
an array written one past its end, and the hole left by a write two past its
end, are modelled explicitly. The pure closed forms
(`Placement.Place`, `Indentation.Indented`, `Reinsertion.Reinserted`,
`Formatter.Format`) are what the lemmas are about.

The model follows the code as written, including where its behaviour differs
from what a formatter would be expected to do:

- `scilla_version 0 contract Foo transition Bar (x : Uint32) end` is reported
  as `"fail"`. The `contract` rule puts a line feed in front of the token two
  ahead, which is `transition`. That token then no longer reads
  `transition`, so it opens nothing, while the `end` closes
  (`Scenarios.ContractHidesTransition`).
- `transition Bar (x : Uint32) end end` is reported as `"success"`. The
  `transition` rule puts a line feed in front of the first `end`, so only the
  second `end` is counted (`Scenarios.ExtraEndSucceeds`).
- Empty or blank text throws. `match(/\S+/g)` gives `null`, and the first
  iteration calls `concat` on it (`Scenarios.EmptyThrows`, `Formatter.ThrowsIff`).
  So does a `transition` with no `)`-token after it (`Scenarios.NoParenThrows`).
- On `"fail"` the text returned is the input with every comment replaced by
  the placeholder, not the input itself. The two are the same exactly when
  the input holds no comment (`Formatter.FailReturnsSubstituted`).
- Pairs that overlap add up: a token inside two pairs gets two tabs
  (`Indentation.IndentedEffect`).
- Input that itself holds the text `scilla-comment-placeholder` gives more
  placeholder tokens than comments. For `(* a *)` followed by a line feed and
  `scilla-comment-placeholder`, the first token receives the comment and the
  second keeps the placeholder text. When no comment matches, the comment
  list holds `null`, and a token holding the placeholder text is overwritten
  by `"\nnull"`. The model keeps both: the list is `["null"]`
  (`Comments.ExtractedComments`), and the counts are equal, with every
  placeholder token filled, only for input without the placeholder text
  (`Formatter.SuccessFillsEveryPlaceholder`).

## Model

| member | source | states |
|---|---|---|
| `Comments.MatchAtIsGreedyMatch` | src/fmt.ts:10 | a comment match starts at `(` or `*`, ends with `*)`, crosses no line terminator, and is the longest such text from its start; where none exists there is no match |
| `Comments.Matches` | src/fmt.ts:10 | the comments `match` collects, left to right, each the greedy match of the regular expression (properties in `MatchAtIsGreedyMatch`, `MatchesAreComments` and `RenderOriginal`) |
| `Comments.Substitute` | src/fmt.ts:20 | the text `replace` gives, each comment replaced by `scilla-comment-placeholder` (properties in `RenderOriginal`, `SubstituteUnchangedIffNoComments` and `SubstituteBlankIffBlank`) |
| `Comments.ExtractedComments` | src/fmt.ts:10 | `[].concat` of the match result: the comments, or the single entry `null` when there is none |
| `Comments.MatchesAreComments` | src/fmt.ts:10 | every extracted comment is one line that opens with `(` or `*` and closes with `*)` |
| `Comments.RenderOriginal` | src/fmt.ts:10-20 | writing each comment back where its placeholder stands gives the input again: nothing is lost, and the comments are in order |
| `Comments.SubstituteUnchangedIffNoComments` | src/fmt.ts:20 | replacing the comments changes the text exactly when there is a comment |
| `Comments.SubstituteBlankIffBlank` | src/fmt.ts:20-22 | the substituted text is blank exactly when the input is |
| `Comments.NoStarNoComment` | src/fmt.ts:10-20 | text without `*` holds no comment and is not changed |
| `Tokenize.TokensAreTokens` | src/fmt.ts:22 | every token is non-empty and holds no whitespace |
| `Tokenize.TokensKeepText` | src/fmt.ts:22 | the tokens, concatenated, are the text with its whitespace removed |
| `Tokenize.NoTokensIffBlank` | src/fmt.ts:22 | there is no token exactly when the text is blank |
| `Tokenize.TokensOfJoined` | src/fmt.ts:22 | tokens joined by single spaces split back into the same tokens |
| `Tokenize.Tokens` | src/fmt.ts:22 | the maximal runs of non-whitespace in order (properties in `TokensAreTokens`, `TokensKeepText`, `TokensOfSpaced`) |
| `Tokenize.TokensSplit` | src/fmt.ts:22 | a whitespace character splits the text: the tokens of both sides, concatenated |
| `Tokenize.TokensOfSpaced` | src/fmt.ts:22 | tokens laid out with any blank text before, between and after them, non-empty between, read back as exactly those tokens: the tokens are the maximal non-whitespace runs |
| `Placement.FirstParen` | src/fmt.ts:46-49 | the scan after `transition` finds the first token at or after its start that holds `)`, or reports that none does |
| `Placement.Rewrite` | src/fmt.ts:28-116 | the text each `case` gives the token it is on; the `default` appends one space (properties in `PrefixedTokenIsPlain`, `StepEffect`) |
| `Placement.Step` | src/fmt.ts:27-117 | one iteration of the `switch` on the current array (properties in `StepEffect`, `StepLength`) |
| `Placement.Place` | src/fmt.ts:24-119 | the whole `for` loop over the growing array (properties in `PlaceGrowth`, `PlaceOpeners`, `PlaceClosers`, `PlaceLength`, `PlaceThrowsIff`) |
| `Placement.StepLength` | src/fmt.ts:27-117 | an iteration grows the array, by exactly one, exactly when its look-ahead lands on the array's length |
| `Placement.StepMarks` | src/fmt.ts:50-114 | one iteration puts a line feed in front of exactly the later token its look-ahead names and changes no other later token |
| `Placement.OpenersListed` | src/fmt.ts:44-65 | after any number of iterations the openers are exactly those the iterations recorded, in the order they ran: the `)`-token after a `transition`, the index of a `with` |
| `Placement.PlaceLength` | src/fmt.ts:24-119 | the result has one token more than the input for each iteration whose look-ahead ran one past the array's end, and exactly as many as the input when no iteration did |
| `Placement.PlacementSwitch` | src/fmt.ts:27-117 | one iteration of the `switch`, including the `while` scan for `)`, computes `Step` |
| `Placement.PlacementLoop` | src/fmt.ts:24-119 | the `for` loop computes `Place`: the result of every iteration up to the array's end, or the `TypeError` one of them throws |
| `Placement.StepEffect` | src/fmt.ts:27-117 | one iteration: the token gets its rewrite; earlier tokens stay as they are; the later token the look-ahead names (`LookAhead`: the next after `with`, `=>` or a token whose rewrite holds `};`, the second after `contract`, the one after the first `)`-token after `transition`) gains a leading line feed and every other later token is unchanged; the look-ahead never lands past the array's end when the iteration completes; the array grows by one slot reading `"\nundefined"` exactly when the look-ahead lands on its end; `end` adds its index to the closers; `with` adds its own index to the openers, and `transition` the index of its first `)`-token; the iteration throws only for a `transition` with no `)`-token after it or a `contract` two or more from the end |
| `Placement.PrefixedTokenIsPlain` | src/fmt.ts:107-108 | a token that gained a line feed matches no `case` and takes the default rewrite, one trailing space |
| `Placement.ParenScanSeesOriginal` | src/fmt.ts:47-49 | the scan for `)` over the current array finds what it would over the input tokens |
| `Placement.PlaceUpToShaped` | src/fmt.ts:24-119 | at every index the loop reaches, the array has grown by at most two, and every token not yet visited is its input text with line feeds in front |
| `Placement.History` | src/fmt.ts:24-119 | visited tokens are final, the array only grows, and both location lists only get longer |
| `Placement.VisitsFinalArray` | src/fmt.ts:24 | the loop visits exactly the indices of the final array |
| `Placement.PlaceRewritesEachToken` | src/fmt.ts:27-117 | every token of the result is the rewrite of the text the token had when the loop reached it |
| `Placement.CurrentTextIsOriginal` | src/fmt.ts:50-114 | the text a token has when the loop reaches it is its input text after zero or more line feeds; a slot the array grew by reads `undefined` after at least one |
| `Placement.CurrentTextCounted` | src/fmt.ts:24-119 | the text a token has when the loop reaches it is its input text (`undefined` for a grown slot) after exactly one line feed per earlier iteration whose look-ahead named it |
| `Placement.AimedIsHidden` | src/fmt.ts:24-119 | in a completed pass, the token any look-ahead names is reached with a line feed in front |
| `Placement.LookAheadHides` | src/fmt.ts:50-114 | in a completed pass, the token after a visited `with`, `=>` or token whose rewrite holds `};`, the second token after a visited `contract`, and the token after the first `)`-token after a visited `transition` are reached with a line feed in front, so none of them reads as a keyword |
| `Placement.PlaceGrowth` | src/fmt.ts:50-114 | the result holds the input's tokens and at most two more, each reading `undefined ` after line feeds |
| `Placement.PlaceClosers` | src/fmt.ts:67-70 | the closers are exactly the indices whose token read `end` when the loop reached it, in increasing order, one per such token |
| `Placement.PlaceOpeners` | src/fmt.ts:44-65 | the openers are exactly, and in visiting order, the index of every `with` the loop reaches and the first `)`-token after every `transition` it reaches; every `with` the loop reaches is an opener, and so is the first `)`-token after every `transition` it reaches; there is one opener per such token; every opener points at `with` or at a token holding `)` |
| `Placement.PlaceThrowsIff` | src/fmt.ts:47-108 | the pass throws exactly when some iteration meets a `transition` with no `)`-token after it, or a `contract` whose look-ahead lands two or more past the array's end |
| `Indentation.SortAscendingSorts` | src/fmt.ts:124-125 | the sort orders the list numerically and keeps every element as often as before |
| `Indentation.SortAscending` | src/fmt.ts:124-125 | `sort((a, b) => a - b)`: keeps the length (ordering and permutation in `SortAscendingSorts`) |
| `Indentation.Pairs` | src/fmt.ts:124-131 | the pairs the pairing loop builds from the sorted lists (properties in `PairUp`, `PairsMatchSorted`) |
| `Indentation.PairUp` | src/fmt.ts:127-131 | the pairing loop pairs the i-th opener with the i-th closer, and builds no pair when the counts differ |
| `Indentation.PairsMatchSorted` | src/fmt.ts:124-135 | the first components of the pairs are the openers in ascending order and the second components the closers in ascending order, each value kept as often as before; there are no pairs when the counts differ |
| `Indentation.TabBetween` | src/fmt.ts:153-160 | every token strictly between the pair's two indices that starts with a line feed gets one tab after it; every other token is left as it is |
| `Indentation.TabOnceTabbed` | src/fmt.ts:156-158 | tabbing a token covered by m pairs gives the token covered by m + 1 pairs |
| `Indentation.TabbedEffect` | src/fmt.ts:156-158 | a token that does not start with a line feed, or that no pair covers, is unchanged; otherwise it keeps its length plus one tab per covering pair, and its text after the tabs |
| `Indentation.CoverCountsEnclosing` | src/fmt.ts:137-171 | a token is covered exactly when some pair encloses it strictly; a pair whose closer is at most one after its opener covers nothing |
| `Indentation.TabbedQualifies` | src/fmt.ts:143-149 | tabbing keeps an opener a `with` or a token holding `)`, so `indentationType` is always set |
| `Indentation.IndentedEffect` | src/fmt.ts:123-177 | unequal counts change nothing; a token outside every pair is unchanged; every token gets one tab per pair enclosing it |
| `Indentation.Indented` | src/fmt.ts:123-177 | the token array after the indentation pass: same length (per-token effect in `IndentedEffect`) |
| `Indentation.Indent` | src/fmt.ts:123-177 | the sorting, the pairing loop and the tab loops compute `Indented` |
| `Reinsertion.LocationsAreHolders` | src/fmt.ts:184-190 | the comment locations are exactly the tokens holding the placeholder, in increasing order |
| `Reinsertion.Locations` | src/fmt.ts:184-190 | the indices of the placeholder tokens, each inside the array (exactness in `LocationsAreHolders`) |
| `Reinsertion.LocationRank` | src/fmt.ts:184-190 | a token holding the placeholder sits at the location its rank among such tokens names |
| `Reinsertion.ReinsertedEffect` | src/fmt.ts:192-196 | for every k below both counts, the k-th placeholder token becomes the k-th comment after a line feed; every other token is unchanged |
| `Reinsertion.Reinserted` | src/fmt.ts:192-196 | the token array after the comments are written back: same length (per-token effect in `ReinsertedEffect`) |
| `Reinsertion.PrefixComments` | src/fmt.ts:180-182 | every comment gets a line feed in front |
| `Reinsertion.ScanLocations` | src/fmt.ts:184-190 | the scan lists the placeholder tokens |
| `Reinsertion.Reinsert` | src/fmt.ts:179-196 | the three loops compute `Reinserted` |
| `Reinsertion.Assemble` | src/fmt.ts:198-202 | the output is the tokens concatenated in order, with no separator |
| `Text.ConcatContainsEach` | src/fmt.ts:198-202 | each token stands in the concatenation, after the tokens before it |
| `Placeholders.PlaceholderTokens` | src/fmt.ts:10-22 | the substituted text has at least as many placeholder tokens as the input has comments: a comment runs to the end of its line, so the line terminator after it separates its placeholder from what follows |
| `Placeholders.PlacementKeepsPlaceholder` | src/fmt.ts:27-117 | a token holding the placeholder still holds it after the placement pass |
| `Placeholders.PlacementKeepsCount` | src/fmt.ts:24-119 | the placement pass loses no placeholder token |
| `Placeholders.TabbedKeepsPlaceholder` | src/fmt.ts:156-158 | tabbing keeps the placeholder in a token |
| `Placeholders.IndentationKeepsCount` | src/fmt.ts:123-177 | the indentation pass loses no placeholder token |
| `Placeholders.PlaceholderTokensExact` | src/fmt.ts:10-22 | when the input does not itself hold the placeholder text, the substituted text has exactly one placeholder token per comment |
| `Placeholders.CommentFromInput` | src/fmt.ts:10 | every comment the regular expression matches is a slice of the input, so the input holds whatever a comment holds |
| `Placeholders.PlacementAddsNoPlaceholder` | src/fmt.ts:27-117 | a token of the placement pass's result holds the placeholder only if the input token at the same index holds it; the grown `undefined` slots and the keyword rewrites hold none |
| `Placeholders.PlacementCountExact` | src/fmt.ts:24-119 | the placement pass keeps the number of placeholder tokens |
| `Placeholders.TabbedAddsNoPlaceholder` | src/fmt.ts:156-158 | tabbing puts no placeholder into a token |
| `Placeholders.IndentationCountExact` | src/fmt.ts:123-177 | the indentation pass keeps the number of placeholder tokens |
| `Formatter.ScillaCode` | src/fmt.ts:1-211 | the function computes `Format`: its phases one after the other |
| `Formatter.Format` | src/fmt.ts:1-211 | the composition of the phases: the `TypeError` of blank text or of the placement pass, else the reinserted text with `"success"` or the substituted text with `"fail"` (properties in the lemmas below) |
| `Formatter.StatusIffBalanced` | src/fmt.ts:126-209 | the result is `"success"` exactly when the openers met equal the closers met, counting only tokens that still read as their keyword when the loop reached them |
| `Formatter.FailReturnsSubstituted` | src/fmt.ts:204-209 | on `"fail"` the text is the input with the comments replaced by the placeholder, and equals the input exactly when there is no comment |
| `Formatter.ThrowsIff` | src/fmt.ts:22-108 | the function throws exactly for blank text, a `transition` with no `)`-token after it, or a `contract` whose look-ahead lands two or more past the end |
| `Formatter.SuccessPlacesComments` | src/fmt.ts:179-204 | on `"success"` the text is the indented tokens with the comments back, concatenated; when the input holds comments there are at least as many placeholder tokens as comments; the k-th comment stands in it, after a line feed, where the k-th placeholder token stood |
| `Formatter.SuccessFillsEveryPlaceholder` | src/fmt.ts:179-204 | on `"success"`, for input that does not itself hold the placeholder text, there are exactly as many placeholder tokens as comments and no token of the output still holds the placeholder |
| `Formatter.SuccessKeepsEveryComment` | src/fmt.ts:179-204 | on `"success"` every comment of the input stands in the output with a line feed in front |
| `Formatter.SuccessTokenCount` | src/fmt.ts:22-114 | the result has one token per whitespace-separated run of the substituted text, plus one reading `undefined ` for each iteration whose look-ahead ran one past the array's end, at most two; with no such iteration the counts agree |
| `Scenarios.EmptyThrows` | src/fmt.ts:22-108 | empty text throws |
| `Scenarios.ContractHidesTransition` | src/fmt.ts:44-209 | `scilla_version 0 contract Foo transition Bar (x : Uint32) end` is returned unchanged with `"fail"` |
| `Scenarios.ExtraEndSucceeds` | src/fmt.ts:44-209 | `transition Bar (x : Uint32) end end` is reported as `"success"` |
| `Scenarios.NoParenThrows` | src/fmt.ts:44-49 | `transition Foo end` throws |

## Left out

- Text is a sequence of Unicode code points. JavaScript strings are UTF-16
  code units, so characters outside the Basic Multilingual Plane are counted
  differently; the formatter's output does not depend on that count.
- The regular-expression calls `match` and `replace` are library calls. The
  model gives their results as functions (`Comments.Matches`,
  `Comments.Substitute`, `Tokenize.Tokens`) proved against the regular
  expression's meaning, not as a regular-expression engine.
- `Array.prototype.sort` is a library call. The model gives it as an insertion
  sort (`Indentation.SortAscending`), proved to order the list and keep its
  elements. Any correct numeric sort gives the same list.
- A look-ahead that writes two past the array's end leaves a hole. The next
  iteration reads the hole as `undefined` and throws. The model throws at the
  write itself. Nothing observable happens in between.
- `scillaCode[commentLocations[index]] = …` with no location left writes a
  property named `undefined`. That property is not an array element, so the
  model leaves it out.
- `ScillaTokensWithComments`, `matchLocations` and the `console.log` call
  (src/fmt.ts:3-5, 15, 57, 134) do not affect the result and are not modelled.
- src/extension.ts, src/remoteDebugging.ts and src/localDebugging.ts (VS Code
  providers, a remote HTTP service and a local shell command) are not part of
  this model.
- Indentation.Indent: requires every opener to point at a `with` or a token
  holding `)`, which `Placement.PlaceOpeners` proves of every result of the
  placement pass. Under that requirement the `default:` branch
  (src/fmt.ts:174-175) and the carry-over of `indentationType` from an
  earlier pair cannot happen.
- Formatter.SuccessPlacesComments: states only that there are at least as
  many placeholder tokens as comments, because input that itself holds the
  placeholder text has more (src/fmt.ts:10, 192-196); the exact count, for
  input without that text, is `Formatter.SuccessFillsEveryPlaceholder`.
