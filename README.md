# Colour-name quiz: a Dafny model

This project models the quiz logic behind a Japanese colour-name quiz page. The page's script is
`assets/js/app.js`. The model covers:

- **Catalogue loading** (module `Catalog`). CSV rows arrive as header-to-cell maps. `mapKey` looks up a field
  under the first header alias the row has. Each row is normalised into an item: its cells are trimmed, its
  colour value is parsed and its description is cut into sentences. Rows without a name are dropped, and when
  names repeat only the first row is kept. Loading fails when no item is left.
- **Colour values** (module `Rgb`). `toInt` and `parseRGB` accept `#RRGGBB` / `RRGGBB` hex, or three numbers
  separated by runs of commas, whitespace or slashes. Anything else gives no value. The module adds hex and
  decimal formatters as the inverse direction, for round-trip lemmas.
- **Sentences** (module `Sentences`). `splitSentencesJa` collapses whitespace runs to one space, trims, cuts
  after each of the marks `。．！？!?`, and keeps at most five trimmed non-empty parts. It has a 34-character
  chunking fallback, which the model proves can never run.
- **Whitespace** (module `Text`). ECMAScript's whitespace class, `trim`, the `replace(/\s+/g, ' ')` collapse,
  `join`, and the `map(trim)` / `filter(Boolean)` steps.
- **Random selection** (module `Sampling`). `shuffle` is a Fisher–Yates shuffle on an array copy of its input.
  `pickN` filters out excluded values, shuffles and keeps a prefix. `Math.random` becomes a nondeterministic
  choice of the swap index, so every property holds for every possible random outcome.
- **The quiz session** (module `Quiz`). The class `Session` holds the page's module-level state:
  - `QUESTION_ORDER`, `questionPtr` and `exhausted`;
  - `current`, `qCount` and `correctCount`;
  - `ALL_ITEMS`, fixed once loaded.

  Its methods are `initQuestionOrder`, `makeQuestion`, the submit handler and the next handler. `Bootstrap`
  loads the rows, builds the first question order and asks the first question.

At app.js:174 the choices are drawn with `pickN(names, 3, …)`, but `names` is not defined anywhere in the
script. As written, the first `makeQuestion` call (app.js:337) would throw a `ReferenceError`. By then
app.js:335-336 have hidden the loader and shown the quiz. The catch at app.js:339-341 writes its message into
the hidden loader, so the user sees an empty quiz and no error. The model takes `names` to be the list of names of `ALL_ITEMS`
(`Catalog.Names(items)`), evidently what was meant. With fewer than four names, fewer than three wrong names
are offered.

## Model

| member | source | states |
|---|---|---|
| `Text.IsSpace` | assets/js/app.js:73 | the definition of ECMAScript's `\s` class: tab to carriage return, space, no-break space, U+1680, U+2000..U+200A, the line and paragraph separators, U+202F, U+205F, U+3000 and the byte-order mark; the lemmas on `Trim` and `Collapse` are stated over it |
| `Text.Trim` | assets/js/app.js:51 | `trim` leaves neither end as whitespace, never lengthens, and leaves already-trimmed text alone |
| `Text.TrimSlice` | assets/js/app.js:51 | `trim` returns a contiguous slice of its input, and everything before and after that slice is whitespace |
| `Text.TrimStartAppend` | assets/js/app.js:73 | removing leading whitespace from `a + b`, where `a` ends in non-whitespace, only touches `a` |
| `Text.TrimKeepsText` | assets/js/app.js:133-138 | trimming removes only whitespace: the non-whitespace characters are kept, in order |
| `Text.TrimEmpty` | assets/js/app.js:74 | `trim` gives the empty string exactly on all-whitespace text |
| `Text.Collapse` | assets/js/app.js:73 | the collapse is empty exactly when the input is, and starts with whitespace exactly when the input does |
| `Text.CollapseShape` | assets/js/app.js:73 | after the collapse every whitespace character is a plain space, and no two whitespace characters are adjacent |
| `Text.CollapseRun` | assets/js/app.js:73 | a non-empty run of whitespace collapses to a single `' '` |
| `Text.CollapseAppend` | assets/js/app.js:73 | across a cut after non-whitespace, or at the very start, the collapse of `a + b` is the collapse of `a` followed by the collapse of `b` |
| `Text.CollapseKeepsText` | assets/js/app.js:73 | the collapse keeps every non-whitespace character, in order |
| `Text.Join` | assets/js/app.js:170-171 | joining a single sentence gives that sentence; joining two gives the first, the separator and the second |
| `Text.TrimAll` | assets/js/app.js:76 | `map(t => t.trim())` keeps the number of pieces and trims each one in place |
| `Text.DropEmpty` | assets/js/app.js:76 | `filter(Boolean)` keeps exactly the non-empty strings and never lengthens the list |
| `Text.DropEmptyCounts` | assets/js/app.js:76 | `filter(Boolean)` keeps every non-empty string exactly as often as it occurs |
| `Text.DropEmptyAppend` | assets/js/app.js:76 | the filter works piecewise: filtering `a + b` gives the filtered `a` followed by the filtered `b` |
| `Text.DropEmptyConcat` | assets/js/app.js:76 | dropping empty strings does not change the pieces glued together |
| `Text.DropEmptyKeeps` | assets/js/app.js:59 | a list without empty strings passes `filter(Boolean)` unchanged |
| `Text.TrimAllKeepsText` | assets/js/app.js:76 | trimming every piece keeps the glued text modulo whitespace |
| `Rgb.IsHexColor` | assets/js/app.js:54 | the definition of `/^#?[0-9a-f]{6}$/i`: six hex digits of either case, with an optional leading `#`; `SeparatorNotHex`, `HexTextParses` and `HexRoundTrip` are stated over it |
| `Rgb.HexByte` | assets/js/app.js:56 | `parseInt` of two hex digits is at most 255 |
| `Rgb.SplitSeparators` | assets/js/app.js:59 | `split(/[,\s/]+/)` yields at least one piece |
| `Rgb.SplitSeparatorsShape` | assets/js/app.js:59 | no piece of the split holds a separator, and only the first and last piece can be empty |
| `Rgb.Tokens` | assets/js/app.js:59 | the definition of `s.split(/[,\s/]+/).map(trim).filter(Boolean)` as `DropEmpty(TrimAll(SplitSeparators(s)))`; characterised by `TokensShape`, `WordTokens` and `JoinedTokens` |
| `Rgb.TokensShape` | assets/js/app.js:59 | every token after `map(trim).filter(Boolean)` is non-empty and separator-free |
| `Rgb.NoSeparatorTrimmed` | assets/js/app.js:59 | pieces without separators are already trimmed, so the `trim` step changes nothing |
| `Rgb.ToInt` | assets/js/app.js:48 | only a non-empty token without separators can denote a number |
| `Rgb.ShowIntRoundTrip` | assets/js/app.js:48 | every integer written in decimal is read back as that integer |
| `Rgb.ParseHex` | assets/js/app.js:55-56 | the three values read from six hex digits each lie in 0..255 |
| `Rgb.ParseTokens` | assets/js/app.js:60-63 | a colour comes back exactly when there are three tokens and all are numbers, and it holds those numbers in order |
| `Rgb.ParseRGB` | assets/js/app.js:49-64 | empty input gives no value; text that trims to the hex pattern gives a byte colour; other text gives the result of the token path on the trimmed text |
| `Rgb.HexTextParses` | assets/js/app.js:51-56 | text that passes the hex test is read as hex |
| `Rgb.HexDigitsRoundTrip` | assets/js/app.js:55-56 | the hex reading of a colour's `RRGGBB` / `#RRGGBB` spelling is that colour |
| `Rgb.HexRoundTrip` | assets/js/app.js:49-57 | `parseRGB` of any `RRGGBB` / `#RRGGBB` spelling of a byte colour returns that colour |
| `Rgb.SplitWord` | assets/js/app.js:59 | a separator-free word splits into itself |
| `Rgb.SplitWordSep` | assets/js/app.js:59 | a word, a separator run and the rest split into the word followed by the pieces of the rest |
| `Rgb.JoinedPieces` | assets/js/app.js:59 | three words joined by separator runs split into exactly those words |
| `Rgb.WordTokens` | assets/js/app.js:59 | when the split already yields non-empty words, those words are the tokens |
| `Rgb.JoinedTokens` | assets/js/app.js:59 | three words joined by separator runs tokenise into exactly those words |
| `Rgb.SeparatorNotHex` | assets/js/app.js:54 | text holding a comma, slash or whitespace fails the hex test |
| `Rgb.DelimitedText` | assets/js/app.js:51-59 | trimmed text with a separator in it goes down the token path |
| `Rgb.NumbersParse` | assets/js/app.js:60-62 | three decimal numbers as tokens parse to those numbers |
| `Rgb.DelimitedRoundTrip` | assets/js/app.js:58-63 | `"R<sep>G<sep>B"` with decimal numbers and any separator runs parses back to `(R, G, B)` |
| `Sentences.Pieces` | assets/js/app.js:76 | the lookbehind split yields at least one piece |
| `Sentences.PiecesConcat` | assets/js/app.js:76 | the pieces glue back to the text they were cut from |
| `Sentences.PiecesCuts` | assets/js/app.js:76 | on non-empty text no piece is empty, every piece but the last ends with a mark, and no piece holds a mark before its end |
| `Sentences.PiecesSpec` | assets/js/app.js:76 | the split is the text cut exactly after each mark |
| `Sentences.Parts` | assets/js/app.js:76 | the definition of `parts` as `DropEmpty(TrimAll(Pieces(s)))`; characterised by `PartShape`, `PartCuts`, `PartsKeepText` and `FallbackUnreachable` |
| `Sentences.PartShape` | assets/js/app.js:76 | every part is non-empty and trimmed |
| `Sentences.PiecesSurviveTrim` | assets/js/app.js:76 | on trimmed non-empty text every piece survives trimming, so `filter(Boolean)` drops nothing |
| `Sentences.FallbackUnreachable` | assets/js/app.js:76-78 | trimmed non-empty text always has a part, so `parts.length === 0` never holds |
| `Sentences.Chunks` | assets/js/app.js:79-85 | the definition of the fallback's chunks: up to `k` times, cut off the first `min(34, length)` characters while text is left; characterised by `ChunksSpec` and `ChunksExact` |
| `Sentences.ChunksSpec` | assets/js/app.js:78-85 | the fallback yields at most five non-empty chunks of at most 34 characters; glued together they are a prefix of the text, and all of it when it fits |
| `Sentences.ChunksExact` | assets/js/app.js:81-84 | every chunk but the last has exactly 34 characters; glued together the chunks are exactly the first `min(length, 34 k)` characters; there are exactly `k` chunks when the text is that long |
| `Sentences.ChunkFallback` | assets/js/app.js:79-85 | the `while` loop over `buf` builds exactly the chunks `ChunksSpec` describes |
| `Sentences.SplitSentences` | assets/js/app.js:71-74 | the definition: empty text gives no sentences, any other text gives `SentencesOf` its collapsed and trimmed form; characterised by the `SplitSentences*` lemmas below |
| `Sentences.SentencesOf` | assets/js/app.js:74-87 | the definition on normalised text: empty gives none, otherwise the fallback chunks when there are no parts and the first five parts when there are; characterised by the `SentencesOf*` lemmas below |
| `Sentences.SplitSentencesJa` | assets/js/app.js:71-88 | the method computes `SplitSentences`; it runs the `ChunkFallback` loop in the branch `FallbackUnreachable` proves dead |
| `Sentences.NormalisedText` | assets/js/app.js:73-74 | the collapsed and trimmed text keeps the input's non-whitespace characters, and is empty exactly when the input is all whitespace |
| `Sentences.NormalSentences` | assets/js/app.js:76-87 | the sentences of non-empty normalised text are its first five parts, and there is at least one part |
| `Sentences.SplitSentencesParts` | assets/js/app.js:72-87 | on text with a non-whitespace character the result is the first five parts of the normalised text |
| `Sentences.SentencesOfEmpty` | assets/js/app.js:74-87 | normalised text has no sentences exactly when it is empty |
| `Sentences.SplitSentencesBlank` | assets/js/app.js:72-74 | the result is empty exactly when the text is empty or all whitespace |
| `Sentences.SentencesOfShape` | assets/js/app.js:76-87 | normalised text yields at most five sentences, each non-empty and trimmed |
| `Sentences.SplitSentencesShape` | assets/js/app.js:71-88 | at most five sentences, each non-empty and trimmed |
| `Sentences.PartsKeepText` | assets/js/app.js:76 | the parts glued together are the text modulo whitespace |
| `Sentences.TakeKeepsPrefix` | assets/js/app.js:87 | keeping the first parts keeps a prefix of the text modulo whitespace |
| `Sentences.SentencesOfOrder` | assets/js/app.js:76-87 | the sentences of normalised text, glued together, are a prefix of it modulo whitespace, and all of it when fewer than five come back |
| `Sentences.SplitSentencesOrder` | assets/js/app.js:71-88 | the sentences keep their original order: glued together they are a prefix of the input modulo whitespace, and all of it when fewer than five come back |
| `Sentences.PartCuts` | assets/js/app.js:76 | every part but the last ends with a mark, and no part holds a mark before its last character |
| `Sentences.SentencesOfMarks` | assets/js/app.js:76-87 | the sentences of normalised text are cut exactly after the marks |
| `Sentences.SplitSentencesMarks` | assets/js/app.js:71-88 | every sentence but the last ends with a mark, and no sentence holds a mark before its last character |
| `Sentences.CollapseNoSpace` | assets/js/app.js:73 | text without whitespace passes the collapse unchanged |
| `Sentences.NormaliseNoSpace` | assets/js/app.js:73 | text without whitespace is its own collapsed and trimmed form |
| `Sentences.PiecesAfterWord` | assets/js/app.js:76 | a mark-free word in front of text joins the first piece of that text |
| `Sentences.TwoSentencesPieces` | assets/js/app.js:76 | two plain sentences, each closed by a mark, split into those two pieces |
| `Sentences.TwoSentencesParts` | assets/js/app.js:76 | the parts of two plain sentences, each closed by a mark, are those two sentences |
| `Sentences.SentencesOfParts` | assets/js/app.js:87 | with one to five parts, `slice(0, 5)` keeps them all |
| `Sentences.SplitSpaceless` | assets/js/app.js:71-88 | text without whitespace and with at most five parts splits into exactly its parts |
| `Sentences.SplitTwoSentences` | assets/js/app.js:71-88 | two plain sentences, each closed by a mark, come back as exactly those two sentences |
| `Sentences.SplitRedFlower` | assets/js/app.js:71-88 | `"赤い花。美しい。"` splits into `["赤い花。", "美しい。"]` |
| `Sampling.Filter` | assets/js/app.js:45 | the filter never lengthens the list; it drops every excluded value and keeps every other value as often as it occurs |
| `Sampling.FilterOne` | assets/js/app.js:174 | excluding a name that occurs once leaves one value fewer |
| `Sampling.Shuffle` | assets/js/app.js:36-43 | whatever indices are drawn, the result is a permutation of the input: same length and same multiset |
| `Sampling.PickN` | assets/js/app.js:44-47 | `min(n, pool size)` values, drawn without reuse from the non-excluded values (a sub-multiset of them and of the input); none is excluded; all of the pool when `n` covers it |
| `Sampling.Range` | assets/js/app.js:91 | `[...Array(n).keys()]` lists `0 .. n-1` in order |
| `Sampling.PermutationIndices` | assets/js/app.js:91 | a shuffled index list has length `n`, holds exactly the indices below `n`, and none twice |
| `Catalog.MapKey` | assets/js/app.js:113-119 | the value under the first alias the row has, or `""` when it has none |
| `Catalog.Build` | assets/js/app.js:129-140 | the definition of the object literal: name, family, Munsell, PCCS and description trimmed, the colour from `parseRGB`, the sentences from `splitSentencesJa` of the description cell; characterised by `BuildFields` |
| `Catalog.Normalize` | assets/js/app.js:122-140 | the definition of the row mapping: `Build` applied to the six cells `mapKey` finds under their alias lists; characterised by `NormalizeName` and, through `Build`, `BuildFields` |
| `Catalog.BuildFields` | assets/js/app.js:129-140 | every text field (name, family, Munsell, PCCS, description) is trimmed and keeps its cell's non-whitespace characters; the name is empty exactly when its cell is blank; the sentences are at most five trimmed non-empty strings, none exactly when the description is blank |
| `Catalog.NormalizeName` | assets/js/app.js:122-141 | a normalised row's name is trimmed, and empty exactly when its name cell is blank or missing |
| `Catalog.NormalizeAll` | assets/js/app.js:122-140 | one item per row, in row order |
| `Catalog.Names` | assets/js/app.js:174 | the list of item names, one per item, in order |
| `Catalog.WithName` | assets/js/app.js:141 | an item appears after the name filter exactly when it appears before and has a non-empty name |
| `Catalog.WithNameCounts` | assets/js/app.js:141 | the name filter keeps every named item exactly as often as it occurs; with `WithNameOrder` this fixes the filter's result |
| `Catalog.WithNameOrder` | assets/js/app.js:141 | the name filter keeps the relative order of the items it keeps |
| `Catalog.WithNameFirst` | assets/js/app.js:141 | for a non-empty name, the name filter leaves the first item of that name unchanged |
| `Catalog.FirstPos` | assets/js/app.js:144-150 | the reference for the order of first occurrences: the position of the first item with a name, before which no item has it, or the length when none has it |
| `Catalog.WithNameRank` | assets/js/app.js:141 | between two non-empty names, the name filter keeps which one occurs first |
| `Catalog.FirstNamed` | assets/js/app.js:144-150 | the reference for which duplicate survives: the first item with a given name, absent exactly when no item has it |
| `Catalog.KeepFirst` | assets/js/app.js:144-150 | the definition of the `seen`-set filter on values: an item whose name is in `seen` is dropped, any other is kept and its name added; characterised by the `KeepFirst*` lemmas below |
| `Catalog.KeepFirstFrom` | assets/js/app.js:144-150 | every item kept by de-duplication comes from the input and has a name not yet seen |
| `Catalog.KeepFirstOrder` | assets/js/app.js:144-150 | the kept items are the input with some items dropped; as values, so the order between identical repeated items is fixed by `KeepFirstRank` |
| `Catalog.KeepFirstRank` | assets/js/app.js:144-150 | the items kept by de-duplication come in the order in which their names first occur in the input |
| `Catalog.KeepFirstDistinct` | assets/js/app.js:144-150 | after de-duplication no name occurs twice |
| `Catalog.KeepFirstCovers` | assets/js/app.js:144-150 | every name that occurs and is not yet seen survives de-duplication |
| `Catalog.KeepFirstFirst` | assets/js/app.js:144-150 | every survivor is the first item carrying its name |
| `Catalog.Dedup` | assets/js/app.js:143-150 | the `seen`-set loop keeps exactly the first item of each name |
| `Catalog.Survivors` | assets/js/app.js:122-150 | the definition of `ALL_ITEMS` after both filters: `KeepFirst` of the normalised rows that have a name; characterised by `SurvivorsEmpty`, `SurvivorsFirst` and `LoadedShape` |
| `Catalog.BlankRowsVanish` | assets/js/app.js:141-154 | when every name cell is blank or missing, nothing survives |
| `Catalog.NamedRowSurvives` | assets/js/app.js:141-150 | a row with a name leaves an item of that name among the survivors |
| `Catalog.SurvivorsEmpty` | assets/js/app.js:141-154 | nothing survives exactly when every row's name cell is blank or missing |
| `Catalog.SurvivorsFirst` | assets/js/app.js:141-150 | each survivor has a non-empty trimmed name and is the first normalised row of that name |
| `Catalog.SurvivorsRank` | assets/js/app.js:141-150 | the survivors come in the order in which their names first occur among the normalised rows |
| `Catalog.LoadedShape` | assets/js/app.js:122-154 | the survivors: empty exactly when no row has a name; names pairwise distinct, non-empty and trimmed; every named row's name among them; each the first item of its name; a subsequence of the rows, ordered by the first occurrence of their names |
| `Catalog.Load` | assets/js/app.js:122-154 | loading fails exactly when no row has a name; otherwise it yields the survivors, with all the properties of `LoadedShape` |
| `Quiz.Selected` | assets/js/app.js:305-306 | the definition of a truthy answer: a selection is present and non-empty, the negation of the `!ans` guard; `Submit` and the scenario methods are stated over it |
| `Quiz.StemPool` | assets/js/app.js:169 | the pool holds one to five strings, taken from the item's sentences, or the description when there are none |
| `Quiz.PickStem` | assets/js/app.js:170 | two sentences drawn from the pool without reuse, or the only one |
| `Quiz.DummiesMakeChoices` | assets/js/app.js:173-175 | the answer plus up to three other distinct names, in any order, hold the answer once, no name twice, only catalogue names, and `1 + min(3, names - 1)` entries, at most four |
| `Quiz.Ask` | assets/js/app.js:166-177 | the question is about the item, expects its name, offers well-formed choices, and shows a stem joined from sentences drawn from its pool |
| `Quiz.SmallCatalogueOffersAll` | assets/js/app.js:173-175 | with at most four names, every name is offered once |
| `Quiz.TwoColourChoices` | assets/js/app.js:173-175 | every question on a two-colour catalogue offers both names and expects one of them |
| `Quiz.Session.constructor` | assets/js/app.js:8-18 | the page state once the items are loaded: no order yet, pointer 0, not exhausted, no question, counters 0 |
| `Quiz.Session.InitQuestionOrder` | assets/js/app.js:90-94 | the order becomes a permutation of all item indices, the pointer 0, `exhausted` false |
| `Quiz.Session.MakeQuestion` | assets/js/app.js:158-178 | past the end it only sets `exhausted`, keeping the pointer and question; otherwise the pointer moves by exactly one and the new well-formed question is about the item under the old pointer |
| `Quiz.Session.Submit` | assets/js/app.js:304-317 | with no selection nothing changes; otherwise `qCount` goes up by one, and `correctCount` by one exactly when the selection equals the expected name |
| `Quiz.Session.Next` | assets/js/app.js:319-328 | once exhausted it reshuffles and asks the first item of the new order; otherwise it keeps the order and asks the next item, or becomes exhausted |
| `Quiz.Start` | assets/js/app.js:333-337 | a new session with a shuffled order, pointer 1, counters 0, and a question about the first item of the order |
| `Quiz.Bootstrap` | assets/js/app.js:331-343 | fails exactly when no row has a name; otherwise a new session on the survivors, with the first question asked |
| `Quiz.SingleColourAnswers` | assets/js/app.js:304-312 | on a one-colour catalogue a missing selection scores nothing and the colour's name scores a right answer |
| `Quiz.SingleColourRestart` | assets/js/app.js:319-325 | on a one-colour catalogue the next click ends the round and the one after restarts it with the same colour |
| `Quiz.TwoColourRound` | assets/js/app.js:304-312 | on a two-colour catalogue both names are offered, and picking the wrong one counts one answer and no right one |

Every session method also preserves `Session.Valid`, which says:

- the order is a permutation of the item indices;
- the pointer is within the order;
- once a question has been asked, `current` is a well-formed question about the item under `ptr - 1`;
- `correctCount <= qCount`.

## Left out

- CSV reading: `Papa.parse`, the network download and the `await` loop of `loadAll` are not modelled. The rows
  are a given sequence of header-to-cell maps.
- `row[k] !== undefined` is modelled as "the key is present": a present key always has a string cell.
- DOM work is not modelled: `renderQuestion`, `renderResult`, `itemCardHtml`, `rgbCss`, `findItemByName`,
  `getSelectedAnswer`, `alert`, `console.log` / `console.error` and `sleep`. The selected answer is an
  `Option<string>` parameter of `Submit`.
- `Math.random` is a nondeterministic choice of the swap index. The model does not describe the probability
  distribution.
- `Rgb.ToInt`: `Number()` is modelled only on decimal integers with an optional sign. Everything else gives no
  value, where JavaScript's `Number` would give a finite number: fractions, exponents and `0x` literals. So
  `ParseRGB` gives no colour for `1.5,2,3`, `1e2 0 0` or `0x10 0 0`, where app.js:60-62 would return one.
  `Infinity` gives no value in both, because app.js:48 rejects it with `Number.isFinite`. JavaScript float
  parsing is out of scope.
- `Rgb.ParseRGB`: decimal values are not range-checked, which matches the source.
- `Sentences.SplitSentencesJa`: the fallback's `slice(0, 34)` counts UTF-16 code units. The model counts
  characters, which differ only outside the Basic Multilingual Plane. The fallback cannot run anyway.
- `Sampling.Shuffle`: it takes and returns a sequence. It copies into a fresh array, so it cannot alias the
  caller's list, and in-place aliasing is not modelled.
- `Quiz.Session.Submit`: it requires a current question whenever an answer is selected. The source would throw
  a `TypeError` on a null `current`, which the page never allows because the submit button only appears under
  a question.
- `Quiz.Bootstrap`: the try/catch of the async `bootstrap` is not modelled. Only the empty-catalogue error of
  `loadAll` is modelled, as `Failure(NoValidRows)`. The `ReferenceError` from the undefined `names` is not
  modelled, because `names` is taken to be the catalogue's names.
- `Quiz.Session.constructor`: it models the state right after loading. `Bootstrap` builds the first question
  order straight away, so the handlers never see the empty initial `QUESTION_ORDER`.
