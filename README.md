# Markov text engine of discord-bot-markov-v2, in Dafny

This project models the text engine of the Discord Markov bot, and the
string helpers and character classes it is built on.

`MarkovGeneratorModel` keeps one store, `ngramMap`. It maps each literal
n-gram (n tokens joined with single spaces) to the words seen after it.
- `feed` tokenizes a line and records, for every window of `n` tokens
  that has a next token, that token under the window's n-gram, unless it
  is already listed there.
- `generate` takes a snapshot of the keys (`ngramValues`) and builds its
  output in two phases.
  - A seeded search walks the windows of the search term. A cold start
    instead picks one whole key.
  - A continuation loop then repeatedly picks an unused key whose cleaned
    form equals that of the current n-gram. It appends one of that key's
    words and removes the key from the snapshot.

The project has four modules, one per file:

- `Regex` (`regex.dfy`): the three global patterns of `src/utils/regex.ts`
  as character predicates. There are lemmas that pin down each class and
  the overlaps between them.
- `Helpers` (`helpers.dfy`): `tokenize`, `clean`, `getNthWord`,
  `getNLastItems`, `randomChoice`, `randomKeyFromMap`,
  `randomChoiceFromMap` and `removeArrayItemIfPresent`. The JavaScript
  runtime behaviour they rely on is written out: `split`, `join`, `trim`,
  `slice`, `splice`, `indexOf`, `filter`, `startsWith` and `replace` with
  a character class.
  - The counter loops over the map keys are methods with loop invariants.
  - The in-place splice is a method on a `StringList` object.
  - Each operation has a reference or an inverse:
    - `CollapseWhitespace` for `tokenize`;
    - `Join` for `split`;
    - `RemoveFirst` for the splice;
    - the two branches of `clean`.
- `NgramStore` (`ngram_store.dfy`): the store as a value (`OrderedMap`,
  whose keys keep their insertion order), with reference definitions:
  - `Fed` for what `feed` makes of it;
  - `SearchOutput` for the search phase;
  - `Continued` for what the continuation loop guarantees.
  The properties of these definitions are proved here.
- `Markov` (`markov.dfy`): the class `MarkovGeneratorModel`. Its fields
  `ngramMap` and `ngramKeys` are updated in place. Its methods are proved
  against the `NgramStore` definitions.

The model follows the code wherever the code and its documentation
disagree:
- The store has one level, and `feed` has no strict mode.
- `.splice(maxWordCount)` keeps the search tokens from index
  `maxWordCount` on.
- The `!array` tests never fire, and `exact || similar` always picks the
  exact list, since arrays are truthy.
- A search window with no exact match makes `generate` throw.
  `randomChoice([])` is `undefined`, and `tokenize` rejects it.
- A cold start on an empty store throws unless the continuation loop has
  no room to run.
- After a seeded search the continuation starts from `currentNgram = ''`.

`Math.random()` is handled in two ways:
- In the helpers it is a parameter `r` with `0 <= r < 1`.
- In `generate`, each draw is a nondeterministic choice of an index into
  the list drawn from. `Helpers.RandomIndexReachable` shows that every
  index is reachable that way.

`Generate` has no `modifies` clause, so it cannot change `ngramMap` or
`ngramKeys`. Only the snapshot `ngramValues`, a fresh `StringList`, loses
keys.

## Model

| member | source | states |
|---|---|---|
| Regex.IsPunctuation | src/utils/regex.ts:1 | `matchPunctuation`: the two Unicode blocks U+2000–U+206F and U+2E00–U+2E7F, and the ASCII codes 33–47, 58–64, 91–96 and 123–126 (definition; PunctuationListed checks it against the bracket list) |
| Regex.IsAlphanumeric | src/utils/regex.ts:2 | `matchAlphanumeric`, `[A-z 0-9]`: codes 65–122, space and the digits (definition) |
| Regex.IsWhitespace | src/utils/regex.ts:3 | the characters `\s` in `matchWhitespace` matches: tab, line feed, vertical tab, form feed, carriage return, space, U+00A0, U+1680, U+2000–U+200A, U+2028, U+2029, U+202F, U+205F, U+3000 and U+FEFF (definition) |
| Regex.PunctuationListed | src/utils/regex.ts:1 | a character is in the punctuation class exactly when it is in U+2000–U+206F or U+2E00–U+2E7F, or is one of the ASCII characters listed in the bracket expression |
| Regex.PunctuationClass | src/utils/regex.ts:1 | the punctuation class holds both Unicode blocks and exactly the ASCII codes 33–47, 58–64, 91–96 and 123–126, and no letter, digit or space |
| Regex.AlphanumericClass | src/utils/regex.ts:2 | `[A-z 0-9]` is the letters, the digits, space, and the six characters with codes 91–96 |
| Regex.PunctuationAlphanumericOverlap | src/utils/regex.ts:1-2 | the punctuation and `[A-z 0-9]` classes share exactly the codes 91–96 |
| Regex.WhitespaceOverlaps | src/utils/regex.ts:1-3 | space is the only whitespace character in `[A-z 0-9]`; the whitespace characters that are also punctuation are exactly the ones in the General Punctuation block |
| Helpers.OrderedMap.Get | src/utils/helpers.ts:41 | `map.get` yields a value exactly when the key is present |
| Helpers.Join | src/utils/helpers.ts:69 | joining no items gives `""`, and a join starts with its first item |
| Helpers.SkipWhitespace | src/utils/helpers.ts:8 | drops the leading `\s+` run (the one `split` turns into an empty first piece, and the one `trim` removes); the result is never longer than the input, and strictly shorter when the input starts with whitespace |
| Helpers.SkipWhitespaceSuffix | src/utils/regex.ts:3 | skipping a whitespace run leaves a suffix that does not start with whitespace, and everything skipped is whitespace (the runs are maximal) |
| Helpers.Tokenize | src/utils/helpers.ts:8 | `split(/\s+/g)` never returns an empty array |
| Helpers.TokenizeShape | src/utils/helpers.ts:8 | no token contains whitespace, only the first and last tokens can be empty, and input starting with a non-whitespace character has a non-empty first token |
| Helpers.TokenizeShapeRun | src/utils/helpers.ts:8 | the whitespace-first step of TokenizeShape: input starting with whitespace gives a token-shaped list (no token holds whitespace, none but the end tokens is empty) |
| Helpers.TokenizeShapeChar | src/utils/helpers.ts:8 | the character-first step of TokenizeShape: input starting with a non-whitespace character gives a token-shaped list whose first token is non-empty |
| Helpers.TokenizeJoin | src/utils/helpers.ts:8 | joining the tokens with `" "` gives the input with each maximal whitespace run replaced by one space, so nothing but whitespace is lost or reordered |
| Helpers.TokenizeWord | src/utils/helpers.ts:8 | a string without whitespace is a single token |
| Helpers.TokenizeGlue | src/utils/helpers.ts:8 | a whitespace-free prefix joins onto the first token of what follows it |
| Helpers.TokenizeJoinInverse | src/utils/helpers.ts:8 | `tokenize(join(ts, " ")) == ts` for every list `tokenize` could produce (tokens without whitespace, and none empty except at the ends) |
| Helpers.SplitOnSpace | src/utils/helpers.ts:88 | `split(' ')` returns at least one piece, and no piece contains a space |
| Helpers.SplitOnSpaceJoin | src/utils/helpers.ts:88 | joining the pieces of `split(' ')` with spaces gives back the input |
| Helpers.GetNthWord | src/utils/helpers.ts:88 | the result is the `k`-th piece (counting from 1) of the input split on spaces, or `''` when there is no such piece; it never contains a space |
| Helpers.FirstWordIsPrefix | src/utils/helpers.ts:88 | the first word is the prefix of the input up to its first space, or the whole input |
| Helpers.StartsWith | src/models/markov.ts:76 | `startsWith`: the prefix is no longer than the string and equals its first characters (definition) |
| Helpers.StartsWithSelf | src/models/markov.ts:107-110 | every string starts with itself, so every exact match of the continuation filter is also a similar one |
| Helpers.Trim | src/models/markov.ts:63 | `trim()` is a slice of the term with only whitespace before and after it (TrimmedAt), never longer than the term, and a non-empty result neither starts nor ends with whitespace |
| Helpers.TrimmedAt | src/models/markov.ts:63 | `r` is the slice of `s` at offset `i` with only whitespace before and after it (definition) |
| Helpers.TrimUnique | src/models/markov.ts:63 | any slice of the term with only whitespace around it that neither starts nor ends with whitespace is `trim()` of the term, so Trim's contract fixes its value |
| Helpers.TrimEnd | src/models/markov.ts:63 | the result is a prefix of the input that does not end in whitespace, and only whitespace was removed |
| Helpers.TrimBlank | src/models/markov.ts:63-64 | the trimmed term is empty exactly when the term is all whitespace; otherwise it starts and ends with a non-whitespace character |
| Helpers.LowerCase | src/utils/helpers.ts:16 | `toLowerCase` keeps the length and maps each character by ASCII lower-casing |
| Helpers.StripKeeps | src/utils/helpers.ts:16 | every character left by `replace(class, '')` comes from the input and is outside the class |
| Helpers.StripEmpty | src/utils/helpers.ts:16 | `replace(class, '')` leaves nothing exactly when every character is in the class |
| Helpers.StripNone | src/utils/helpers.ts:16 | `replace(class, '')` leaves a string with no character of the class unchanged |
| Helpers.Strip | src/utils/helpers.ts:16 | `replace(class, '')` is defined character by character (first character dropped when in the class, then the rest); its contract: the result is never longer than the input |
| Helpers.StripChar | src/utils/helpers.ts:16 | `replace(class, '')` on one character drops it exactly when it is in the class |
| Helpers.StripAppend | src/utils/helpers.ts:16 | `replace(class, '')` of a concatenation is the concatenation of the parts' results, so with StripChar every character outside the class is kept, in order, and every other one dropped |
| Helpers.StripAllInClass | src/utils/helpers.ts:16 | `replace(class, '')` is empty exactly when the string is made entirely of the class's characters |
| Helpers.Clean | src/utils/helpers.ts:15-17 | `clean`: `[A-z 0-9]` removed when every character is punctuation, otherwise punctuation removed and the rest lower-cased (a definition; its properties are the rows below) |
| Helpers.CleanAsWritten | src/utils/helpers.ts:15-17 | `clean(s)` is the lower-cased, punctuation-free string unless that string is empty, and `s` with `[A-z 0-9]` removed otherwise, as the `||` in the source says |
| Helpers.LowerChar | src/utils/helpers.ts:16 | lower-casing leaves no upper-case ASCII letter and moves no character into or out of the punctuation class |
| Helpers.CleanCases | src/utils/helpers.ts:15-17 | if `s` has a non-punctuation character, `clean(s)` is `s` lower-cased with punctuation removed, and is non-empty, punctuation-free and has no upper-case letter; otherwise `clean(s)` is `s` with `[A-z 0-9]` removed, and all punctuation |
| Helpers.CleanEmpty | src/utils/helpers.ts:15-17 | `clean("") == ""`, and `clean(s)` is empty exactly when every character of `s` has a code in 91–96 |
| Helpers.CleanIdempotent | src/utils/helpers.ts:15-17 | `clean(clean(s)) == clean(s)` |
| Helpers.RandomIndex | src/utils/helpers.ts:24 | `Math.floor(r * len)`, the index a draw `r` of `Math.random()` picks (definition) |
| Helpers.RandomIndexInRange | src/utils/helpers.ts:24 | `floor(r * len)` is a valid index when `0 <= r < 1` and the list is non-empty |
| Helpers.RandomIndexReachable | src/utils/helpers.ts:24 | every index of a non-empty list is `floor(r * len)` for some `r` in `[0, 1)` |
| Helpers.RandomChoice | src/utils/helpers.ts:24 | `randomChoice([])` is `undefined`; on a non-empty list with `0 <= r < 1` it is the element at `floor(r * length)`, an element of the list |
| Helpers.RandomKeyFromMap | src/utils/helpers.ts:49-60 | the key at insertion position `floor(r * size)`, or `''` when that position does not exist (an empty map) |
| Helpers.RandomChoiceFromMap | src/utils/helpers.ts:31-42 | the value stored under the key at insertion position `floor(r * size)`, or `undefined` for an empty map |
| Helpers.SliceStart | src/utils/helpers.ts:69 | the start `slice` uses never lies past the end of the list |
| Helpers.GetNLastItems | src/utils/helpers.ts:68-70 | with `n` at most the length, the join of the last `n` items; with `n` larger, the join from `max(2·length − n, 0)` on, as a negative `slice` start gives |
| Helpers.SpliceFrom | src/models/markov.ts:70 | `splice(maxWordCount)` returns `max(length − maxWordCount, 0)` tokens, the `i`-th being token `maxWordCount + i`; what stays in the array followed by what is returned is the original array |
| Helpers.Filter | src/models/markov.ts:76 | `filter` keeps the accepted elements in order (definition); its contract: never more elements than the input |
| Helpers.FilterMember | src/models/markov.ts:76 | `filter` keeps an element exactly when it is in the input and the predicate accepts it |
| Helpers.FilterKeeps | src/models/markov.ts:89-92 | every element `filter` keeps is accepted by the predicate |
| Helpers.FilterNarrowed | src/models/markov.ts:76-92 | the similar list (widened on the first window) narrowed by equality holds only the target, and is non-empty exactly when the target is a key that one of the similar filters accepts |
| Helpers.StringList.constructor | src/models/markov.ts:58 | the snapshot array holds exactly the given items |
| Helpers.IndexOf | src/utils/helpers.ts:78 | `indexOf` is -1 exactly when the item is absent; otherwise it is the first position holding the item |
| Helpers.RemoveFirst | src/utils/helpers.ts:77-80 | the reference for `removeArrayItemIfPresent`: the list with its first occurrence of the item taken out, or unchanged when there is none (definition) |
| Helpers.RemoveFirstAbsent | src/utils/helpers.ts:78-79 | removing an item the list does not hold leaves the list unchanged |
| Helpers.RemoveFirstAt | src/utils/helpers.ts:78-79 | when `i` is the first position of the item, removal splices out exactly position `i` |
| Helpers.RemoveFirstSplice | src/utils/helpers.ts:77-80 | removing an absent item leaves the list unchanged; removing a present one splices out exactly its first occurrence |
| Helpers.RemoveFirstCount | src/utils/helpers.ts:77-80 | removal takes exactly one copy of a present item out of the multiset of elements |
| Helpers.SpliceOut | src/utils/helpers.ts:79 | splicing out position `i` shortens the list by one and shifts the later elements down by one, in order |
| Helpers.RemoveFirstDistinct | src/utils/helpers.ts:77-80 | on a duplicate-free list, removal deletes that item and nothing else, and the list stays duplicate-free |
| Helpers.RemoveArrayItemIfPresent | src/utils/helpers.ts:77-80 | the array is updated in place to the list without the first occurrence of the item |
| NgramStore.WellFormed | src/models/markov.ts:36-47 | the invariant `feed` keeps on `ngramMap`: every key listed once in insertion order, and every list of next words non-empty and without duplicates, since a list is created only to receive a word that is pushed only when absent (definition) |
| NgramStore.Record | src/models/markov.ts:34-47 | one pass of `feed`'s loop as a function of the store: a missing n-gram becomes a new last key with the list `[next]`, a listed word changes nothing, and otherwise `next` is appended (definition) |
| NgramStore.NgramAt | src/models/markov.ts:34 | the n-gram of the window at token `i`: tokens `i` to `i + n - 1` joined with single spaces (definition) |
| NgramStore.Learn | src/models/markov.ts:33-48 | the store after the first `k` windows: Record applied window by window, in order (definition) |
| NgramStore.Fed | src/models/markov.ts:28-49 | `feed(input)`: the store unchanged when there are fewer than `n` tokens, otherwise Learn over all `|tokens| − n` windows (definition) |
| NgramStore.RecordProps | src/models/markov.ts:34-47 | on any store, one recording only adds to the store, stores the word under the n-gram and leaves every other key as it was; on a well-formed store it keeps every list non-empty and duplicate-free and the keys listed once each |
| NgramStore.LearnTransitions | src/models/markov.ts:33-48 | after the first `k` windows, each window's n-gram is a key whose list holds the token after the window |
| NgramStore.LearnUntouched | src/models/markov.ts:33-48 | keys outside the first `k` windows are neither added nor changed |
| NgramStore.LearnKnown | src/models/markov.ts:45-47 | windows whose transitions are already stored leave the store unchanged |
| NgramStore.LearnGrows | src/models/markov.ts:33-48 | the loop keeps the store well formed and only adds to it (keys keep their positions, and lists keep their old words as a prefix) |
| NgramStore.FedGrows | src/models/markov.ts:28-49 | `feed` keeps the store well formed and only adds to it |
| NgramStore.FedRecords | src/models/markov.ts:28-49 | after `feed(s)`, for every `i < |tokens| - n`, the key `join(tokens[i..i+n], ' ')` is present and its list holds `tokens[i+n]`; keys outside the input's windows are unchanged |
| NgramStore.FedShort | src/models/markov.ts:29-33 | input of at most `n` tokens leaves the store as it was |
| NgramStore.FedTwice | src/models/markov.ts:28-49 | feeding the same line twice gives the same store as feeding it once |
| NgramStore.SearchTokens | src/models/markov.ts:66-70 | the search tokens: the trimmed term, cleaned unless strict, tokenized, and only the tokens from index `maxWordCount` on kept (definition) |
| NgramStore.SearchRuns | src/models/markov.ts:72 | how many windows the search loop visits: `searchTokens.length - n`, or none when that is not positive (definition) |
| NgramStore.View | src/models/markov.ts:76-83 | what the search filters compare: the key itself in strict mode, `clean(key)` otherwise (definition) |
| NgramStore.At | src/models/markov.ts:95-96 | `tokens[i]`, with a missing element (`undefined`) read as `""` (definition) |
| NgramStore.Similar | src/models/markov.ts:76 | the similar filter: the key's view starts with the window's n-gram (definition) |
| NgramStore.SimilarFirstWord | src/models/markov.ts:81-87 | the first-window widening: the first word of the key's view starts with the first word of the window's n-gram (definition) |
| NgramStore.ExactMatch | src/models/markov.ts:76-94 | a window has an exact match when its n-gram is a key and passes the similar filter or, on the first window, the first-word filter (definition) |
| NgramStore.SearchSucceeds | src/models/markov.ts:72-94 | the first `k` windows of the search all found an exact match (definition) |
| NgramStore.SearchWords | src/models/markov.ts:72-97 | the words pushed after `k` windows: tokens 0 and 1 of the first window's re-tokenized n-gram, then token 1 of each later one (definition) |
| NgramStore.SearchOutput | src/models/markov.ts:72-97 | the search phase after `k` windows: no result (the code throws) once a window had no exact match, otherwise SearchWords (definition) |
| NgramStore.SearchStepSucceeds | src/models/markov.ts:72-94 | a window with an exact match extends a successful search by one window |
| NgramStore.SearchCompletes | src/models/markov.ts:72-97 | a search whose windows all matched returns the words they pushed |
| NgramStore.SearchStepWords | src/models/markov.ts:94-96 | the first window pushes the first two tokens of its re-tokenized n-gram, and each later window the second token |
| NgramStore.SearchStops | src/models/markov.ts:89-94 | a window without an exact match makes the whole search throw |
| NgramStore.SearchWordsCount | src/models/markov.ts:95-96 | after `k >= 1` windows, the search has pushed `k + 1` words |
| NgramStore.SearchTokensShaped | src/models/markov.ts:66-70 | the tokens kept by `splice` contain no whitespace and no empty token inside |
| NgramStore.WindowTokens | src/models/markov.ts:74 | re-tokenizing a window's n-gram gives back the window's tokens |
| NgramStore.SearchWordsStep | src/models/markov.ts:74-96 | with `n >= 2`, window `k - 1` pushes seed token `k`, and seed token 0 before it on the first window |
| NgramStore.SearchWordsAreSeedPrefix | src/models/markov.ts:70-97 | with `n >= 2`, after `k >= 1` windows the search has emitted exactly the first `k + 1` tokens kept by `splice` |
| NgramStore.StepTaken | src/models/markov.ts:105-123 | continuation step `t` used a key of the store not used before in the call, whose cleaned form equals that of the current n-gram, and appended one of that key's words (definition) |
| NgramStore.StepsTaken | src/models/markov.ts:104-123 | the output holds the items from before the loop followed by one item per key used, and every one of those steps is a StepTaken (definition) |
| NgramStore.Continued | src/models/markov.ts:104-125 | what the continuation loop ends with: every step a StepTaken, at most `maxWordCount` items, and, when it stopped short, no unused key with the cleaned form of the current n-gram (definition) |
| NgramStore.Remaining | src/models/markov.ts:120 | `ngramValues` during the loop: the store's keys not used so far, each once (definition) |
| NgramStore.LoopNgram | src/models/markov.ts:99-123 | `currentNgram` before continuation step `j`, for the output so far: its value before the loop on the first step, then the last `n` output items joined (definition) |
| NgramStore.RemainingKey | src/models/markov.ts:113-117 | a key still in the snapshot has a non-empty list, so `get` never returns `undefined` for it |
| NgramStore.ContinueStep | src/models/markov.ts:106-123 | taking a remaining key whose cleaned form matches the current n-gram, appending one of its words and removing it keeps every step a valid step and keeps the snapshot equal to the unused keys; earlier output is untouched |
| NgramStore.RemainingAfterStep | src/models/markov.ts:120 | removing the used key keeps the snapshot duplicate-free and equal to the store's keys not used so far |
| NgramStore.ContinuedStop | src/models/markov.ts:106-116 | when no remaining key matches, the loop may stop: no unused key has the cleaned form of the current n-gram |
| NgramStore.CurrentExtend | src/models/markov.ts:117 | appending to the output leaves the n-gram of every earlier step unchanged |
| NgramStore.StepsExtend | src/models/markov.ts:106-123 | the steps taken so far stay valid, and a step with an unused matching key and one of its words is valid |
| NgramStore.UsedAtMostKeys | src/models/markov.ts:104-125 | each key is used at most once per call, so the continuation adds at most as many words as the store has keys |
| NgramStore.ColdStartProgress | src/models/markov.ts:98-125 | after a cold start on a non-empty store with room for two words, the first continuation step always succeeds, since the starting key matches itself |
| Markov.MarkovGeneratorModel.constructor | src/models/markov.ts:17-21 | a new model has an empty store and the given `n` and `maxWordCount` |
| Markov.MarkovGeneratorModel.Feed | src/models/markov.ts:28-49 | the store becomes `Fed(old store, input, n)`; it stays well formed and only grows |
| Markov.MarkovGeneratorModel.Record | src/models/markov.ts:34-47 | one pass of `feed`'s loop updates the store as `NgramStore.Record` describes |
| Markov.Outcome.Text | src/models/markov.ts:127 | the string `generate` returns: the output joined with single spaces (definition) |
| Markov.MarkovGeneratorModel.Generate | src/models/markov.ts:57-128 | blank term, empty store: throws unless `maxWordCount <= 1` (then returns `[undefined]`); blank term, non-empty store: the first item is a key and the rest satisfies `Continued`; otherwise it throws exactly when the search fails, and it returns the search words followed by a continuation from `''` |
| Markov.MarkovGeneratorModel.Search | src/models/markov.ts:72-97 | the search loop returns `SearchOutput` of the kept tokens: the pushed words, or the throw |
| Markov.MarkovGeneratorModel.SearchWindow | src/models/markov.ts:73-96 | one window either extends the successful search by its words or makes the whole search throw |
| Markov.MarkovGeneratorModel.Continue | src/models/markov.ts:104-125 | the loop keeps the output produced before it and ends in a `Continued` state: at most `maxWordCount` items, each appended word taken from the list of an unused key whose cleaned form matched the current n-gram, and stopping early only when no unused key matched |
| Markov.SearchFilters | src/models/markov.ts:76-92 | the exact list holds only the window's n-gram, and is non-empty exactly when that n-gram is a key that passes the similar filter or, on the first window, the first-word filter |
| Markov.ContinuationFilters | src/models/markov.ts:106-111 | the exact results are exactly the snapshot keys whose cleaned form equals the current one: each result is such a key, every such key is a result, and no result means no snapshot key has that cleaned form |

## Left out

- Logging: the two `console.log` calls in `generate` (src/models/markov.ts:65, 124) are I/O and are not modelled.
- Randomness: `Math.random()` is a real parameter `r` in the helpers, and a nondeterministic index choice in `generate`. Floating-point rounding of `r * length` is not modelled.
- Helpers.LowerCase: `toLowerCase` is modelled on ASCII letters only. Full Unicode case mapping, which can also change a string's length, is not modelled.
- Helpers.Clean: the model branches on whether every character is punctuation rather than on whether the stripped string is empty. Helpers.CleanAsWritten proves the two forms equal.
- JavaScript strings are sequences of UTF-16 code units; the model uses Dafny characters. No class here contains characters outside the Basic Multilingual Plane, so the two agree on what the patterns match.
- `undefined` items: `generate` can push `undefined`, from a missing `searchResultTokens[1]` or from a cold start on an empty store. The model writes it as `""`, which is how `join` renders it, and the output is only ever joined.
- Markov.MarkovGeneratorModel.constructor: `n` and `maxWordCount` are natural numbers. Negative or fractional values, which JavaScript would accept, are not modelled. The third constructor argument passed by src/index.ts is ignored by the class and is not part of this model.
- Markov.MarkovGeneratorModel.Continue: the contract does not state the final contents of the snapshot `ngramValues`, which `generate` discards.
- Helpers.Strip: the function's own contract states only a length bound. What `replace` keeps and drops, and that the kept characters stay in order, is stated by Helpers.StripChar and Helpers.StripAppend; Helpers.StripKeeps, Helpers.StripEmpty, Helpers.StripNone and Helpers.StripAllInClass state the consequences the proofs about `clean` use.
- Helpers.Filter: the function's own contract states only a length bound. Membership is stated by Helpers.FilterMember and Helpers.FilterKeeps. No lemma states the order of the kept elements, because `generate` only ever picks an arbitrary element of a filtered list.
- `matchDiscordCodeBlock`, the Discord event handler, command loading and the log replay in src/index.ts are outside the engine and are not part of this model.
