/** The n-gram store of src/models/markov.ts as values: what `feed` makes of
    it, and reference definitions for the two phases of `generate`. The
    class in module Markov is proved against these. */
module NgramStore {
  import opened Regex
  import opened Helpers

  /** `ngramMap`: literal n-gram -> the words seen after it, with its keys
      in insertion order. */
  type Store = OrderedMap<seq<string>>

  /** What every store the engine builds satisfies: keys listed once each,
      and every list of next words non-empty and duplicate-free. */
  ghost predicate WellFormed(s: Store) {
    s.Valid() &&
    forall k :: k in s.entries ==> |s.entries[k]| > 0 && NoDuplicates(s.entries[k])
  }

  /** `t` only adds to `s`: keys keep their positions, and every list keeps
      its old words, in order, as a prefix. */
  ghost predicate Extends(s: Store, t: Store) {
    s.order <= t.order &&
    forall k :: k in s.entries ==> k in t.entries && s.entries[k] <= t.entries[k]
  }

  /** The literal n-gram of the window starting at token `i`. */
  function NgramAt(tokens: seq<string>, n: nat, i: nat): string
    requires i + n <= |tokens|
  {
    Join(tokens[i..i + n], " ")
  }

  /** The n-grams of the first `k` windows. */
  function Windows(tokens: seq<string>, n: nat, k: nat): set<string>
    requires k + n <= |tokens|
  {
    set i | 0 <= i < k :: NgramAt(tokens, n, i)
  }

  // ---------------------------------------------------------------------
  // feed

  /** One pass of `feed`'s loop (markov.ts:34-47): create the list of a new
      n-gram, then append `next` unless it is already there. */
  function Record(s: Store, ngram: string, next: string): Store
  {
    if ngram !in s.entries then OrderedMap(s.order + [ngram], s.entries[ngram := [next]])
    else if next in s.entries[ngram] then s
    else OrderedMap(s.order, s.entries[ngram := s.entries[ngram] + [next]])
  }

  /** The store after the first `k` windows of `tokens`. */
  function Learn(s: Store, tokens: seq<string>, n: nat, k: nat): Store
    requires k + n <= |tokens|
  {
    if k == 0 then s
    else Record(Learn(s, tokens, n, k - 1), NgramAt(tokens, n, k - 1), tokens[k - 1 + n])
  }

  /** `feed(input)` (markov.ts:28-49) as a function of the store. */
  function Fed(s: Store, input: string, n: nat): Store
  {
    var tokens := Tokenize(input);
    if |tokens| < n then s else Learn(s, tokens, n, |tokens| - n)
  }

  /** A single record grows any store, stores `next` under `ngram`, and
      touches no other key; it keeps a well-formed store well formed. */
  lemma RecordProps(s: Store, ngram: string, next: string)
    ensures WellFormed(s) ==> WellFormed(Record(s, ngram, next))
    ensures Extends(s, Record(s, ngram, next))
    ensures ngram in Record(s, ngram, next).entries && next in Record(s, ngram, next).entries[ngram]
    ensures forall k :: k != ngram ==>
              (k in s.entries <==> k in Record(s, ngram, next).entries) &&
              (k in s.entries ==> Record(s, ngram, next).entries[k] == s.entries[k])
  {
    var r := Record(s, ngram, next);
    if WellFormed(s) && ngram !in s.entries {
      assert forall k :: k in r.order <==> k in s.order || k == ngram;
      forall i, j | 0 <= i < j < |r.order| ensures r.order[i] != r.order[j] {
        if j == |s.order| {
          assert r.order[i] == s.order[i];
        }
      }
    } else if WellFormed(s) && next !in s.entries[ngram] {
      var l := s.entries[ngram];
      forall i, j | 0 <= i < j < |l + [next]| ensures (l + [next])[i] != (l + [next])[j] {
        if j == |l| {
          assert (l + [next])[i] == l[i];
        }
      }
    }
  }

  lemma ExtendsTrans(a: Store, b: Store, c: Store)
    requires Extends(a, b) && Extends(b, c)
    ensures Extends(a, c)
  {
  }

  /** After the first `k` windows, every window's n-gram is a key whose
      list holds the word that follows it. */
  lemma {:induction false} LearnTransitions(s: Store, tokens: seq<string>, n: nat, k: nat)
    requires k + n <= |tokens|
    ensures forall i :: 0 <= i < k ==>
              NgramAt(tokens, n, i) in Learn(s, tokens, n, k).entries &&
              tokens[i + n] in Learn(s, tokens, n, k).entries[NgramAt(tokens, n, i)]
  {
    if k > 0 {
      var prev := Learn(s, tokens, n, k - 1);
      var g, w := NgramAt(tokens, n, k - 1), tokens[k - 1 + n];
      LearnTransitions(s, tokens, n, k - 1);
      RecordProps(prev, g, w);
      var cur := Learn(s, tokens, n, k);
      assert cur == Record(prev, g, w);
      forall i | 0 <= i < k - 1
        ensures NgramAt(tokens, n, i) in cur.entries && tokens[i + n] in cur.entries[NgramAt(tokens, n, i)]
      {
        var gi := NgramAt(tokens, n, i);
        assert gi in prev.entries && prev.entries[gi] <= cur.entries[gi];
        assert tokens[i + n] in prev.entries[gi];
      }
    }
  }

  /** Keys outside the first `k` windows are neither added nor changed. */
  lemma {:induction false} LearnUntouched(s: Store, tokens: seq<string>, n: nat, k: nat)
    requires WellFormed(s)
    requires k + n <= |tokens|
    ensures forall key :: key !in Windows(tokens, n, k) ==>
              (key in s.entries <==> key in Learn(s, tokens, n, k).entries) &&
              (key in s.entries ==> Learn(s, tokens, n, k).entries[key] == s.entries[key])
  {
    if k > 0 {
      var prev := Learn(s, tokens, n, k - 1);
      var g, w := NgramAt(tokens, n, k - 1), tokens[k - 1 + n];
      LearnUntouched(s, tokens, n, k - 1);
      LearnGrows(s, tokens, n, k - 1);
      RecordProps(prev, g, w);
      var cur := Learn(s, tokens, n, k);
      forall key | key !in Windows(tokens, n, k)
        ensures (key in s.entries <==> key in cur.entries) &&
                (key in s.entries ==> cur.entries[key] == s.entries[key])
      {
        assert key != g;
        assert key !in Windows(tokens, n, k - 1);
      }
    }
  }

  /** A store that already holds every transition of the first `k` windows
      is left as it is by learning them again. */
  lemma {:induction false} LearnKnown(s: Store, tokens: seq<string>, n: nat, k: nat)
    requires k + n <= |tokens|
    requires forall i :: 0 <= i < k ==>
               NgramAt(tokens, n, i) in s.entries && tokens[i + n] in s.entries[NgramAt(tokens, n, i)]
    ensures Learn(s, tokens, n, k) == s
  {
    if k > 0 {
      LearnKnown(s, tokens, n, k - 1);
    }
  }

  /** Learning keeps the store well formed and only adds to it. */
  lemma {:induction false} LearnGrows(s: Store, tokens: seq<string>, n: nat, k: nat)
    requires WellFormed(s)
    requires k + n <= |tokens|
    ensures WellFormed(Learn(s, tokens, n, k)) && Extends(s, Learn(s, tokens, n, k))
  {
    if k > 0 {
      var prev := Learn(s, tokens, n, k - 1);
      LearnGrows(s, tokens, n, k - 1);
      RecordProps(prev, NgramAt(tokens, n, k - 1), tokens[k - 1 + n]);
      ExtendsTrans(s, prev, Learn(s, tokens, n, k));
    }
  }

  /** `feed` keeps the store well formed and only adds to it. */
  lemma FedGrows(s: Store, input: string, n: nat)
    requires WellFormed(s)
    ensures WellFormed(Fed(s, input, n)) && Extends(s, Fed(s, input, n))
  {
    var tokens := Tokenize(input);
    if |tokens| >= n {
      LearnGrows(s, tokens, n, |tokens| - n);
    }
  }

  /** After `feed(input)`, every transition of `input` can be looked up
      under its literal n-gram, the store only grew, and n-grams that do not
      occur in `input` kept their lists. */
  lemma FedRecords(s: Store, input: string, n: nat)
    requires WellFormed(s)
    ensures WellFormed(Fed(s, input, n))
    ensures Extends(s, Fed(s, input, n))
    ensures var tokens := Tokenize(input);
      forall i :: 0 <= i && i + n < |tokens| ==>
        NgramAt(tokens, n, i) in Fed(s, input, n).entries &&
        tokens[i + n] in Fed(s, input, n).entries[NgramAt(tokens, n, i)]
    ensures var tokens := Tokenize(input);
      |tokens| >= n ==>
        forall key :: key !in Windows(tokens, n, |tokens| - n) ==>
          (key in s.entries <==> key in Fed(s, input, n).entries) &&
          (key in s.entries ==> Fed(s, input, n).entries[key] == s.entries[key])
  {
    var tokens := Tokenize(input);
    if |tokens| >= n {
      LearnGrows(s, tokens, n, |tokens| - n);
      LearnTransitions(s, tokens, n, |tokens| - n);
      LearnUntouched(s, tokens, n, |tokens| - n);
    }
  }

  /** Input of at most `n` tokens leaves the store as it was: fewer than
      `n` returns early, exactly `n` has no window with a next word. */
  lemma FedShort(s: Store, input: string, n: nat)
    requires |Tokenize(input)| <= n
    ensures Fed(s, input, n) == s
  {
  }

  /** Feeding the same line twice gives the same store as feeding it once. */
  lemma FedTwice(s: Store, input: string, n: nat)
    ensures Fed(Fed(s, input, n), input, n) == Fed(s, input, n)
  {
    var tokens := Tokenize(input);
    if |tokens| >= n {
      var once := Fed(s, input, n);
      LearnTransitions(s, tokens, n, |tokens| - n);
      LearnKnown(once, tokens, n, |tokens| - n);
    }
  }

  // ---------------------------------------------------------------------
  // generate: search phase

  /** What the search filters compare against: the key itself in strict
      mode, its cleaned form otherwise. */
  function View(ngram: string, isStrict: bool): string {
    if isStrict then ngram else Clean(ngram)
  }

  /** The seed's tokens after `.splice(maxWordCount)` (markov.ts:66-70):
      only the tokens from index `maxWordCount` on are kept. */
  function SearchTokens(trimmed: string, isStrict: bool, maxWordCount: nat): seq<string>
  {
    SpliceFrom(Tokenize(if isStrict then trimmed else Clean(trimmed)), maxWordCount)
  }

  /** How many times the search loop runs: `searchTokens.length - n`, or
      none when that is not positive. */
  function SearchRuns(searchTokens: seq<string>, n: nat): nat {
    Max(|searchTokens| - n, 0)
  }

  /** The value of `tokens[i]`, where JavaScript's `undefined` for a missing
      element is written as `""`: the only use of such an element is to be
      joined, which renders `undefined` as the empty string. */
  function At(tokens: seq<string>, i: nat): string {
    if i < |tokens| then tokens[i] else ""
  }

  /** The similar filter of the search (markov.ts:76): the key's view
      starts with the window. */
  predicate Similar(ngram: string, searchNgram: string, isStrict: bool) {
    StartsWith(View(ngram, isStrict), searchNgram)
  }

  /** The widening of the first window (markov.ts:81-87): the first word of
      the key's view starts with the first word of the window. */
  predicate SimilarFirstWord(ngram: string, searchNgram: string, isStrict: bool) {
    StartsWith(GetNthWord(View(ngram, isStrict), 1), GetNthWord(searchNgram, 1))
  }

  /** The reference for one search window (markov.ts:76-94): a key equal to
      `searchNgram` survives the similar/exact filters exactly when it is a
      key and it passes the similar filter, or (first window only) the
      first-word filter. */
  predicate ExactMatch(order: seq<string>, searchNgram: string, isStrict: bool, isFirstRun: bool) {
    searchNgram in order &&
    (Similar(searchNgram, searchNgram, isStrict) ||
     (isFirstRun && SimilarFirstWord(searchNgram, searchNgram, isStrict)))
  }

  /** Whether the first `k` windows of the search all find an exact match. */
  predicate SearchSucceeds(order: seq<string>, searchTokens: seq<string>, n: nat, isStrict: bool, k: nat)
    requires k <= SearchRuns(searchTokens, n)
  {
    forall i :: 0 <= i < k ==> ExactMatch(order, NgramAt(searchTokens, n, i), isStrict, i == 0)
  }

  /** The words the search loop has pushed after `k` windows
      (markov.ts:94-96): the first window pushes the first two tokens of its
      re-tokenized n-gram, each later window the second one. */
  function SearchWords(searchTokens: seq<string>, n: nat, k: nat): seq<string>
    requires k <= SearchRuns(searchTokens, n)
  {
    if k == 0 then []
    else
      var t := Tokenize(NgramAt(searchTokens, n, k - 1));
      SearchWords(searchTokens, n, k - 1) + (if k == 1 then [At(t, 0)] else []) + [At(t, 1)]
  }

  /** The search phase after `k` windows: `None` once a window has had no
      exact match (the code then throws), otherwise the words pushed. */
  function SearchOutput(order: seq<string>, searchTokens: seq<string>, n: nat, isStrict: bool, k: nat): Option<seq<string>>
    requires k <= SearchRuns(searchTokens, n)
  {
    if SearchSucceeds(order, searchTokens, n, isStrict, k) then Some(SearchWords(searchTokens, n, k)) else None
  }

  /** A window with an exact match keeps the search going. */
  lemma SearchStepSucceeds(order: seq<string>, searchTokens: seq<string>, n: nat, isStrict: bool, i: nat,
                           window: seq<string>, searchNgram: string)
    requires i < SearchRuns(searchTokens, n)
    requires window == searchTokens[i..i + n] && searchNgram == Join(window, " ")
    requires SearchSucceeds(order, searchTokens, n, isStrict, i)
    requires ExactMatch(order, searchNgram, isStrict, i == 0)
    ensures SearchSucceeds(order, searchTokens, n, isStrict, i + 1)
  {
  }

  /** A search whose every window found an exact match returns the words
      its windows pushed. */
  lemma SearchCompletes(order: seq<string>, searchTokens: seq<string>, n: nat, isStrict: bool, k: nat, output: seq<string>)
    requires k == SearchRuns(searchTokens, n)
    requires SearchSucceeds(order, searchTokens, n, isStrict, k)
    requires output == SearchWords(searchTokens, n, k)
    ensures SearchOutput(order, searchTokens, n, isStrict, SearchRuns(searchTokens, n)) == Some(output)
  {
  }

  /** The words a window adds: the first two tokens of its re-tokenized
      n-gram on the first window, the second token after that. */
  lemma SearchStepWords(searchTokens: seq<string>, n: nat, i: nat, window: seq<string>, searchNgram: string)
    requires i < SearchRuns(searchTokens, n)
    requires window == searchTokens[i..i + n] && searchNgram == Join(window, " ")
    ensures var t := Tokenize(searchNgram);
      if i == 0 then SearchWords(searchTokens, n, i + 1) == [At(t, 0), At(t, 1)]
      else SearchWords(searchTokens, n, i + 1) == SearchWords(searchTokens, n, i) + [At(t, 1)]
  {
  }

  /** A window without an exact match makes the whole search fail. */
  lemma SearchStops(order: seq<string>, searchTokens: seq<string>, n: nat, isStrict: bool, i: nat,
                    window: seq<string>, searchNgram: string)
    requires i < SearchRuns(searchTokens, n)
    requires window == searchTokens[i..i + n] && searchNgram == Join(window, " ")
    requires !ExactMatch(order, searchNgram, isStrict, i == 0)
    ensures SearchOutput(order, searchTokens, n, isStrict, SearchRuns(searchTokens, n)) == None
  {
    assert searchNgram == NgramAt(searchTokens, n, i);
  }

  /** The first window pushes two words and every later one a single word. */
  lemma {:induction false} SearchWordsCount(searchTokens: seq<string>, n: nat, k: nat)
    requires k <= SearchRuns(searchTokens, n)
    ensures |SearchWords(searchTokens, n, k)| == if k == 0 then 0 else k + 1
  {
    if k > 1 {
      SearchWordsCount(searchTokens, n, k - 1);
    }
  }

  lemma SearchTokensShaped(trimmed: string, isStrict: bool, maxWordCount: nat)
    ensures TokenShaped(SearchTokens(trimmed, isStrict, maxWordCount))
  {
    var source := if isStrict then trimmed else Clean(trimmed);
    var all := Tokenize(source);
    TokenizeShape(source);
    var st := SpliceFrom(all, maxWordCount);
    assert st == SearchTokens(trimmed, isStrict, maxWordCount);
    if maxWordCount <= |all| {
      forall i | 0 < i < |st| - 1 ensures st[i] != "" {
        assert st[i] == all[maxWordCount + i];
      }
      forall i | 0 <= i < |st| ensures !HasWhitespace(st[i]) {
        assert st[i] == all[maxWordCount + i];
      }
    }
  }

  /** Re-tokenizing a window of a token-shaped list gives back its tokens. */
  lemma WindowTokens(ts: seq<string>, n: nat, i: nat)
    requires TokenShaped(ts) && n >= 1 && i + n <= |ts|
    ensures Tokenize(NgramAt(ts, n, i)) == ts[i..i + n]
  {
    var w := ts[i..i + n];
    forall j | 0 < j < |w| - 1 ensures w[j] != "" {
      assert w[j] == ts[i + j];
    }
    forall j | 0 <= j < |w| ensures !HasWhitespace(w[j]) {
      assert w[j] == ts[i + j];
    }
    TokenizeJoinInverse(w);
  }

  /** With n-grams of at least two words, window `k - 1` re-tokenizes to
      the seed tokens it was made of, so it pushes seed token `k` (and, on
      the first window, seed token 0 before it). */
  lemma SearchWordsStep(searchTokens: seq<string>, n: nat, k: nat)
    requires TokenShaped(searchTokens) && n >= 2
    requires 1 <= k <= SearchRuns(searchTokens, n)
    ensures SearchWords(searchTokens, n, k) ==
              SearchWords(searchTokens, n, k - 1) + (if k == 1 then [searchTokens[0]] else []) + [searchTokens[k]]
  {
    var window := searchTokens[k - 1..k - 1 + n];
    WindowTokens(searchTokens, n, k - 1);
    assert Tokenize(Join(window, " ")) == window;
    assert At(window, 1) == searchTokens[k];
    assert k == 1 ==> At(window, 0) == searchTokens[0];
  }

  /** With n-grams of at least two words the search phase emits the seed
      tokens themselves: after `k >= 1` windows, the first `k + 1` tokens
      kept by `splice`. */
  lemma {:induction false} SearchWordsAreSeedPrefix(searchTokens: seq<string>, n: nat, k: nat)
    requires TokenShaped(searchTokens) && n >= 2
    requires 1 <= k <= SearchRuns(searchTokens, n)
    ensures SearchWords(searchTokens, n, k) == searchTokens[..k + 1]
  {
    SearchWordsStep(searchTokens, n, k);
    if k > 1 {
      SearchWordsAreSeedPrefix(searchTokens, n, k - 1);
      assert searchTokens[..k] + [searchTokens[k]] == searchTokens[..k + 1];
    } else {
      assert searchTokens[..2] == [searchTokens[0], searchTokens[1]];
    }
  }

  // ---------------------------------------------------------------------
  // generate: continuation phase

  /** `currentNgram` before continuation step `j`, for the output `out`
      produced so far: its starting value `current0` before the first step,
      then the last `n` output items joined (markov.ts:123). */
  function LoopNgram(out: seq<string>, n: nat, current0: string, j: nat): string {
    if j == 0 then current0 else GetNLastItems(out, n)
  }

  /** Continuation step `t` (markov.ts:106-123): it used a key not used
      before in this call whose cleaned form equals that of the current
      n-gram, and appended one of the words stored under that key. */
  ghost predicate StepTaken(s: Store, n: nat, start: nat, current0: string, out: seq<string>, used: seq<string>, t: nat)
    requires t < |used| && start + |used| <= |out|
  {
    used[t] in s.entries &&
    used[t] !in used[..t] &&
    Clean(used[t]) == Clean(LoopNgram(out[..start + t], n, current0, t)) &&
    out[start + t] in s.entries[used[t]]
  }

  /** The first `|used|` continuation steps were all taken, each appending
      one item after the `start` items that came before the loop. */
  ghost predicate StepsTaken(s: Store, n: nat, start: nat, current0: string, out: seq<string>, used: seq<string>) {
    |out| == start + |used| &&
    forall t :: 0 <= t < |used| ==> StepTaken(s, n, start, current0, out, used, t)
  }

  /** The relation the continuation loop establishes between the output
      `out` (whose first `start` items came before the loop), the keys
      `used` in turn, and the store `s`: at most `maxWordCount - start`
      steps, each one a StepTaken, and, if it stopped short of the word
      budget, no unused key matched the current n-gram. */
  ghost predicate Continued(s: Store, n: nat, maxWordCount: nat, start: nat, current0: string, out: seq<string>, used: seq<string>) {
    StepsTaken(s, n, start, current0, out, used) &&
    |out| <= Max(maxWordCount, start) &&
    (|out| < maxWordCount ==>
       forall k :: k in s.order && k !in used ==> Clean(k) != Clean(LoopNgram(out, n, current0, |used|)))
  }

  /** The keys the loop may still take (`ngramValues`, which starts as the
      key list and loses each key it uses): the store's keys not used so
      far, each once. */
  ghost predicate Remaining(s: Store, items: seq<string>, used: seq<string>) {
    NoDuplicates(items) &&
    forall k :: k in items <==> k in s.order && k !in used
  }

  /** A key still to be tried has a non-empty list of next words. */
  lemma RemainingKey(s: Store, items: seq<string>, used: seq<string>, key: string)
    requires WellFormed(s) && Remaining(s, items, used) && key in items
    ensures key in s.entries && |s.entries[key]| > 0
  {
  }

  /** One continuation step (markov.ts:106-123): taking a remaining key
      that matches the current n-gram, appending one of its words and
      removing the key keeps every step taken and the remaining keys
      right, and the next n-gram is the last `n` items of the output. */
  lemma ContinueStep(s: Store, n: nat, start: nat, current0: string, out: seq<string>, used: seq<string>,
                     items: seq<string>, key: string, w: string)
    requires StepsTaken(s, n, start, current0, out, used) && Remaining(s, items, used)
    requires key in items && key in s.entries && w in s.entries[key]
    requires Clean(key) == Clean(LoopNgram(out, n, current0, |used|))
    ensures StepsTaken(s, n, start, current0, out + [w], used + [key])
    ensures Remaining(s, RemoveFirst(items, key), used + [key])
    ensures (out + [w])[..start] == out[..start]
  {
    StepsExtend(s, n, start, current0, out, used, w, key);
    RemainingAfterStep(s, items, used, key);
  }

  /** The keys still to be tried are the store's keys not used so far;
      taking one of them and removing it keeps this so. */
  lemma RemainingAfterStep(s: Store, items: seq<string>, used: seq<string>, key: string)
    requires Remaining(s, items, used) && key in items
    ensures Remaining(s, RemoveFirst(items, key), used + [key])
  {
    RemoveFirstDistinct(items, key);
  }

  /** The continuation loop stops early: no remaining key matches the
      current n-gram. */
  lemma ContinuedStop(s: Store, n: nat, maxWordCount: nat, start: nat, current0: string,
                      out: seq<string>, used: seq<string>, items: seq<string>)
    requires StepsTaken(s, n, start, current0, out, used) && |out| <= Max(maxWordCount, start)
    requires Remaining(s, items, used)
    requires forall i :: 0 <= i < |items| ==> Clean(items[i]) != Clean(LoopNgram(out, n, current0, |used|))
    ensures Continued(s, n, maxWordCount, start, current0, out, used)
  {
    forall k | k in s.order && k !in used
      ensures Clean(k) != Clean(LoopNgram(out, n, current0, |used|))
    {
      var i :| 0 <= i < |items| && items[i] == k;
    }
  }

  /** Appending an item to the output leaves the n-gram of every earlier
      step as it was. */
  lemma CurrentExtend(out: seq<string>, n: nat, start: nat, current0: string, j: nat, w: string)
    requires start + j <= |out|
    ensures LoopNgram((out + [w])[..start + j], n, current0, j) == LoopNgram(out[..start + j], n, current0, j)
  {
    assert (out + [w])[..start + j] == out[..start + j];
  }

  /** One more continuation step: the steps taken so far stay taken, and
      using an unused key that matches the current n-gram, with a word
      stored under it, is a step taken. */
  lemma {:induction false} StepsExtend(s: Store, n: nat, start: nat, current0: string, out: seq<string>, used: seq<string>, w: string, key: string)
    requires |out| == start + |used|
    requires forall t :: 0 <= t < |used| ==> StepTaken(s, n, start, current0, out, used, t)
    requires key in s.entries && key !in used && w in s.entries[key]
    requires Clean(key) == Clean(LoopNgram(out, n, current0, |used|))
    ensures forall t :: 0 <= t < |used| + 1 ==> StepTaken(s, n, start, current0, out + [w], used + [key], t)
  {
    var out', used' := out + [w], used + [key];
    forall t | 0 <= t < |used'| ensures StepTaken(s, n, start, current0, out', used', t) {
      CurrentExtend(out, n, start, current0, t, w);
      assert used'[..t] == used[..t] || t == |used|;
      if t < |used| {
        assert StepTaken(s, n, start, current0, out, used, t);
        assert out'[start + t] == out[start + t];
      } else {
        assert used'[..t] == used && out'[..start + t] == out;
      }
    }
  }

  /** The cycle guard bounds the loop by the number of keys: each key is
      used at most once per call, so the continuation adds at most as many
      words as the store has n-grams. */
  lemma UsedAtMostKeys(s: Store, n: nat, maxWordCount: nat, start: nat, current0: string, out: seq<string>, used: seq<string>)
    requires WellFormed(s)
    requires Continued(s, n, maxWordCount, start, current0, out, used)
    ensures |used| <= |s.order|
    ensures |out| <= start + |s.order|
  {
    var u := set t | 0 <= t < |used| :: used[t];
    forall i, j | 0 <= i < j < |used| ensures used[i] != used[j] {
      assert StepTaken(s, n, start, current0, out, used, j);
      assert used[i] in used[..j];
    }
    DistinctCard(used);
    var keys := set t | 0 <= t < |s.order| :: s.order[t];
    DistinctCard(s.order);
    forall k | k in u ensures k in keys {
      var t :| 0 <= t < |used| && used[t] == k;
      assert StepTaken(s, n, start, current0, out, used, t);
      assert k in s.order;
    }
    SubsetCard(u, keys);
  }

  lemma {:induction false} SubsetCard(a: set<string>, b: set<string>)
    requires a <= b
    ensures |a| <= |b|
    decreases b
  {
    if a != {} {
      var x :| x in a;
      SubsetCard(a - {x}, b - {x});
    }
  }

  /** A duplicate-free list has as many distinct elements as entries. */
  lemma {:induction false} DistinctCard(a: seq<string>)
    requires NoDuplicates(a)
    ensures |set t | 0 <= t < |a| :: a[t]| == |a|
    ensures (set t | 0 <= t < |a| :: a[t]) == set k | k in a
  {
    if a != [] {
      var b := a[..|a| - 1];
      DistinctCard(b);
      assert (set t | 0 <= t < |a| :: a[t]) == (set t | 0 <= t < |b| :: b[t]) + {a[|a| - 1]};
      assert a[|a| - 1] !in set t | 0 <= t < |b| :: b[t];
    }
  }

  /** From a cold start on a non-empty store with room for two words, the
      first continuation step always succeeds: the starting n-gram is itself
      an unused key with the same cleaned form. */
  lemma ColdStartProgress(s: Store, n: nat, maxWordCount: nat, out: seq<string>, used: seq<string>)
    requires |out| >= 1 && out[0] in s.order
    requires Continued(s, n, maxWordCount, 1, out[0], out, used)
    requires maxWordCount >= 2
    ensures |out| >= 2 && |used| >= 1
  {
  }
}
