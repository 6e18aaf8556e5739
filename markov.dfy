/** `MarkovGeneratorModel` (src/models/markov.ts): an n-gram store that
    `feed` fills in place and `generate` samples from. */
module Markov {
  import opened Helpers
  import opened NgramStore

  /** How a call to `generate` ends: it throws a TypeError (the code calls
      `tokenize` or `clean` on `undefined`), or it returns
      `output.join(' ')`. */
  datatype Outcome = Threw | Returned(output: seq<string>) {
    /** The string `generate` returns. */
    function Text(): string
      requires Returned?
    {
      Join(output, " ")
    }
  }

  class MarkovGeneratorModel {
    /** How many words make up one n-gram. */
    const n: nat
    /** The word budget of `generate`. */
    const maxWordCount: nat
    /** `ngramMap`: literal n-gram -> the words seen after it. */
    var ngramMap: map<string, seq<string>>
    /** The keys of `ngramMap` in insertion order. */
    var ngramKeys: seq<string>

    function Contents(): Store
      reads this
    {
      OrderedMap(ngramKeys, ngramMap)
    }

    ghost predicate Valid()
      reads this
    {
      WellFormed(Contents())
    }

    /** markov.ts:17-21. */
    constructor (n: nat := 2, maxWordCount: nat := 50)
      ensures Valid()
      ensures this.n == n && this.maxWordCount == maxWordCount
      ensures ngramMap == map[] && ngramKeys == []
    {
      this.n := n;
      this.maxWordCount := maxWordCount;
      ngramMap := map[];
      ngramKeys := [];
    }

    /** `feed` (markov.ts:28-49): for every window of `n` tokens that has a
        following token, record that token under the window's literal
        n-gram unless it is already listed there. */
    method Feed(input: string)
      requires Valid()
      modifies this
      ensures Valid()
      ensures Contents() == Fed(old(Contents()), input, n)
      ensures Extends(old(Contents()), Contents())
    {
      var inputTokens := Tokenize(input);
      if |inputTokens| < n {
        FedGrows(old(Contents()), input, n);
        return;
      }
      var numberOfNgrams := |inputTokens| - n;
      for i := 0 to numberOfNgrams
        invariant Contents() == Learn(old(Contents()), inputTokens, n, i)
      {
        var ngram := Join(inputTokens[i..i + n], " ");
        Record(ngram, inputTokens[i + n]);
        assert ngram == NgramAt(inputTokens, n, i);
      }
      FedGrows(old(Contents()), input, n);
    }

    /** One pass of `feed`'s loop (markov.ts:34-47): a missing n-gram gets
        an empty list (`!this.ngramMap.get(ngram)` is true only for a missing
        key, since an empty array is truthy), and `nextWord` is appended
        unless the list already holds it. */
    method Record(ngram: string, nextWord: string)
      modifies this
      ensures Contents() == NgramStore.Record(old(Contents()), ngram, nextWord)
    {
      if ngram !in ngramMap {
        ngramMap := ngramMap[ngram := []];
        ngramKeys := ngramKeys + [ngram];
      }
      var currentNgramValue := ngramMap[ngram];
      if nextWord !in currentNgramValue {
        ngramMap := ngramMap[ngram := currentNgramValue + [nextWord]];
      }
      assert old(ngram !in ngramMap) ==> currentNgramValue + [nextWord] == [nextWord];
    }

    /** `generate` (markov.ts:57-128). Each `Math.random()` draw is a
        nondeterministic choice of an index into the list drawn from; every
        index is reachable (Helpers.RandomIndexReachable). `used` lists the
        keys the continuation loop took, in order. */
    method Generate(searchTerm: string := "", isStrict: bool := false) returns (result: Outcome, ghost used: seq<string>)
      requires Valid()
      // cold start on an empty store: `randomChoice([])` is undefined and
      // the first `clean(undefined)` throws, unless the loop never runs
      ensures Trim(searchTerm) == "" && ngramKeys == [] ==>
                result == if maxWordCount <= 1 then Returned([""]) else Threw
      // cold start: a whole key first, then the continuation
      ensures Trim(searchTerm) == "" && ngramKeys != [] ==>
                result.Returned? && |result.output| >= 1 && result.output[0] in ngramKeys &&
                Continued(Contents(), n, maxWordCount, 1, result.output[0], result.output, used)
      // seeded: the search phase, then the continuation from `''`
      ensures Trim(searchTerm) != "" ==>
                var searchTokens := SearchTokens(Trim(searchTerm), isStrict, maxWordCount);
                var pre := SearchOutput(ngramKeys, searchTokens, n, isStrict, SearchRuns(searchTokens, n));
                (result.Threw? <==> pre.None?) &&
                (result.Returned? ==>
                   |pre.value| <= |result.output| && result.output[..|pre.value|] == pre.value &&
                   Continued(Contents(), n, maxWordCount, |pre.value|, "", result.output, used))
    {
      var ngramValues := new StringList(ngramKeys);
      var output: seq<string> := [];
      var currentNgram := "";
      used := [];

      var trimmedSearchTerm := Trim(searchTerm);
      if |trimmedSearchTerm| != 0 {
        var searchTokens := SearchTokens(trimmedSearchTerm, isStrict, maxWordCount);
        var found := Search(ngramValues, searchTokens, isStrict);
        if found.None? {
          result := Threw;
          return;
        }
        output := found.value;
      } else {
        if |ngramValues.items| == 0 {
          // `output` is `[undefined]`
          output := [""];
          if maxWordCount - |output| > 0 {
            result := Threw;
          } else {
            result := Returned(output);
          }
          return;
        }
        var pick :| 0 <= pick < |ngramValues.items|;
        currentNgram := ngramValues.items[pick];
        output := output + [currentNgram];
      }
      output, used := Continue(ngramValues, output, currentNgram);
      result := Returned(output);
    }

    /** The search loop of `generate` (markov.ts:72-97) over the snapshot
        `ngramValues` of the keys: `None` where the code throws because a
        window found no exact match, otherwise the words it pushed. */
    method Search(ngramValues: StringList, searchTokens: seq<string>, isStrict: bool) returns (found: Option<seq<string>>)
      requires ngramValues.items == ngramKeys
      ensures found == SearchOutput(ngramKeys, searchTokens, n, isStrict, SearchRuns(searchTokens, n))
    {
      var output: seq<string> := [];
      var i := 0;
      while i < |searchTokens| - n
        invariant 0 <= i <= SearchRuns(searchTokens, n)
        invariant SearchSucceeds(ngramKeys, searchTokens, n, isStrict, i)
        invariant output == SearchWords(searchTokens, n, i)
      {
        var matched;
        matched, output := SearchWindow(ngramValues.items, searchTokens, isStrict, i, output);
        if !matched {
          return None;
        }
        i := i + 1;
      }
      SearchCompletes(ngramKeys, searchTokens, n, isStrict, i, output);
      return Some(output);
    }

    /** One pass of the search loop (markov.ts:73-96) for window `i`: the
        exact matches of the window's n-gram among `keys`; with none the
        code throws (`randomChoice([])` is undefined and `tokenize`
        rejects it), otherwise it pushes the words of the picked match. */
    method SearchWindow(keys: seq<string>, searchTokens: seq<string>, isStrict: bool, i: nat, output: seq<string>)
      returns (matched: bool, output': seq<string>)
      requires keys == ngramKeys
      requires i < SearchRuns(searchTokens, n)
      requires SearchSucceeds(ngramKeys, searchTokens, n, isStrict, i)
      requires output == SearchWords(searchTokens, n, i)
      ensures matched ==> SearchSucceeds(ngramKeys, searchTokens, n, isStrict, i + 1) &&
                          output' == SearchWords(searchTokens, n, i + 1)
      ensures !matched ==> SearchOutput(ngramKeys, searchTokens, n, isStrict, SearchRuns(searchTokens, n)) == None
    {
      var isFirstRun := i == 0;
      var window := searchTokens[i..i + n];
      var searchNgram := Join(window, " ");
      var view := ngram => View(ngram, isStrict);
      var searchResultsExact := SearchFilters(keys, searchNgram, isFirstRun, view);
      assert view(searchNgram) == View(searchNgram, isStrict);
      if |searchResultsExact| == 0 {
        SearchStops(ngramKeys, searchTokens, n, isStrict, i, window, searchNgram);
        return false, output;
      }
      var pick :| 0 <= pick < |searchResultsExact|;
      assert searchResultsExact[pick] == searchNgram;
      SearchStepSucceeds(ngramKeys, searchTokens, n, isStrict, i, window, searchNgram);
      SearchStepWords(searchTokens, n, i, window, searchNgram);
      var searchResultTokens := Tokenize(searchResultsExact[pick]);
      output' := output;
      if isFirstRun {
        output' := output' + [At(searchResultTokens, 0)];
      }
      output' := output' + [At(searchResultTokens, 1)];
      matched := true;
    }

    /** The continuation loop of `generate` (markov.ts:104-125): starting
        from `output0` and `currentNgram0`, each step takes an unused key
        whose cleaned form equals that of the current n-gram, appends one of
        its words and removes the key from `ngramValues`. */
    method Continue(ngramValues: StringList, output0: seq<string>, currentNgram0: string) returns (output: seq<string>, ghost used: seq<string>)
      requires Valid()
      requires ngramValues.items == ngramKeys
      modifies ngramValues
      ensures |output0| <= |output| && output[..|output0|] == output0
      ensures Continued(Contents(), n, maxWordCount, |output0|, currentNgram0, output, used)
    {
      output := output0;
      used := [];
      var currentNgram := currentNgram0;
      ghost var start := |output0|;
      // `ngramValues` is a separate list; the store does not change
      ghost var store := Contents();
      var remainingWordCount: int := maxWordCount - |output|;
      var i := 0;
      while i < remainingWordCount
        invariant 0 <= i && (i <= remainingWordCount || i == 0)
        invariant StepsTaken(store, n, start, currentNgram0, output, used)
        invariant |used| == i && output[..start] == output0
        invariant Remaining(store, ngramValues.items, used)
        invariant currentNgram == LoopNgram(output, n, currentNgram0, i)
      {
        var resultsExact := ContinuationFilters(ngramValues.items, Clean, Clean(currentNgram));
        if |resultsExact| == 0 {
          ContinuedStop(store, n, maxWordCount, start, currentNgram0, output, used, ngramValues.items);
          break;
        }
        var pick :| 0 <= pick < |resultsExact|;
        var nextNgram := resultsExact[pick];
        RemainingKey(store, ngramValues.items, used, nextNgram);
        var possibleNextTokens := ngramMap[nextNgram];
        var choice :| 0 <= choice < |possibleNextTokens|;
        ContinueStep(store, n, start, currentNgram0, output, used, ngramValues.items,
                     nextNgram, possibleNextTokens[choice]);
        output := output + [possibleNextTokens[choice]];
        RemoveArrayItemIfPresent(ngramValues, nextNgram);
        used := used + [nextNgram];
        currentNgram := GetNLastItems(output, n);
        i := i + 1;
      }
    }
  }

  /** The filters of one search window (markov.ts:76-92), for the view
      `view` of a key (the key itself in strict mode, else its cleaned
      form): the keys whose view starts with `searchNgram` (on the first
      window, followed by those whose view's first word starts with the
      first word of `searchNgram`), narrowed to those equal to
      `searchNgram`. `searchResultsExact || searchResultsSimilar` is always
      the exact list, since an array is truthy. */
  method SearchFilters(keys: seq<string>, searchNgram: string, isFirstRun: bool, view: string -> string)
    returns (searchResultsExact: seq<string>)
    ensures forall i :: 0 <= i < |searchResultsExact| ==> searchResultsExact[i] == searchNgram
    ensures |searchResultsExact| > 0 <==>
              searchNgram in keys &&
              (StartsWith(view(searchNgram), searchNgram) ||
               (isFirstRun && StartsWith(GetNthWord(view(searchNgram), 1), GetNthWord(searchNgram, 1))))
  {
    var similar := ngram => StartsWith(view(ngram), searchNgram);
    var similarFirstWord := ngram => StartsWith(GetNthWord(view(ngram), 1), GetNthWord(searchNgram, 1));
    var exact := ngram => ngram == searchNgram;
    var searchResultsSimilar := Filter(keys, similar);
    if isFirstRun {
      searchResultsSimilar := searchResultsSimilar + Filter(keys, similarFirstWord);
    } else {
      assert searchResultsSimilar + [] == searchResultsSimilar;
    }
    searchResultsExact := Filter(searchResultsSimilar, exact);
    FilterNarrowed(keys, similar, similarFirstWord, isFirstRun, exact, searchNgram);
  }

  /** The filters of one continuation step (markov.ts:106-111), for the
      normalizer `clean`: the keys whose normalized form starts with
      `currentNgramClean`, narrowed to those whose normalized form equals
      it. `resultsExact || resultsSimilar` is always the exact list, since
      an array is truthy. */
  method ContinuationFilters(keys: seq<string>, clean: string -> string, currentNgramClean: string)
    returns (resultsExact: seq<string>)
    ensures forall i :: 0 <= i < |resultsExact| ==>
              resultsExact[i] in keys && clean(resultsExact[i]) == currentNgramClean
    ensures forall k :: k in keys && clean(k) == currentNgramClean ==> k in resultsExact
    ensures |resultsExact| == 0 ==>
              forall i :: 0 <= i < |keys| ==> clean(keys[i]) != currentNgramClean
  {
    var similar := ngram => StartsWith(clean(ngram), currentNgramClean);
    var exact := ngram => clean(ngram) == currentNgramClean;
    var resultsSimilar := Filter(keys, similar);
    resultsExact := Filter(resultsSimilar, exact);
    forall i | 0 <= i < |resultsExact|
      ensures resultsExact[i] in keys && clean(resultsExact[i]) == currentNgramClean
    {
      var k := resultsExact[i];
      FilterMember(resultsSimilar, exact, k);
      FilterMember(keys, similar, k);
      assert exact(k);
    }
    forall k | k in keys && clean(k) == currentNgramClean
      ensures k in resultsExact
    {
      // an exact match is also a similar one, so both filters keep it
      StartsWithSelf(currentNgramClean);
      assert similar(k);
      FilterMember(keys, similar, k);
      FilterMember(resultsSimilar, exact, k);
    }
    forall i | 0 <= i < |keys| && |resultsExact| == 0
      ensures clean(keys[i]) != currentNgramClean
    {
      assert keys[i] in keys;
    }
  }
}
