/** The normalizer and the small list utilities of src/utils/helpers.ts,
    with the parts of the JavaScript runtime they lean on (`split`, `join`,
    `slice`, `splice`, `indexOf`, `filter`, `trim`, `startsWith`,
    `toLowerCase` and `Math.random`) written out. */
module Helpers {
  import opened Regex

  /** A JavaScript value that may be `undefined`. */
  datatype Option<T> = None | Some(value: T)

  /** A JavaScript `Map` with string keys: its entries and the order in
      which its keys were first inserted (the order `keys()` yields). */
  datatype OrderedMap<T> = OrderedMap(order: seq<string>, entries: map<string, T>) {
    ghost predicate Valid() {
      NoDuplicates(order) &&
      (forall k :: k in entries <==> k in order)
    }

    /** `map.get(key)`. */
    function Get(key: string): (v: Option<T>)
      ensures v.Some? <==> key in entries
    {
      if key in entries then Some(entries[key]) else None
    }
  }

  function Max(a: int, b: int): int {
    if a < b then b else a
  }

  predicate NoDuplicates(s: seq<string>) {
    forall i, j :: 0 <= i < j < |s| ==> s[i] != s[j]
  }

  predicate HasWhitespace(s: string) {
    exists i :: 0 <= i < |s| && IsWhitespace(s[i])
  }

  // ---------------------------------------------------------------------
  // Joining and splitting

  /** `Array.prototype.join(sep)`. */
  function Join(ts: seq<string>, sep: string): (r: string)
    ensures |ts| == 0 ==> r == ""
    ensures |ts| >= 1 ==> |ts[0]| <= |r| && r[..|ts[0]|] == ts[0]
  {
    if |ts| == 0 then ""
    else if |ts| == 1 then ts[0]
    else ts[0] + sep + Join(ts[1..], sep)
  }

  /** Drops the leading run of whitespace. */
  function SkipWhitespace(s: string): (r: string)
    ensures |r| <= |s|
    ensures s != [] && IsWhitespace(s[0]) ==> |r| < |s|
  {
    if s != [] && IsWhitespace(s[0]) then SkipWhitespace(s[1..]) else s
  }

  /** SkipWhitespace leaves a suffix of `s` that does not start with
      whitespace, and everything it dropped is whitespace. */
  lemma {:induction false} SkipWhitespaceSuffix(s: string)
    ensures var r := SkipWhitespace(s);
      r == s[|s| - |r|..] &&
      (r == [] || !IsWhitespace(r[0])) &&
      forall i :: 0 <= i < |s| - |r| ==> IsWhitespace(s[i])
  {
    if s != [] && IsWhitespace(s[0]) {
      SkipWhitespaceSuffix(s[1..]);
      var r := SkipWhitespace(s);
      assert r == SkipWhitespace(s[1..]);
      forall i | 0 <= i < |s| - |r| ensures IsWhitespace(s[i]) {
        if i > 0 {
          assert s[i] == s[1..][i - 1];
        }
      }
    }
  }

  /** `tokenize` (helpers.ts:8): `input.split(/\s+/g)`. The pieces between
      maximal whitespace runs; a leading or trailing run yields an empty
      first or last piece, and the empty string yields `[""]`. */
  function Tokenize(s: string): (r: seq<string>)
    decreases |s|
    ensures |r| >= 1
  {
    if s == [] then [""]
    else if IsWhitespace(s[0]) then [""] + Tokenize(SkipWhitespace(s))
    else
      var rest := Tokenize(s[1..]);
      [[s[0]] + rest[0]] + rest[1..]
  }

  /** A token list the tokenizer could have produced, or a suffix of one:
      no whitespace in any token, and no empty token inside. */
  predicate TokenShaped(ts: seq<string>) {
    (forall i :: 0 <= i < |ts| ==> !HasWhitespace(ts[i])) &&
    (forall i :: 0 < i < |ts| - 1 ==> ts[i] != "")
  }

  /** `tokenize` produces such lists, and input starting with a
      non-whitespace character has a non-empty first token. */
  lemma {:induction false} TokenizeShape(s: string)
    decreases |s|
    ensures TokenShaped(Tokenize(s))
    ensures s != [] && !IsWhitespace(s[0]) ==> Tokenize(s)[0] != ""
  {
    if s != [] {
      if IsWhitespace(s[0]) {
        TokenizeShape(SkipWhitespace(s));
        TokenizeShapeRun(s);
      } else {
        TokenizeShape(s[1..]);
        TokenizeShapeChar(s);
      }
    }
  }

  /** The step of TokenizeShape for input starting with whitespace: if what
      follows the run tokenizes to a token-shaped list, so does `s`. */
  lemma TokenizeShapeRun(s: string)
    requires s != [] && IsWhitespace(s[0])
    requires TokenShaped(Tokenize(SkipWhitespace(s)))
    requires SkipWhitespace(s) != [] && !IsWhitespace(SkipWhitespace(s)[0]) ==> Tokenize(SkipWhitespace(s))[0] != ""
    ensures TokenShaped(Tokenize(s))
  {
    var k := SkipWhitespace(s);
    SkipWhitespaceSuffix(s);
    var r := Tokenize(s);
    assert r == [""] + Tokenize(k);
    if k == [] {
      assert |r| == 2;
    }
    forall i | 0 < i < |r| - 1 ensures r[i] != "" {
      assert r[i] == Tokenize(k)[i - 1];
    }
    forall i | 0 <= i < |r| ensures !HasWhitespace(r[i]) {
      if i > 0 {
        assert r[i] == Tokenize(k)[i - 1];
      }
    }
  }

  /** The step of TokenizeShape for input starting with another character:
      if the rest tokenizes to a token-shaped list, so does `s`, and its
      first token is non-empty. */
  lemma TokenizeShapeChar(s: string)
    requires s != [] && !IsWhitespace(s[0])
    requires TokenShaped(Tokenize(s[1..]))
    ensures TokenShaped(Tokenize(s)) && Tokenize(s)[0] != ""
  {
    var rest := Tokenize(s[1..]);
    var r := Tokenize(s);
    assert r == [[s[0]] + rest[0]] + rest[1..];
    assert !HasWhitespace([s[0]] + rest[0]) by {
      forall j | 0 <= j < |[s[0]] + rest[0]| ensures !IsWhitespace(([s[0]] + rest[0])[j]) {
        if j > 0 {
          assert ([s[0]] + rest[0])[j] == rest[0][j - 1];
        }
      }
    }
    forall i | 0 <= i < |r| ensures !HasWhitespace(r[i]) {
      if i > 0 {
        assert r[i] == rest[i];
      }
    }
    forall i | 0 < i < |r| - 1 ensures r[i] != "" {
      assert r[i] == rest[i];
    }
  }

  /** The reference for what `tokenize` does: `s` with every maximal run of
      whitespace replaced by a single space. */
  function CollapseWhitespace(s: string): (r: string)
    decreases |s|
  {
    if s == [] then []
    else if IsWhitespace(s[0]) then " " + CollapseWhitespace(SkipWhitespace(s))
    else [s[0]] + CollapseWhitespace(s[1..])
  }

  lemma JoinConsFirst(c: char, ts: seq<string>, sep: string)
    requires |ts| >= 1
    ensures Join([[c] + ts[0]] + ts[1..], sep) == [c] + Join(ts, sep)
  {
  }

  /** Joining the tokens with single spaces gives back the input with its
      whitespace runs collapsed, so no character other than whitespace is
      lost or reordered by `tokenize`. */
  lemma {:induction false} TokenizeJoin(s: string)
    decreases |s|
    ensures Join(Tokenize(s), " ") == CollapseWhitespace(s)
  {
    if s == [] {
    } else if IsWhitespace(s[0]) {
      var k := SkipWhitespace(s);
      TokenizeJoin(k);
      assert Tokenize(s) == [""] + Tokenize(k);
      assert (["" ] + Tokenize(k))[1..] == Tokenize(k);
    } else {
      TokenizeJoin(s[1..]);
      JoinConsFirst(s[0], Tokenize(s[1..]), " ");
    }
  }

  /** A string without whitespace is a single token. */
  lemma {:induction false} TokenizeWord(t: string)
    requires !HasWhitespace(t)
    ensures Tokenize(t) == [t]
  {
    if t != [] {
      assert !HasWhitespace(t[1..]) by {
        forall i | 0 <= i < |t[1..]| ensures !IsWhitespace(t[1..][i]) {
          assert t[1..][i] == t[i + 1];
        }
      }
      TokenizeWord(t[1..]);
      assert !IsWhitespace(t[0]);
      assert [t[0]] + t[1..] == t;
    }
  }

  /** A whitespace-free prefix glues onto the first token. */
  lemma {:induction false} TokenizeGlue(t: string, u: string)
    requires !HasWhitespace(t)
    ensures Tokenize(t + u) == [t + Tokenize(u)[0]] + Tokenize(u)[1..]
  {
    if t != [] {
      assert !HasWhitespace(t[1..]) by {
        forall i | 0 <= i < |t[1..]| ensures !IsWhitespace(t[1..][i]) {
          assert t[1..][i] == t[i + 1];
        }
      }
      assert (t + u)[0] == t[0];
      assert (t + u)[1..] == t[1..] + u;
      TokenizeGlue(t[1..], u);
      assert t == [t[0]] + t[1..];
      assert [t[0]] + (t[1..] + Tokenize(u)[0]) == t + Tokenize(u)[0];
    } else {
      assert t + u == u;
      assert t + Tokenize(u)[0] == Tokenize(u)[0];
      assert [Tokenize(u)[0]] + Tokenize(u)[1..] == Tokenize(u);
    }
  }

  /** `tokenize` undoes `join(' ')` on any list it could itself have
      produced: tokens without whitespace, non-empty except possibly at the
      two ends. */
  lemma {:induction false} TokenizeJoinInverse(ts: seq<string>)
    requires |ts| >= 1
    requires forall i :: 0 <= i < |ts| ==> !HasWhitespace(ts[i])
    requires forall i :: 0 < i < |ts| - 1 ==> ts[i] != ""
    ensures Tokenize(Join(ts, " ")) == ts
  {
    if |ts| == 1 {
      TokenizeWord(ts[0]);
    } else {
      var rest := ts[1..];
      var j := Join(rest, " ");
      TokenizeJoinInverse(rest);
      assert Join(ts, " ") == ts[0] + (" " + j);
      assert SkipWhitespace(" " + j) == j by {
        if j != [] {
          assert rest[0] != "";
          assert j[0] == rest[0][0];
          assert !IsWhitespace(j[0]);
        }
        assert (" " + j)[1..] == j;
      }
      assert Tokenize(" " + j) == [""] + rest;
      TokenizeGlue(ts[0], " " + j);
      assert ([""] + rest)[1..] == rest;
      assert ts[0] + "" == ts[0];
      assert ts == [ts[0]] + rest;
    }
  }

  /** `String.prototype.split(' ')`: the pieces between single spaces. */
  function SplitOnSpace(s: string): (r: seq<string>)
    ensures |r| >= 1
    ensures forall i :: 0 <= i < |r| ==> ' ' !in r[i]
  {
    if s == [] then [""]
    else if s[0] == ' ' then [""] + SplitOnSpace(s[1..])
    else
      var rest := SplitOnSpace(s[1..]);
      [[s[0]] + rest[0]] + rest[1..]
  }

  /** Splitting on spaces and joining with spaces is the identity. */
  lemma {:induction false} SplitOnSpaceJoin(s: string)
    ensures Join(SplitOnSpace(s), " ") == s
  {
    if s != [] {
      SplitOnSpaceJoin(s[1..]);
      if s[0] == ' ' {
        assert ([""] + SplitOnSpace(s[1..]))[1..] == SplitOnSpace(s[1..]);
      } else {
        JoinConsFirst(s[0], SplitOnSpace(s[1..]), " ");
      }
    }
  }

  /** `getNthWord` (helpers.ts:88): the `k`-th piece (counting from 1) of
      `s` split on single spaces, or `''` when there is no such piece. */
  function GetNthWord(s: string, k: int): (r: string)
    ensures ' ' !in r
    ensures 1 <= k <= |SplitOnSpace(s)| ==> r == SplitOnSpace(s)[k - 1]
    ensures (k < 1 || k > |SplitOnSpace(s)|) ==> r == ""
  {
    var pieces := SplitOnSpace(s);
    if 1 <= k <= |pieces| then pieces[k - 1] else ""
  }

  /** The first word is everything before the first space. */
  lemma {:induction false} FirstWordIsPrefix(s: string)
    ensures var w := GetNthWord(s, 1);
      |w| <= |s| && w == s[..|w|] && (|w| == |s| || s[|w|] == ' ')
  {
    if s != [] && s[0] != ' ' {
      FirstWordIsPrefix(s[1..]);
      assert GetNthWord(s, 1) == [s[0]] + GetNthWord(s[1..], 1);
    }
  }

  /** `String.prototype.startsWith`. */
  predicate StartsWith(s: string, prefix: string) {
    |prefix| <= |s| && s[..|prefix|] == prefix
  }

  lemma StartsWithSelf(s: string)
    ensures StartsWith(s, s)
  {
  }

  // ---------------------------------------------------------------------
  // Trimming

  function TrimEnd(s: string): (r: string)
    ensures |r| <= |s| && r == s[..|r|]
    ensures r == [] || !IsWhitespace(r[|r| - 1])
    ensures forall i :: |r| <= i < |s| ==> IsWhitespace(s[i])
  {
    if s != [] && IsWhitespace(s[|s| - 1]) then TrimEnd(s[..|s| - 1]) else s
  }

  /** `String.prototype.trim`: drops leading and trailing whitespace. The
      result is a slice of `s` with only whitespace before and after it,
      and, unless empty, it neither starts nor ends with whitespace. */
  function Trim(s: string): (r: string)
    ensures |r| <= |s|
    ensures exists i :: TrimmedAt(s, r, i)
    ensures r == [] || (!IsWhitespace(r[0]) && !IsWhitespace(r[|r| - 1]))
  {
    SkipWhitespaceSuffix(s);
    var k := SkipWhitespace(s);
    var r := TrimEnd(k);
    var i := |s| - |k|;
    assert r == s[i..i + |r|] by {
      assert r == k[..|r|];
    }
    assert forall j :: i + |r| <= j < |s| ==> IsWhitespace(s[j]) by {
      forall j | i + |r| <= j < |s| ensures IsWhitespace(s[j]) {
        assert s[j] == k[j - i];
      }
    }
    assert TrimmedAt(s, r, i);
    r
  }

  /** `r` is the slice of `s` at offset `i`, with only whitespace before
      and after it. */
  predicate TrimmedAt(s: string, r: string, i: int) {
    0 <= i <= |s| - |r| && r == s[i..i + |r|] &&
    (forall j :: 0 <= j < i ==> IsWhitespace(s[j])) &&
    (forall j :: i + |r| <= j < |s| ==> IsWhitespace(s[j]))
  }

  /** Trim's contract pins its value: any slice of `s` with only whitespace
      around it that neither starts nor ends with whitespace is Trim(s). */
  lemma TrimUnique(s: string, r: string, i: int)
    requires TrimmedAt(s, r, i)
    requires r == [] || (!IsWhitespace(r[0]) && !IsWhitespace(r[|r| - 1]))
    ensures r == Trim(s)
  {
    var t := Trim(s);
    var i' :| TrimmedAt(s, t, i');
    if r != [] && t != [] {
      assert s[i] == r[0] && s[i + |r| - 1] == r[|r| - 1];
      assert s[i'] == t[0] && s[i' + |t| - 1] == t[|t| - 1];
      assert i == i' && |r| == |t|;
    }
  }

  /** A search term trims to nothing exactly when it is blank. */
  lemma TrimBlank(s: string)
    ensures Trim(s) == "" <==> forall i :: 0 <= i < |s| ==> IsWhitespace(s[i])
    ensures Trim(s) != "" ==> !IsWhitespace(Trim(s)[0]) && !IsWhitespace(Trim(s)[|Trim(s)| - 1])
  {
    var k := SkipWhitespace(s);
    SkipWhitespaceSuffix(s);
    if Trim(s) == "" {
      // `k` starts with non-whitespace, and TrimEnd removed all of it
      assert k == [];
    }
    if Trim(s) != "" {
      assert Trim(s)[0] == k[0];
    }
  }

  // ---------------------------------------------------------------------
  // Cleaning

  /** `toLowerCase`, on ASCII letters only. */
  function Lower(c: char): (r: char)
  {
    if 'A' <= c <= 'Z' then (c as int + 32) as char else c
  }

  function LowerCase(s: string): (r: string)
    ensures |r| == |s|
    ensures forall i :: 0 <= i < |s| ==> r[i] == Lower(s[i])
  {
    seq(|s|, i requires 0 <= i < |s| => Lower(s[i]))
  }

  /** `s.replace(re, '')` for a global character-class pattern `re`: the
      characters of `s` outside the class, in order (StripChar and
      StripAppend determine it character by character). */
  function Strip(s: string, re: Pattern): (r: string)
    ensures |r| <= |s|
  {
    if s == [] then []
    else
      var rest := Strip(s[1..], re);
      if InClass(re, s[0]) then rest else [s[0]] + rest
  }

  /** What is left after `replace` is drawn from `s` and holds nothing of
      the class. */
  lemma {:induction false} StripKeeps(s: string, re: Pattern)
    ensures forall i :: 0 <= i < |Strip(s, re)| ==> Strip(s, re)[i] in s && !InClass(re, Strip(s, re)[i])
  {
    if s != [] {
      StripKeeps(s[1..], re);
      var rest := Strip(s[1..], re);
      assert forall c :: c in s[1..] ==> c in s;
      if !InClass(re, s[0]) {
        var r := [s[0]] + rest;
        forall i | 0 <= i < |r| ensures r[i] in s && !InClass(re, r[i]) {
          if i > 0 {
            assert r[i] == rest[i - 1];
          }
        }
      }
    }
  }

  /** Nothing is left exactly when every character is in the class. */
  lemma {:induction false} StripEmpty(s: string, re: Pattern)
    ensures Strip(s, re) == [] <==> forall i :: 0 <= i < |s| ==> InClass(re, s[i])
  {
    if s != [] {
      StripEmpty(s[1..], re);
      if forall i :: 0 <= i < |s| ==> InClass(re, s[i]) {
        forall i | 0 <= i < |s[1..]| ensures InClass(re, s[1..][i]) {
          assert s[1..][i] == s[i + 1];
        }
      } else if InClass(re, s[0]) {
        var i :| 0 <= i < |s| && !InClass(re, s[i]);
        assert s[1..][i - 1] == s[i];
      }
    }
  }

  /** A string with no character in the class is left as it is. */
  lemma {:induction false} StripNone(s: string, re: Pattern)
    requires forall i :: 0 <= i < |s| ==> !InClass(re, s[i])
    ensures Strip(s, re) == s
  {
    if s != [] {
      forall i | 0 <= i < |s[1..]| ensures !InClass(re, s[1..][i]) {
        assert s[1..][i] == s[i + 1];
      }
      StripNone(s[1..], re);
      assert [s[0]] + s[1..] == s;
    }
  }

  /** A single character is dropped exactly when it is in the class. */
  lemma StripChar(c: char, re: Pattern)
    ensures Strip([c], re) == if InClass(re, c) then [] else [c]
  {
    assert [c][1..] == [];
  }

  /** `replace` works on each part of a string separately: together with
      StripChar this fixes, for every string, which characters are kept
      and that they stay in order. */
  lemma {:induction false} StripAppend(a: string, b: string, re: Pattern)
    ensures Strip(a + b, re) == Strip(a, re) + Strip(b, re)
  {
    if a == [] {
      assert a + b == b;
    } else {
      assert (a + b)[0] == a[0];
      assert (a + b)[1..] == a[1..] + b;
      StripAppend(a[1..], b, re);
    }
  }

  /** Whether every character of `s` is in the class of `re`: the same
      fact as the `forall` of StripEmpty, written recursively so that Clean
      can branch on it without a quantifier (which keeps proofs about
      Clean cheap); StripAllInClass links it to Strip. */
  predicate AllInClass(s: string, re: Pattern) {
    s == [] || (InClass(re, s[0]) && AllInClass(s[1..], re))
  }

  /** `replace` leaves nothing exactly when every character is in the
      class. */
  lemma {:induction false} StripAllInClass(s: string, re: Pattern)
    ensures Strip(s, re) == [] <==> AllInClass(s, re)
  {
    if s != [] {
      StripAllInClass(s[1..], re);
    }
  }

  /** `clean` (helpers.ts:15-17): punctuation removed and lower-cased, or,
      when that leaves nothing (every character is punctuation), `s` with
      `[A-z 0-9]` removed. The test on the input rather than on the
      stripped string is CleanAsWritten. */
  function Clean(s: string): string
  {
    if AllInClass(s, MatchPunctuation) then Strip(s, MatchAlphanumeric)
    else LowerCase(Strip(s, MatchPunctuation))
  }

  /** Clean is `replace(matchPunctuation, '').toLowerCase() ||
      replace(matchAlphanumeric, '')`: the first string unless it is
      empty. */
  lemma CleanAsWritten(s: string)
    ensures var stripped := LowerCase(Strip(s, MatchPunctuation));
      Clean(s) == if stripped != "" then stripped else Strip(s, MatchAlphanumeric)
  {
    StripAllInClass(s, MatchPunctuation);
  }

  /** Lower-casing maps no character into or out of the punctuation class
      and leaves no upper-case ASCII letter. */
  lemma LowerChar(c: char)
    ensures !('A' <= Lower(c) <= 'Z')
    ensures IsPunctuation(Lower(c)) <==> IsPunctuation(c)
    ensures !('A' <= c <= 'Z') ==> Lower(c) == c
  {
  }

  /** The two branches of `clean`, told apart by whether `s` has a
      character outside the punctuation class. */
  lemma CleanCases(s: string)
    ensures (exists i :: 0 <= i < |s| && !IsPunctuation(s[i])) ==>
              Clean(s) == LowerCase(Strip(s, MatchPunctuation)) && Clean(s) != "" &&
              forall i :: 0 <= i < |Clean(s)| ==> !IsPunctuation(Clean(s)[i]) && !('A' <= Clean(s)[i] <= 'Z')
    ensures (forall i :: 0 <= i < |s| ==> IsPunctuation(s[i])) ==>
              Clean(s) == Strip(s, MatchAlphanumeric) &&
              forall i :: 0 <= i < |Clean(s)| ==> IsPunctuation(Clean(s)[i]) && !IsAlphanumeric(Clean(s)[i])
  {
    var p := Strip(s, MatchPunctuation);
    var l := LowerCase(p);
    StripKeeps(s, MatchPunctuation);
    StripEmpty(s, MatchPunctuation);
    StripAllInClass(s, MatchPunctuation);
    StripKeeps(s, MatchAlphanumeric);
    if exists i :: 0 <= i < |s| && !IsPunctuation(s[i]) {
      assert p != [];
      assert Clean(s) == l;
      forall i | 0 <= i < |l| ensures !IsPunctuation(l[i]) && !('A' <= l[i] <= 'Z') {
        assert !InClass(MatchPunctuation, p[i]);
        LowerChar(p[i]);
      }
    } else {
      assert forall i :: 0 <= i < |s| ==> InClass(MatchPunctuation, s[i]);
      assert p == [];
      var q := Strip(s, MatchAlphanumeric);
      assert Clean(s) == q;
      forall i | 0 <= i < |q| ensures IsPunctuation(q[i]) && !IsAlphanumeric(q[i]) {
        assert q[i] in s && !InClass(MatchAlphanumeric, q[i]);
        var j :| 0 <= j < |s| && s[j] == q[i];
      }
    }
  }

  /** `clean("")` is `""`, and `clean` returns `""` exactly when every
      character is one of the six shared by both classes (codes 91–96). */
  lemma CleanEmpty(s: string)
    ensures Clean("") == ""
    ensures Clean(s) == "" <==> forall i :: 0 <= i < |s| ==> 91 <= s[i] as int <= 96
  {
    assert Strip("", MatchPunctuation) == "";
    StripEmpty(s, MatchPunctuation);
    StripEmpty(s, MatchAlphanumeric);
    if forall i :: 0 <= i < |s| ==> 91 <= s[i] as int <= 96 {
      forall i | 0 <= i < |s| ensures InClass(MatchPunctuation, s[i]) && InClass(MatchAlphanumeric, s[i]) {
        PunctuationAlphanumericOverlap(s[i]);
      }
      assert Strip(s, MatchPunctuation) == [];
      assert Strip(s, MatchAlphanumeric) == [];
    }
    if Clean(s) == "" {
      CleanCases(s);
      if exists i :: 0 <= i < |s| && !IsPunctuation(s[i]) {
        assert false;
      }
      forall i | 0 <= i < |s| ensures 91 <= s[i] as int <= 96 {
        assert Strip(s, MatchAlphanumeric) == [];
        assert InClass(MatchAlphanumeric, s[i]);
        PunctuationAlphanumericOverlap(s[i]);
      }
    }
  }

  /** Under the ASCII lower-casing model, `clean` is idempotent. */
  lemma CleanIdempotent(s: string)
    ensures Clean(Clean(s)) == Clean(s)
  {
    var c := Clean(s);
    CleanCases(s);
    if exists i :: 0 <= i < |s| && !IsPunctuation(s[i]) {
      assert forall i :: 0 <= i < |c| ==> !InClass(MatchPunctuation, c[i]);
      StripNone(c, MatchPunctuation);
      forall i | 0 <= i < |c| ensures LowerCase(c)[i] == c[i] {
        LowerChar(c[i]);
      }
      assert LowerCase(c) == c;
      StripAllInClass(c, MatchPunctuation);
    } else if c != "" {
      assert forall i :: 0 <= i < |c| ==> InClass(MatchPunctuation, c[i]);
      assert forall i :: 0 <= i < |c| ==> !InClass(MatchAlphanumeric, c[i]);
      StripEmpty(c, MatchPunctuation);
      StripAllInClass(c, MatchPunctuation);
      StripNone(c, MatchAlphanumeric);
    } else {
      assert AllInClass(c, MatchPunctuation);
    }
  }

  // ---------------------------------------------------------------------
  // Random selection

  /** `Math.floor(r * len)`. */
  function RandomIndex(r: real, len: nat): int {
    (r * len as real).Floor
  }

  /** A draw of `Math.random()` lands on a valid index of a non-empty list. */
  lemma RandomIndexInRange(r: real, len: nat)
    requires 0.0 <= r < 1.0 && len > 0
    ensures 0 <= RandomIndex(r, len) < len
  {
  }

  /** Every index of a non-empty list is chosen by some draw. */
  lemma RandomIndexReachable(k: nat, len: nat)
    requires k < len
    ensures 0.0 <= k as real / len as real < 1.0
    ensures RandomIndex(k as real / len as real, len) == k
  {
  }

  /** `randomChoice` (helpers.ts:24): the element at `floor(r * length)`,
      `undefined` when the list is empty. */
  function RandomChoice(choices: seq<string>, r: real): (c: Option<string>)
    ensures |choices| == 0 ==> c == None
    ensures 0.0 <= r < 1.0 && |choices| > 0 ==>
              0 <= RandomIndex(r, |choices|) < |choices| && c == Some(choices[RandomIndex(r, |choices|)]) && c.value in choices
  {
    var i := RandomIndex(r, |choices|);
    if 0 <= i < |choices| then Some(choices[i])
    else
      assert !(0.0 <= r < 1.0 && |choices| > 0) by {
        if 0.0 <= r < 1.0 && |choices| > 0 { RandomIndexInRange(r, |choices|); }
      }
      None
  }

  /** `randomKeyFromMap` (helpers.ts:49-60): walks the keys in insertion
      order with a counter and keeps the one whose position is
      `floor(r * size)`, or `''` when none is. */
  method RandomKeyFromMap<T>(m: OrderedMap<T>, r: real) returns (chosenKey: string)
    ensures 0.0 <= r < 1.0 && |m.order| > 0 ==>
              0 <= RandomIndex(r, |m.order|) < |m.order| && chosenKey == m.order[RandomIndex(r, |m.order|)]
    ensures !(0 <= RandomIndex(r, |m.order|) < |m.order|) ==> chosenKey == ""
  {
    var index := 0;
    chosenKey := "";
    var indexToChoose := RandomIndex(r, |m.order|);
    for i := 0 to |m.order|
      invariant index == i
      invariant chosenKey == ""
      invariant indexToChoose < 0 || indexToChoose >= i
    {
      var key := m.order[i];
      var hit := index == indexToChoose;
      index := index + 1;
      if hit {
        chosenKey := key;
        break;
      }
    }
    if 0.0 <= r < 1.0 && |m.order| > 0 {
      RandomIndexInRange(r, |m.order|);
    }
  }

  /** `randomChoiceFromMap` (helpers.ts:31-42): the same walk, returning
      `map.get` of the chosen key (`undefined` for an empty map). */
  method RandomChoiceFromMap<T>(m: OrderedMap<T>, r: real) returns (chosen: Option<T>)
    requires m.Valid()
    ensures 0.0 <= r < 1.0 && |m.order| > 0 ==>
              0 <= RandomIndex(r, |m.order|) < |m.order| && chosen == Some(m.entries[m.order[RandomIndex(r, |m.order|)]])
    ensures |m.order| == 0 ==> chosen == None
  {
    var index := 0;
    var chosenKey := "";
    var indexToChoose := RandomIndex(r, |m.order|);
    for i := 0 to |m.order|
      invariant index == i
      invariant chosenKey == ""
      invariant indexToChoose < 0 || indexToChoose >= i
    {
      var key := m.order[i];
      var hit := index == indexToChoose;
      index := index + 1;
      if hit {
        chosenKey := key;
        break;
      }
    }
    if 0.0 <= r < 1.0 && |m.order| > 0 {
      RandomIndexInRange(r, |m.order|);
    }
    chosen := m.Get(chosenKey);
  }

  // ---------------------------------------------------------------------
  // Slicing

  /** Where `Array.prototype.slice(start)` starts on a list of length
      `len`: a negative start counts from the end, clamped at 0. */
  function SliceStart(len: nat, start: int): (s: nat)
    ensures s <= len
  {
    if start < 0 then Max(len + start, 0) else if start < len then start else len
  }

  /** `getNLastItems` (helpers.ts:68-70): `slice(length - n, length)`
      joined with spaces. */
  function GetNLastItems(allItems: seq<string>, n: nat): (r: string)
    ensures n <= |allItems| ==> r == Join(allItems[|allItems| - n..], " ")
    ensures n > |allItems| ==> r == Join(allItems[Max(2 * |allItems| - n, 0)..], " ")
  {
    Join(allItems[SliceStart(|allItems|, |allItems| - n)..], " ")
  }

  /** `Array.prototype.splice(start)` with no delete count: the removed
      tail from `start` on, which is what the call returns. */
  function SpliceFrom(ts: seq<string>, start: nat): (r: seq<string>)
    ensures |r| == Max(|ts| - start, 0)
    ensures forall i :: 0 <= i < |r| ==> r[i] == ts[start + i]
    // what `splice` leaves in the array, followed by what it returns, is
    // the array it was given
    ensures start <= |ts| ==> ts[..start] + r == ts
  {
    if start <= |ts| then
      assert ts[..start] + ts[start..] == ts;
      ts[start..]
    else []
  }

  /** `Array.prototype.filter`: the elements of `s` that `keep` accepts, in
      order. Membership is stated by FilterMember. */
  function Filter(s: seq<string>, keep: string -> bool): (r: seq<string>)
    ensures |r| <= |s|
  {
    if s == [] then []
    else
      var rest := Filter(s[1..], keep);
      if keep(s[0]) then [s[0]] + rest else rest
  }

  /** An element is kept exactly when it is in the input and accepted. */
  lemma {:induction false} FilterMember(s: seq<string>, keep: string -> bool, x: string)
    ensures x in Filter(s, keep) <==> x in s && keep(x)
  {
    if s != [] {
      FilterMember(s[1..], keep, x);
      assert x in s <==> x == s[0] || x in s[1..];
    }
  }

  /** Every kept element is accepted. */
  lemma {:induction false} FilterKeeps(s: seq<string>, keep: string -> bool, i: nat)
    requires i < |Filter(s, keep)|
    ensures keep(Filter(s, keep)[i])
  {
    FilterMember(s, keep, Filter(s, keep)[i]);
  }

  /** The two-stage search filter: the elements of `keys` accepted by
      `similar` (and, when `widen`, those accepted by `alsoSimilar`),
      narrowed by `exact`, which accepts `target` alone. What is left is
      `target`, repeated, and it is non-empty exactly when `target` is in
      `keys` and one of the first filters accepts it. */
  lemma FilterNarrowed(keys: seq<string>, similar: string -> bool, alsoSimilar: string -> bool, widen: bool,
                       exact: string -> bool, target: string)
    requires forall x :: exact(x) <==> x == target
    ensures var candidates := Filter(keys, similar) + (if widen then Filter(keys, alsoSimilar) else []);
      var narrowed := Filter(candidates, exact);
      (|narrowed| > 0 <==> target in keys && (similar(target) || (widen && alsoSimilar(target)))) &&
      forall i :: 0 <= i < |narrowed| ==> narrowed[i] == target
  {
    var candidates := Filter(keys, similar) + (if widen then Filter(keys, alsoSimilar) else []);
    var narrowed := Filter(candidates, exact);
    FilterMember(keys, similar, target);
    FilterMember(keys, alsoSimilar, target);
    FilterMember(candidates, exact, target);
    forall i | 0 <= i < |narrowed| ensures narrowed[i] == target {
      FilterKeeps(candidates, exact, i);
    }
    if |narrowed| > 0 {
      assert narrowed[0] in narrowed;
    }
  }

  // ---------------------------------------------------------------------
  // In-place removal

  /** A JavaScript `string[]` that is changed in place. */
  class StringList {
    var items: seq<string>

    constructor (items: seq<string>)
      ensures this.items == items
    {
      this.items := items;
    }
  }

  /** `Array.prototype.indexOf`: the first position of `x`, or -1. */
  function IndexOf(a: seq<string>, x: string): (i: int)
    ensures -1 <= i < |a|
    ensures i == -1 <==> x !in a
    ensures 0 <= i ==> a[i] == x && x !in a[..i]
  {
    if a == [] then -1
    else if a[0] == x then 0
    else
      var j := IndexOf(a[1..], x);
      if j == -1 then -1
      else
        assert a[..j + 1] == [a[0]] + a[1..][..j];
        j + 1
  }

  /** The reference for `removeArrayItemIfPresent`: the list without the
      first occurrence of `x`. */
  function RemoveFirst(a: seq<string>, x: string): (r: seq<string>)
  {
    if a == [] then []
    else if a[0] == x then a[1..]
    else [a[0]] + RemoveFirst(a[1..], x)
  }

  /** Removing an absent `x` leaves the list as it was. */
  lemma {:induction false} RemoveFirstAbsent(a: seq<string>, x: string)
    requires x !in a
    ensures RemoveFirst(a, x) == a
  {
    if a != [] {
      assert a == [a[0]] + a[1..];
      RemoveFirstAbsent(a[1..], x);
    }
  }

  /** When `i` is the first position of `x`, removal splices out exactly
      position `i`. */
  lemma {:induction false} RemoveFirstAt(a: seq<string>, x: string, i: nat)
    requires i < |a| && a[i] == x && x !in a[..i]
    ensures RemoveFirst(a, x) == a[..i] + a[i + 1..]
  {
    if i > 0 {
      var rest := a[1..];
      assert a[0] != x by { assert a[0] == a[..i][0]; }
      assert rest[..i - 1] == a[..i][1..];
      RemoveFirstAt(rest, x, i - 1);
      assert a[..i] == [a[0]] + rest[..i - 1];
      assert a[i + 1..] == rest[i..];
    }
  }

  /** Removing the first occurrence drops exactly one `x` and keeps the
      others in order; an absent `x` leaves the list as it was. */
  lemma RemoveFirstSplice(a: seq<string>, x: string)
    ensures x !in a ==> RemoveFirst(a, x) == a
    ensures x in a ==> RemoveFirst(a, x) == a[..IndexOf(a, x)] + a[IndexOf(a, x) + 1..]
  {
    if x in a {
      RemoveFirstAt(a, x, IndexOf(a, x));
    } else {
      RemoveFirstAbsent(a, x);
    }
  }

  /** Removal takes out exactly one occurrence of a present `x`. */
  lemma {:induction false} RemoveFirstCount(a: seq<string>, x: string)
    requires x in a
    ensures multiset(RemoveFirst(a, x)) == multiset(a) - multiset{x}
  {
    assert a == [a[0]] + a[1..];
    if a[0] != x {
      RemoveFirstCount(a[1..], x);
    }
  }

  /** Splicing out position `i` shifts the elements after it down by one. */
  lemma SpliceOut(a: seq<string>, i: nat, r: seq<string>)
    requires i < |a| && r == a[..i] + a[i + 1..]
    ensures |r| == |a| - 1
    ensures forall p :: 0 <= p < |r| ==> r[p] == a[if p < i then p else p + 1]
  {
  }

  /** On a duplicate-free list (such as a map's keys), removal deletes `x`
      and nothing else, and the list stays duplicate-free. */
  lemma RemoveFirstDistinct(a: seq<string>, x: string)
    requires NoDuplicates(a)
    ensures NoDuplicates(RemoveFirst(a, x))
    ensures forall y :: y in RemoveFirst(a, x) <==> y in a && y != x
  {
    RemoveFirstSplice(a, x);
    if x in a {
      var i := IndexOf(a, x);
      var r := RemoveFirst(a, x);
      SpliceOut(a, i, r);
      assert forall p :: 0 <= p < |r| ==> r[p] == a[if p < i then p else p + 1];
      forall p, q | 0 <= p < q < |r| ensures r[p] != r[q] {
        assert r[p] == a[if p < i then p else p + 1];
        assert r[q] == a[if q < i then q else q + 1];
      }
      forall y | y in a && y != x ensures y in r {
        var k :| 0 <= k < |a| && a[k] == y;
        assert k != i;
        var p := if k < i then k else k - 1;
        assert r[p] == y;
      }
      forall y | y in r ensures y in a && y != x {
        var p :| 0 <= p < |r| && r[p] == y;
        var k := if p < i then p else p + 1;
        assert a[k] == y && k != i;
      }
    }
  }

  /** `removeArrayItemIfPresent` (helpers.ts:77-80): splices the first
      occurrence of `itemToRemove` out of `list` (the source's `array`) in place. */
  method RemoveArrayItemIfPresent(list: StringList, itemToRemove: string)
    modifies list
    ensures list.items == RemoveFirst(old(list.items), itemToRemove)
  {
    RemoveFirstSplice(list.items, itemToRemove);
    var index := IndexOf(list.items, itemToRemove);
    if index > -1 {
      list.items := list.items[..index] + list.items[index + 1..];
    }
  }
}
