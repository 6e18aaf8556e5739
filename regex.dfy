/** Character classes of the three regular expressions the normalizer uses
    (src/utils/regex.ts). Each class is a predicate on a single character;
    `matchWhitespace` (`/\s+/g`) is realised by the tokenizer in Helpers,
    which splits at maximal runs of IsWhitespace characters. */
module Regex {

  /** `matchPunctuation`: U+2000–U+206F, U+2E00–U+2E7F and the ASCII
      punctuation listed in the bracket expression, which is every ASCII
      character that is neither a letter, a digit, a space nor a control
      character (codes 33–47, 58–64, 91–96 and 123–126; PunctuationListed
      checks this against the list itself). */
  predicate IsPunctuation(c: char) {
    ('\U{2000}' <= c <= '\U{206F}') ||
    ('\U{2E00}' <= c <= '\U{2E7F}') ||
    (33 <= c as int <= 47) || (58 <= c as int <= 64) ||
    (91 <= c as int <= 96) || (123 <= c as int <= 126)
  }

  /** The ASCII characters of the bracket expression of `matchPunctuation`,
      as listed there. */
  const PunctuationList: string := "\\'!\"#$%&()*+,-./:;<=>?@[]^_`{|}~"

  /** The code-point ranges of IsPunctuation are exactly the listed
      characters. */
  lemma PunctuationListed(c: char)
    ensures IsPunctuation(c) <==>
              ('\U{2000}' <= c <= '\U{206F}') || ('\U{2E00}' <= c <= '\U{2E7F}') || c in PunctuationList
  {
  }

  /** `matchAlphanumeric`, i.e. `[A-z 0-9]`: the range A..z (codes 65–122,
      which takes in the six characters between `Z` and `a`), space and the
      digits. */
  predicate IsAlphanumeric(c: char) {
    ('A' <= c <= 'z') || c == ' ' || ('0' <= c <= '9')
  }

  /** The characters JavaScript's `\s` matches (ECMAScript WhiteSpace and
      LineTerminator); `String.prototype.trim` strips the same set. */
  predicate IsWhitespace(c: char) {
    c == '\t' || c == '\n' || c == '\U{000B}' || c == '\U{000C}' || c == '\r' ||
    c == ' ' || c == '\U{00A0}' || c == '\U{1680}' ||
    ('\U{2000}' <= c <= '\U{200A}') ||
    c == '\U{2028}' || c == '\U{2029}' || c == '\U{202F}' || c == '\U{205F}' ||
    c == '\U{3000}' || c == '\U{FEFF}'
  }

  /** The three global patterns the normalizer passes to `replace` and
      `split`, named as in regex.ts. */
  datatype Pattern = MatchPunctuation | MatchAlphanumeric | MatchWhitespace

  /** Whether one character is in the class of a pattern. */
  predicate InClass(p: Pattern, c: char) {
    match p
    case MatchPunctuation => IsPunctuation(c)
    case MatchAlphanumeric => IsAlphanumeric(c)
    case MatchWhitespace => IsWhitespace(c)
  }

  predicate IsAsciiLetter(c: char) {
    ('A' <= c <= 'Z') || ('a' <= c <= 'z')
  }

  predicate IsDigit(c: char) {
    '0' <= c <= '9'
  }

  /** The punctuation class has the two Unicode blocks, every ASCII
      punctuation character, and no letter, digit or space. */
  lemma PunctuationClass(c: char)
    ensures ('\U{2000}' <= c <= '\U{206F}' || '\U{2E00}' <= c <= '\U{2E7F}') ==> IsPunctuation(c)
    ensures (33 <= c as int <= 47 || 58 <= c as int <= 64 || 91 <= c as int <= 96 || 123 <= c as int <= 126)
            <==> (c as int < 128 && IsPunctuation(c))
    ensures IsAsciiLetter(c) || IsDigit(c) || c == ' ' ==> !IsPunctuation(c)
  {
  }

  /** `[A-z 0-9]` is the letters, digits and space plus exactly the six
      characters `[`, `\`, `]`, `^`, `_` and the backquote (codes 91–96). */
  lemma AlphanumericClass(c: char)
    ensures IsAlphanumeric(c) <==> IsAsciiLetter(c) || IsDigit(c) || c == ' ' || 91 <= c as int <= 96
  {
  }

  /** The two classes overlap in exactly the codes 91–96, so the fallback
      branch of `clean`, which removes `[A-z 0-9]`, keeps every other
      punctuation character. */
  lemma PunctuationAlphanumericOverlap(c: char)
    ensures IsPunctuation(c) && IsAlphanumeric(c) <==> 91 <= c as int <= 96
  {
  }

  /** Space is the only character that is whitespace and in `[A-z 0-9]`;
      the whitespace characters of the General Punctuation block are also
      punctuation, so `clean` deletes them. */
  lemma WhitespaceOverlaps(c: char)
    ensures IsWhitespace(c) && IsAlphanumeric(c) <==> c == ' '
    ensures IsWhitespace(c) && IsPunctuation(c) <==>
              ('\U{2000}' <= c <= '\U{200A}') || c == '\U{2028}' || c == '\U{2029}' || c == '\U{202F}' || c == '\U{205F}'
  {
  }
}
