/** `sanitizeString`: trim, then delete every `<` and `>` (the global `replace(/[<>]/g, '')`). */
module Sanitize {
  import opened Js
  import opened Seqs

  /** The characters that survive `replace(/[<>]/g, '')`. */
  predicate NotAngleBracket(c: char) {
    c != '<' && c != '>'
  }

  function SanitizeString(input: string): (r: string)
    ensures forall i :: 0 <= i < |r| ==> r[i] != '<' && r[i] != '>'
    ensures |r| <= |input|
  {
    Filter(Trim(input), NotAngleBracket)
  }

  /** The result keeps the order of the trimmed input, every occurrence of every other
      character, and no angle bracket. */
  lemma SanitizeExactly(input: string)
    ensures IsSubsequence(SanitizeString(input), Trim(input))
    ensures forall c :: multiset(SanitizeString(input))[c] == if c == '<' || c == '>' then 0 else multiset(Trim(input))[c]
  {
    FilterIsSubsequence(Trim(input), NotAngleBracket);
    forall c ensures multiset(SanitizeString(input))[c] == if c == '<' || c == '>' then 0 else multiset(Trim(input))[c] {
      FilterCount(Trim(input), NotAngleBracket, c);
    }
  }

  /** ... and it is the only string that does so. */
  lemma SanitizeUnique(input: string, r: string)
    requires IsSubsequence(r, Trim(input))
    requires forall c :: multiset(r)[c] == if c == '<' || c == '>' then 0 else multiset(Trim(input))[c]
    ensures r == SanitizeString(input)
  {
    FilterUnique(Trim(input), NotAngleBracket, r);
  }

  /** Trimming comes first, so deleting a bracket can expose whitespace that stays: sanitizing
      is not idempotent. `"< x"` becomes `" x"`, which becomes `"x"`. */
  lemma SanitizeNotIdempotent(x: char)
    requires !IsWhitespace(x) && NotAngleBracket(x)
    ensures SanitizeString(['<', ' ', x]) == [' ', x]
    ensures SanitizeString([' ', x]) == [x]
  {
    SanitizeDropsBracket(x);
    SanitizeTrimsBlank(x);
  }

  /** `"< x"` has nothing to trim, and deleting the `<` exposes the blank. */
  lemma SanitizeDropsBracket(x: char)
    requires !IsWhitespace(x) && NotAngleBracket(x)
    ensures SanitizeString(['<', ' ', x]) == [' ', x]
  {
    var s, t := ['<', ' ', x], [' ', x];
    TrimUnpadded(s);
    assert Filter(['<'], NotAngleBracket) == [];
    assert Filter(t, NotAngleBracket) == t;
    assert s == ['<'] + t;
    FilterAppend(['<'], t, NotAngleBracket);
  }

  /** `" x"` trims to `"x"`, which has no bracket to delete. */
  lemma SanitizeTrimsBlank(x: char)
    requires !IsWhitespace(x) && NotAngleBracket(x)
    ensures SanitizeString([' ', x]) == [x]
  {
    assert [' '] + [x] + [] == [' ', x];
    TrimPadded([' '], [x], []);
  }

  /** A run with no angle brackets, wrapped in `<` and `>`, comes out as the bare run. */
  lemma StripTag(inner: string)
    requires forall i :: 0 <= i < |inner| ==> NotAngleBracket(inner[i])
    ensures Filter("<" + inner + ">", NotAngleBracket) == inner
  {
    FilterAppend("<", inner, NotAngleBracket);
    FilterAppend("<" + inner, ">", NotAngleBracket);
  }

  /** A tag with blanks around it, such as `"  <script> "`: the blanks go first, then the
      brackets, and the tag's name is what remains. */
  lemma SanitizeStripsTag(pre: string, inner: string, post: string)
    requires AllWhitespace(pre) && AllWhitespace(post)
    requires forall i :: 0 <= i < |inner| ==> NotAngleBracket(inner[i])
    ensures SanitizeString(pre + ("<" + inner + ">") + post) == inner
  {
    TrimPadded(pre, "<" + inner + ">", post);
    StripTag(inner);
  }
}
