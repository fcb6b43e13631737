/** The .NET whitespace notions the core relies on. */
module Strings {
  import opened Wrappers

  /** `char.IsWhiteSpace`: the control characters U+0009 to U+000D, U+0085,
      and the Unicode space, line and paragraph separators. The regular
      expression class `\s` matches the same set. */
  predicate IsWhiteSpace(c: char)
  {
    || '\U{9}' <= c <= '\U{D}'
    || c == '\U{20}' || c == '\U{85}' || c == '\U{A0}' || c == '\U{1680}'
    || '\U{2000}' <= c <= '\U{200A}'
    || c == '\U{2028}' || c == '\U{2029}' || c == '\U{202F}' || c == '\U{205F}' || c == '\U{3000}'
  }

  /** Every character of `s` is whitespace (true of the empty string). */
  predicate AllWhiteSpace(s: string)
  {
    forall i :: 0 <= i < |s| ==> IsWhiteSpace(s[i])
  }

  /** `string.IsNullOrWhiteSpace`, with `None` standing for null. */
  predicate IsNullOrWhiteSpace(s: Option<string>)
  {
    s.None? || AllWhiteSpace(s.value)
  }

  /** Sample members and non-members of the whitespace set: the no-break space
      is whitespace, while the zero-width space and the Mongolian vowel
      separator are not. */
  lemma WhiteSpaceExamples()
    ensures IsWhiteSpace(' ') && IsWhiteSpace('\t') && IsWhiteSpace('\n') && IsWhiteSpace('\U{A0}')
    ensures !IsWhiteSpace('a') && !IsWhiteSpace('\U{200B}') && !IsWhiteSpace('\U{180E}')
  {
  }

  /** `string.IsNullOrWhiteSpace` holds for null and for the empty string, and
      on a one-character string it is exactly `char.IsWhiteSpace`. */
  lemma IsNullOrWhiteSpaceCases(c: char)
    ensures IsNullOrWhiteSpace(None) && IsNullOrWhiteSpace(Some(""))
    ensures IsNullOrWhiteSpace(Some([c])) <==> IsWhiteSpace(c)
  {
    if IsNullOrWhiteSpace(Some([c])) {
      assert [c][0] == c;
    }
  }
}
