/** `DialogTools.TextFormattingRegex`: the four-way pattern
    `\[url\](.+?)\[/url\] | \[accent\](.+?)\[/accent\] | \[bold\](.+?)\[/bold\]
    | \[italic\](.+?)\[/italic\]`, compiled with no option but `Compiled`
    (so case-sensitive, and `.` does not match a newline). This module gives
    the single-match semantics of the pattern as a scanner. */
module DialogTools {
  import opened Wrappers

  /** The four alternatives, in the order the pattern lists them. */
  datatype Tag = UrlLink | Accent | Bold | Italic

  const Alternatives: seq<Tag> := [UrlLink, Accent, Bold, Italic]

  function OpenTag(t: Tag): string
  {
    match t
    case UrlLink => "[url]"
    case Accent => "[accent]"
    case Bold => "[bold]"
    case Italic => "[italic]"
  }

  function CloseTag(t: Tag): string
  {
    match t
    case UrlLink => "[/url]"
    case Accent => "[/accent]"
    case Bold => "[/bold]"
    case Italic => "[/italic]"
  }

  /** A match: the alternative that matched, where it starts, where its
      captured content starts and ends, and where the match ends. */
  datatype Match = Match(tag: Tag, index: nat, contentStart: nat, contentEnd: nat, end: nat)

  /** `pattern` occurs in `text` at position `i`, compared character by character. */
  predicate OccursAt(text: string, i: nat, pattern: string)
  {
    i + |pattern| <= |text| && text[i..i + |pattern|] == pattern
  }

  /** No newline in `text[from..to]`: `.` accepted every one of those characters. */
  predicate NoNewline(text: string, from: nat, to: nat)
    requires from <= to <= |text|
  {
    forall k :: from <= k < to ==> text[k] != '\n'
  }

  /** The declarative meaning of a match of alternative `t` at `i`: opening
      tag, at least one non-newline character of content, the closing tag
      of the same kind, and no earlier closing tag of that kind that would
      already end the content (the lazy `+?`). */
  predicate IsMatchAt(text: string, i: nat, t: Tag, m: Match)
  {
    && m.tag == t
    && m.index == i
    && OccursAt(text, i, OpenTag(t))
    && m.contentStart == i + |OpenTag(t)|
    && m.contentStart < m.contentEnd <= |text|
    && NoNewline(text, m.contentStart, m.contentEnd)
    && OccursAt(text, m.contentEnd, CloseTag(t))
    && m.end == m.contentEnd + |CloseTag(t)|
    && forall q :: m.contentStart < q < m.contentEnd ==> !OccursAt(text, q, CloseTag(t))
  }

  /** The lazy content scan: `p` is the next candidate end of the content;
      the character before it must not be a newline, and the first `p` at
      which the closing tag follows ends the content. */
  function ScanContent(text: string, t: Tag, contentStart: nat, p: nat): (r: Option<nat>)
    requires contentStart < p
    requires p - 1 <= |text| && NoNewline(text, contentStart, p - 1)
    ensures r.Some? ==>
      && p <= r.value <= |text|
      && NoNewline(text, contentStart, r.value)
      && OccursAt(text, r.value, CloseTag(t))
      && forall q :: p <= q < r.value ==> !OccursAt(text, q, CloseTag(t))
    ensures r.None? ==>
      forall q :: p <= q <= |text| && NoNewline(text, contentStart, q) ==> !OccursAt(text, q, CloseTag(t))
    decreases |text| - p
  {
    if p > |text| then None
    else if text[p - 1] == '\n' then
      NewlineEndsContent(text, contentStart, p);
      None
    else
      NoNewlineExtend(text, contentStart, p - 1);
      if OccursAt(text, p, CloseTag(t)) then Some(p)
      else ScanContent(text, t, contentStart, p + 1)
  }

  /** A newline at `p - 1` rules out every content end from `p` on. */
  lemma NewlineEndsContent(text: string, from: nat, p: nat)
    requires from < p <= |text| && text[p - 1] == '\n'
    ensures forall q :: p <= q <= |text| ==> !NoNewline(text, from, q)
  {
    forall q | p <= q <= |text| ensures !NoNewline(text, from, q) {
      assert text[p - 1] == '\n';
    }
  }

  /** One more non-newline character extends a newline-free stretch. */
  lemma NoNewlineExtend(text: string, from: nat, to: nat)
    requires from <= to < |text| && NoNewline(text, from, to) && text[to] != '\n'
    ensures NoNewline(text, from, to + 1)
  {
  }

  /** Alternative `t` tried at position `i`. */
  function MatchAlternative(text: string, i: nat, t: Tag): (r: Option<Match>)
    ensures r.Some? ==> IsMatchAt(text, i, t, r.value)
    ensures r.None? ==> forall m :: !IsMatchAt(text, i, t, m)
  {
    if !OccursAt(text, i, OpenTag(t)) then None
    else
      var contentStart := i + |OpenTag(t)|;
      match ScanContent(text, t, contentStart, contentStart + 1)
      case None => None
      case Some(contentEnd) => Some(Match(t, i, contentStart, contentEnd, contentEnd + |CloseTag(t)|))
  }

  /** The alternatives tried in order at position `i`; the first that
      succeeds gives the match. */
  function MatchAt(text: string, i: nat, alternatives: seq<Tag>): (r: Option<Match>)
    ensures r.Some? ==> r.value.tag in alternatives && IsMatchAt(text, i, r.value.tag, r.value)
    ensures r.None? ==> forall t, m :: t in alternatives ==> !IsMatchAt(text, i, t, m)
  {
    if alternatives == [] then None
    else
      match MatchAlternative(text, i, alternatives[0])
      case Some(m) => Some(m)
      case None => MatchAt(text, i, alternatives[1..])
  }

  /** The first position from `i` to `last` at which `hit` holds: the
      engine tries start positions left to right. */
  function Leftmost(hit: nat -> bool, i: nat, last: nat): (r: Option<nat>)
    ensures r.Some? ==> i <= r.value <= last && hit(r.value)
    ensures r.Some? ==> forall q :: i <= q < r.value ==> !hit(q)
    ensures r.None? ==> forall q :: i <= q <= last ==> !hit(q)
    decreases last + 1 - i
  {
    if i > last then None
    else if hit(i) then Some(i)
    else Leftmost(hit, i + 1, last)
  }

  /** Try every start position from `i` on, leftmost first. */
  function FindFrom(text: string, i: nat, alternatives: seq<Tag>): (r: Option<Match>)
    ensures r.Some? ==> i <= r.value.index <= |text| && MatchAt(text, r.value.index, alternatives) == r
    ensures r.Some? ==> forall q :: i <= q < r.value.index ==> MatchAt(text, q, alternatives).None?
    ensures r.None? ==> forall q :: i <= q <= |text| ==> MatchAt(text, q, alternatives).None?
  {
    var hit := (q: nat) => MatchAt(text, q, alternatives).Some?;
    assert forall q: nat :: hit(q) == MatchAt(text, q, alternatives).Some?;
    match Leftmost(hit, i, |text|)
    case None => None
    case Some(k) => MatchAt(text, k, alternatives)
  }

  /** `TextFormattingRegex.Match(text)`: the leftmost match, if any. */
  function FirstMatch(text: string): (r: Option<Match>)
    ensures r.Some? ==> IsMatchAt(text, r.value.index, r.value.tag, r.value)
    ensures r.Some? ==> forall q, t, m :: 0 <= q < r.value.index ==> !IsMatchAt(text, q, t, m)
    ensures r.None? ==> forall q, t, m :: !IsMatchAt(text, q, t, m)
  {
    AllTagsAreAlternatives();
    FindFromMeaning(text, 0, Alternatives);
    FindFrom(text, 0, Alternatives)
  }

  /** `FindFrom` in terms of the declarative meaning of a match, for the
      tags among `alternatives`. */
  lemma FindFromMeaning(text: string, i: nat, alternatives: seq<Tag>)
    ensures FindFrom(text, i, alternatives).Some? ==>
      var m := FindFrom(text, i, alternatives).value;
      m.tag in alternatives && IsMatchAt(text, m.index, m.tag, m)
    ensures FindFrom(text, i, alternatives).Some? ==>
      forall q, t, m :: i <= q < FindFrom(text, i, alternatives).value.index && t in alternatives ==>
        !IsMatchAt(text, q, t, m)
    ensures FindFrom(text, i, alternatives).None? ==>
      forall q, t, m :: i <= q && t in alternatives ==> !IsMatchAt(text, q, t, m)
  {
    var r := FindFrom(text, i, alternatives);
    forall q, t, m | i <= q && (r.None? || q < r.value.index) && t in alternatives
      ensures !IsMatchAt(text, q, t, m)
    {
      if q <= |text| {
        assert MatchAt(text, q, alternatives).None?;
      }
    }
  }

  lemma AllTagsAreAlternatives()
    ensures forall t :: t in Alternatives
  {
    forall t ensures t in Alternatives {
      match t
      case UrlLink => assert Alternatives[0] == t;
      case Accent => assert Alternatives[1] == t;
      case Bold => assert Alternatives[2] == t;
      case Italic => assert Alternatives[3] == t;
    }
  }

  /** The text of the content group. */
  function Content(text: string, m: Match): (c: string)
    requires m.contentStart <= m.contentEnd <= |text|
    ensures |c| == m.contentEnd - m.contentStart
  {
    text[m.contentStart..m.contentEnd]
  }

  /** A match, once the alternative and the start are fixed, is unique: the
      lazy quantifier leaves no choice of where the content ends. */
  lemma MatchIsUnique(text: string, i: nat, t: Tag, m1: Match, m2: Match)
    requires IsMatchAt(text, i, t, m1) && IsMatchAt(text, i, t, m2)
    ensures m1 == m2
  {
  }

  /** At most one opening tag occurs at any position, so the order of the
      alternatives never changes which one matches. */
  lemma OpenTagsExclusive(text: string, i: nat, t1: Tag, t2: Tag)
    requires OccursAt(text, i, OpenTag(t1)) && OccursAt(text, i, OpenTag(t2))
    ensures t1 == t2
  {
    assert text[i + 1] == OpenTag(t1)[1] == OpenTag(t2)[1];
  }

  /** What the content group captures: at least one character, no newline,
      and a closing tag of the kind that opened it right after it. */
  lemma ContentOfMatch(text: string, i: nat, t: Tag, m: Match)
    requires IsMatchAt(text, i, t, m)
    ensures |Content(text, m)| >= 1
    ensures '\n' !in Content(text, m)
    ensures text[m.contentEnd..m.end] == CloseTag(m.tag)
    ensures text[m.index..m.end] == OpenTag(t) + Content(text, m) + CloseTag(t)
  {
    var c := Content(text, m);
    forall k | 0 <= k < |c| ensures c[k] != '\n' {
      assert c[k] == text[m.contentStart + k];
    }
    assert text[m.index..m.contentStart] == OpenTag(t);
    assert text[m.contentEnd..m.end] == CloseTag(t);
    SliceSplit(text, m.index, m.contentStart, m.contentEnd, m.end);
  }

  /** A slice is the concatenation of its three consecutive sub-slices. */
  lemma SliceSplit(s: string, a: nat, b: nat, c: nat, d: nat)
    requires a <= b <= c <= d <= |s|
    ensures s[a..d] == s[a..b] + s[b..c] + s[c..d]
  {
  }

  /** `[bold]x[/bold]` matches as a whole, capturing `x`. */
  lemma BoldExample()
    ensures MatchAlternative("[bold]x[/bold]", 0, Bold) == Some(Match(Bold, 0, 6, 7, 14))
  {
  }

  /** The content ends at the first closing tag: in `[bold]a[/bold]b[/bold]`
      the match stops after `[bold]a[/bold]`. */
  lemma LazyExample()
    ensures MatchAlternative("[bold]a[/bold]b[/bold]", 0, Bold) == Some(Match(Bold, 0, 6, 7, 14))
  {
    var text := "[bold]a[/bold]b[/bold]";
    assert text[7..14] == CloseTag(Bold);
    assert ScanContent(text, Bold, 6, 7) == Some(7);
  }

  /** A closing tag of another kind does not close: no match of `[bold]x[/italic]` starts at position 0. */
  lemma MismatchedTagsExample()
    ensures MatchAt("[bold]x[/italic]", 0, Alternatives) == None
  {
    var text := "[bold]x[/italic]";
    forall q | 6 < q <= |text| ensures !OccursAt(text, q, CloseTag(Bold)) {
      if q + 7 <= |text| {
        assert text[q + 2] != 'b';
        assert text[q..q + 7][2] == text[q + 2];
      }
    }
    assert MatchAlternative(text, 0, Bold) == None;
    forall t | t != Bold ensures !OccursAt(text, 0, OpenTag(t)) {
      assert text[..|OpenTag(t)|][1] == 'b' != OpenTag(t)[1];
    }
  }

  /** No match starts anywhere in `[bold]x[/italic]`. */
  lemma MismatchedTagsNoMatch(text: string)
    requires text == "[bold]x[/italic]"
    ensures FirstMatch(text) == None
  {
    MismatchedTagsExample();
    MismatchedTagsLaterPositions();
    NoMatchAfterStart(text);
  }

  /** No opening tag starts after position 0 of `[bold]x[/italic]`. */
  lemma MismatchedTagsLaterPositions()
    ensures NoOpenTagFrom("[bold]x[/italic]", 1)
  {
  }

  /** Tags are compared case-sensitively: no match of `[BOLD]x[/BOLD]` starts at position 0. */
  lemma UpperCaseExample()
    ensures MatchAt("[BOLD]x[/BOLD]", 0, Alternatives) == None
  {
    NoMatchWithoutOpenTag("[BOLD]x[/BOLD]", 0);
  }

  /** No match starts anywhere in `[BOLD]x[/BOLD]`. */
  lemma UpperCaseNoMatch(text: string)
    requires text == "[BOLD]x[/BOLD]"
    ensures FirstMatch(text) == None
  {
    UpperCaseExample();
    UpperCaseLaterPositions();
    NoMatchAfterStart(text);
  }

  /** No opening tag starts after position 0 of `[BOLD]x[/BOLD]`. */
  lemma UpperCaseLaterPositions()
    ensures NoOpenTagFrom("[BOLD]x[/BOLD]", 1)
  {
  }

  /** An opening tag starts with `[` followed by the first letter of a tag name. */
  lemma OpenTagStart(text: string, q: nat, t: Tag)
    ensures OccursAt(text, q, OpenTag(t)) ==> q + 1 < |text| && text[q] == '[' && text[q + 1] in "uabi"
  {
    if OccursAt(text, q, OpenTag(t)) {
      assert text[q..q + |OpenTag(t)|][0] == text[q];
      assert text[q..q + |OpenTag(t)|][1] == text[q + 1];
    }
  }

  /** No position from `q` on has `[` followed by the first letter of a tag name. */
  predicate NoOpenTagFrom(text: string, q: nat)
    decreases |text| - q
  {
    q + 1 >= |text| || (!(text[q] == '[' && text[q + 1] in "uabi") && NoOpenTagFrom(text, q + 1))
  }

  /** So no opening tag occurs at any position from `i` on. */
  lemma {:induction false} NoOpenTagFromMeaning(text: string, i: nat, q: nat, t: Tag)
    requires NoOpenTagFrom(text, i) && i <= q
    ensures !OccursAt(text, q, OpenTag(t))
    decreases q - i
  {
    OpenTagStart(text, q, t);
    if i < q && i + 1 < |text| {
      NoOpenTagFromMeaning(text, i + 1, q, t);
    }
  }

  /** A text has no match when none starts at 0 and no later position can begin
      an opening tag. */
  lemma NoMatchAfterStart(text: string)
    requires MatchAt(text, 0, Alternatives) == None
    requires NoOpenTagFrom(text, 1)
    ensures FirstMatch(text) == None
  {
    AllTagsAreAlternatives();
    forall q | 1 <= q ensures MatchAt(text, q, Alternatives) == None {
      forall t ensures !OccursAt(text, q, OpenTag(t)) {
        NoOpenTagFromMeaning(text, 1, q, t);
      }
      NoOpenTagNoMatch(text, q);
    }
  }

  /** Without an opening tag at `i`, no alternative matches there. */
  lemma NoOpenTagNoMatch(text: string, i: nat)
    requires forall t :: !OccursAt(text, i, OpenTag(t))
    ensures MatchAt(text, i, Alternatives) == None
  {
  }

  lemma NoMatchWithoutOpenTag(text: string, i: nat)
    requires i + 1 < |text| && text[i + 1] !in "uabi"
    ensures MatchAt(text, i, Alternatives) == None
  {
    forall t ensures !OccursAt(text, i, OpenTag(t)) {
      if i + |OpenTag(t)| <= |text| {
        assert text[i..i + |OpenTag(t)|][1] == text[i + 1];
      }
    }
  }

  /** `.` does not cross a line break: `[url]a\nb[/url]` has no link match at position 0. */
  lemma NewlineExample()
    ensures MatchAlternative("[url]a\nb[/url]", 0, UrlLink) == None
  {
    assert ScanContent("[url]a\nb[/url]", UrlLink, 5, 7) == None;
  }

  /** The content must be at least one character: `[bold][/bold]` has no bold match at position 0. */
  lemma EmptyContentExample()
    ensures MatchAlternative("[bold][/bold]", 0, Bold) == None
  {
  }

  /** No match starts anywhere in `[bold][/bold]`. */
  lemma EmptyContentNoMatch(text: string)
    requires text == "[bold][/bold]"
    ensures FirstMatch(text) == None
  {
    EmptyContentExample();
    forall t | t != Bold ensures !OccursAt(text, 0, OpenTag(t)) {
      assert text[..|OpenTag(t)|][1] == 'b' != OpenTag(t)[1];
    }
    EmptyContentLaterPositions();
    NoMatchAfterStart(text);
  }

  /** No opening tag starts after position 0 of `[bold][/bold]`. */
  lemma EmptyContentLaterPositions()
    ensures NoOpenTagFrom("[bold][/bold]", 1)
  {
  }
}
