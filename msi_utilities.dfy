/** The text handling of `MsiUtilities.GetMessageFromMsiExitCode`: the loaded
    message is dropped when it is blank, and otherwise every run of two or
    more whitespace characters in it is replaced by one space. */
module MsiUtilities {
  import opened Wrappers
  import opened Strings

  /** The length of the stack buffer the message is loaded into. */
  const MessageBufferLength: nat := 4096

  /** No two neighbouring characters of `s` are both whitespace. */
  predicate NoAdjacentWhiteSpace(s: string)
  {
    forall i :: 0 <= i < |s| - 1 ==> !(IsWhiteSpace(s[i]) && IsWhiteSpace(s[i + 1]))
  }

  /** The non-whitespace characters of `s`, in order. */
  function NonWhiteSpace(s: string): string
  {
    if s == [] then []
    else (if IsWhiteSpace(s[0]) then [] else [s[0]]) + NonWhiteSpace(s[1..])
  }

  /** The length of the run of whitespace that starts `s`. */
  function LeadingWhiteSpace(s: string): (n: nat)
    ensures n <= |s|
    ensures forall i :: 0 <= i < n ==> IsWhiteSpace(s[i])
    ensures n < |s| ==> !IsWhiteSpace(s[n])
  {
    if s == [] || !IsWhiteSpace(s[0]) then 0 else 1 + LeadingWhiteSpace(s[1..])
  }

  /** `Regex.Replace(s, @"\s{2,}", " ")`. The engine scans left to right; at
      a whitespace run of two or more characters the greedy `\s{2,}` takes the
      whole run, which becomes one space; any other character is copied. */
  function CollapseWhiteSpace(s: string): (r: string)
    ensures |r| <= |s|
    ensures |s| > 0 ==> |r| > 0 && (IsWhiteSpace(r[0]) <==> IsWhiteSpace(s[0]))
    decreases |s|
  {
    if s == [] then []
    else
      var n := LeadingWhiteSpace(s);
      if n >= 2 then " " + CollapseWhiteSpace(s[n..])
      else [s[0]] + CollapseWhiteSpace(s[1..])
  }

  /** Prefixing `c` to a string without adjacent whitespace keeps that
      property unless both `c` and the string's first character are whitespace. */
  lemma NoAdjacentCons(c: char, t: string)
    requires NoAdjacentWhiteSpace(t)
    requires t == [] || !IsWhiteSpace(c) || !IsWhiteSpace(t[0])
    ensures NoAdjacentWhiteSpace([c] + t)
  {
    var s := [c] + t;
    forall i | 0 <= i < |s| - 1 ensures !(IsWhiteSpace(s[i]) && IsWhiteSpace(s[i + 1])) {
      if i > 0 {
        assert s[i] == t[i - 1] && s[i + 1] == t[i];
      }
    }
  }

  /** The result never has two whitespace characters side by side. */
  lemma {:induction false} CollapseNoAdjacent(s: string)
    ensures NoAdjacentWhiteSpace(CollapseWhiteSpace(s))
    decreases |s|
  {
    if s != [] {
      var n := LeadingWhiteSpace(s);
      if n >= 2 {
        CollapseNoAdjacent(s[n..]);
        NoAdjacentCons(' ', CollapseWhiteSpace(s[n..]));
      } else {
        CollapseNoAdjacent(s[1..]);
        assert IsWhiteSpace(s[0]) && |s| > 1 ==> !IsWhiteSpace(s[1..][0]);
        NoAdjacentCons(s[0], CollapseWhiteSpace(s[1..]));
      }
    }
  }

  /** Non-whitespace characters are kept, in order, and no other is added. */
  lemma {:induction false} CollapseKeepsNonWhiteSpace(s: string)
    ensures NonWhiteSpace(CollapseWhiteSpace(s)) == NonWhiteSpace(s)
    decreases |s|
  {
    if s != [] {
      var n := LeadingWhiteSpace(s);
      if n >= 2 {
        CollapseKeepsNonWhiteSpace(s[n..]);
        NonWhiteSpaceOfRun(s, n);
        assert (" " + CollapseWhiteSpace(s[n..]))[1..] == CollapseWhiteSpace(s[n..]);
      } else {
        CollapseKeepsNonWhiteSpace(s[1..]);
        assert ([s[0]] + CollapseWhiteSpace(s[1..]))[1..] == CollapseWhiteSpace(s[1..]);
      }
    }
  }

  /** Dropping a leading whitespace run does not change the non-whitespace
      characters. */
  lemma {:induction false} NonWhiteSpaceOfRun(s: string, n: nat)
    requires n <= |s|
    requires forall i :: 0 <= i < n ==> IsWhiteSpace(s[i])
    ensures NonWhiteSpace(s) == NonWhiteSpace(s[n..])
  {
    if n > 0 {
      NonWhiteSpaceOfRun(s[1..], n - 1);
      assert s[1..][n - 1..] == s[n..];
    }
  }

  /** A string is whitespace only exactly when it has no non-whitespace
      characters. */
  lemma {:induction false} AllWhiteSpaceIffNoNonWhiteSpace(s: string)
    ensures AllWhiteSpace(s) <==> NonWhiteSpace(s) == []
  {
    if s != [] {
      AllWhiteSpaceIffNoNonWhiteSpace(s[1..]);
      if AllWhiteSpace(s) {
        assert AllWhiteSpace(s[1..]) by {
          forall i | 0 <= i < |s[1..]| ensures IsWhiteSpace(s[1..][i]) {
            assert s[1..][i] == s[i + 1];
          }
        }
      } else if IsWhiteSpace(s[0]) {
        var i :| 0 <= i < |s| && !IsWhiteSpace(s[i]);
        assert s[1..][i - 1] == s[i];
      }
    }
  }

  /** A string with no adjacent whitespace is left unchanged; in particular a
      lone whitespace character such as a single tab survives. */
  lemma {:induction false} CollapseFixesNoAdjacent(s: string)
    requires NoAdjacentWhiteSpace(s)
    ensures CollapseWhiteSpace(s) == s
  {
    if s != [] {
      assert NoAdjacentWhiteSpace(s[1..]) by {
        forall i | 0 <= i < |s[1..]| - 1
          ensures !(IsWhiteSpace(s[1..][i]) && IsWhiteSpace(s[1..][i + 1]))
        {
          assert s[1..][i] == s[i + 1] && s[1..][i + 1] == s[i + 2];
        }
      }
      CollapseFixesNoAdjacent(s[1..]);
      assert LeadingWhiteSpace(s) <= 1 by {
        if |s| > 1 && IsWhiteSpace(s[0]) {
          assert !IsWhiteSpace(s[1]);
          assert LeadingWhiteSpace(s[1..]) == 0;
        }
      }
    }
  }

  /** Collapsing is idempotent. */
  lemma CollapseIdempotent(s: string)
    ensures CollapseWhiteSpace(CollapseWhiteSpace(s)) == CollapseWhiteSpace(s)
  {
    CollapseNoAdjacent(s);
    CollapseFixesNoAdjacent(CollapseWhiteSpace(s));
  }

  /** A leading run that ends inside `a` is not extended by what follows. */
  lemma {:induction false} LeadingWhiteSpaceAppend(a: string, b: string)
    requires LeadingWhiteSpace(a) < |a|
    ensures LeadingWhiteSpace(a + b) == LeadingWhiteSpace(a)
  {
    if IsWhiteSpace(a[0]) {
      assert (a + b)[1..] == a[1..] + b;
      LeadingWhiteSpaceAppend(a[1..], b);
    }
  }

  /** Concatenation is associative. */
  lemma Associative(x: string, y: string, z: string)
    ensures x + (y + z) == (x + y) + z
  {
  }

  /** Collapsing distributes over a split point that follows a non-whitespace
      character: no run crosses it. */
  lemma {:induction false} CollapseAppend(a: string, b: string)
    requires a == [] || !IsWhiteSpace(a[|a| - 1])
    ensures CollapseWhiteSpace(a + b) == CollapseWhiteSpace(a) + CollapseWhiteSpace(b)
    decreases |a|
  {
    if a == [] {
      assert a + b == b;
    } else {
      var n := LeadingWhiteSpace(a);
      assert n < |a|;
      LeadingWhiteSpaceAppend(a, b);
      if n >= 2 {
        var a' := a[n..];
        assert (a + b)[n..] == a' + b;
        assert a' != [] ==> a'[|a'| - 1] == a[|a| - 1];
        CollapseAppend(a', b);
        Associative(" ", CollapseWhiteSpace(a'), CollapseWhiteSpace(b));
      } else {
        var a' := a[1..];
        assert (a + b)[1..] == a' + b;
        assert a' != [] ==> a'[|a'| - 1] == a[|a| - 1];
        CollapseAppend(a', b);
        Associative([a[0]], CollapseWhiteSpace(a'), CollapseWhiteSpace(b));
      }
    }
  }

  /** A whitespace run of length at least two that is followed by a
      non-whitespace character (or the end) becomes a single space. */
  lemma {:induction false} CollapseRun(w: string, b: string)
    requires |w| >= 2 && AllWhiteSpace(w)
    requires b == [] || !IsWhiteSpace(b[0])
    ensures CollapseWhiteSpace(w + b) == " " + CollapseWhiteSpace(b)
  {
    RunLength(w, b);
    assert (w + b)[|w|..] == b;
  }

  /** The leading run of `w + b` is exactly `w`. */
  lemma {:induction false} RunLength(w: string, b: string)
    requires AllWhiteSpace(w)
    requires b == [] || !IsWhiteSpace(b[0])
    ensures LeadingWhiteSpace(w + b) == |w|
  {
    if w != [] {
      assert (w + b)[1..] == w[1..] + b;
      assert AllWhiteSpace(w[1..]) by {
        forall i | 0 <= i < |w[1..]| ensures IsWhiteSpace(w[1..][i]) {
          assert w[1..][i] == w[i + 1];
        }
      }
      RunLength(w[1..], b);
    }
  }

  /** Every maximal whitespace run of two or more characters is replaced by
      one space, and the text on either side is collapsed independently. */
  lemma MaximalRunCollapses(a: string, w: string, b: string)
    requires a == [] || !IsWhiteSpace(a[|a| - 1])
    requires |w| >= 2 && AllWhiteSpace(w)
    requires b == [] || !IsWhiteSpace(b[0])
    ensures CollapseWhiteSpace(a + (w + b)) == CollapseWhiteSpace(a) + (" " + CollapseWhiteSpace(b))
  {
    CollapseAppend(a, w + b);
    CollapseRun(w, b);
  }

  /** A single whitespace character between non-whitespace text is kept as it is. */
  lemma LoneWhiteSpaceKept(a: string, c: char, b: string)
    requires a == [] || !IsWhiteSpace(a[|a| - 1])
    requires IsWhiteSpace(c)
    requires b == [] || !IsWhiteSpace(b[0])
    ensures CollapseWhiteSpace(a + ([c] + b)) == CollapseWhiteSpace(a) + ([c] + CollapseWhiteSpace(b))
  {
    CollapseAppend(a, [c] + b);
    RunLength([c], b);
    assert ([c] + b)[1..] == b;
  }

  /** A single non-whitespace character is its own collapse. */
  lemma CollapseLetter(c: char)
    requires !IsWhiteSpace(c)
    ensures CollapseWhiteSpace([c]) == [c]
  {
    assert [c][1..] == [];
  }

  /** A double space between two letters becomes one space. */
  lemma DoubleSpaceExample()
    ensures CollapseWhiteSpace("a  b") == "a b"
  {
    CollapseLetter('a');
    CollapseLetter('b');
    MaximalRunCollapses("a", "  ", "b");
    assert "a" + ("  " + "b") == "a  b";
  }

  /** A lone tab between two letters is kept as it is. */
  lemma LoneTabExample()
    ensures CollapseWhiteSpace("a\tb") == "a\tb"
  {
    CollapseLetter('a');
    CollapseLetter('b');
    LoneWhiteSpaceKept("a", '\t', "b");
    assert "a" + (['\t'] + "b") == "a\tb";
  }

  /** The return statement: `null` for a null or blank message, otherwise
      the message with its whitespace runs collapsed. */
  function NormalizeMessage(msiMsgString: Option<string>): (r: Option<string>)
    ensures r.None? <==> IsNullOrWhiteSpace(msiMsgString)
    ensures r.Some? ==>
      && r.value == CollapseWhiteSpace(msiMsgString.value)
      && !IsNullOrWhiteSpace(r)
      && NoAdjacentWhiteSpace(r.value)
      && NonWhiteSpace(r.value) == NonWhiteSpace(msiMsgString.value)
      && |r.value| <= |msiMsgString.value|
  {
    if !IsNullOrWhiteSpace(msiMsgString) then
      var collapsed := CollapseWhiteSpace(msiMsgString.value);
      CollapseNoAdjacent(msiMsgString.value);
      CollapseKeepsNonWhiteSpace(msiMsgString.value);
      AllWhiteSpaceIffNoNonWhiteSpace(msiMsgString.value);
      AllWhiteSpaceIffNoNonWhiteSpace(collapsed);
      Some(collapsed)
    else
      None
  }

  /** Normalising a normalised message changes nothing. */
  lemma NormalizeIdempotent(msiMsgString: Option<string>)
    ensures NormalizeMessage(NormalizeMessage(msiMsgString)) == NormalizeMessage(msiMsgString)
  {
    if NormalizeMessage(msiMsgString).Some? {
      CollapseIdempotent(msiMsgString.value);
    }
  }

  /** Slicing a span outside its bounds throws `ArgumentOutOfRangeException`. */
  datatype SliceError = ArgumentOutOfRange

  /** Lines 23-26 of the method after `LoadString` returned `len` for its
      4096-character buffer: slice off the first `len` characters, pass them
      through `TrimRemoveNull` (a helper this model takes as a parameter),
      and normalise. */
  function MessageFromBuffer(buffer: seq<char>, len: int, trimRemoveNull: string -> string)
    : (r: Result<Option<string>, SliceError>)
    requires |buffer| == MessageBufferLength
    ensures r.Success? <==> 0 <= len <= MessageBufferLength
    ensures r.Success? ==> r.value == NormalizeMessage(Some(trimRemoveNull(buffer[..len])))
  {
    if 0 <= len <= MessageBufferLength then
      Success(NormalizeMessage(Some(trimRemoveNull(buffer[..len]))))
    else
      Failure(ArgumentOutOfRange)
  }

  /** Characters of the buffer at or beyond `len` never influence the message. */
  lemma OnlyLoadedPrefixMatters(b1: seq<char>, b2: seq<char>, len: int, trimRemoveNull: string -> string)
    requires |b1| == |b2| == MessageBufferLength
    requires 0 <= len <= MessageBufferLength
    requires forall i :: 0 <= i < len ==> b1[i] == b2[i]
    ensures MessageFromBuffer(b1, len, trimRemoveNull) == MessageFromBuffer(b2, len, trimRemoveNull)
  {
    assert b1[..len] == b2[..len];
  }
}
