/**
  Case-insensitive substring matching, the meaning of `column.ilike('%needle%')`
  when `needle` holds no LIKE wildcard.  Case folding is ASCII-only, as the
  `lower()` of the underlying SQL engine does it: `A`..`Z` become `a`..`z` and
  every other character is left alone.
 */
module Text {

  predicate IsUpper(c: char) {
    'A' <= c <= 'Z'
  }

  /** SQL `lower()` on one character: a capital becomes its small letter, anything else is kept. */
  function Lower(c: char): (r: char)
    ensures !IsUpper(r)
    ensures IsUpper(c) ==> 'a' <= r <= 'z' && r as int - c as int == 'a' as int - 'A' as int
    ensures !IsUpper(c) ==> r == c
  {
    if IsUpper(c) then (c as int + 32) as char else c
  }

  /** The string with every ASCII capital replaced by its small letter. */
  function LowerString(s: string): (r: string)
    ensures |r| == |s|
    ensures forall i :: 0 <= i < |s| ==> r[i] == Lower(s[i])
    ensures forall i :: 0 <= i < |r| ==> !IsUpper(r[i])
    decreases |s|
  {
    if |s| == 0 then "" else [Lower(s[0])] + LowerString(s[1..])
  }

  /** Lower-casing twice changes nothing more than lower-casing once. */
  lemma LowerStringIdempotent(s: string)
    ensures LowerString(LowerString(s)) == LowerString(s)
  {
    var once := LowerString(s);
    assert forall i :: 0 <= i < |once| ==> LowerString(once)[i] == once[i];
  }

  /** `needle` occurs in `hay` starting at position `i`. */
  ghost predicate OccursAt(needle: string, hay: string, i: int) {
    0 <= i && i + |needle| <= |hay| && hay[i..i + |needle|] == needle
  }

  predicate IsPrefix(needle: string, hay: string) {
    |needle| <= |hay| && hay[..|needle|] == needle
  }

  /** `needle` is a contiguous part of `hay`: a prefix of `hay` or of one of its suffixes. */
  predicate IsSubstring(needle: string, hay: string)
    decreases |hay|
  {
    IsPrefix(needle, hay) || (|hay| > 0 && IsSubstring(needle, hay[1..]))
  }

  /** A position where `needle` occurs is found by the recursive scan. */
  lemma {:induction false} OccursAtIsSubstring(needle: string, hay: string, i: int)
    requires OccursAt(needle, hay, i)
    ensures IsSubstring(needle, hay)
    decreases i
  {
    if i == 0 {
      assert IsPrefix(needle, hay);
    } else {
      assert hay[1..][i - 1..i - 1 + |needle|] == hay[i..i + |needle|];
      OccursAtIsSubstring(needle, hay[1..], i - 1);
    }
  }

  /** The recursive scan only succeeds at a position where `needle` occurs. */
  lemma {:induction false} SubstringOccursSomewhere(needle: string, hay: string)
    requires IsSubstring(needle, hay)
    ensures exists i :: OccursAt(needle, hay, i)
    decreases |hay|
  {
    if IsPrefix(needle, hay) {
      assert OccursAt(needle, hay, 0);
    } else {
      SubstringOccursSomewhere(needle, hay[1..]);
      var i :| OccursAt(needle, hay[1..], i);
      assert hay[1..][i..i + |needle|] == hay[i + 1..i + 1 + |needle|];
      assert OccursAt(needle, hay, i + 1);
    }
  }

  /** The recursive scan finds `needle` exactly when it occurs at some position of `hay`. */
  lemma IsSubstringIffOccurs(needle: string, hay: string)
    ensures IsSubstring(needle, hay) <==> exists i :: OccursAt(needle, hay, i)
  {
    if IsSubstring(needle, hay) {
      SubstringOccursSomewhere(needle, hay);
    }
    forall i | OccursAt(needle, hay, i) ensures IsSubstring(needle, hay) {
      OccursAtIsSubstring(needle, hay, i);
    }
  }

  /** An occurrence is never longer than the text it occurs in. */
  lemma {:induction false} SubstringNoLonger(needle: string, hay: string)
    requires IsSubstring(needle, hay)
    ensures |needle| <= |hay|
    decreases |hay|
  {
    if !IsPrefix(needle, hay) {
      SubstringNoLonger(needle, hay[1..]);
    }
  }

  /**
    `column ILIKE '%needle%'`.  An empty needle is found in every text, and a
    needle longer than the text is never found; `ContainsIgnoreCaseIff` gives
    the full characterisation.
   */
  predicate ContainsIgnoreCase(hay: string, needle: string): (b: bool)
    ensures |needle| == 0 ==> b
    ensures b ==> |needle| <= |hay|
  {
    var n, h := LowerString(needle), LowerString(hay);
    assert |needle| == 0 ==> IsPrefix(n, h);
    if IsSubstring(n, h) then
      SubstringNoLonger(n, h);
      true
    else
      false
  }

  /** Characters equal up to ASCII case. */
  predicate SameIgnoringCase(a: char, b: char) {
    Lower(a) == Lower(b)
  }

  /** Every character of `needle` equals, up to ASCII case, the one at the same offset from `i` in `hay`. */
  ghost predicate MatchesAtIgnoringCase(hay: string, needle: string, i: int) {
    0 <= i && i + |needle| <= |hay| &&
    forall k :: 0 <= k < |needle| ==> SameIgnoringCase(hay[i + k], needle[k])
  }

  lemma OccursAtIgnoringCase(hay: string, needle: string, i: int)
    ensures OccursAt(LowerString(needle), LowerString(hay), i) <==> MatchesAtIgnoringCase(hay, needle, i)
  {
    var h, n := LowerString(hay), LowerString(needle);
    if OccursAt(n, h, i) {
      forall k | 0 <= k < |needle| ensures SameIgnoringCase(hay[i + k], needle[k]) {
        assert h[i..i + |n|][k] == n[k];
      }
    }
    if MatchesAtIgnoringCase(hay, needle, i) {
      assert h[i..i + |n|] == n;
    }
  }

  /**
    The ILIKE test holds exactly when some window of `hay` equals `needle`
    character by character up to ASCII case.
   */
  lemma ContainsIgnoreCaseIff(hay: string, needle: string)
    ensures ContainsIgnoreCase(hay, needle) <==> exists i :: MatchesAtIgnoringCase(hay, needle, i)
  {
    var h, n := LowerString(hay), LowerString(needle);
    IsSubstringIffOccurs(n, h);
    if IsSubstring(n, h) {
      var i :| OccursAt(n, h, i);
      OccursAtIgnoringCase(hay, needle, i);
    }
    forall i | MatchesAtIgnoringCase(hay, needle, i) ensures OccursAt(n, h, i) {
      OccursAtIgnoringCase(hay, needle, i);
    }
  }

  /** A needle that matches the start of `hay` up to case is found. */
  lemma PrefixIgnoringCaseContained(hay: string, needle: string)
    requires |needle| <= |hay|
    requires forall k :: 0 <= k < |needle| ==> SameIgnoringCase(hay[k], needle[k])
    ensures ContainsIgnoreCase(hay, needle)
  {
    assert MatchesAtIgnoringCase(hay, needle, 0);
    ContainsIgnoreCaseIff(hay, needle);
  }

  /** A needle starting with a small letter that occurs in `hay` in neither case is not found. */
  lemma MissingLetterNotContained(hay: string, needle: string)
    requires |needle| > 0 && 'a' <= needle[0] <= 'z'
    requires needle[0] !in hay && (needle[0] as int - 32) as char !in hay
    ensures !ContainsIgnoreCase(hay, needle)
  {
    forall i ensures !MatchesAtIgnoringCase(hay, needle, i) {
      if 0 <= i < |hay| {
        assert hay[i] in hay;
      }
    }
    ContainsIgnoreCaseIff(hay, needle);
  }

  /** Searching for `needle` in any capitalisation gives the same answer. */
  lemma ContainsIgnoresNeedleCase(hay: string, needle: string)
    ensures ContainsIgnoreCase(hay, needle) == ContainsIgnoreCase(hay, LowerString(needle))
  {
    LowerStringIdempotent(needle);
  }
}
