/** String primitives the page relies on: substring search (the engine under
    `String.prototype.match` for the literal parts of its patterns),
    `String.prototype.replace` with a string pattern, and
    `String.prototype.trim`. Strings are sequences of characters.

    Each function is stated by a lemma beside it rather than by its own
    `ensures`, so that callers pull its characterisation in only where a
    proof needs it. */
module Text {
  import opened Wrappers

  /** Character-by-character comparison of `pat` with `s` from index `i`. */
  predicate PrefixAt(s: string, pat: string, i: nat)
    decreases |pat|
  {
    |pat| == 0 || (i < |s| && s[i] == pat[0] && PrefixAt(s, pat[1..], i + 1))
  }

  /** `pat` occurs in `s` starting at index `i`. */
  predicate OccursAt(s: string, pat: string, i: int)
  {
    0 <= i && i + |pat| <= |s| && PrefixAt(s, pat, i)
  }

  /** The character-by-character comparison is slice equality. */
  lemma {:induction false} PrefixAtSlice(s: string, pat: string, i: nat)
    requires i + |pat| <= |s|
    ensures PrefixAt(s, pat, i) <==> s[i..i + |pat|] == pat
    decreases |pat|
  {
    if |pat| > 0 {
      PrefixAtSlice(s, pat[1..], i + 1);
      assert s[i..i + |pat|] == [s[i]] + s[i + 1..i + |pat|];
      assert pat == [pat[0]] + pat[1..];
    }
  }

  lemma OccursAtSlice(s: string, pat: string, i: int)
    ensures OccursAt(s, pat, i) <==> 0 <= i && i + |pat| <= |s| && s[i..i + |pat|] == pat
  {
    if 0 <= i && i + |pat| <= |s| {
      PrefixAtSlice(s, pat, i);
    }
  }

  /** The first occurrence of `pat` in `s` at or after index `from`. */
  function IndexOf(s: string, pat: string, from: nat): (r: Option<nat>)
    ensures r.Some? ==> from <= r.value && r.value + |pat| <= |s|
    decreases |s| - from
  {
    if from + |pat| > |s| then None
    else if PrefixAt(s, pat, from) then Some(from)
    else IndexOf(s, pat, from + 1)
  }

  /** `IndexOf` finds an occurrence at or after `from`, and none lies
      between `from` and it; when it finds nothing, there is none at all
      from `from` on. */
  lemma {:induction false} IndexOfSpec(s: string, pat: string, from: nat)
    ensures IndexOf(s, pat, from).Some? ==>
              from <= IndexOf(s, pat, from).value && OccursAt(s, pat, IndexOf(s, pat, from).value)
    ensures forall k :: from <= k && (IndexOf(s, pat, from).None? || k < IndexOf(s, pat, from).value)
              ==> !OccursAt(s, pat, k)
    decreases |s| - from
  {
    if from + |pat| <= |s| && !PrefixAt(s, pat, from) {
      IndexOfSpec(s, pat, from + 1);
    }
  }

  /** Any occurrence at or after `from` bounds what `IndexOf` finds. */
  lemma IndexOfAtMost(s: string, pat: string, from: nat, k: int)
    requires from <= k && OccursAt(s, pat, k)
    ensures IndexOf(s, pat, from).Some? && IndexOf(s, pat, from).value <= k
  {
    IndexOfSpec(s, pat, from);
  }

  /** What `IndexOf` finds is an occurrence. */
  lemma IndexOfOccurs(s: string, pat: string, from: nat)
    requires IndexOf(s, pat, from).Some?
    ensures OccursAt(s, pat, IndexOf(s, pat, from).value)
  {
    IndexOfSpec(s, pat, from);
  }

  /** The last index of character `c` in `s`. */
  function LastIndexOf(s: string, c: char): Option<nat>
  {
    if |s| == 0 then None
    else if s[|s| - 1] == c then Some(|s| - 1)
    else LastIndexOf(s[..|s| - 1], c)
  }

  /** `LastIndexOf` finds an occurrence of `c`, and none lies after it;
      when it finds nothing, `c` does not occur. */
  lemma {:induction false} LastIndexOfSpec(s: string, c: char)
    ensures LastIndexOf(s, c).Some? ==>
              LastIndexOf(s, c).value < |s| && s[LastIndexOf(s, c).value] == c
    ensures forall k :: 0 <= k < |s| && (LastIndexOf(s, c).None? || LastIndexOf(s, c).value < k)
              ==> s[k] != c
  {
    if |s| > 0 && s[|s| - 1] != c {
      LastIndexOfSpec(s[..|s| - 1], c);
      forall k | 0 <= k < |s| - 1 ensures s[k] == s[..|s| - 1][k] { }
    }
  }

  /** Any occurrence of `c` bounds what `LastIndexOf` finds from below. */
  lemma LastIndexOfAtLeast(s: string, c: char, k: int)
    requires 0 <= k < |s| && s[k] == c
    ensures LastIndexOf(s, c).Some? && k <= LastIndexOf(s, c).value < |s|
    ensures s[LastIndexOf(s, c).value] == c
  {
    LastIndexOfSpec(s, c);
  }

  /** An occurrence of a string starting with `pre` is an occurrence of `pre`. */
  lemma OccursAtPrefix(s: string, pat: string, pre: string, i: int)
    requires |pre| <= |pat| && pat[..|pre|] == pre
    requires OccursAt(s, pat, i)
    ensures OccursAt(s, pre, i)
  {
    OccursAtSlice(s, pat, i);
    OccursAtSlice(s, pre, i);
    assert s[i..i + |pre|] == s[i..i + |pat|][..|pre|];
  }

  /** `s.replace(pat, rep)` with a string pattern: only the first occurrence
      of `pat` is replaced; without one, `s` is returned unchanged. */
  function ReplaceFirst(s: string, pat: string, rep: string): string
  {
    match IndexOf(s, pat, 0)
    case None => s
    case Some(k) => s[..k] + rep + s[k + |pat|..]
  }

  lemma ReplaceFirstSpec(s: string, pat: string, rep: string, k: int)
    requires OccursAt(s, pat, k)
    requires forall k' :: 0 <= k' < k ==> !OccursAt(s, pat, k')
    ensures ReplaceFirst(s, pat, rep) == s[..k] + rep + s[k + |pat|..]
  {
    IndexOfAtMost(s, pat, 0, k);
    IndexOfOccurs(s, pat, 0);
  }

  /** The characters `String.prototype.trim` removes: the ECMAScript
      WhiteSpace code points (TAB, VT, FF, SPACE, NBSP, ZWNBSP and the
      Unicode "Space_Separator" category) and the LineTerminator code points
      (LF, CR, LINE SEPARATOR, PARAGRAPH SEPARATOR). */
  predicate IsJsWhitespace(c: char)
  {
    || c == '\t' || c == '\n' || c == '\U{000B}' || c == '\U{000C}' || c == '\r'
    || c == ' ' || c == '\U{00A0}' || c == '\U{1680}'
    || ('\U{2000}' <= c <= '\U{200A}')
    || c == '\U{2028}' || c == '\U{2029}' || c == '\U{202F}' || c == '\U{205F}'
    || c == '\U{3000}' || c == '\U{FEFF}'
  }

  /** `r` is `s` with its leading and trailing whitespace removed, where `r`
      starts at index `lo` of `s`: everything outside `r` is whitespace, and
      `r` neither starts nor ends with whitespace. */
  ghost predicate TrimmedAt(s: string, r: string, lo: int)
  {
    && 0 <= lo && lo + |r| <= |s|
    && s[lo..lo + |r|] == r
    && (forall k :: 0 <= k < lo ==> IsJsWhitespace(s[k]))
    && (forall k :: lo + |r| <= k < |s| ==> IsJsWhitespace(s[k]))
    && (|r| > 0 ==> !IsJsWhitespace(r[0]) && !IsJsWhitespace(r[|r| - 1]))
  }

  /** `s.trim()`: leading and trailing whitespace removed. */
  function Trim(s: string): string
    decreases |s|
  {
    if |s| > 0 && IsJsWhitespace(s[0]) then Trim(s[1..])
    else if |s| > 0 && IsJsWhitespace(s[|s| - 1]) then Trim(s[..|s| - 1])
    else s
  }

  /** `Trim(s)` is a slice of `s` bounded by whitespace only, and neither
      starts nor ends with whitespace. */
  lemma {:induction false} TrimSpec(s: string)
    ensures exists lo :: TrimmedAt(s, Trim(s), lo)
    decreases |s|
  {
    var r := Trim(s);
    if |s| > 0 && IsJsWhitespace(s[0]) {
      TrimSpec(s[1..]);
      var lo :| TrimmedAt(s[1..], r, lo);
      TrimmedAtAfterLeading(s, r, lo);
    } else if |s| > 0 && IsJsWhitespace(s[|s| - 1]) {
      TrimSpec(s[..|s| - 1]);
      var lo :| TrimmedAt(s[..|s| - 1], r, lo);
      TrimmedAtBeforeTrailing(s, r, lo);
    } else {
      assert TrimmedAt(s, s, 0);
    }
  }

  /** Trimming past a leading whitespace character. */
  lemma TrimmedAtAfterLeading(s: string, r: string, lo: int)
    requires |s| > 0 && IsJsWhitespace(s[0])
    requires TrimmedAt(s[1..], r, lo)
    ensures TrimmedAt(s, r, lo + 1)
  {
    forall k | 0 <= k < |r| ensures s[lo + 1 + k] == r[k] {
      assert s[lo + 1 + k] == s[1..][lo + k] == s[1..][lo..lo + |r|][k];
    }
    assert s[lo + 1..lo + 1 + |r|] == r;
    forall k | 1 <= k < lo + 1 ensures IsJsWhitespace(s[k]) {
      assert s[k] == s[1..][k - 1];
    }
    forall k | lo + 1 + |r| <= k < |s| ensures IsJsWhitespace(s[k]) {
      assert s[k] == s[1..][k - 1];
    }
  }

  /** Trimming before a trailing whitespace character. */
  lemma TrimmedAtBeforeTrailing(s: string, r: string, lo: int)
    requires |s| > 0 && IsJsWhitespace(s[|s| - 1])
    requires TrimmedAt(s[..|s| - 1], r, lo)
    ensures TrimmedAt(s, r, lo)
  {
    assert s[lo..lo + |r|] == s[..|s| - 1][lo..lo + |r|];
    forall k | 0 <= k < lo ensures IsJsWhitespace(s[k]) {
      assert s[k] == s[..|s| - 1][k];
    }
    forall k | lo + |r| <= k < |s| - 1 ensures IsJsWhitespace(s[k]) {
      assert s[k] == s[..|s| - 1][k];
    }
  }

  /** Trimming is determined: whatever satisfies the trim description of `s`
      is `Trim(s)`. */
  lemma TrimUnique(s: string, r: string, lo: int)
    requires TrimmedAt(s, r, lo)
    ensures r == Trim(s)
  {
    TrimSpec(s);
    var lo' :| TrimmedAt(s, Trim(s), lo');
    TrimmedAtUnique(s, r, lo, Trim(s), lo');
  }

  lemma TrimmedAtUnique(s: string, r1: string, lo1: int, r2: string, lo2: int)
    requires TrimmedAt(s, r1, lo1) && TrimmedAt(s, r2, lo2)
    ensures r1 == r2
  {
    if |r1| > 0 && |r2| > 0 {
      assert s[lo1] == r1[0] && s[lo2] == r2[0];
      assert lo1 == lo2;
      assert s[lo1 + |r1| - 1] == r1[|r1| - 1] && s[lo2 + |r2| - 1] == r2[|r2| - 1];
      assert |r1| == |r2|;
    }
  }

  /** Trimming twice is trimming once. */
  lemma TrimIdempotent(s: string)
    ensures Trim(Trim(s)) == Trim(s)
  {
    TrimSpec(s);
    var r := Trim(s);
    var lo :| TrimmedAt(s, r, lo);
    assert TrimmedAt(r, r, 0);
    TrimUnique(r, r, 0);
  }
}
