/** The three regular expressions of `processAssistantMessage` and its
    newline unescaping, as plain functions on strings. Each search function
    is paired with the match a JavaScript regular expression returns:
    the leftmost start, and from that start the shortest match for a lazy
    `[\s\S]*?` or the longest for a greedy `[\s\S]*`. */
module Extract {
  import opened Wrappers
  import opened Text

  const ThinkOpen: string := "<think>"
  const ThinkClose: string := "</think>"
  const FenceOpen: string := "```json\n"
  const FenceClose: string := "\n```"
  const ConversationKey: string := "\"conversation\""
  const CodeKey: string := "\"code\""

  // ---------------------------------------------------------------------
  // open[\s\S]*?close
  // ---------------------------------------------------------------------

  /** `open` at `i` and `close` at `j`, with `close` starting at or after the
      end of `open`: a match of the pattern `open[\s\S]*?close` spanning
      `s[i..j + |close|]`. */
  ghost predicate Delimited(s: string, open: string, close: string, i: int, j: int)
  {
    OccursAt(s, open, i) && OccursAt(s, close, j) && i + |open| <= j
  }

  /** The match a lazy `open[\s\S]*?close` returns: no match starts earlier,
      and none from the same start ends earlier. */
  ghost predicate FirstDelimited(s: string, open: string, close: string, i: int, j: int)
  {
    && Delimited(s, open, close, i, j)
    && (forall i', j' :: Delimited(s, open, close, i', j') ==> i < i' || (i == i' && j <= j'))
  }

  /** The positions of `open` and `close` in the match of `open[\s\S]*?close`. */
  function FindDelimited(s: string, open: string, close: string): (r: Option<(nat, nat)>)
    ensures r.Some? ==> r.value.0 + |open| <= r.value.1 && r.value.1 + |close| <= |s|
  {
    match IndexOf(s, open, 0)
    case None => None
    case Some(i) =>
      match IndexOf(s, close, i + |open|)
      case None => None
      case Some(j) => Some((i, j))
  }

  /** `FindDelimited` finds a match exactly when there is one, and then
      finds the one a lazy regular expression returns. */
  lemma FindDelimitedSpec(s: string, open: string, close: string)
    ensures FindDelimited(s, open, close).None? <==> forall i, j :: !Delimited(s, open, close, i, j)
    ensures FindDelimited(s, open, close).Some? ==>
              FirstDelimited(s, open, close, FindDelimited(s, open, close).value.0,
                             FindDelimited(s, open, close).value.1)
  {
    IndexOfSpec(s, open, 0);
    match IndexOf(s, open, 0)
    case None =>
    case Some(i) =>
      IndexOfSpec(s, close, i + |open|);
      match IndexOf(s, close, i + |open|)
      case None =>
      case Some(j) =>
        assert Delimited(s, open, close, i, j);
  }

  /** The lazy match is unique. */
  lemma FirstDelimitedUnique(s: string, open: string, close: string, i1: int, j1: int, i2: int, j2: int)
    requires FirstDelimited(s, open, close, i1, j1) && FirstDelimited(s, open, close, i2, j2)
    ensures i1 == i2 && j1 == j2
  {
  }

  /** The match of a lazy `open[\s\S]*?close`, when there is one. */
  lemma FindDelimitedFinds(s: string, open: string, close: string, i: int, j: int)
    requires FirstDelimited(s, open, close, i, j)
    ensures FindDelimited(s, open, close) == Some((i, j))
  {
    FindDelimitedSpec(s, open, close);
    var m := FindDelimited(s, open, close);
    FirstDelimitedUnique(s, open, close, i, j, m.value.0, m.value.1);
  }

  // ---------------------------------------------------------------------
  // Reasoning strip: /<think>[\s\S]*?<\/think>/ then replace and trim
  // ---------------------------------------------------------------------

  /** `cleanedContent`: the content with its first reasoning segment removed
      and the result trimmed, or the content itself, untrimmed, when no
      segment matches. Written as the page writes it: the matched text is
      removed with a first-occurrence string replace. */
  function StripThink(content: string): string
  {
    match FindDelimited(content, ThinkOpen, ThinkClose)
    case None => content
    case Some(m) => Trim(ReplaceFirst(content, content[m.0..m.1 + |ThinkClose|], ""))
  }

  /** Without a reasoning segment, `cleanedContent` is the content exactly. */
  lemma StripThinkNoSegment(content: string)
    requires forall i, j :: !Delimited(content, ThinkOpen, ThinkClose, i, j)
    ensures StripThink(content) == content
  {
    FindDelimitedSpec(content, ThinkOpen, ThinkClose);
  }

  /** With a reasoning segment, `cleanedContent` is the content with the
      span from the first `<think>` through the next `</think>` deleted,
      then trimmed. */
  lemma StripThinkDeletesSegment(content: string, i: int, j: int)
    requires FirstDelimited(content, ThinkOpen, ThinkClose, i, j)
    ensures StripThink(content) == Trim(content[..i] + content[j + |ThinkClose|..])
  {
    FindDelimitedFinds(content, ThinkOpen, ThinkClose, i, j);
    ReplacedAtMatch(content, ThinkOpen, ThinkClose, i, j);
  }

  /** The first occurrence of the matched text is the match itself, because
      the match starts at the first occurrence of `open`. */
  lemma ReplacedAtMatch(s: string, open: string, close: string, i: int, j: int)
    requires FirstDelimited(s, open, close, i, j)
    ensures ReplaceFirst(s, s[i..j + |close|], "") == s[..i] + s[j + |close|..]
  {
    var m := s[i..j + |close|];
    OccursAtSlice(s, m, i);
    forall k | 0 <= k < i
      ensures !OccursAt(s, m, k)
    {
      MatchNotEarlier(s, open, close, i, j, k);
    }
    ReplaceFirstSpec(s, m, "", i);
  }

  /** The matched text cannot occur at an earlier `k`: it starts with
      `open`, so an occurrence there would start a match at `k`. */
  lemma MatchNotEarlier(s: string, open: string, close: string, i: int, j: int, k: int)
    requires Delimited(s, open, close, i, j) && 0 <= k < i
    requires !Delimited(s, open, close, k, j)
    ensures !OccursAt(s, s[i..j + |close|], k)
  {
    var m := s[i..j + |close|];
    if OccursAt(s, m, k) {
      OccursAtSlice(s, open, i);
      assert m[..|open|] == open;
      OccursAtPrefix(s, m, open, k);
    }
  }

  // ---------------------------------------------------------------------
  // Fenced block: /```json\n([\s\S]*?)\n```/
  // ---------------------------------------------------------------------

  /** Capture group 1 of the fenced-block pattern. */
  function FindFenced(s: string): Option<string>
  {
    match FindDelimited(s, FenceOpen, FenceClose)
    case None => None
    case Some(m) => Some(s[m.0 + |FenceOpen|..m.1])
  }

  /** The fenced pattern matches exactly when some "```json\n" is followed,
      at or after its end, by a "\n```"; its capture is the text strictly
      between the first opener and the first closer that follows it. */
  lemma FindFencedSpec(s: string)
    ensures FindFenced(s).None? <==> forall i, j :: !Delimited(s, FenceOpen, FenceClose, i, j)
    ensures forall i, j :: FirstDelimited(s, FenceOpen, FenceClose, i, j) ==>
              FindFenced(s) == Some(s[i + |FenceOpen|..j])
  {
    FindDelimitedSpec(s, FenceOpen, FenceClose);
    forall i, j | FirstDelimited(s, FenceOpen, FenceClose, i, j)
      ensures FindFenced(s) == Some(s[i + |FenceOpen|..j])
    {
      FindDelimitedFinds(s, FenceOpen, FenceClose, i, j);
    }
  }

  // ---------------------------------------------------------------------
  // Bare object: /\{[\s\S]*"conversation"[\s\S]*"code"[\s\S]*\}/
  // ---------------------------------------------------------------------

  /** `k0`, `k1`, `k2`, `k3` occur at `a`, `p`, `q`, `e`, in this order and
      without overlapping: one way a pattern `k0[\s\S]*k1[\s\S]*k2[\s\S]*k3`
      can match. */
  ghost predicate Chain(s: string, k0: string, k1: string, k2: string, k3: string,
                        a: int, p: int, q: int, e: int)
  {
    && OccursAt(s, k0, a)
    && OccursAt(s, k1, p) && a + |k0| <= p
    && OccursAt(s, k2, q) && p + |k1| <= q
    && OccursAt(s, k3, e) && q + |k2| <= e
  }

  /** The chain found by taking, at every step, the earliest occurrence of
      the next key. Each stage below searches for one key from where the
      previous one ends. */
  function FirstChain(s: string, k0: string, k1: string, k2: string, k3: string)
    : Option<(nat, nat, nat, nat)>
  {
    match IndexOf(s, k0, 0)
    case None => None
    case Some(a) => ChainFrom1(s, k1, k2, k3, a, a + |k0|)
  }

  function ChainFrom1(s: string, k1: string, k2: string, k3: string, a: nat, from: nat)
    : Option<(nat, nat, nat, nat)>
  {
    match IndexOf(s, k1, from)
    case None => None
    case Some(p) => ChainFrom2(s, k2, k3, a, p, p + |k1|)
  }

  function ChainFrom2(s: string, k2: string, k3: string, a: nat, p: nat, from: nat)
    : Option<(nat, nat, nat, nat)>
  {
    match IndexOf(s, k2, from)
    case None => None
    case Some(q) => ChainFrom3(s, k3, a, p, q, q + |k2|)
  }

  function ChainFrom3(s: string, k3: string, a: nat, p: nat, q: nat, from: nat)
    : Option<(nat, nat, nat, nat)>
  {
    match IndexOf(s, k3, from)
    case None => None
    case Some(e) => Some((a, p, q, e))
  }

  /** Taking the earliest occurrence at every step finds a chain whenever
      there is one, and its first key is the first occurrence of `k0`. */
  lemma FirstChainSpec(s: string, k0: string, k1: string, k2: string, k3: string)
    ensures FirstChain(s, k0, k1, k2, k3).None? <==>
              forall a, p, q, e :: !Chain(s, k0, k1, k2, k3, a, p, q, e)
    ensures FirstChain(s, k0, k1, k2, k3).Some? ==>
              var c := FirstChain(s, k0, k1, k2, k3).value;
              && Chain(s, k0, k1, k2, k3, c.0, c.1, c.2, c.3)
              && forall k :: 0 <= k < c.0 ==> !OccursAt(s, k0, k)
  {
    match IndexOf(s, k0, 0)
    case None =>
      forall a', p', q', e' | Chain(s, k0, k1, k2, k3, a', p', q', e') ensures false {
        IndexOfAtMost(s, k0, 0, a');
      }
    case Some(a) =>
      match IndexOf(s, k1, a + |k0|)
      case None =>
        NoChainPast1(s, k0, k1, k2, k3, a);
      case Some(p) =>
        match IndexOf(s, k2, p + |k1|)
        case None =>
          NoChainPast2(s, k0, k1, k2, k3, a, p);
        case Some(q) =>
          match IndexOf(s, k3, q + |k2|)
          case None =>
            NoChainPast3(s, k0, k1, k2, k3, a, p, q);
          case Some(e) =>
            FirstChainFound(s, k0, k1, k2, k3, a, p, q, e);
  }

  /** When the search for a later key fails after the earlier keys were
      found at `a`, `p`, `q`, there is no chain at all. */
  lemma NoChainPast1(s: string, k0: string, k1: string, k2: string, k3: string, a: nat)
    requires IndexOf(s, k0, 0) == Some(a) && IndexOf(s, k1, a + |k0|).None?
    ensures forall a', p', q', e' :: !Chain(s, k0, k1, k2, k3, a', p', q', e')
  {
    forall a', p', q', e' | Chain(s, k0, k1, k2, k3, a', p', q', e') ensures false {
      IndexOfAtMost(s, k0, 0, a');
      IndexOfAtMost(s, k1, a + |k0|, p');
    }
  }

  lemma NoChainPast2(s: string, k0: string, k1: string, k2: string, k3: string, a: nat, p: nat)
    requires IndexOf(s, k0, 0) == Some(a) && IndexOf(s, k1, a + |k0|) == Some(p)
    requires IndexOf(s, k2, p + |k1|).None?
    ensures forall a', p', q', e' :: !Chain(s, k0, k1, k2, k3, a', p', q', e')
  {
    forall a', p', q', e' | Chain(s, k0, k1, k2, k3, a', p', q', e') ensures false {
      IndexOfAtMost(s, k0, 0, a');
      IndexOfAtMost(s, k1, a + |k0|, p');
      IndexOfAtMost(s, k2, p + |k1|, q');
    }
  }

  lemma NoChainPast3(s: string, k0: string, k1: string, k2: string, k3: string,
                     a: nat, p: nat, q: nat)
    requires IndexOf(s, k0, 0) == Some(a) && IndexOf(s, k1, a + |k0|) == Some(p)
    requires IndexOf(s, k2, p + |k1|) == Some(q) && IndexOf(s, k3, q + |k2|).None?
    ensures forall a', p', q', e' :: !Chain(s, k0, k1, k2, k3, a', p', q', e')
  {
    forall a', p', q', e' | Chain(s, k0, k1, k2, k3, a', p', q', e') ensures false {
      IndexOfAtMost(s, k0, 0, a');
      IndexOfAtMost(s, k1, a + |k0|, p');
      IndexOfAtMost(s, k2, p + |k1|, q');
      IndexOfAtMost(s, k3, q + |k2|, e');
    }
  }

  lemma FirstChainFound(s: string, k0: string, k1: string, k2: string, k3: string,
                        a: nat, p: nat, q: nat, e: nat)
    requires IndexOf(s, k0, 0) == Some(a) && IndexOf(s, k1, a + |k0|) == Some(p)
    requires IndexOf(s, k2, p + |k1|) == Some(q) && IndexOf(s, k3, q + |k2|) == Some(e)
    ensures FirstChain(s, k0, k1, k2, k3) == Some((a, p, q, e))
    ensures Chain(s, k0, k1, k2, k3, a, p, q, e)
    ensures forall k :: 0 <= k < a ==> !OccursAt(s, k0, k)
  {
    FirstChainIs(s, k0, k1, k2, k3, a, p, q, e);
    FoundIsChain(s, k0, k1, k2, k3, a, p, q, e);
    NoEarlierOccurrence(s, k0, a);
  }

  /** The positions the stepwise search finds form a chain. */
  lemma FoundIsChain(s: string, k0: string, k1: string, k2: string, k3: string,
                     a: nat, p: nat, q: nat, e: nat)
    requires IndexOf(s, k0, 0) == Some(a) && IndexOf(s, k1, a + |k0|) == Some(p)
    requires IndexOf(s, k2, p + |k1|) == Some(q) && IndexOf(s, k3, q + |k2|) == Some(e)
    ensures Chain(s, k0, k1, k2, k3, a, p, q, e)
  {
    IndexOfOccurs(s, k0, 0);
    IndexOfOccurs(s, k1, a + |k0|);
    IndexOfOccurs(s, k2, p + |k1|);
    IndexOfOccurs(s, k3, q + |k2|);
  }

  /** Nothing occurs before the first occurrence. */
  lemma NoEarlierOccurrence(s: string, pat: string, a: nat)
    requires IndexOf(s, pat, 0) == Some(a)
    ensures forall k :: 0 <= k < a ==> !OccursAt(s, pat, k)
  {
    forall k | 0 <= k < a ensures !OccursAt(s, pat, k) {
      if OccursAt(s, pat, k) {
        IndexOfAtMost(s, pat, 0, k);
      }
    }
  }

  lemma FirstChainIs(s: string, k0: string, k1: string, k2: string, k3: string,
                     a: nat, p: nat, q: nat, e: nat)
    requires IndexOf(s, k0, 0) == Some(a) && IndexOf(s, k1, a + |k0|) == Some(p)
    requires IndexOf(s, k2, p + |k1|) == Some(q) && IndexOf(s, k3, q + |k2|) == Some(e)
    ensures FirstChain(s, k0, k1, k2, k3) == Some((a, p, q, e))
  {
    assert ChainFrom3(s, k3, a, p, q, q + |k2|) == Some((a, p, q, e));
    assert ChainFrom2(s, k2, k3, a, p, p + |k1|) == Some((a, p, q, e));
    assert ChainFrom1(s, k1, k2, k3, a, a + |k0|) == Some((a, p, q, e));
  }

  /** Taking the earliest occurrence at every step finds a chain whenever
      there is one, starting no later than any chain. */
  lemma FirstChainCovers(s: string, k0: string, k1: string, k2: string, k3: string,
                         a: int, p: int, q: int, e: int)
    requires Chain(s, k0, k1, k2, k3, a, p, q, e)
    ensures FirstChain(s, k0, k1, k2, k3).Some?
    ensures FirstChain(s, k0, k1, k2, k3).value.0 <= a
  {
    IndexOfAtMost(s, k0, 0, a);
    var a0 := IndexOf(s, k0, 0).value;
    IndexOfAtMost(s, k1, a0 + |k0|, p);
    var p0 := IndexOf(s, k1, a0 + |k0|).value;
    IndexOfAtMost(s, k2, p0 + |k1|, q);
    var q0 := IndexOf(s, k2, p0 + |k1|).value;
    IndexOfAtMost(s, k3, q0 + |k2|, e);
  }

  /** A one-character string occurs exactly where that character is. */
  lemma OccursAtChar(s: string, c: char, k: int)
    ensures OccursAt(s, [c], k) <==> 0 <= k < |s| && s[k] == c
  {
    if 0 <= k {
      assert [c][1..] == [];
      assert PrefixAt(s, [], k + 1);
    }
  }

  /** One way the bare-object pattern can match: `{` at `a`, then
      `"conversation"` at `p`, `"code"` at `q` and `}` at `e`. */
  ghost predicate BareChain(s: string, a: int, p: int, q: int, e: int)
  {
    Chain(s, "{", ConversationKey, CodeKey, "}", a, p, q, e)
  }

  /** Start and end positions of the match of the greedy bare-object
      pattern: the first `{` of the text through its last `}`, provided the
      keys and a closing brace follow that `{` in order. */
  function FindBareSpan(s: string): (r: Option<(nat, nat)>)
    ensures r.Some? ==> r.value.0 <= r.value.1 < |s|
  {
    match FirstChain(s, "{", ConversationKey, CodeKey, "}")
    case None => None
    case Some(c) =>
      match LastIndexOf(s, '}')
      case None => None
      case Some(e) => if c.0 <= e < |s| then Some((c.0, e)) else None
  }

  /** Every possible match lies within the span found: the span starts no
      later and ends no earlier, and its ends are braces. */
  lemma FindBareSpanCovers(s: string, a: int, p: int, q: int, e: int)
    requires BareChain(s, a, p, q, e)
    ensures FindBareSpan(s).Some?
    ensures FindBareSpan(s).value.0 <= a && e <= FindBareSpan(s).value.1
  {
    FirstChainCovers(s, "{", ConversationKey, CodeKey, "}", a, p, q, e);
    var c := FirstChain(s, "{", ConversationKey, CodeKey, "}").value;
    OccursAtChar(s, '}', e);
    LastIndexOfAtLeast(s, '}', e);
    assert FindBareSpan(s) == Some((c.0, LastIndexOf(s, '}').value));
  }

  /** The span found is spanned by a match: a `{` at its start and a `}` at
      its end, with the two keys in order between them. */
  lemma FindBareSpanChain(s: string)
    ensures FindBareSpan(s).Some? ==>
              exists p, q :: BareChain(s, FindBareSpan(s).value.0, p, q, FindBareSpan(s).value.1)
  {
    FirstChainSpec(s, "{", ConversationKey, CodeKey, "}");
    match FirstChain(s, "{", ConversationKey, CodeKey, "}")
    case None =>
    case Some(c) =>
      var a, p, q, e0 := c.0, c.1, c.2, c.3;
      OccursAtChar(s, '}', e0);
      LastIndexOfAtLeast(s, '}', e0);
      var e := LastIndexOf(s, '}').value;
      OccursAtChar(s, '}', e);
      assert BareChain(s, a, p, q, e);
      assert FindBareSpan(s) == Some((a, e));
  }

  /** `FindBareSpan` finds a span exactly when the pattern can match. */
  lemma FindBareSpanFinds(s: string)
    ensures FindBareSpan(s).None? <==> forall a, p, q, e :: !BareChain(s, a, p, q, e)
  {
    FindBareSpanChain(s);
    forall a, p, q, e | BareChain(s, a, p, q, e) ensures FindBareSpan(s).Some? {
      FindBareSpanCovers(s, a, p, q, e);
    }
  }

  /** The span found starts at the first `{` of the whole text. */
  lemma FindBareSpanFirstBrace(s: string)
    ensures FindBareSpan(s).Some? ==> forall k :: 0 <= k < FindBareSpan(s).value.0 ==> s[k] != '{'
  {
    FirstChainSpec(s, "{", ConversationKey, CodeKey, "}");
    if FindBareSpan(s).Some? {
      var c := FirstChain(s, "{", ConversationKey, CodeKey, "}").value;
      forall k | 0 <= k < c.0 ensures s[k] != '{' {
        OccursAtChar(s, '{', k);
      }
    }
  }

  /** No match starts before the span found. */
  lemma FindBareSpanLeftmost(s: string)
    ensures FindBareSpan(s).Some? ==>
              forall a', p, q, e' :: BareChain(s, a', p, q, e') ==> FindBareSpan(s).value.0 <= a'
  {
    FindBareSpanFirstBrace(s);
    if FindBareSpan(s).Some? {
      forall a', p, q, e' | BareChain(s, a', p, q, e') ensures FindBareSpan(s).value.0 <= a' {
        OccursAtChar(s, '{', a');
      }
    }
  }

  /** The span found ends at the last `}` of the text: the greedy
      `[\s\S]*` before the final `\}` takes all it can. */
  lemma FindBareSpanLastBrace(s: string)
    ensures FindBareSpan(s).Some? ==> forall k :: FindBareSpan(s).value.1 < k < |s| ==> s[k] != '}'
  {
    LastIndexOfSpec(s, '}');
  }

  /** `directMatch[0]`: the matched text of the bare-object pattern. */
  function FindBare(s: string): Option<string>
  {
    match FindBareSpan(s)
    case None => None
    case Some(m) => Some(s[m.0..m.1 + 1])
  }

  /** The bare-object pattern matches exactly when some `{` is followed in
      order by `"conversation"`, `"code"` and `}`. */
  lemma FindBareMatches(s: string)
    ensures FindBare(s).None? <==> forall a, p, q, e :: !BareChain(s, a, p, q, e)
  {
    FindBareSpanFinds(s);
  }

  /** The matched text, described without the search: a match whose `{`
      is the first of the text and whose `}` is the last spans exactly the
      text the greedy pattern matches. */
  lemma FindBareText(s: string, a: int, p: int, q: int, e: int)
    requires BareChain(s, a, p, q, e)
    requires forall k :: 0 <= k < a ==> s[k] != '{'
    requires forall k :: e < k < |s| ==> s[k] != '}'
    ensures FindBare(s) == Some(s[a..e + 1])
  {
    FindBareSpanCovers(s, a, p, q, e);
    var m := FindBareSpan(s).value;
    assert a <= m.0 by {
      FindBareSpanChain(s);
      var p0, q0 :| BareChain(s, m.0, p0, q0, m.1);
      OccursAtChar(s, '{', m.0);
    }
    assert m.1 <= e by {
      LastIndexOfAtLeast(s, '}', e);
    }
    FindBareOfSpan(s, a, e);
  }

  lemma FindBareOfSpan(s: string, a: int, e: int)
    requires FindBareSpan(s).Some? && FindBareSpan(s).value.0 == a && FindBareSpan(s).value.1 == e
    ensures FindBare(s) == Some(s[a..e + 1])
  {
  }

  /** Text in which every `"code"` starts before the end of every
      `"conversation"` is never found by the bare-object pattern: an
      object with its keys in that order is missed unless a later
      `"code"`, inside a value say, completes the match. */
  lemma CodeBeforeConversationNotFound(s: string)
    requires forall p, q :: OccursAt(s, ConversationKey, p) && OccursAt(s, CodeKey, q) ==>
               q < p + |ConversationKey|
    ensures FindBare(s) == None
  {
    FindBareMatches(s);
  }

  // ---------------------------------------------------------------------
  // Unescaping: .replace(/\\n/g, '\n')
  // ---------------------------------------------------------------------

  /** A backslash followed by the letter `n` starts at index `i`. */
  predicate EscapedNewlineAt(s: string, i: int)
  {
    0 <= i && i + 1 < |s| && s[i] == '\\' && s[i + 1] == 'n'
  }

  /** Number of indices at which a backslash-`n` pair starts. */
  function EscapedNewlines(s: string): nat
  {
    if |s| < 2 then 0
    else (if EscapedNewlineAt(s, 0) then 1 else 0) + EscapedNewlines(s[1..])
  }

  /** `code.replace(/\\n/g, '\n')`: every backslash-`n` pair, scanning left
      to right, becomes one newline character. */
  function Unescape(s: string): (r: string)
    ensures |s| > 0 ==> |r| > 0 && (r[0] == s[0] || r[0] == '\n')
    ensures forall i :: !EscapedNewlineAt(r, i)
    ensures |r| == |s| - EscapedNewlines(s)
  {
    if |s| == 0 then ""
    else if EscapedNewlineAt(s, 0) then
      var t := Unescape(s[2..]);
      assert forall i :: EscapedNewlineAt("\n" + t, i) ==> EscapedNewlineAt(t, i - 1);
      "\n" + t
    else
      var t := Unescape(s[1..]);
      assert forall i :: EscapedNewlineAt([s[0]] + t, i) ==> EscapedNewlineAt(t, i - 1) || i == 0;
      [s[0]] + t
  }

  /** Writes each newline as a backslash-`n` pair, as a JSON encoder that
      escapes twice would leave it. */
  function Escape(s: string): (r: string)
    ensures forall i :: 0 <= i < |r| ==> r[i] != '\n'
    ensures |s| > 0 ==> |r| > 0 && (r[0] == s[0] || r[0] == '\\')
  {
    if |s| == 0 then ""
    else if s[0] == '\n' then "\\n" + Escape(s[1..])
    else [s[0]] + Escape(s[1..])
  }

  /** Unescaping text with no backslash-`n` pair changes nothing; in
      particular unescaping twice is unescaping once. */
  lemma {:induction false} UnescapeIdentity(s: string)
    requires forall i :: !EscapedNewlineAt(s, i)
    ensures Unescape(s) == s
  {
    if |s| > 0 {
      assert !EscapedNewlineAt(s, 0);
      forall i ensures !EscapedNewlineAt(s[1..], i) {
        assert EscapedNewlineAt(s[1..], i) ==> EscapedNewlineAt(s, i + 1);
      }
      UnescapeIdentity(s[1..]);
      assert s == [s[0]] + s[1..];
    }
  }

  lemma UnescapeIdempotent(s: string)
    ensures Unescape(Unescape(s)) == Unescape(s)
  {
    UnescapeIdentity(Unescape(s));
  }

  /** A real newline is never part of a backslash-`n` pair, so unescaping
      works on the text on either side of it separately. With
      `EscapeUnescape` this determines `Unescape` on every input: cut it at
      its newlines, and each newline-free piece is the escaped form of its
      own unescaping. */
  lemma {:induction false} UnescapeAcrossNewline(a: string, b: string)
    ensures Unescape(a + "\n" + b) == Unescape(a) + "\n" + Unescape(b)
    decreases |a|, 1
  {
    if |a| == 0 {
      assert a + "\n" + b == [('\n')] + b;
      UnescapeCons('\n', b);
    } else if EscapedNewlineAt(a, 0) {
      UnescapeAcrossNewlinePair(a, b);
    } else {
      UnescapeAcrossNewlineKept(a, b);
    }
  }

  /** The inductive step when `a` starts with a pair. */
  lemma {:induction false} UnescapeAcrossNewlinePair(a: string, b: string)
    requires EscapedNewlineAt(a, 0)
    ensures Unescape(a + "\n" + b) == Unescape(a) + "\n" + Unescape(b)
    decreases |a|, 0
  {
    var t := a[2..];
    assert a == "\\n" + t;
    assert a + "\n" + b == "\\n" + (t + "\n" + b);
    UnescapePair(t);
    UnescapePair(t + "\n" + b);
    UnescapeAcrossNewline(t, b);
    Regroup("\n", Unescape(t + "\n" + b), Unescape(t), Unescape(b));
  }

  /** The inductive step when the first character of `a` is kept. */
  lemma {:induction false} UnescapeAcrossNewlineKept(a: string, b: string)
    requires |a| > 0 && !EscapedNewlineAt(a, 0)
    ensures Unescape(a + "\n" + b) == Unescape(a) + "\n" + Unescape(b)
    decreases |a|, 0
  {
    var t := a[1..];
    assert a == [a[0]] + t;
    assert a + "\n" + b == [a[0]] + (t + "\n" + b);
    assert |t| > 0 ==> t[0] == a[1];
    assert !(a[0] == '\\' && (t + "\n" + b)[0] == 'n') by {
      if |t| == 0 { assert (t + "\n" + b)[0] == '\n'; } else { assert (t + "\n" + b)[0] == t[0]; }
    }
    UnescapeCons(a[0], t);
    UnescapeCons(a[0], t + "\n" + b);
    UnescapeAcrossNewline(t, b);
    Regroup([a[0]], Unescape(t + "\n" + b), Unescape(t), Unescape(b));
  }

  /** Prepending to text cut at a newline prepends to its first piece. */
  lemma Regroup(c: string, y: string, u: string, v: string)
    requires y == u + "\n" + v
    ensures c + y == (c + u) + "\n" + v
  {
  }

  /** A backslash-`n` pair at the front becomes one newline. */
  lemma UnescapePair(t: string)
    ensures Unescape("\\n" + t) == "\n" + Unescape(t)
  {
    assert ("\\n" + t)[2..] == t;
  }

  /** A character that does not start a pair is kept. */
  lemma UnescapeCons(c: char, t: string)
    requires !(c == '\\' && |t| > 0 && t[0] == 'n')
    ensures Unescape([c] + t) == [c] + Unescape(t)
  {
    assert ([c] + t)[1..] == t;
  }

  /** Text without real newlines is the escaped form of its own
      unescaping: unescaping loses nothing on it. */
  lemma {:induction false} EscapeUnescape(s: string)
    requires forall i :: 0 <= i < |s| ==> s[i] != '\n'
    ensures Escape(Unescape(s)) == s
    decreases |s|
  {
    if |s| > 0 {
      if EscapedNewlineAt(s, 0) {
        var t := Unescape(s[2..]);
        EscapeUnescape(s[2..]);
        assert Unescape(s) == "\n" + t;
        assert ("\n" + t)[1..] == t;
        assert s == "\\n" + s[2..];
      } else {
        var t := Unescape(s[1..]);
        EscapeUnescape(s[1..]);
        assert Unescape(s) == [s[0]] + t;
        assert ([s[0]] + t)[1..] == t;
        assert s == [s[0]] + s[1..];
      }
    }
  }

  /** Unescaping undoes escaping for every text that holds no
      backslash-`n` pair of its own. */
  lemma {:induction false} UnescapeEscape(s: string)
    requires forall i :: !EscapedNewlineAt(s, i)
    ensures Unescape(Escape(s)) == s
  {
    if |s| > 0 {
      forall i ensures !EscapedNewlineAt(s[1..], i) {
        assert EscapedNewlineAt(s[1..], i) ==> EscapedNewlineAt(s, i + 1);
      }
      UnescapeEscape(s[1..]);
      var t := Escape(s[1..]);
      if s[0] == '\n' {
        assert Escape(s) == "\\n" + t;
        assert (("\\n" + t)[2..]) == t;
      } else {
        assert Escape(s) == [s[0]] + t;
        if s[0] == '\\' && |t| > 0 {
          assert !EscapedNewlineAt(s, 0);
          assert t[0] != 'n';
        }
        assert ([s[0]] + t)[1..] == t;
      }
      assert s == [s[0]] + s[1..];
    }
  }
}
