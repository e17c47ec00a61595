/**
  The pre-processing step that blanks out simulator-specific includes before
  expansion: `re.sub(r'<xacro:include\b[^>]*\.gazebo[^>]*>', PLACEHOLDER, content)`,
  written out as an explicit left-to-right scanner.

  A match starts at a literal `<xacro:include` followed by a word boundary,
  runs to the first `>` after the tag name, and must hold `.gazebo` in
  between; `[^>]` also matches line breaks, so a tag may span lines.
 */
module GazeboFilter {
  import opened Wrappers
  import opened Text
  import opened Substitution

  const TagName := "xacro:include"
  const IncludeTag := "<" + TagName
  const GazeboWord := "gazebo"
  const GazeboExt := "." + GazeboWord

  /**
    The comment that takes each matched tag's place, with its opening `<`
    split off so that proofs can name the rest.
   */
  const Placeholder := "<" + PlaceholderRest
  const PlaceholderRest := "!-- omitted " + ".gazebo include -->"

  /** A regular-expression word character, restricted to ASCII. */
  predicate IsWordChar(c: char)
  {
    ('a' <= c <= 'z') || ('A' <= c <= 'Z') || ('0' <= c <= '9') || c == '_'
  }

  /** `\b` right after the tag's last letter: the text ends or a non-word character follows. */
  predicate WordBoundary(rest: string)
  {
    |rest| == 0 || !IsWordChar(rest[0])
  }

  /**
    `[^>]*\.gazebo[^>]*>` can match at the start of `u`: there is a `>`, and
    `.gazebo` occurs before the first one.
   */
  predicate GazeboBeforeGt(u: string)
    ensures GazeboBeforeGt(u) ==> '>' in u
    decreases |u|
  {
    && |u| > 0
    && u[0] != '>'
    && ((StartsWith(u, GazeboExt) && '>' in u) || GazeboBeforeGt(u[1..]))
  }

  /** Index of the first `>`. */
  function FirstGt(u: string): (j: nat)
    requires '>' in u
    ensures j < |u| && u[j] == '>'
    ensures '>' !in u[..j]
    decreases |u|
  {
    if u[0] == '>' then 0
    else
      var j := FirstGt(u[1..]);
      assert u[..j + 1] == [u[0]] + u[1..][..j];
      j + 1
  }

  /**
    The strings the pattern matches: the tag, a word boundary, a run without
    `>` that holds `.gazebo`, and the closing `>`.
   */
  predicate IsGazeboInclude(t: string)
  {
    && |t| > |IncludeTag|
    && StartsWith(t, IncludeTag)
    && t[|t| - 1] == '>'
    && var body := t[|IncludeTag|..|t| - 1];
       '>' !in body && Contains(body, GazeboExt) && WordBoundary(body)
  }

  /**
    What follows the tag: the word boundary and the `[^>]*\.gazebo[^>]*>`
    run, as the number of characters they take.
   */
  function AfterTag(u: string): (m: Option<nat>)
    ensures m.Some? ==> 0 < m.value <= |u|
  {
    if WordBoundary(u) && GazeboBeforeGt(u) then Some(FirstGt(u) + 1) else None
  }

  /** Every match of what follows the tag is non-empty and fits. */
  lemma AfterTagIsAMatcher()
    ensures Consumes(AfterTag)
  {
  }

  /**
    The match at the start of `s`, as its length: the tag, then what follows
    it. Because `[^>]` cannot cross a `>`, at most one prefix of `s` is in the
    pattern's language.
   */
  function GazeboMatch(s: string): (m: Option<nat>)
    ensures m.Some? ==> |IncludeTag| < m.value <= |s| && StartsWith(s, IncludeTag)
  {
    AfterTagIsAMatcher();
    LiteralThen(s, IncludeTag, AfterTag)
  }

  /** `GazeboMatch` in closed form. */
  lemma {:induction false} GazeboMatchSpec(s: string)
    ensures GazeboMatch(s) ==
              if StartsWith(s, IncludeTag) && WordBoundary(s[|IncludeTag|..]) && GazeboBeforeGt(s[|IncludeTag|..])
              then Some(|IncludeTag| + 1 + FirstGt(s[|IncludeTag|..]))
              else None
  {
    if StartsWith(s, IncludeTag) {
      var u := s[|IncludeTag|..];
      assert GazeboMatch(s) == if AfterTag(u).Some? then Some(|IncludeTag| + AfterTag(u).value) else None by {
        AfterTagIsAMatcher();
        LiteralThenSpec(s, IncludeTag, AfterTag);
      }
    }
  }

  /**
    `GazeboMatch` finds exactly the prefix of `s` that is in the pattern's
    language, and reports none when no prefix is.
   */
  lemma GazeboMatchIsThePattern(s: string, k: nat)
    requires k <= |s|
    ensures GazeboMatch(s) == Some(k) <==> IsGazeboInclude(s[..k])
  {
    GazeboMatchSpec(s);
    if IsGazeboInclude(s[..k]) {
      IncludeMatches(s, k);
    }
    if GazeboMatch(s) == Some(k) {
      var u := s[|IncludeTag|..];
      GtRunLink(u);
      var j := FirstGt(u);
      ContainsLength(u[..j], GazeboExt);
      assert s[..|IncludeTag| + 1 + j][|IncludeTag|..|IncludeTag| + j] == u[..j];
    }
  }

  /** Any prefix in the pattern's language is the one `GazeboMatch` finds. */
  lemma IncludeMatches(s: string, k: nat)
    requires k <= |s| && IsGazeboInclude(s[..k])
    ensures StartsWith(s, IncludeTag) && WordBoundary(s[|IncludeTag|..]) && GazeboBeforeGt(s[|IncludeTag|..])
    ensures FirstGt(s[|IncludeTag|..]) == k - (|IncludeTag| + 1)
  {
    var t := s[..k];
    var body := t[|IncludeTag|..k - 1];
    var u := s[|IncludeTag|..];
    assert t[..|IncludeTag|] == s[..|IncludeTag|];
    ContainsLength(body, GazeboExt);
    assert body == u[..k - (|IncludeTag| + 1)];
    assert u[k - (|IncludeTag| + 1)] == '>';
    var j := FirstGt(u);
    assert j == k - (|IncludeTag| + 1);
    GtRunLink(u);
  }

  /** The recursive description of the `[^>]*\.gazebo[^>]*>` run agrees with the first-`>` one. */
  lemma {:induction false} GtRunLink(u: string)
    ensures GazeboBeforeGt(u) <==> ('>' in u && Contains(u[..FirstGt(u)], GazeboExt))
    decreases |u|
  {
    if |u| == 0 {
    } else if u[0] == '>' {
      assert u[..FirstGt(u)] == [];
    } else if '>' in u {
      var j := FirstGt(u);
      assert '>' in u[1..];
      GtRunLink(u[1..]);
      assert u[..j][1..] == u[1..][..FirstGt(u[1..])];
      if StartsWith(u, GazeboExt) {
        assert u[j] == '>';
        assert j >= |GazeboExt|;
        assert u[..j][..|GazeboExt|] == u[..|GazeboExt|];
      }
      if StartsWith(u[..j], GazeboExt) {
        assert u[..|GazeboExt|] == u[..j][..|GazeboExt|];
      }
    } else {
      assert '>' !in u[1..];
      GtRunLink(u[1..]);
    }
  }

  /** Every match is non-empty, fits in the text and opens with the tag. */
  lemma GazeboMatchIsAMatcher()
    ensures Consumes(GazeboMatch) && AnchoredAt(GazeboMatch, IncludeTag)
  {
  }

  /**
    `re.sub(pattern, repl, s)`: every leftmost, non-overlapping match becomes
    `repl`, in one pass; any other character is kept.
   */
  function ReplaceIncludes(s: string, repl: string): string
  {
    GazeboMatchIsAMatcher();
    SubAll(s, GazeboMatch, repl)
  }

  /**
    The filter the converter applies: each match becomes the placeholder
    comment, and no `.gazebo` include is left in the result.
   */
  function FilterIncludes(s: string): (t: string)
    ensures FreeOfIncludes(t)
  {
    PlaceholderIsSafe();
    ReplaceIdempotent(s, Placeholder);
    ReplaceIncludes(s, Placeholder)
  }

  /** No position of `s` starts a match. */
  predicate FreeOfIncludes(s: string)
  {
    NoMatchIn(s, GazeboMatch)
  }

  /**
    A replacement that cannot start a match of its own: it opens with `<`, and
    no position in it, followed by anything, can start the tag.
   */
  predicate SafeReplacement(repl: string)
  {
    |repl| > 0 && repl[0] == '<' && NoLiteralInside(repl, IncludeTag)
  }

  /** The placeholder comment is such a replacement. */
  lemma PlaceholderIsSafe()
    ensures SafeReplacement(Placeholder)
  {
    assert Placeholder[1..] == PlaceholderRest;
    assert '<' !in "!-- omitted ";
    assert '<' !in ".gazebo include -->";
    forall q | 0 <= q < |Placeholder|
      ensures !PrefixRelated(Placeholder[q..], IncludeTag)
    {
      var x := Placeholder[q..];
      if q == 0 {
        assert x[1] != IncludeTag[1];
      } else {
        assert x[0] != IncludeTag[0];
      }
    }
  }

  /** The filter changes the text exactly when it holds a `.gazebo` include. */
  lemma FilterPassThrough(s: string)
    ensures FilterIncludes(s) == s <==> FreeOfIncludes(s)
  {
    GazeboMatchIsAMatcher();
    PlaceholderIsSafe();
    assert Placeholder[0..] == Placeholder;
    PassThrough(s, GazeboMatch, Placeholder, IncludeTag);
  }

  /**
    Text before the leftmost match is kept as it is, the matched tag becomes
    exactly the placeholder, and filtering goes on after the tag's `>`.
   */
  lemma FilterLeftmostMatch(s: string, i: nat, k: nat)
    requires i <= |s|
    requires NoMatchBefore(s, GazeboMatch, i)
    requires GazeboMatch(s[i..]) == Some(k)
    ensures i + k <= |s|
    ensures FilterIncludes(s) == s[..i] + Placeholder + FilterIncludes(s[i + k..])
  {
    GazeboMatchIsAMatcher();
    LeftmostMatch(s, GazeboMatch, Placeholder, i, k);
  }

  /** A `>` in the output comes from a `>` in the input. */
  lemma {:induction false} GtOrigin(u: string, repl: string)
    requires '>' in ReplaceIncludes(u, repl)
    ensures '>' in u
    decreases |u|
  {
    GazeboMatchIsAMatcher();
    match GazeboMatch(u)
    case Some(k) =>
      GazeboMatchSpec(u);
      assert u[|IncludeTag|..][FirstGt(u[|IncludeTag|..])] == '>';
    case None =>
      var rest := ReplaceIncludes(u[1..], repl);
      KeepStep(u, GazeboMatch, repl);
      assert ReplaceIncludes(u, repl) == [u[0]] + rest;
      if u[0] != '>' {
        GtOrigin(u[1..], repl);
      }
  }

  /** A `.gazebo` before the first `>` of the output was there in the input. */
  lemma {:induction false} GtRunOrigin(v: string, repl: string)
    requires |repl| > 0 && repl[0] == '<'
    requires GazeboBeforeGt(ReplaceIncludes(v, repl))
    ensures GazeboBeforeGt(v)
    decreases |v|
  {
    if GazeboMatch(v).Some? {
      GtRunAtMatch(v);
    } else {
      GazeboMatchIsAMatcher();
      var rest := ReplaceIncludes(v[1..], repl);
      var out := ReplaceIncludes(v, repl);
      KeepStep(v, GazeboMatch, repl);
      assert out == [v[0]] + rest;
      assert out[1..] == rest;
      if GazeboBeforeGt(rest) {
        GtRunOrigin(v[1..], repl);
      } else {
        GazeboExtKept(v, repl);
      }
    }
  }

  /** Where a match starts, the run after the tag is one. */
  lemma {:induction false} GtRunAtMatch(v: string)
    requires GazeboMatch(v).Some?
    ensures GazeboBeforeGt(v)
  {
    GazeboMatchSpec(v);
    assert '>' !in v[..|IncludeTag|];
    GtRunPrepend(v[..|IncludeTag|], v[|IncludeTag|..]);
    assert v[..|IncludeTag|] + v[|IncludeTag|..] == v;
  }

  /** A `.gazebo` that the output opens with, at a kept character, was in the input with a `>` after it. */
  lemma {:induction false} GazeboExtKept(v: string, repl: string)
    requires |repl| > 0 && repl[0] == '<'
    requires |v| > 0
    requires var out := [v[0]] + ReplaceIncludes(v[1..], repl);
             StartsWith(out, GazeboExt) && '>' in out
    ensures GazeboBeforeGt(v)
  {
    var rest := ReplaceIncludes(v[1..], repl);
    var out := [v[0]] + rest;
    assert StartsWith(v, GazeboExt) by {
      GazeboMatchIsAMatcher();
      assert '<' !in GazeboWord;
      assert GazeboExt[1..] == GazeboWord;
      KeptPrefix(v, GazeboMatch, repl, GazeboExt);
    }
    assert '>' in rest by {
      var i :| 0 <= i < |out| && out[i] == '>';
      assert out[0] == '.';
      assert rest[i - 1] == '>';
    }
    GtOrigin(v[1..], repl);
    var j :| 0 <= j < |v[1..]| && v[1..][j] == '>';
    assert v[j + 1] == '>';
    assert StartsWith(v, GazeboExt) && '>' in v;
  }

  /** Characters other than `>` in front of a `.gazebo`-before-`>` run keep it one. */
  lemma {:induction false} GtRunPrepend(a: string, u: string)
    requires '>' !in a
    requires GazeboBeforeGt(u)
    ensures GazeboBeforeGt(a + u)
    decreases |a|
  {
    if |a| > 0 {
      GtRunPrepend(a[1..], u);
      assert (a + u)[1..] == a[1..] + u;
    } else {
      assert a + u == u;
    }
  }

  /** An output that starts with the tag at a kept character copied the tag from the input. */
  lemma {:induction false} KeptTag(s: string, repl: string)
    requires |repl| > 0 && repl[0] == '<'
    requires |s| > 0
    requires StartsWith([s[0]] + ReplaceIncludes(s[1..], repl), IncludeTag)
    ensures StartsWith(s, IncludeTag)
    ensures ([s[0]] + ReplaceIncludes(s[1..], repl))[|IncludeTag|..] == ReplaceIncludes(s[|IncludeTag|..], repl)
  {
    GazeboMatchIsAMatcher();
    assert IncludeTag[1..] == TagName;
    assert '<' !in TagName;
    KeptPrefix(s, GazeboMatch, repl, IncludeTag);
  }

  /** A character the substitution keeps does not start a match in the output either. */
  lemma {:induction false} KeptCharStartsNoMatch(s: string, repl: string)
    requires |repl| > 0 && repl[0] == '<'
    requires |s| > 0 && GazeboMatch(s).None?
    ensures GazeboMatch([s[0]] + ReplaceIncludes(s[1..], repl)).None?
  {
    var out := [s[0]] + ReplaceIncludes(s[1..], repl);
    if GazeboMatch(out).Some? {
      GazeboMatchSpec(out);
      KeptTag(s, repl);
      GtRunOrigin(s[|IncludeTag|..], repl);
      GazeboMatchSpec(s);
      assert false;
    }
  }

  /** The output of a substitution by a safe replacement holds no match, so a second pass changes nothing. */
  lemma ReplaceIdempotent(s: string, repl: string)
    requires SafeReplacement(repl)
    ensures FreeOfIncludes(ReplaceIncludes(s, repl))
    ensures ReplaceIncludes(ReplaceIncludes(s, repl), repl) == ReplaceIncludes(s, repl)
  {
    GazeboMatchIsAMatcher();
    forall v | |v| > 0 && GazeboMatch(v).None?
      ensures GazeboMatch([v[0]] + SubAll(v[1..], GazeboMatch, repl)).None?
    {
      KeptCharStartsNoMatch(v, repl);
    }
    OutputFree(s, GazeboMatch, repl, IncludeTag);
    Idempotent(s, GazeboMatch, repl, IncludeTag);
  }

  /** Filtering twice is filtering once. */
  lemma FilterIdempotent(s: string)
    ensures FilterIncludes(FilterIncludes(s)) == FilterIncludes(s)
  {
    PlaceholderIsSafe();
    ReplaceIdempotent(s, Placeholder);
  }
}
