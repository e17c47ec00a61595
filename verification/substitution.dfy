/**
  `re.sub(pattern, repl, s)` for a pattern given by its matcher: the scan
  tries the pattern at the current position; on a match it emits `repl` and
  jumps past the matched text, otherwise it keeps one character. Matches are
  therefore leftmost and non-overlapping, and the text is scanned once.
 */
module Substitution {
  import opened Wrappers
  import opened Text

  /** The length of the match at the start of a text, if the pattern matches there. */
  type Matcher = string -> Option<nat>

  /** Every match the matcher reports is non-empty and lies within the text. */
  ghost predicate Consumes(m: Matcher)
  {
    forall x :: m(x).Some? ==> 0 < m(x).value <= |x|
  }

  /** Every match the matcher reports starts with the literal `lit`. */
  ghost predicate AnchoredAt(m: Matcher, lit: string)
  {
    forall x :: m(x).Some? ==> StartsWith(x, lit)
  }

  /**
    A pattern that opens with the literal `lit` and goes on with the pattern
    `next`, walked as a regex engine walks it: the literal character by
    character, then `next` where the literal ends. The result is the length
    of the whole match.
   */
  function LiteralThen(s: string, lit: string, next: Matcher): (r: Option<nat>)
    requires Consumes(next)
    ensures r.Some? ==> |lit| < r.value <= |s| && StartsWith(s, lit)
    decreases |lit|
  {
    if |lit| == 0 then next(s)
    else if |s| > 0 && s[0] == lit[0] then
      match LiteralThen(s[1..], lit[1..], next)
      case Some(k) =>
        StartsWithTail(s, lit);
        Some(k + 1)
      case None => None
    else
      None
  }

  /** The walk matches the literal, then `next` on what follows it. */
  lemma {:induction false} LiteralThenSpec(s: string, lit: string, next: Matcher)
    requires Consumes(next)
    ensures LiteralThen(s, lit, next) ==
              if StartsWith(s, lit) && next(s[|lit|..]).Some?
              then Some(|lit| + next(s[|lit|..]).value)
              else None
    decreases |lit|
  {
    if |lit| == 0 {
      assert s[0..] == s;
    } else if |s| > 0 && s[0] == lit[0] {
      LiteralThenSpec(s[1..], lit[1..], next);
      StartsWithTail(s, lit);
    }
  }

  /** The pattern that is just the literal `n`: a match of `|n|` characters wherever `n` starts. */
  function Literal(n: string): Matcher
  {
    x => if StartsWith(x, n) then Some(|n|) else None
  }

  /** A non-empty literal is a pattern whose matches open with it. */
  lemma LiteralIsAMatcher(n: string)
    requires |n| > 0
    ensures Consumes(Literal(n)) && AnchoredAt(Literal(n), n)
  {
  }

  /** `re.sub(pattern, repl, s)`. */
  function SubAll(s: string, m: Matcher, repl: string): (t: string)
    requires Consumes(m)
    ensures |repl| > 0 ==> (|t| == 0 <==> |s| == 0)
    decreases |s|
  {
    if |s| == 0 then []
    else
      match m(s)
      case Some(k) => repl + SubAll(s[k..], m, repl)
      case None => [s[0]] + SubAll(s[1..], m, repl)
  }

  /** No position of `s` starts a match. */
  predicate NoMatchIn(s: string, m: Matcher)
    decreases |s|
  {
    m(s).None? && (|s| == 0 || NoMatchIn(s[1..], m))
  }

  /** None of the first `i` positions of `s` starts a match. */
  predicate NoMatchBefore(s: string, m: Matcher, i: nat)
    requires i <= |s|
    decreases i
  {
    i == 0 || (m(s).None? && NoMatchBefore(s[1..], m, i - 1))
  }

  /** Where no match starts, the first character is copied and the scan moves on by one. */
  lemma KeepStep(s: string, m: Matcher, repl: string)
    requires Consumes(m)
    requires |s| > 0 && m(s).None?
    ensures SubAll(s, m, repl) == [s[0]] + SubAll(s[1..], m, repl)
  {
  }

  /** Text in which no position starts a match is copied through unchanged. */
  lemma {:induction false} KeepsPrefix(s: string, m: Matcher, repl: string, i: nat)
    requires Consumes(m)
    requires i <= |s|
    requires NoMatchBefore(s, m, i)
    ensures SubAll(s, m, repl) == s[..i] + SubAll(s[i..], m, repl)
    decreases i
  {
    if i == 0 {
      assert s[0..] == s;
    } else {
      var rest := s[1..];
      assert rest[i - 1..] == s[i..];
      var after := SubAll(s[i..], m, repl);
      calc {
        SubAll(s, m, repl);
      == { KeepStep(s, m, repl); }
        [s[0]] + SubAll(rest, m, repl);
      == { KeepsPrefix(rest, m, repl, i - 1); }
        [s[0]] + (rest[..i - 1] + after);
      == { assert s[..i] == [s[0]] + rest[..i - 1]; }
        s[..i] + after;
      }
    }
  }

  /**
    Text before the leftmost match is kept as it is, the match becomes
    exactly `repl`, and the scan goes on right after the matched text.
   */
  lemma LeftmostMatch(s: string, m: Matcher, repl: string, i: nat, k: nat)
    requires Consumes(m)
    requires i <= |s|
    requires NoMatchBefore(s, m, i)
    requires m(s[i..]) == Some(k)
    ensures i + k <= |s|
    ensures SubAll(s, m, repl) == s[..i] + repl + SubAll(s[i + k..], m, repl)
  {
    KeepsPrefix(s, m, repl, i);
    assert s[i..][k..] == s[i + k..];
  }

  /** An output that does not open with the replacement opens with the input's first character. */
  lemma KeptStep(u: string, m: Matcher, repl: string)
    requires Consumes(m)
    requires |u| > 0 && |repl| > 0
    requires SubAll(u, m, repl)[0] != repl[0]
    ensures m(u).None?
    ensures SubAll(u, m, repl) == [u[0]] + SubAll(u[1..], m, repl)
  {
  }

  /**
    Characters kept verbatim: a prefix of the output without the
    replacement's first character was in the input, at the same place.
   */
  lemma {:induction false} VerbatimPrefix(u: string, m: Matcher, repl: string, w: string)
    requires Consumes(m)
    requires |repl| > 0 && repl[0] !in w
    requires StartsWith(SubAll(u, m, repl), w)
    ensures StartsWith(u, w)
    ensures SubAll(u, m, repl) == w + SubAll(u[|w|..], m, repl)
    decreases |w|
  {
    if |w| == 0 {
      assert u[0..] == u;
    } else {
      var rest := SubAll(u[1..], m, repl);
      KeptFirst(u, m, repl, w);
      VerbatimPrefix(u[1..], m, repl, w[1..]);
      ConsPrefix(u, w, SubAll(u, m, repl), rest, SubAll(u[1..][|w| - 1..], m, repl));
    }
  }

  /** The first step of `VerbatimPrefix`: the output's first character was kept. */
  lemma KeptFirst(u: string, m: Matcher, repl: string, w: string)
    requires Consumes(m)
    requires |w| > 0 && |repl| > 0 && repl[0] != w[0]
    requires StartsWith(SubAll(u, m, repl), w)
    ensures |u| > 0 && u[0] == w[0]
    ensures SubAll(u, m, repl) == [u[0]] + SubAll(u[1..], m, repl)
    ensures StartsWith(SubAll(u[1..], m, repl), w[1..])
  {
    var t := SubAll(u, m, repl);
    assert t[..|w|][0] == t[0];
    KeptStep(u, m, repl);
    StartsWithCons(u[0], SubAll(u[1..], m, repl), w);
  }

  /**
    An output that continues a kept character and starts with `w` copied
    `w` from the input, when only `w`'s first character can equal the
    replacement's first character.
   */
  lemma {:induction false} KeptPrefix(v: string, m: Matcher, repl: string, w: string)
    requires Consumes(m)
    requires |v| > 0 && |w| > 0 && |repl| > 0 && repl[0] !in w[1..]
    requires StartsWith([v[0]] + SubAll(v[1..], m, repl), w)
    ensures StartsWith(v, w)
    ensures ([v[0]] + SubAll(v[1..], m, repl))[|w|..] == SubAll(v[|w|..], m, repl)
  {
    var rest := SubAll(v[1..], m, repl);
    StartsWithCons(v[0], rest, w);
    VerbatimPrefix(v[1..], m, repl, w[1..]);
    StartsWithCons(v[0], v[1..], w);
    assert v == [v[0]] + v[1..];
    assert v[1..][|w| - 1..] == v[|w|..];
    assert ([v[0]] + rest)[|w|..] == rest[|w| - 1..];
  }

  /**
    With a replacement that neither starts with the pattern's literal nor
    stops inside it, the substitution changes the text exactly when some
    position starts a match.
   */
  lemma {:induction false} PassThrough(s: string, m: Matcher, repl: string, lit: string)
    requires Consumes(m) && AnchoredAt(m, lit)
    requires !PrefixRelated(repl, lit)
    ensures SubAll(s, m, repl) == s <==> NoMatchIn(s, m)
    decreases |s|
  {
    if |s| > 0 {
      match m(s)
      case Some(k) =>
        var rest := SubAll(s[k..], m, repl);
        if repl + rest == s {
          StartsWithJoin(repl, rest, lit);
          assert false;
        }
      case None =>
        PassThrough(s[1..], m, repl, lit);
        KeepStep(s, m, repl);
        assert s == [s[0]] + s[1..];
        assert SubAll(s, m, repl)[1..] == SubAll(s[1..], m, repl);
    }
  }

  /** No position of `repl`, followed by anything, can start the literal `lit`. */
  predicate NoLiteralInside(repl: string, lit: string)
  {
    forall q :: 0 <= q < |repl| ==> !PrefixRelated(repl[q..], lit)
  }

  /** No tail of such a replacement, followed by text free of matches, starts a match. */
  lemma {:induction false} TailsAreFree(repl: string, m: Matcher, lit: string, q: nat, t: string)
    requires AnchoredAt(m, lit) && NoLiteralInside(repl, lit)
    requires q <= |repl|
    requires NoMatchIn(t, m)
    ensures NoMatchIn(repl[q..] + t, m)
    decreases |repl| - q
  {
    if q == |repl| {
      assert repl[q..] + t == t;
    } else {
      var x := repl[q..] + t;
      TailsAreFree(repl, m, lit, q + 1, t);
      assert x[1..] == repl[q + 1..] + t;
      if m(x).Some? {
        StartsWithJoin(repl[q..], t, lit);
        assert false;
      }
    }
  }

  /**
    The output holds no match when the replacement cannot start one and no
    character the scan keeps starts one in the output.
   */
  lemma {:induction false} OutputFree(s: string, m: Matcher, repl: string, lit: string)
    requires Consumes(m) && AnchoredAt(m, lit) && NoLiteralInside(repl, lit)
    requires forall v :: |v| > 0 && m(v).None? ==> m([v[0]] + SubAll(v[1..], m, repl)).None?
    ensures NoMatchIn(SubAll(s, m, repl), m)
    decreases |s|
  {
    if |s| > 0 {
      match m(s)
      case Some(k) =>
        OutputFree(s[k..], m, repl, lit);
        TailsAreFree(repl, m, lit, 0, SubAll(s[k..], m, repl));
        assert repl[0..] == repl;
      case None =>
        var rest := SubAll(s[1..], m, repl);
        OutputFree(s[1..], m, repl, lit);
        KeepStep(s, m, repl);
        assert ([s[0]] + rest)[1..] == rest;
    }
  }

  /** A substitution whose output holds no match is idempotent. */
  lemma Idempotent(s: string, m: Matcher, repl: string, lit: string)
    requires Consumes(m) && AnchoredAt(m, lit) && NoLiteralInside(repl, lit)
    requires forall v :: |v| > 0 && m(v).None? ==> m([v[0]] + SubAll(v[1..], m, repl)).None?
    ensures SubAll(SubAll(s, m, repl), m, repl) == SubAll(s, m, repl)
  {
    OutputFree(s, m, repl, lit);
    if |repl| > 0 {
      assert repl[0..] == repl;
      PassThrough(SubAll(s, m, repl), m, repl, lit);
    } else {
      EmptyReplacementPassThrough(SubAll(s, m, repl), m);
    }
  }

  /** With an empty replacement, text free of matches is left as it is. */
  lemma {:induction false} EmptyReplacementPassThrough(s: string, m: Matcher)
    requires Consumes(m)
    requires NoMatchIn(s, m)
    ensures SubAll(s, m, []) == s
    decreases |s|
  {
    if |s| > 0 {
      EmptyReplacementPassThrough(s[1..], m);
      assert s == [s[0]] + s[1..];
    }
  }

  /**
    `s.replace(n, r)` with a non-empty needle is the substitution of `r` for
    the literal pattern `n`, so every law of the scan holds for it.
   */
  lemma {:induction false} ReplaceAllIsSubAll(s: string, n: string, r: string)
    requires |n| > 0
    ensures Consumes(Literal(n))
    ensures ReplaceAll(s, n, r) == SubAll(s, Literal(n), r)
    decreases |s|
  {
    LiteralIsAMatcher(n);
    if |s| > 0 {
      if StartsWith(s, n) {
        ReplaceAllIsSubAll(s[|n|..], n, r);
      } else {
        ReplaceAllIsSubAll(s[1..], n, r);
      }
    }
  }
}
