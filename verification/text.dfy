/**
  Python string primitives the script relies on, over `string` (= `seq<char>`):
  `str.startswith`, the `in` operator on strings and `str.replace` with its
  default count (every occurrence, leftmost first, non-overlapping, one pass).
 */
module Text {

  /** `s.startswith(p)`. */
  predicate StartsWith(s: string, p: string)
  {
    |p| <= |s| && s[..|p|] == p
  }

  /** `n in s`: some position of `s` starts an occurrence of `n`. */
  predicate Contains(s: string, n: string)
    decreases |s|
  {
    StartsWith(s, n) || (|s| > 0 && Contains(s[1..], n))
  }

  /** One of the two strings is a prefix of the other. */
  predicate PrefixRelated(a: string, b: string)
  {
    StartsWith(a, b) || StartsWith(b, a)
  }

  /**
    `s.replace(n, r)`. The scan tries the needle at the current position; on a
    hit it emits `r` and jumps past the occurrence, otherwise it keeps one
    character. An empty needle matches between every two characters and at
    both ends, as in Python (`"ab".replace("", "-") == "-a-b-"`).
   */
  function ReplaceAll(s: string, n: string, r: string): (t: string)
    ensures |n| > 0 && !Contains(s, n) ==> t == s
    ensures |n| > 0 && Contains(s, n) ==> Contains(t, r)
    decreases |s|
  {
    if |n| == 0 then
      if |s| == 0 then r else r + [s[0]] + ReplaceAll(s[1..], n, r)
    else if StartsWith(s, n) then
      ContainsSelf(r);
      ContainsAppendRight(r, ReplaceAll(s[|n|..], n, r), r);
      r + ReplaceAll(s[|n|..], n, r)
    else if |s| == 0 then []
    else
      var rest := ReplaceAll(s[1..], n, r);
      assert Contains(s, n) ==> Contains([s[0]] + rest, r) by {
        if Contains(s, n) {
          ContainsPrepend([s[0]], rest, r);
        }
      }
      [s[0]] + rest
  }

  /**
    Substituting `r` for `n` can never manufacture a fresh `n`: the first
    character of `n` does not occur in `r`, and no proper suffix of `n` can
    run into `r`.
   */
  predicate CannotRecreate(n: string, r: string)
  {
    && |n| > 0
    && n[0] !in r
    && forall k :: 1 <= k < |n| ==> !PrefixRelated(n[k..], r)
  }

  /** A text that starts with `p` begins with something prefix-related to `p`. */
  lemma StartsWithJoin(a: string, b: string, p: string)
    requires StartsWith(a + b, p)
    ensures PrefixRelated(a, p)
  {
    if |p| <= |a| {
      assert a[..|p|] == (a + b)[..|p|];
    } else {
      assert p[..|a|] == (a + b)[..|a|] == a;
    }
  }

  /** A text that opens with a character starts with `w` when the character is `w`'s first and the rest follows. */
  lemma StartsWithCons(c: char, r: string, w: string)
    requires |w| > 0
    ensures StartsWith([c] + r, w) <==> c == w[0] && StartsWith(r, w[1..])
  {
    var x := [c] + r;
    if |w| <= |x| {
      assert x[..|w|] == [c] + r[..|w| - 1];
      assert w == [w[0]] + w[1..];
    }
  }

  /** A non-empty prefix is the first character followed by a prefix of the tail. */
  lemma ConsSlice(s: string, k: nat)
    requires 0 < k <= |s|
    ensures s[..k] == [s[0]] + s[1..][..k - 1]
  {
    assert forall i :: 0 <= i < k ==> s[..k][i] == ([s[0]] + s[1..][..k - 1])[i];
  }

  /** Past a matching first character, `s` starts with `p` when its tail starts with `p`'s tail. */
  lemma StartsWithTail(s: string, p: string)
    requires |s| > 0 && |p| > 0 && s[0] == p[0]
    ensures StartsWith(s, p) <==> StartsWith(s[1..], p[1..])
    ensures |p| <= |s| ==> s[1..][|p| - 1..] == s[|p|..]
  {
    StartsWithCons(s[0], s[1..], p);
    assert s == [s[0]] + s[1..];
  }

  /**
    Reassembling a text kept one character at a time: if `t` is `u`'s first
    character followed by `r`, and `r` and `u` continue with the rest of `w`,
    then `t` and `u` start with `w`.
   */
  lemma ConsPrefix(u: string, w: string, t: string, r: string, a: string)
    requires |u| > 0 && |w| > 0 && u[0] == w[0]
    requires t == [u[0]] + r
    requires StartsWith(u[1..], w[1..])
    requires r == w[1..] + a
    ensures StartsWith(u, w)
    ensures u[1..][|w| - 1..] == u[|w|..]
    ensures t == w + a
  {
    StartsWithCons(u[0], u[1..], w);
    assert u == [u[0]] + u[1..];
    assert w == [w[0]] + w[1..];
  }

  lemma {:induction false} ContainsSelf(n: string)
    ensures Contains(n, n)
  {
    assert n[..|n|] == n;
  }

  /** An occurrence needs room. */
  lemma {:induction false} ContainsLength(s: string, n: string)
    requires Contains(s, n)
    ensures |n| <= |s|
    decreases |s|
  {
    if !StartsWith(s, n) {
      ContainsLength(s[1..], n);
    }
  }

  /** Wherever `r` occurs, so does each prefix of `r`. */
  lemma {:induction false} ContainsPrefixOf(t: string, r: string, m: string)
    requires StartsWith(r, m)
    requires Contains(t, r)
    ensures Contains(t, m)
    decreases |t|
  {
    if StartsWith(t, r) {
      assert t[..|m|] == r[..|m|];
    } else {
      ContainsPrefixOf(t[1..], r, m);
    }
  }

  /** An occurrence survives text appended after it. */
  lemma {:induction false} ContainsAppendRight(a: string, b: string, n: string)
    requires Contains(a, n)
    ensures Contains(a + b, n)
    decreases |a|
  {
    if StartsWith(a, n) {
      assert (a + b)[..|n|] == a[..|n|];
    } else {
      ContainsAppendRight(a[1..], b, n);
      assert (a + b)[1..] == a[1..] + b;
    }
  }

  /** An occurrence survives text prepended before it. */
  lemma {:induction false} ContainsPrepend(a: string, b: string, n: string)
    requires Contains(b, n)
    ensures Contains(a + b, n)
    decreases |a|
  {
    if |a| == 0 {
      assert a + b == b;
    } else {
      ContainsPrepend(a[1..], b, n);
      assert (a + b)[1..] == a[1..] + b;
    }
  }

  /**
    An occurrence of `n` in `a + b` lies inside `a` or inside `b` when the
    last character of `a` cannot be part of `n`.
   */
  lemma {:induction false} ContainsAcrossSeam(a: string, b: string, n: string)
    requires |a| == 0 || a[|a| - 1] !in n
    requires Contains(a + b, n)
    ensures Contains(a, n) || Contains(b, n)
    decreases |a|
  {
    if |a| == 0 {
      assert a + b == b;
    } else if StartsWith(a + b, n) {
      assert (a + b)[|a| - 1] == a[|a| - 1];
      assert |n| <= |a|;
      assert a[..|n|] == (a + b)[..|n|];
    } else {
      assert (a + b)[1..] == a[1..] + b;
      ContainsAcrossSeam(a[1..], b, n);
    }
  }

  /**
    A text that does not start with `n` does not start with it once `n` is
    appended either, when `n`'s first character does not recur in `n`.
   */
  lemma NoStartAcrossSeam(a: string, n: string)
    requires |a| > 0 && |n| > 0 && n[0] !in n[1..]
    requires !StartsWith(a, n)
    ensures !StartsWith(a + n, n)
    ensures (a + n)[1..] == a[1..] + n
  {
    if |n| <= |a| {
      assert a[..|n|] == (a + n)[..|n|];
    } else {
      assert (a + n)[|a|] == n[0];
      assert n[1..][|a| - 1] == n[|a|];
      assert (a + n)[..|n|][|a|] != n[|a|];
    }
  }

  /**
    Removing every `n` from `a + n`, where `a` holds no `n` and `n`'s first
    character does not recur in `n`, gives back `a`: the trailing `n` cannot
    combine with the end of `a` into an earlier occurrence.
   */
  lemma {:induction false} RemoveTrailingNeedle(a: string, n: string)
    requires |n| > 0 && n[0] !in n[1..]
    requires !Contains(a, n)
    ensures ReplaceAll(a + n, n, []) == a
    decreases |a|
  {
    if |a| == 0 {
      assert a + n == n;
      ContainsSelf(n);
      assert n[|n|..] == [];
    } else {
      NoStartAcrossSeam(a, n);
      RemoveTrailingNeedle(a[1..], n);
      assert a == [a[0]] + a[1..];
    }
  }

  /** None of the first `i` positions of `s` starts an occurrence of `n`. */
  predicate NoNeedleBefore(s: string, n: string, i: nat)
    requires i <= |s|
    decreases i
  {
    i == 0 || (!StartsWith(s, n) && NoNeedleBefore(s[1..], n, i - 1))
  }

  /** The quantified form of `NoNeedleBefore`. */
  lemma {:induction false} NoNeedleBeforeAll(s: string, n: string, i: nat)
    requires i <= |s|
    requires forall j :: 0 <= j < i ==> !StartsWith(s[j..], n)
    ensures NoNeedleBefore(s, n, i)
    decreases i
  {
    if i > 0 {
      assert s[0..] == s;
      forall j | 0 <= j < i - 1
        ensures !StartsWith(s[1..][j..], n)
      {
        assert s[1..][j..] == s[j + 1..];
      }
      NoNeedleBeforeAll(s[1..], n, i - 1);
    }
  }

  /** Where the needle does not start, the first character is kept. */
  lemma ReplaceAllKeep(s: string, n: string, r: string)
    requires |n| > 0 && |s| > 0 && !StartsWith(s, n)
    ensures ReplaceAll(s, n, r) == [s[0]] + ReplaceAll(s[1..], n, r)
  {
  }

  /** Text in which no position starts the needle is copied through. */
  lemma {:induction false} ReplaceAllKeepsPrefix(s: string, n: string, r: string, i: nat)
    requires |n| > 0 && i <= |s|
    requires NoNeedleBefore(s, n, i)
    ensures ReplaceAll(s, n, r) == s[..i] + ReplaceAll(s[i..], n, r)
    decreases i
  {
    if i == 0 {
      assert s[0..] == s;
    } else {
      var rest := s[1..];
      assert rest[i - 1..] == s[i..];
      var after := ReplaceAll(s[i..], n, r);
      calc {
        ReplaceAll(s, n, r);
      == { ReplaceAllKeep(s, n, r); }
        [s[0]] + ReplaceAll(rest, n, r);
      == { ReplaceAllKeepsPrefix(rest, n, r, i - 1); }
        [s[0]] + (rest[..i - 1] + after);
      == { assert s[..i] == [s[0]] + rest[..i - 1]; }
        s[..i] + after;
      }
    }
  }

  /**
    `str.replace` keeps the text before the leftmost occurrence of the needle,
    puts the replacement in its place and goes on right after it.
   */
  lemma {:induction false} ReplaceAllLeftmost(s: string, n: string, r: string, i: nat)
    requires |n| > 0 && i + |n| <= |s|
    requires StartsWith(s[i..], n)
    requires forall j :: 0 <= j < i ==> !StartsWith(s[j..], n)
    ensures ReplaceAll(s, n, r) == s[..i] + r + ReplaceAll(s[i + |n|..], n, r)
  {
    NoNeedleBeforeAll(s, n, i);
    ReplaceAllKeepsPrefix(s, n, r, i);
    assert s[i..][|n|..] == s[i + |n|..];
  }

  /** A character found in neither the text nor the replacement is not in the result. */
  lemma {:induction false} ReplaceAllAvoidsChar(s: string, n: string, r: string, c: char)
    requires c !in s && c !in r
    ensures c !in ReplaceAll(s, n, r)
    decreases |s|
  {
    if |n| == 0 {
      if |s| > 0 {
        ReplaceAllAvoidsChar(s[1..], n, r, c);
      }
    } else if StartsWith(s, n) {
      ReplaceAllAvoidsChar(s[|n|..], n, r, c);
    } else if |s| > 0 {
      ReplaceAllAvoidsChar(s[1..], n, r, c);
    }
  }

  /** Nothing that starts with `n`'s first character comes out of a replacement. */
  lemma {:induction false} NotContainsBehind(r: string, t: string, n: string)
    requires |n| > 0 && n[0] !in r
    requires !Contains(t, n)
    ensures !Contains(r + t, n)
    decreases |r|
  {
    if |r| == 0 {
      assert r + t == t;
    } else {
      assert (r + t)[0] == r[0];
      assert (r + t)[1..] == r[1..] + t;
      NotContainsBehind(r[1..], t, n);
    }
  }

  /**
    If the output of a replacement starts with a proper suffix of the needle,
    the input already did: that suffix cannot come from a replacement.
   */
  lemma {:induction false} ReplaceAllPrefixOrigin(s: string, n: string, r: string, k: nat)
    requires CannotRecreate(n, r)
    requires 1 <= k <= |n|
    requires StartsWith(ReplaceAll(s, n, r), n[k..])
    ensures StartsWith(s, n[k..])
    decreases |s|
  {
    var t := ReplaceAll(s, n, r);
    var w := n[k..];
    if k == |n| {
      assert s[..0] == w;
    } else if StartsWith(s, n) {
      assert false;
    } else if |s| == 0 {
      assert false;
    } else {
      var rest := ReplaceAll(s[1..], n, r);
      assert t == [s[0]] + rest;
      StartsWithCons(s[0], rest, w);
      assert n[k + 1..] == w[1..];
      ReplaceAllPrefixOrigin(s[1..], n, r, k + 1);
      StartsWithCons(s[0], s[1..], w);
      assert s == [s[0]] + s[1..];
    }
  }

  /** Under `CannotRecreate`, the result holds no occurrence of the needle. */
  lemma {:induction false} ReplaceAllRemovesNeedle(s: string, n: string, r: string)
    requires CannotRecreate(n, r)
    ensures !Contains(ReplaceAll(s, n, r), n)
    decreases |s|
  {
    if StartsWith(s, n) {
      ReplaceAllRemovesNeedle(s[|n|..], n, r);
      NotContainsBehind(r, ReplaceAll(s[|n|..], n, r), n);
    } else if |s| == 0 {
      assert ReplaceAll(s, n, r) == [];
    } else {
      var rest := ReplaceAll(s[1..], n, r);
      var t := [s[0]] + rest;
      assert ReplaceAll(s, n, r) == t;
      ReplaceAllRemovesNeedle(s[1..], n, r);
      if StartsWith(t, n) {
        assert s[0] == n[0];
        assert rest[..|n| - 1] == t[1..|n|] == n[1..];
        ReplaceAllPrefixOrigin(s[1..], n, r, 1);
        assert false;
      }
      assert t[1..] == rest;
    }
  }
}
