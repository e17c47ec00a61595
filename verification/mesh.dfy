/**
  The post-processing step that turns absolute mesh locations in the generated
  robot description into package-relative ones:
  `re.sub(r'file://.*?[/\\]meshes', f'package://{robot_mesh}/meshes', urdf_data)`,
  written out as an explicit left-to-right scanner.

  A match starts at a literal `file://`; the lazy `.*?` then takes the fewest
  characters, none of them a line feed, that bring it to a `/` or `\`
  followed by `meshes`.
 */
module MeshUri {
  import opened Wrappers
  import opened Text
  import opened Substitution

  /** `file://`, with its first letter split off so that proofs can name the rest. */
  const Scheme := "f" + SchemeRest
  const SchemeRest := "ile://"
  const MeshesWord := "meshes"
  /** The length of `[/\\]meshes`. */
  const SepMeshesLength := 1 + |MeshesWord|
  /** The length of the shortest match, `file:///meshes`. */
  const MinUriLength := |Scheme| + SepMeshesLength
  const PackageScheme := "package://"

  /** The character class `[/\\]`. */
  predicate IsSep(c: char)
  {
    c == '/' || c == '\\'
  }

  /** `[/\\]meshes` at the start of `u`. */
  predicate SepMeshes(u: string)
  {
    |u| >= SepMeshesLength && IsSep(u[0]) && u[1..SepMeshesLength] == MeshesWord
  }

  /**
    `.*?[/\\]meshes` at the start of `u`: the number of characters the lazy
    `.*?` takes, which is the first position where `[/\\]meshes` follows, as
    long as no line feed comes before it.
   */
  function LazyEnd(u: string): (j: Option<nat>)
    ensures j.Some? ==> j.value + SepMeshesLength <= |u|
    decreases |u|
  {
    if SepMeshes(u) then Some(0)
    else if |u| == 0 || u[0] == '\n' then None
    else
      match LazyEnd(u[1..])
      case Some(j) => Some(j + 1)
      case None => None
  }

  /** What follows `file://`: `.*?[/\\]meshes`, as the number of characters it takes. */
  function AfterScheme(u: string): (m: Option<nat>)
    ensures m.Some? ==> 0 < m.value <= |u|
  {
    var j := LazyEnd(u);
    if j.Some? then Some(j.value + SepMeshesLength) else None
  }

  /** Every match of what follows `file://` is non-empty and fits. */
  lemma AfterSchemeIsAMatcher()
    ensures Consumes(AfterScheme)
  {
  }

  /** The match at the start of `s`, as its length: `file://`, then what follows it. */
  function MeshMatch(s: string): (m: Option<nat>)
    ensures m.Some? ==> |Scheme| < m.value <= |s| && StartsWith(s, Scheme)
  {
    AfterSchemeIsAMatcher();
    LiteralThen(s, Scheme, AfterScheme)
  }

  /** `MeshMatch` in closed form. */
  lemma {:induction false} MeshMatchSpec(s: string)
    ensures MeshMatch(s) ==
              if StartsWith(s, Scheme) && AfterScheme(s[|Scheme|..]).Some?
              then Some(|Scheme| + AfterScheme(s[|Scheme|..]).value)
              else None
  {
    AfterSchemeIsAMatcher();
    LiteralThenSpec(s, Scheme, AfterScheme);
  }

  /**
    `LazyEnd` picks the first position that starts `[/\\]meshes`, and it does
    so exactly when no line feed comes before that position.
   */
  lemma {:induction false} LazyEndIsShortest(u: string, j: nat)
    requires j <= |u|
    ensures LazyEnd(u) == Some(j) <==>
              && SepMeshes(u[j..])
              && '\n' !in u[..j]
              && forall i :: 0 <= i < j ==> !SepMeshes(u[i..])
    decreases j
  {
    if j == 0 {
      assert u[0..] == u;
    } else if SepMeshes(u) {
      assert u[0..] == u;
    } else if u[0] == '\n' {
      assert u[..j][0] == '\n';
    } else {
      LazyEndIsShortest(u[1..], j - 1);
      assert u[1..][j - 1..] == u[j..];
      assert u[..j] == [u[0]] + u[1..][..j - 1];
      if forall i :: 0 <= i < j - 1 ==> !SepMeshes(u[1..][i..]) {
        forall i | 0 <= i < j
          ensures !SepMeshes(u[i..])
        {
          if i > 0 {
            assert u[1..][i - 1..] == u[i..];
          } else {
            assert u[0..] == u;
          }
        }
      } else {
        var i :| 0 <= i < j - 1 && SepMeshes(u[1..][i..]);
        assert u[1..][i..] == u[i + 1..];
      }
    }
  }

  /**
    The strings the pattern matches: `file://`, a run without line feeds, a
    `/` or `\`, and `meshes`.
   */
  predicate IsMeshUri(t: string)
  {
    |t| >= MinUriLength && StartsWith(t, Scheme) && SepMeshes(t[|t| - SepMeshesLength..]) && '\n' !in t[|Scheme|..|t| - SepMeshesLength]
  }

  /** A prefix of `s` of length `k` is a match exactly when the run after `file://` ends in place. */
  lemma MeshUriAt(s: string, k: nat)
    requires MinUriLength <= k <= |s|
    ensures IsMeshUri(s[..k]) <==>
              StartsWith(s, Scheme) && SepMeshes(s[|Scheme|..][k - MinUriLength..]) && '\n' !in s[|Scheme|..][..k - MinUriLength]
  {
    var t := s[..k];
    assert t[..|Scheme|] == s[..|Scheme|];
    assert t[|Scheme|..k - SepMeshesLength] == s[|Scheme|..][..k - MinUriLength];
    assert t[k - SepMeshesLength..] == s[|Scheme|..][k - MinUriLength..][..SepMeshesLength];
    assert t[k - SepMeshesLength..][1..SepMeshesLength] == s[|Scheme|..][k - MinUriLength..][1..SepMeshesLength];
  }

  /** The match `MeshMatch` reports is in the pattern's language and no shorter prefix is. */
  lemma MeshMatchIsShortest(s: string, k: nat)
    requires k <= |s|
    requires MeshMatch(s) == Some(k)
    ensures IsMeshUri(s[..k])
    ensures forall k' :: MinUriLength <= k' < k ==> !IsMeshUri(s[..k'])
  {
    MeshMatchSpec(s);
    LazyEndIsShortest(s[|Scheme|..], k - MinUriLength);
    MeshUriAt(s, k);
    forall k' | MinUriLength <= k' < k
      ensures !IsMeshUri(s[..k'])
    {
      MeshUriAt(s, k');
    }
  }

  /** The shortest prefix of `s` in the pattern's language is the match `MeshMatch` reports. */
  lemma ShortestIsMeshMatch(s: string, k: nat)
    requires k <= |s|
    requires IsMeshUri(s[..k])
    requires forall k' :: MinUriLength <= k' < k ==> !IsMeshUri(s[..k'])
    ensures MeshMatch(s) == Some(k)
  {
    var u := s[|Scheme|..];
    MeshUriAt(s, k);
    forall i | 0 <= i < k - MinUriLength
      ensures !SepMeshes(u[i..])
    {
      MeshUriAt(s, i + MinUriLength);
      assert u[..i] == u[..k - MinUriLength][..i];
    }
    LazyEndIsShortest(u, k - MinUriLength);
    MeshMatchSpec(s);
  }

  /**
    `MeshMatch` reports the shortest prefix of `s` in the pattern's language,
    which is what the lazy `.*?` makes the regex engine take.
   */
  lemma MeshMatchIsThePattern(s: string, k: nat)
    requires k <= |s|
    ensures MeshMatch(s) == Some(k) <==>
              IsMeshUri(s[..k]) && forall k' :: MinUriLength <= k' < k ==> !IsMeshUri(s[..k'])
  {
    if MeshMatch(s) == Some(k) {
      MeshMatchIsShortest(s, k);
    }
    if IsMeshUri(s[..k]) && forall k' :: MinUriLength <= k' < k ==> !IsMeshUri(s[..k']) {
      ShortestIsMeshMatch(s, k);
    }
  }

  /** Every match is non-empty, fits in the text and opens with `file://`. */
  lemma MeshMatchIsAMatcher()
    ensures Consumes(MeshMatch) && AnchoredAt(MeshMatch, Scheme)
  {
  }

  /**
    `re.sub(pattern, repl, s)`: every leftmost, non-overlapping match becomes
    `repl`, in one pass; any other character is kept.
   */
  function ReplaceMeshUris(s: string, repl: string): string
  {
    MeshMatchIsAMatcher();
    SubAll(s, MeshMatch, repl)
  }

  /**
    The package-relative location every match becomes. For a folder name
    without `/` it cannot take part in a match itself.
   */
  function MeshReplacement(robotMesh: string): (r: string)
    ensures StartsWith(r, PackageScheme)
    ensures '/' !in robotMesh ==> SafeReplacement(r)
  {
    var r := PackageScheme + robotMesh + "/" + MeshesWord;
    assert r[..|PackageScheme|] == PackageScheme;
    assert '/' !in robotMesh ==> SafeReplacement(r) by {
      if '/' !in robotMesh {
        PackageLocationIsSafe(robotMesh);
      }
    }
    r
  }

  /**
    The rewrite the converter applies, for the robot's package folder name;
    with a folder name without `/`, no `file://` location is left.
   */
  function RewriteMeshUris(s: string, robotMesh: string): (t: string)
    ensures '/' !in robotMesh ==> FreeOfMeshUris(t)
  {
    var t := ReplaceMeshUris(s, MeshReplacement(robotMesh));
    assert '/' !in robotMesh ==> FreeOfMeshUris(t) by {
      if '/' !in robotMesh {
        ReplaceIdempotent(s, MeshReplacement(robotMesh));
      }
    }
    t
  }

  /** No position of `s` starts a match. */
  predicate FreeOfMeshUris(s: string)
  {
    NoMatchIn(s, MeshMatch)
  }

  /** Text without `file://` holds no match. */
  lemma {:induction false} NoSchemeIsFree(s: string)
    requires !Contains(s, Scheme)
    ensures FreeOfMeshUris(s)
    decreases |s|
  {
    if |s| > 0 {
      NoSchemeIsFree(s[1..]);
    }
  }

  /**
    Text before the leftmost match is kept as it is, the matched location
    becomes exactly `package://<robotMesh>/meshes`, and rewriting goes on
    right after `meshes`.
   */
  lemma RewriteLeftmostMatch(s: string, robotMesh: string, i: nat, k: nat)
    requires i <= |s|
    requires NoMatchBefore(s, MeshMatch, i)
    requires MeshMatch(s[i..]) == Some(k)
    ensures i + k <= |s|
    ensures RewriteMeshUris(s, robotMesh)
              == s[..i] + MeshReplacement(robotMesh) + RewriteMeshUris(s[i + k..], robotMesh)
  {
    MeshMatchIsAMatcher();
    LeftmostMatch(s, MeshMatch, MeshReplacement(robotMesh), i, k);
  }

  /** A run without line feeds in front of a lazily matched tail keeps it matched. */
  lemma {:induction false} LazyPrepend(a: string, b: string)
    requires '\n' !in a
    requires LazyEnd(b).Some?
    ensures LazyEnd(a + b).Some?
    decreases |a|
  {
    if |a| > 0 {
      LazyPrepend(a[1..], b);
      assert (a + b)[1..] == a[1..] + b;
    } else {
      assert a + b == b;
    }
  }

  /** A `[/\\]meshes` reachable in the output without a line feed was reachable in the input. */
  lemma {:induction false} LazyOrigin(v: string, repl: string)
    requires |repl| > 0 && repl[0] !in MeshesWord
    requires LazyEnd(ReplaceMeshUris(v, repl)).Some?
    ensures LazyEnd(v).Some?
    decreases |v|
  {
    if MeshMatch(v).Some? {
      LazyAtMatch(v);
    } else {
      MeshMatchIsAMatcher();
      var rest := ReplaceMeshUris(v[1..], repl);
      var out := ReplaceMeshUris(v, repl);
      KeepStep(v, MeshMatch, repl);
      assert out == [v[0]] + rest;
      assert out[1..] == rest;
      if SepMeshes(out) {
        MeshesKept(v, repl);
      } else {
        LazyOrigin(v[1..], repl);
      }
    }
  }

  /** Where a match starts, a `[/\\]meshes` is reachable without a line feed. */
  lemma {:induction false} LazyAtMatch(v: string)
    requires MeshMatch(v).Some?
    ensures LazyEnd(v).Some?
  {
    MeshMatchSpec(v);
    assert '\n' !in v[..|Scheme|];
    LazyPrepend(v[..|Scheme|], v[|Scheme|..]);
    assert v[..|Scheme|] + v[|Scheme|..] == v;
  }

  /** A `[/\\]meshes` that the output opens with, at a kept character, was in the input. */
  lemma {:induction false} MeshesKept(v: string, repl: string)
    requires |repl| > 0 && repl[0] !in MeshesWord
    requires |v| > 0
    requires SepMeshes([v[0]] + ReplaceMeshUris(v[1..], repl))
    ensures SepMeshes(v)
  {
    var rest := ReplaceMeshUris(v[1..], repl);
    var out := [v[0]] + rest;
    var w := [v[0]] + MeshesWord;
    assert StartsWith(out, w) by {
      assert out[..SepMeshesLength] == [out[0]] + out[1..SepMeshesLength];
    }
    assert StartsWith(v, w) by {
      MeshMatchIsAMatcher();
      assert w[1..] == MeshesWord;
      KeptPrefix(v, MeshMatch, repl, w);
    }
    assert v[1..SepMeshesLength] == w[1..];
  }

  /** An output that starts with `file://` at a kept character copied it from the input. */
  lemma {:induction false} KeptScheme(s: string, repl: string)
    requires |repl| > 0 && repl[0] !in Scheme
    requires |s| > 0
    requires StartsWith([s[0]] + ReplaceMeshUris(s[1..], repl), Scheme)
    ensures StartsWith(s, Scheme)
    ensures ([s[0]] + ReplaceMeshUris(s[1..], repl))[|Scheme|..] == ReplaceMeshUris(s[|Scheme|..], repl)
  {
    MeshMatchIsAMatcher();
    assert Scheme[1..] == SchemeRest;
    KeptPrefix(s, MeshMatch, repl, Scheme);
  }

  /** A character the substitution keeps does not start a match in the output either. */
  lemma {:induction false} KeptCharStartsNoMatch(s: string, repl: string)
    requires |repl| > 0 && repl[0] !in Scheme && repl[0] !in MeshesWord
    requires |s| > 0 && MeshMatch(s).None?
    ensures MeshMatch([s[0]] + ReplaceMeshUris(s[1..], repl)).None?
  {
    var out := [s[0]] + ReplaceMeshUris(s[1..], repl);
    if MeshMatch(out).Some? {
      MeshMatchSpec(out);
      KeptScheme(s, repl);
      LazyOrigin(s[|Scheme|..], repl);
      MeshMatchSpec(s);
      assert false;
    }
  }

  /**
    A replacement that cannot take part in a match: it starts with a
    character found neither in `file://` nor in `meshes`, and no position in
    it starts, or runs off its end into, `file://`.
   */
  predicate SafeReplacement(repl: string)
  {
    && |repl| > 0
    && repl[0] !in Scheme
    && repl[0] !in MeshesWord
    && NoLiteralInside(repl, Scheme)
  }

  /** The output of a substitution by a safe replacement holds no match, so a second pass changes nothing. */
  lemma ReplaceIdempotent(s: string, repl: string)
    requires SafeReplacement(repl)
    ensures FreeOfMeshUris(ReplaceMeshUris(s, repl))
    ensures ReplaceMeshUris(ReplaceMeshUris(s, repl), repl) == ReplaceMeshUris(s, repl)
  {
    MeshMatchIsAMatcher();
    forall v | |v| > 0 && MeshMatch(v).None?
      ensures MeshMatch([v[0]] + SubAll(v[1..], MeshMatch, repl)).None?
    {
      KeptCharStartsNoMatch(v, repl);
    }
    OutputFree(s, MeshMatch, repl, Scheme);
    Idempotent(s, MeshMatch, repl, Scheme);
  }

  /**
    The package location is a safe replacement when the folder name holds no
    `/`: `file://` needs two slashes in a row, and the name is followed by a
    single `/` and then `meshes`.
   */
  lemma PackageLocationIsSafe(robotMesh: string)
    requires '/' !in robotMesh
    ensures SafeReplacement(PackageScheme + robotMesh + "/" + MeshesWord)
  {
    var r := PackageScheme + robotMesh + "/" + MeshesWord;
    var n := |robotMesh|;
    var tail := "/" + MeshesWord;
    assert r == PackageScheme + (robotMesh + tail);
    forall q | 0 <= q < |r|
      ensures !PrefixRelated(r[q..], Scheme)
    {
      if q < |PackageScheme| {
        assert r[q] == PackageScheme[q];
        assert r[q..][0] != Scheme[0];
      } else if q < |PackageScheme| + n {
        var x := r[q..];
        assert x == robotMesh[q - |PackageScheme|..] + tail;
        // `file://` needs `/` at positions 5 and 6; the name has none, and
        // `/meshes` has no second `/`.
        var rem := n - (q - |PackageScheme|);
        if rem > 5 {
          assert x[5] == robotMesh[q - |PackageScheme| + 5];
        } else {
          assert x[6] == tail[6 - rem];
        }
      } else {
        assert r[q] == tail[q - |PackageScheme| - n];
        assert r[q..][0] != Scheme[0];
      }
    }
  }

  /** The converter's rewrite changes the text exactly when it holds a `file://` location. */
  lemma RewritePassThrough(s: string, robotMesh: string)
    ensures RewriteMeshUris(s, robotMesh) == s <==> FreeOfMeshUris(s)
  {
    MeshMatchIsAMatcher();
    assert MeshReplacement(robotMesh)[0] != Scheme[0];
    PassThrough(s, MeshMatch, MeshReplacement(robotMesh), Scheme);
  }

  /** With a folder name free of `/`, rewriting twice is rewriting once. */
  lemma RewriteIdempotent(s: string, robotMesh: string)
    requires '/' !in robotMesh
    ensures RewriteMeshUris(RewriteMeshUris(s, robotMesh), robotMesh) == RewriteMeshUris(s, robotMesh)
  {
    ReplaceIdempotent(s, MeshReplacement(robotMesh));
  }
}
