/**
  Python's `str.splitlines(True)`: the text is cut after every line boundary
  and each line keeps its terminator, so joining the lines gives the text back.
 */
module Lines {
  import opened Text

  /**
    The boundaries `str.splitlines` recognises: line feed, vertical tab, form
    feed, carriage return, the file/group/record separators, next line and the
    Unicode line and paragraph separators. A carriage return followed by a line
    feed counts as one boundary (see `TerminatorLength`).
   */
  predicate IsLineBreak(c: char)
  {
    var code := c as int;
    || code == 0x0A || code == 0x0B || code == 0x0C || code == 0x0D
    || code == 0x1C || code == 0x1D || code == 0x1E
    || code == 0x85 || code == 0x2028 || code == 0x2029
  }

  predicate NoBreaks(t: string)
  {
    forall i :: 0 <= i < |t| ==> !IsLineBreak(t[i])
  }

  /** Length of the terminator `line` ends with: 2 for "\r\n", 1 for any other boundary, 0 for none. */
  function TerminatorLength(line: string): (n: nat)
    ensures n <= |line|
    ensures n > 0 ==> IsLineBreak(line[|line| - 1])
  {
    if |line| >= 2 && line[|line| - 2] == '\r' && line[|line| - 1] == '\n' then 2
    else if |line| >= 1 && IsLineBreak(line[|line| - 1]) then 1
    else 0
  }

  /** One element of `splitlines(True)`: non-empty, no boundary before its own terminator. */
  predicate IsLine(line: string)
  {
    |line| > 0 && NoBreaks(line[..|line| - TerminatorLength(line)])
  }

  /** Two neighbouring lines that would tear a "\r\n" pair apart. */
  predicate SplitsCrLf(a: string, b: string)
  {
    |a| > 0 && |b| > 0 && a[|a| - 1] == '\r' && b[0] == '\n'
  }

  /** `"".join(lines)`. */
  function Concat(lines: seq<string>): string
  {
    if |lines| == 0 then [] else lines[0] + Concat(lines[1..])
  }

  /** The length of the first line of a non-empty text, terminator included. */
  function LineLength(s: string): (k: nat)
    requires |s| > 0
    ensures 0 < k <= |s|
    ensures IsLine(s[..k])
    ensures k < |s| ==> TerminatorLength(s[..k]) > 0
    ensures k < |s| && s[k - 1] == '\r' ==> s[k] != '\n'
    decreases |s|
  {
    if s[0] == '\r' && |s| > 1 && s[1] == '\n' then
      assert s[..2][..0] == [];
      2
    else if IsLineBreak(s[0]) then
      assert s[..1][..0] == [];
      1
    else if |s| == 1 then
      assert s[..1] == s;
      1
    else
      var k' := LineLength(s[1..]);
      ConsSlice(s, k' + 1);
      LineAfter(s[0], s[1..][..k']);
      k' + 1
  }

  /** A character that is no boundary, put in front of a line, gives a line with the same terminator. */
  lemma LineAfter(c: char, inner: string)
    requires !IsLineBreak(c) && IsLine(inner)
    ensures TerminatorLength([c] + inner) == TerminatorLength(inner)
    ensures IsLine([c] + inner)
  {
    var line := [c] + inner;
    assert line[|line| - 1] == inner[|inner| - 1];
    if |inner| >= 2 {
      assert line[|line| - 2] == inner[|inner| - 2];
    }
    assert TerminatorLength(line) == TerminatorLength(inner);
    assert line[..|line| - TerminatorLength(line)] == [c] + inner[..|inner| - TerminatorLength(inner)];
  }

  /** `s.splitlines(True)`. */
  function SplitLines(s: string): (lines: seq<string>)
    ensures Concat(lines) == s
    ensures |lines| == 0 <==> |s| == 0
    ensures forall i :: 0 <= i < |lines| ==> IsLine(lines[i])
    ensures forall i :: 0 <= i < |lines| - 1 ==> TerminatorLength(lines[i]) > 0
    ensures forall i :: 0 <= i < |lines| - 1 ==> !SplitsCrLf(lines[i], lines[i + 1])
    decreases |s|
  {
    if |s| == 0 then []
    else
      var k := LineLength(s);
      var rest := SplitLines(s[k..]);
      assert |rest| > 0 ==> rest[0][0] == s[k] by {
        if |rest| > 0 {
          assert Concat(rest) == rest[0] + Concat(rest[1..]);
        }
      }
      ConsLines(s[..k], rest);
      assert s == s[..k] + s[k..];
      [s[..k]] + rest
  }

  /** One more line in front of a list of lines, keeping the list's shape. */
  lemma ConsLines(first: string, rest: seq<string>)
    requires IsLine(first)
    requires forall i :: 0 <= i < |rest| ==> IsLine(rest[i])
    requires forall i :: 0 <= i < |rest| - 1 ==> TerminatorLength(rest[i]) > 0
    requires forall i :: 0 <= i < |rest| - 1 ==> !SplitsCrLf(rest[i], rest[i + 1])
    requires |rest| > 0 ==> TerminatorLength(first) > 0 && !SplitsCrLf(first, rest[0])
    ensures var lines := [first] + rest;
            && Concat(lines) == first + Concat(rest)
            && (forall i :: 0 <= i < |lines| ==> IsLine(lines[i]))
            && (forall i :: 0 <= i < |lines| - 1 ==> TerminatorLength(lines[i]) > 0)
            && (forall i :: 0 <= i < |lines| - 1 ==> !SplitsCrLf(lines[i], lines[i + 1]))
  {
    var lines := [first] + rest;
    assert lines[1..] == rest;
    forall i | 0 <= i < |lines| - 1
      ensures TerminatorLength(lines[i]) > 0 && !SplitsCrLf(lines[i], lines[i + 1])
    {
      if i > 0 {
        assert lines[i] == rest[i - 1] && lines[i + 1] == rest[i];
      }
    }
  }

  lemma {:induction false} ConcatAppend(xs: seq<string>, ys: seq<string>)
    ensures Concat(xs + ys) == Concat(xs) + Concat(ys)
    decreases |xs|
  {
    if |xs| == 0 {
      assert xs + ys == ys;
    } else {
      assert (xs + ys)[1..] == xs[1..] + ys;
      ConcatAppend(xs[1..], ys);
    }
  }

  /** Cutting a list of pieces in two cuts their concatenation after the last piece of the first half. */
  lemma {:induction false} ConcatCut(lines: seq<string>, k: nat)
    requires k <= |lines|
    ensures Concat(lines[..k]) + Concat(lines[k..]) == Concat(lines)
    ensures var prefix := Concat(lines[..k]);
            0 < k && |lines[k - 1]| > 0 ==>
              |prefix| > 0 && prefix[|prefix| - 1] == lines[k - 1][|lines[k - 1]| - 1]
  {
    assert lines == lines[..k] + lines[k..];
    ConcatAppend(lines[..k], lines[k..]);
    if 0 < k {
      assert lines[..k] == lines[..k - 1] + [lines[k - 1]];
      ConcatAppend(lines[..k - 1], [lines[k - 1]]);
      assert Concat([lines[k - 1]]) == lines[k - 1] + Concat([]);
    }
  }

  /**
    Cutting the line list at any index splits the text in two, and the cut
    falls right after a line boundary unless it is at either end.
   */
  lemma {:induction false} SplitAtLine(s: string, k: nat)
    requires k <= |SplitLines(s)|
    ensures var lines := SplitLines(s);
            Concat(lines[..k]) + Concat(lines[k..]) == s
    ensures var lines := SplitLines(s);
            var prefix := Concat(lines[..k]);
            0 < k < |lines| ==> |prefix| > 0 && IsLineBreak(prefix[|prefix| - 1])
  {
    var lines := SplitLines(s);
    ConcatCut(lines, k);
    if 0 < k < |lines| {
      assert TerminatorLength(lines[k - 1]) > 0;
    }
  }

  /**
    Text put in at a line boundary cannot break up an occurrence of something
    that spans no line boundary.
   */
  lemma {:induction false} SpliceAtBreak(head: string, middle: string, tail: string, n: string)
    requires NoBreaks(n)
    requires |head| == 0 || |tail| == 0 || IsLineBreak(head[|head| - 1])
    requires Contains(head + tail, n)
    ensures Contains(head + middle + tail, n)
  {
    if |tail| == 0 {
      assert head + tail == head;
      ContainsAppendRight(head, middle, n);
      assert head + middle + tail == head + middle;
    } else {
      assert |head| == 0 || head[|head| - 1] !in n;
      ContainsAcrossSeam(head, tail, n);
      if Contains(head, n) {
        ContainsAppendRight(head, middle + tail, n);
        assert head + middle + tail == head + (middle + tail);
      } else {
        ContainsPrepend(head + middle, tail, n);
      }
    }
  }

  /**
    Text put in between two lines cannot break up an occurrence of something
    that spans no line boundary.
   */
  lemma {:induction false} SpliceKeepsOccurrence(src: string, k: nat, middle: string, n: string)
    requires k <= |SplitLines(src)|
    requires NoBreaks(n)
    ensures var lines := SplitLines(src);
            Contains(src, n) ==> Contains(Concat(lines[..k]) + middle + Concat(lines[k..]), n)
  {
    var lines := SplitLines(src);
    var head := Concat(lines[..k]);
    var tail := Concat(lines[k..]);
    SplitAtLine(src, k);
    if k == 0 {
      assert lines[..k] == [];
    } else if k == |lines| {
      assert lines[k..] == [];
    }
    if Contains(src, n) {
      SpliceAtBreak(head, middle, tail, n);
    }
  }
}
