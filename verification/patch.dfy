/**
  The compatibility patch applied to the downloaded expander script before it
  is run (`patch_xacro_for_minidom_compat`). The script's attribute writer calls
  `xml.dom.minidom._write_data` with two arguments; newer Python runtimes take
  three. The patch splices an adapter function in after the script's imports
  and redirects that one call to it. Only the text transform is modelled:
  reading and writing the file are left to the caller.
 */
module MinidomPatch {
  import opened Text
  import opened Lines

  /** The adapter's name; its presence means the script was already patched. */
  const Marker := "_write_data_compat"

  /**
    The two-argument call that fails on newer runtimes. This literal and the
    ones below are written in pieces that start at underscores, so the
    verifier can see where each `_` falls; the pieces concatenate to the
    script's own strings.
   */
  const Needle := "xml.dom.minidom." + "_write" + "_data(writer, attrs[a" + "_name].value)"

  /** The call to the adapter that takes the needle's place. */
  const Replacement := Marker + "(writer, attrs" + "[a_name].value, None)"

  /** The adapter: try the three-argument form, fall back to two arguments on `TypeError`. */
  const Adapter :=
    "import xml.dom.minidom\n\n"
    + "def _write_data_compat" + "(writer, data, attr=None):\n"
    + "    try:\n"
    + "        # Python 3.12+\n"
    + "        return xml.dom.minidom." + "_write_data(writer, data, attr)\n"
    + "    except TypeError:\n"
    + "        # Python <= 3.11\n"
    + "        return xml.dom.minidom." + "_write_data(writer, data)\n\n"

  predicate IsImportLine(line: string)
  {
    StartsWith(line, "import ") || StartsWith(line, "from ")
  }

  /** An interpreter line (`#!`) or an encoding declaration. */
  predicate IsDirectiveLine(line: string)
  {
    StartsWith(line, "#!") || Contains(line, "coding")
  }

  /** One past the last import line, or 0 when no line is an import. */
  function LastImportEnd(lines: seq<string>): (k: nat)
    ensures k <= |lines|
    ensures k > 0 ==> IsImportLine(lines[k - 1])
    ensures forall j :: k <= j < |lines| ==> !IsImportLine(lines[j])
    decreases |lines|
  {
    if |lines| == 0 then 0
    else if IsImportLine(lines[|lines| - 1]) then |lines|
    else LastImportEnd(lines[..|lines| - 1])
  }

  /**
    The line index the adapter goes in front of: after the last import line;
    with no import line, after a leading interpreter or encoding line; else 0.
   */
  function InsertionIndex(lines: seq<string>): (k: nat)
    ensures k <= |lines|
    ensures (exists i :: 0 <= i < |lines| && IsImportLine(lines[i])) ==>
              && 0 < k
              && IsImportLine(lines[k - 1])
              && forall j :: k <= j < |lines| ==> !IsImportLine(lines[j])
    ensures (forall i :: 0 <= i < |lines| ==> !IsImportLine(lines[i])) ==>
              k == (if |lines| > 0 && IsDirectiveLine(lines[0]) then 1 else 0)
  {
    var last := LastImportEnd(lines);
    if last == 0 && |lines| > 0 && IsDirectiveLine(lines[0]) then 1 else last
  }

  /** The forward scan over the lines, as the script performs it. */
  method ScanInsertionIndex(lines: seq<string>) returns (insertAt: nat)
    ensures insertAt == InsertionIndex(lines)
  {
    insertAt := 0;
    var i := 0;
    while i < |lines|
      invariant 0 <= i <= |lines|
      invariant insertAt <= i
      invariant insertAt > 0 ==> IsImportLine(lines[insertAt - 1])
      invariant forall j :: insertAt <= j < i ==> !IsImportLine(lines[j])
    {
      if IsImportLine(lines[i]) {
        insertAt := i + 1;
      }
      i := i + 1;
    }
    if insertAt == 0 && |lines| > 0 {
      if IsDirectiveLine(lines[0]) {
        insertAt := 1;
      }
    }
  }

  /** The script is patched only when it lacks the adapter and still has the failing call. */
  predicate NeedsPatch(src: string)
  {
    !Contains(src, Marker) && Contains(src, Needle)
  }

  /** Character offset in the source at which the adapter is spliced in. */
  function InsertionOffset(src: string): (off: nat)
    ensures off <= |src|
    ensures off == 0 || off == |src| || IsLineBreak(src[off - 1])
  {
    var lines := SplitLines(src);
    var k := InsertionIndex(lines);
    SplitAtLine(src, k);
    |Concat(lines[..k])|
  }

  /** The replacement call cannot combine with its surroundings into the old call. */
  lemma NeedleCannotReappear()
    ensures CannotRecreate(Needle, Replacement)
  {
    assert 'x' !in Replacement;
    forall k | 1 <= k < |Needle|
      ensures !PrefixRelated(Needle[k..], Replacement)
    {
      if Needle[k] != '_' {
        assert Needle[k..][0] != Replacement[0];
      } else if k == 16 {
        assert Needle[k..][11] != Replacement[11];
      } else {
        assert k == 22 || k == 43;
        assert Needle[k..][1] != Replacement[1];
      }
    }
  }

  /**
    The source with a newline and the adapter spliced in before line
    `InsertionIndex`, before any call is redirected.
   */
  function Splice(src: string): (spliced: string)
    ensures Contains(src, Needle) ==> Contains(spliced, Needle)
  {
    var lines := SplitLines(src);
    var k := InsertionIndex(lines);
    NeedleHasNoBreak();
    SpliceKeepsOccurrence(src, k, "\n" + Adapter, Needle);
    Concat(lines[..k]) + ("\n" + Adapter) + Concat(lines[k..])
  }

  /** The patch as a pure function of the script's text. */
  function Patch(src: string): (patched: string)
    ensures Contains(src, Marker) ==> patched == src
    ensures !Contains(src, Needle) ==> patched == src
    ensures NeedsPatch(src) ==> Contains(patched, Marker) && !Contains(patched, Needle)
  {
    if Contains(src, Marker) then src
    else if !Contains(src, Needle) then src
    else
      RedirectedCalls(Splice(src));
      ReplaceAll(Splice(src), Needle, Replacement)
  }

  /** Redirecting the calls in a text that has one leaves the marker and no failing call. */
  lemma RedirectedCalls(t: string)
    requires Contains(t, Needle)
    ensures Contains(ReplaceAll(t, Needle, Replacement), Marker)
    ensures !Contains(ReplaceAll(t, Needle, Replacement), Needle)
  {
    NeedleCannotReappear();
    ReplaceAllRemovesNeedle(t, Needle, Replacement);
    assert StartsWith(Replacement, Marker);
    ContainsPrefixOf(ReplaceAll(t, Needle, Replacement), Replacement, Marker);
  }

  /** The failing call lies within one line. */
  lemma NeedleHasNoBreak()
    ensures NoBreaks(Needle)
  {
    assert forall i :: 0 <= i < |Needle| ==> 0x20 <= Needle[i] as int < 0x7F;
  }

  /**
    When the patch applies, its result is the source with a newline and the
    adapter spliced in at a line boundary, every failing call then redirected.
   */
  lemma PatchSplicesAdapter(src: string)
    requires NeedsPatch(src)
    ensures var off := InsertionOffset(src);
            Patch(src) == ReplaceAll(src[..off] + ("\n" + Adapter) + src[off..], Needle, Replacement)
  {
    var lines := SplitLines(src);
    var k := InsertionIndex(lines);
    SplitAtLine(src, k);
    var head := Concat(lines[..k]);
    assert src[..|head|] == head;
    assert src[|head|..] == Concat(lines[k..]);
  }

  /** A second application finds the marker and leaves the text alone. */
  lemma PatchIdempotent(src: string)
    ensures Patch(Patch(src)) == Patch(src)
  {
  }
}
