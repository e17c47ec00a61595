# xacro2urdf: the text transformations, in Dafny

`xacro2urdf.py` turns a ROS robot description package into files a Unity
importer can read. It derives its names from the working folder, patches the
downloaded `xacro.py` expander, expands the robot's `.xacro` file, and moves
the result into an output folder. Before expansion it blanks out the
`.gazebo` includes. After expansion it rewrites absolute `file://` mesh
locations to `package://` ones. Around that plumbing sit four pieces of real
logic. This project models each of them as pure functions over strings and
proves what the script relies on.

- `text.dfy` (module `Text`): `str.startswith`, the `in` operator on strings,
  and `str.replace` with its default count. `str.replace` is leftmost,
  non-overlapping and single-pass, and an empty needle matches everywhere.
- `lines.dfy` (module `Lines`): `str.splitlines(True)` with Python's full set
  of line boundaries. `\r\n` counts as one boundary, and every line keeps its
  terminator.
- `patch.dfy` (module `MinidomPatch`): the text transform of
  `patch_xacro_for_minidom_compat`. It covers:
  - the marker and needle checks;
  - the forward scan for the insertion line;
  - the splice of the adapter;
  - the redirect of the failing `xml.dom.minidom._write_data` call.
- `substitution.dfy` (module `Substitution`): `re.sub` for a pattern given by
  its matcher, as an explicit left-to-right scanner. It also holds the walk of
  a pattern that opens with a literal, and the general laws of the scan:
  - pass-through;
  - the leftmost match;
  - characters kept verbatim;
  - output free of matches, and idempotence.
- `gazebo.dfy` (module `GazeboFilter`): the pattern
  `<xacro:include\b[^>]*\.gazebo[^>]*>` and the filter that replaces each
  match by `<!-- omitted .gazebo include -->`.
- `mesh.dfy` (module `MeshUri`): the lazy pattern `file://.*?[/\\]meshes` and
  the rewrite to `package://<robot_mesh>/meshes`.
- `layout.dfy` (module `Layout`): `os.path.basename`, `os.path.join`, the
  robot name, and the derived file and folder names. It also models the two
  existence checks, run over the set of paths that exist, and their error
  messages.
- `wrappers.dfy` (module `Wrappers`): `Option` and `Result`.

The robot name is `robot_mesh.replace("_description", "")`. That call
removes every occurrence of `_description`, not only a trailing one, and
the model does the same. `Layout.RobotNameStripsSuffix` gives the case in
which the two agree.

## Model

| member | source | states |
|---|---|---|
| Text.ReplaceAll | xacro2urdf.py:95 | `str.replace`: a text without the needle comes back unchanged, and a text with the needle gives a result that holds the replacement |
| Text.ReplaceAllLeftmost | xacro2urdf.py:95 | `str.replace` with a non-empty needle keeps the text before the leftmost occurrence, puts the replacement in its place, and goes on right after the occurrence; with the no-needle case above, this fixes the result for every input |
| Substitution.ReplaceAllIsSubAll | xacro2urdf.py:58-61 | `str.replace` with a non-empty needle is the `re.sub` scan of the literal pattern, so the pass-through, leftmost-match and idempotence laws of the scan hold for it |
| Text.ReplaceAllRemovesNeedle | xacro2urdf.py:58-61 | if the replacement cannot recreate the needle (its first character is not in the replacement, and no proper suffix of it runs into the replacement), the single pass leaves no needle behind |
| Lines.SplitLines | xacro2urdf.py:41 | `splitlines(True)`: joining the lines gives the text back; there are no lines exactly when the text is empty; every line is non-empty with no boundary before its own terminator; every line but the last ends in a boundary; no `\r\n` is torn across two lines |
| Lines.SplitAtLine | xacro2urdf.py:52-57 | the joins of the lines before and after any cut index rebuild the source, and a cut strictly inside the list falls right after a line boundary |
| Lines.SpliceKeepsOccurrence | xacro2urdf.py:52-57 | text put in at a line cut cannot break up an occurrence of a string that holds no line boundary, so the failing call survives the splice |
| MinidomPatch.InsertionIndex | xacro2urdf.py:42-51 | with an import line: one past the last line that starts with `import ` or `from `. Without one: 1 if the first line starts with `#!` or contains `coding`, and 0 otherwise |
| MinidomPatch.ScanInsertionIndex | xacro2urdf.py:42-51 | the forward loop as the script writes it (overwrite on every import line, then the directive fallback) computes exactly the insertion index above |
| MinidomPatch.InsertionOffset | xacro2urdf.py:52-57 | the character offset where the adapter goes lies within the source and is at its start, at its end, or right after a line boundary |
| MinidomPatch.NeedleCannotReappear | xacro2urdf.py:58-61 | the adapter call put in place of the failing call cannot combine with the text around it into a new failing call |
| MinidomPatch.Splice | xacro2urdf.py:52-57 | a source that contains the failing call still contains it once the newline and adapter are spliced in |
| MinidomPatch.Patch | xacro2urdf.py:22-61 | a source that already has the marker comes back unchanged; so does one without the failing call; otherwise the result contains the marker and no failing call |
| MinidomPatch.RedirectedCalls | xacro2urdf.py:58-61 | redirecting every failing call in a text that has one leaves the marker in and no failing call |
| MinidomPatch.PatchSplicesAdapter | xacro2urdf.py:41-61 | when the patch applies, its result is `replace(source[..off] + "\n" + adapter + source[off..], call, adapter call)`, where `off` is the offset of the insertion line |
| MinidomPatch.PatchIdempotent | xacro2urdf.py:22-24 | patching a patched text changes nothing |
| Substitution.SubAll | xacro2urdf.py:124-128 | the `re.sub` scan: with a non-empty replacement, the output is empty exactly when the input is; its meaning is fixed by the laws below |
| Substitution.LiteralThenSpec | xacro2urdf.py:125 | walking a literal and then a continuation pattern matches exactly when the text starts with the literal and the continuation matches right after it; the match length is the literal's length plus the continuation's |
| Substitution.LeftmostMatch | xacro2urdf.py:124-128 | in `re.sub`, text before the leftmost match is kept as it is, the match becomes exactly the replacement, and the scan resumes right after the matched text |
| Substitution.PassThrough | xacro2urdf.py:124-128 | if the replacement neither starts with the pattern's opening literal nor stops inside it, `re.sub` changes the text exactly when some position starts a match |
| Substitution.VerbatimPrefix | xacro2urdf.py:124-128 | output text without the replacement's first character was copied from the input at the same place |
| Substitution.Idempotent | xacro2urdf.py:124-128 | if no position of the replacement can start a match, and no kept character starts a match in the output, a second `re.sub` pass changes nothing |
| GazeboFilter.GazeboMatch | xacro2urdf.py:125 | the matcher of the include pattern: a reported match is longer than `<xacro:include`, fits in the text, and opens with `<xacro:include` |
| GazeboFilter.GazeboMatchIsThePattern | xacro2urdf.py:125 | the matcher reports length `k` exactly when the first `k` characters are in the pattern's language: `<xacro:include`, a word boundary, a run without `>` that holds `.gazebo`, and the closing `>` |
| GazeboFilter.GazeboMatchSpec | xacro2urdf.py:125 | a match is the tag, a word boundary, and a `.gazebo` before the first `>`, and it ends at that `>` |
| GazeboFilter.PlaceholderIsSafe | xacro2urdf.py:126 | the placeholder comment opens with `<`, and no position in it, followed by anything, can start `<xacro:include` |
| GazeboFilter.FilterIncludes | xacro2urdf.py:124-128 | the substitution on lines 124-128: no position of its output starts a `.gazebo` include |
| GazeboFilter.FilterPassThrough | xacro2urdf.py:124-128 | the filter leaves the text unchanged exactly when no position starts a `.gazebo` include |
| GazeboFilter.FilterLeftmostMatch | xacro2urdf.py:124-128 | text before the leftmost include is kept, the include becomes exactly `<!-- omitted .gazebo include -->`, and filtering goes on after its `>` |
| GazeboFilter.ReplaceIdempotent | xacro2urdf.py:124-128 | with any replacement that opens with `<` and cannot start the tag, the output holds no `.gazebo` include, and a second pass changes nothing |
| GazeboFilter.FilterIdempotent | xacro2urdf.py:124-128 | filtering the filtered text again changes nothing |
| MeshUri.LazyEndIsShortest | xacro2urdf.py:148 | the lazy `.*?` stops at the first position that starts `/meshes` or `\meshes`, and only if no line feed comes before that position |
| MeshUri.MeshMatch | xacro2urdf.py:148 | the matcher of the mesh pattern: a reported match is longer than `file://`, fits in the text, and opens with `file://` |
| MeshUri.MeshMatchSpec | xacro2urdf.py:148 | a match is `file://`, then the lazy run and the separator with `meshes` |
| MeshUri.MeshMatchIsThePattern | xacro2urdf.py:148 | the matcher reports length `k` exactly when the first `k` characters are in the pattern's language and no shorter prefix is, as the lazy quantifier demands |
| MeshUri.NoSchemeIsFree | xacro2urdf.py:147-151 | text without `file://` holds no match |
| MeshUri.RewritePassThrough | xacro2urdf.py:147-151 | the rewrite changes the text exactly when some position starts a `file://…/meshes` match |
| MeshUri.RewriteLeftmostMatch | xacro2urdf.py:147-151 | text before the leftmost match is kept, the match becomes exactly `package://<robot_mesh>/meshes`, and rewriting goes on after `meshes` |
| MeshUri.MeshReplacement | xacro2urdf.py:149 | the location opens with `package://`; for a folder name without `/` it cannot take part in a match: its first character is in neither `file://` nor `meshes`, and no position in it can start `file://` |
| MeshUri.RewriteMeshUris | xacro2urdf.py:147-151 | the substitution on lines 147-151: for a folder name without `/`, no position of its output starts a `file://…/meshes` match |
| MeshUri.ReplaceIdempotent | xacro2urdf.py:147-151 | with any safe replacement, the output holds no match and a second pass changes nothing |
| MeshUri.RewriteIdempotent | xacro2urdf.py:147-151 | for a folder name without `/`, rewriting the rewritten text again changes nothing |
| Layout.Basename | xacro2urdf.py:94 | the result holds no `/`, is a suffix of the path, and is preceded in the path by a `/` whenever it is shorter than the path |
| Layout.JoinPath | xacro2urdf.py:98 | POSIX `os.path.join`: an absolute second part is the result; otherwise the result starts with the first part and ends with the second, and is one character longer than both together exactly when the first part is non-empty and does not end in `/`, that character being `/` |
| Layout.JoinBasename | xacro2urdf.py:98 | a joined path names the same file as its second part: their basenames agree whenever the second part does not end in `/` |
| Layout.XacroFileIn | xacro2urdf.py:98 | for a robot name without `/`, the expander input is `urdf/<name>.xacro` |
| Layout.MeshStagingDirIn | xacro2urdf.py:114 | the mesh staging folder is `urdf/<robot_mesh>/meshes`, which collapses to `urdf/meshes` for an empty folder name |
| Layout.DerivePaths | xacro2urdf.py:94-98 | the folder name is the basename of the working folder, and the robot name is that name with every `_description` removed; neither holds a `/`; the input is `urdf/<name>.xacro`, the temporary copy adds `.temp` (line 120), the generated file is `<name>.urdf` (line 134), the output folder is `<name>_to_unity` (line 157), and the mesh staging folder is as above (line 114) |
| Layout.CheckLayout | xacro2urdf.py:86-101 | the run goes ahead exactly when both `urdf` and `urdf/<name>.xacro` exist; a missing `urdf` is reported first, then a missing expander input, together with its path |
| Layout.ErrorMessage | xacro2urdf.py:86-101 | each stop message starts with `Error: '` and ends with a newline, and the one for a missing input is `Error: '<path>' not found.` |
| Layout.RobotName | xacro2urdf.py:95 | a folder name without `_description` is the robot name as it is, and removing the word from a name without `/` gives a name without `/` |
| Layout.RobotNameStripsSuffix | xacro2urdf.py:95 | for a folder `<base>_description` with no `_description` inside `<base>`, the robot name is `<base>` |
| Layout.RobotNameExample | xacro2urdf.py:95 | the folder `arm_description` belongs to the robot `arm` |
| Layout.MeshRewriteSettles | xacro2urdf.py:147-151 | with the folder name the converter derives, the rewritten description holds no `file://…/meshes` location and is a fixed point after one pass |

## Left out

- File reading and writing, with the `OSError` handling around the patch
  (lines 15-20 and 63-67) and around the `.xacro` and `.urdf` files. Only the
  text transforms are modelled; their inputs are parameters.
- Argument parsing and `os.chdir` (lines 71-83). The working folder is a
  parameter of `Layout.DerivePaths` and `Layout.CheckLayout`.
- The existence checks run against a set of existing relative paths, not the
  file system. `sys.exit(1)` becomes the `Failure` branch of a `Result`.
- The download of `xacro.py` (lines 104-108): network I/O.
- The run of the external expander (lines 136-139). Its output is the input of
  the mesh rewrite, taken as an arbitrary string.
- Folder creation, copying, moving and removal, and the progress messages
  (lines 115-117, 141, 158-166): file-system effects with no logic of their
  own.
- GazeboFilter.IsWordChar: `\b` is modelled with ASCII word characters
  (letters, digits, `_`). Python's `\b` on `str` patterns also counts
  non-ASCII letters and digits as word characters.
- MeshUri.MeshReplacement: the folder name is inserted literally. `re.sub`
  reads its replacement as a template, where a backslash starts an escape,
  so the model matches the script only for folder names without a backslash.
- Layout.Basename: models POSIX paths only (separator `/`).
