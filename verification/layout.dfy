/**
  The names and paths the converter derives from its working folder: the
  package folder name (`robot_mesh`), the robot name, the input and
  temporary expander files, the generated description, the staging folder
  for meshes and the output folder; and the two existence checks that stop
  the run before anything is written.
 */
module Layout {
  import opened Wrappers
  import opened Text
  import MeshUri

  /** The word removed from the package folder name to give the robot name. */
  const DescriptionWord := "_description"

  /** `os.path.basename` of a POSIX path: everything after the last `/`. */
  function Basename(path: string): (b: string)
    ensures '/' !in b
    ensures |b| <= |path| && path[|path| - |b|..] == b
    ensures |b| < |path| ==> path[|path| - |b| - 1] == '/'
    decreases |path|
  {
    if |path| == 0 || path[|path| - 1] == '/' then []
    else
      var b := Basename(path[..|path| - 1]);
      assert path[..|path| - 1][|path| - 1 - |b|..] == path[|path| - 1 - |b|..|path| - 1];
      b + [path[|path| - 1]]
  }

  /** `b` is an absolute path. */
  predicate IsAbsolute(b: string)
  {
    |b| > 0 && b[0] == '/'
  }

  /**
    `os.path.join(a, b)` on POSIX: an absolute `b` discards `a`; otherwise the
    result is `a`, then `b`, with a single `/` put between them only when `a`
    is non-empty and does not already end in one.
   */
  function JoinPath(a: string, b: string): (p: string)
    ensures IsAbsolute(b) ==> p == b
    ensures !IsAbsolute(b) ==>
              && StartsWith(p, a)
              && |a| + |b| <= |p| <= |a| + |b| + 1
              && p[|p| - |b|..] == b
              && (|p| == |a| + |b| + 1 <==> |a| > 0 && a[|a| - 1] != '/')
              && (|p| == |a| + |b| + 1 ==> p[|a|] == '/')
  {
    if IsAbsolute(b) then b
    else if |a| == 0 || a[|a| - 1] == '/' then
      assert (a + b)[..|a|] == a;
      a + b
    else
      assert (a + "/" + b)[..|a|] == a;
      a + "/" + b
  }

  /** What follows the last `/` of `y` is the basename of `x + y`, when `x` ends a component or `y` holds a `/`. */
  lemma {:induction false} BasenameAppend(x: string, y: string)
    requires |x| == 0 || x[|x| - 1] == '/' || '/' in y
    ensures Basename(x + y) == Basename(y)
    decreases |y|
  {
    if |y| == 0 {
      assert x + y == x;
    } else if y[|y| - 1] != '/' {
      var y' := y[..|y| - 1];
      assert (x + y)[..|x + y| - 1] == x + y';
      if '/' in y {
        var k :| 0 <= k < |y| && y[k] == '/';
        assert y'[k] == '/';
      }
      BasenameAppend(x, y');
    }
  }

  /** Joining keeps the last component of `b`: the file a joined path names is the one `b` names. */
  lemma JoinBasename(a: string, b: string)
    requires |b| > 0 && b[|b| - 1] != '/'
    ensures Basename(JoinPath(a, b)) == Basename(b)
  {
    if !IsAbsolute(b) {
      if |a| == 0 || a[|a| - 1] == '/' {
        BasenameAppend(a, b);
      } else {
        assert a + "/" + b == (a + "/") + b;
        BasenameAppend(a + "/", b);
      }
    }
  }

  /**
    `robot_mesh.replace("_description", "")`: every occurrence goes, in one
    pass. A folder name without the word is the robot name as it is, and no
    `/` is introduced.
   */
  function RobotName(robotMesh: string): (r: string)
    ensures !Contains(robotMesh, DescriptionWord) ==> r == robotMesh
    ensures '/' !in robotMesh ==> '/' !in r
  {
    var r := ReplaceAll(robotMesh, DescriptionWord, "");
    assert '/' !in robotMesh ==> '/' !in r by {
      if '/' !in robotMesh {
        ReplaceAllAvoidsChar(robotMesh, DescriptionWord, "", '/');
      }
    }
    r
  }

  /** Everything the converter names, for one working folder. */
  datatype Paths = Paths(
    robotMesh: string,
    robotName: string,
    xacroFile: string,
    tempXacroFile: string,
    urdfOutput: string,
    meshStagingDir: string,
    outputDir: string)

  /**
    The derivations in the converter's main routine, from the absolute path of
    the working folder.
   */
  function DerivePaths(cwd: string): (p: Paths)
    ensures p.robotMesh == Basename(cwd)
    ensures p.robotName == RobotName(p.robotMesh)
    ensures '/' !in p.robotMesh && '/' !in p.robotName
    ensures p.xacroFile == "urdf/" + p.robotName + ".xacro"
    ensures p.tempXacroFile == p.xacroFile + ".temp"
    ensures p.urdfOutput == p.robotName + ".urdf"
    ensures p.outputDir == p.robotName + "_to_unity"
    ensures p.robotMesh != [] ==> p.meshStagingDir == "urdf/" + p.robotMesh + "/meshes"
    ensures p.robotMesh == [] ==> p.meshStagingDir == "urdf/meshes"
  {
    var robotMesh := Basename(cwd);
    var robotName := RobotName(robotMesh);
    XacroFileIn(robotName);
    MeshStagingDirIn(robotMesh);
    var xacroFile := JoinPath("urdf", robotName + ".xacro");
    var meshStagingDir := JoinPath(JoinPath("urdf", robotMesh), "meshes");
    Paths(
      robotMesh,
      robotName,
      xacroFile,
      xacroFile + ".temp",
      robotName + ".urdf",
      meshStagingDir,
      robotName + "_to_unity")
  }

  /** The expander input sits directly in `urdf`, named after the robot. */
  lemma XacroFileIn(robotName: string)
    requires '/' !in robotName
    ensures JoinPath("urdf", robotName + ".xacro") == "urdf/" + robotName + ".xacro"
  {
    var xacroName := robotName + ".xacro";
    if |robotName| > 0 {
      assert xacroName[0] == robotName[0];
    }
  }

  /**
    The mesh staging folder is `urdf/<robot_mesh>/meshes`; an empty folder
    name (the working folder is `/`) collapses it to `urdf/meshes`.
   */
  lemma MeshStagingDirIn(robotMesh: string)
    requires '/' !in robotMesh
    ensures robotMesh != [] ==> JoinPath(JoinPath("urdf", robotMesh), "meshes") == "urdf/" + robotMesh + "/meshes"
    ensures robotMesh == [] ==> JoinPath(JoinPath("urdf", robotMesh), "meshes") == "urdf/meshes"
  {
    var urdfMesh := JoinPath("urdf", robotMesh);
    if robotMesh == [] {
      assert urdfMesh == "urdf/";
      assert urdfMesh[4] == '/';
      assert JoinPath(urdfMesh, "meshes") == "urdf/" + "meshes";
    } else {
      assert urdfMesh == "urdf/" + robotMesh;
      assert urdfMesh[|urdfMesh| - 1] == robotMesh[|robotMesh| - 1];
    }
  }

  /** Why the converter stops before doing anything. */
  datatype LayoutError =
    | MissingUrdfFolder
    | MissingXacro(path: string)

  /**
    The two existence checks, against the set of relative paths that exist in
    the working folder: first the `urdf` folder, then the robot's expander
    input inside it.
   */
  function CheckLayout(cwd: string, existing: set<string>): (r: Result<Paths, LayoutError>)
    ensures r.Success? <==> "urdf" in existing && DerivePaths(cwd).xacroFile in existing
    ensures r.Success? ==> r.value == DerivePaths(cwd)
    ensures "urdf" !in existing ==> r == Failure(MissingUrdfFolder)
    ensures "urdf" in existing && DerivePaths(cwd).xacroFile !in existing ==>
              r == Failure(MissingXacro("urdf/" + DerivePaths(cwd).robotName + ".xacro"))
  {
    var p := DerivePaths(cwd);
    if "urdf" !in existing then Failure(MissingUrdfFolder)
    else if p.xacroFile !in existing then Failure(MissingXacro(p.xacroFile))
    else Success(p)
  }

  /** The line written to standard error for each failed check. */
  function ErrorMessage(e: LayoutError): (msg: string)
    ensures StartsWith(msg, "Error: '")
    ensures |msg| > 0 && msg[|msg| - 1] == '\n'
    ensures e.MissingXacro? ==> msg == "Error: '" + e.path + "' not found.\n"
  {
    match e
    case MissingUrdfFolder =>
      var msg := "Error: 'urdf' folder not found. "
        + "Please place this script "
        + "in the parent folder of 'urdf'.\n";
      assert msg[..8] == "Error: '";
      msg
    case MissingXacro(path) =>
      var msg := "Error: '" + path + "' not found.\n";
      assert msg[..8] == "Error: '";
      msg
  }

  /**
    A folder named `<base>_description`, with no `_description` inside
    `<base>`, gives the robot name `<base>`: the trailing word cannot combine
    with the end of `<base>` into an earlier occurrence, because `_` is the
    word's only underscore and its first character.
   */
  lemma RobotNameStripsSuffix(base: string)
    requires !Contains(base, DescriptionWord)
    ensures RobotName(base + DescriptionWord) == base
  {
    var n := DescriptionWord;
    assert n[0] !in n[1..] by {
      assert n[1..] == "description";
    }
    RemoveTrailingNeedle(base, n);
  }

  /** The usual case: the folder `arm_description` belongs to the robot `arm`. */
  lemma RobotNameExample()
    ensures RobotName("arm_description") == "arm"
  {
    assert "arm_description" == "arm" + DescriptionWord;
    assert !Contains("arm", DescriptionWord) by {
      if Contains("arm", DescriptionWord) {
        ContainsLength("arm", DescriptionWord);
      }
    }
    RobotNameStripsSuffix("arm");
  }

  /**
    The folder name that goes into `package://<robot_mesh>/meshes` is a
    basename, so the rewritten description holds no `file://` location and
    is a fixed point after one pass.
   */
  lemma MeshRewriteSettles(cwd: string, urdf: string)
    ensures var mesh := DerivePaths(cwd).robotMesh;
            && MeshUri.FreeOfMeshUris(MeshUri.RewriteMeshUris(urdf, mesh))
            && MeshUri.RewriteMeshUris(MeshUri.RewriteMeshUris(urdf, mesh), mesh)
                 == MeshUri.RewriteMeshUris(urdf, mesh)
  {
    MeshUri.RewriteIdempotent(urdf, DerivePaths(cwd).robotMesh);
  }
}
