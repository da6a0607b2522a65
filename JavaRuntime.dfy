/**
 * Java runtime discovery (`get_java_path`): the bundled runtime of a build is
 * looked for under a fixed list of layouts, first existing one wins. The
 * file system is the set of paths of the regular files that exist.
 */
module JavaRuntime {
  import opened Wrappers
  import opened Layout

  const Gamma: string := "java-runtime-gamma"
  const Delta: string := "java-runtime-delta"

  /** The candidate runtimes, in the order they are tried. */
  const JavaCandidates: seq<string> := [Gamma, Delta]

  /** `<build>/runtime/<c>/windows-x64/<c>/bin/java.exe` for candidate `c`. */
  function JavaExecutable(buildPath: Path, candidate: string): Path
  {
    buildPath + ["runtime", candidate, "windows-x64", candidate, "bin", "java.exe"]
  }

  /** The gamma runtime if it exists, otherwise the delta runtime if it exists, otherwise none. */
  function JavaPathFor(existing: set<Path>, buildPath: Path): Option<Path>
  {
    if JavaExecutable(buildPath, Gamma) in existing then Some(JavaExecutable(buildPath, Gamma))
    else if JavaExecutable(buildPath, Delta) in existing then Some(JavaExecutable(buildPath, Delta))
    else None
  }

  /**
   * `get_java_path(build_path)`: tries the candidates in order and returns
   * the first executable that exists; `None` stands for the
   * FileNotFoundError raised when neither does.
   */
  method FindJavaPath(existing: set<Path>, buildPath: Path) returns (r: Option<Path>)
    ensures r == JavaPathFor(existing, buildPath)
    ensures r.Some? ==> r.value in existing
    ensures r.None? <==> JavaExecutable(buildPath, Gamma) !in existing && JavaExecutable(buildPath, Delta) !in existing
  {
    var i := 0;
    while i < |JavaCandidates|
      invariant 0 <= i <= |JavaCandidates|
      invariant forall j :: 0 <= j < i ==> JavaExecutable(buildPath, JavaCandidates[j]) !in existing
    {
      var javaPath := JavaExecutable(buildPath, JavaCandidates[i]);
      if javaPath in existing {
        return Some(javaPath);
      }
      i := i + 1;
    }
    assert JavaCandidates[0] == Gamma && JavaCandidates[1] == Delta;
    return None;
  }
}
