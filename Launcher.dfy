/**
 * The launch composer (`launch_selected_build`): checks its guards in a
 * fixed order, resolves the build's version, finds the Java runtime and
 * assembles the options handed to the command builder. Spawning the command
 * is outside the model; a successful launch yields the request that would
 * be passed to the command builder.
 */
module Launcher {
  import opened Wrappers
  import opened Text
  import opened Layout
  import opened Registry
  import opened Resolver
  import opened JavaRuntime
  import opened Sessions

  const AuthlibInjectorPath: string := "authlib/authlib-injector-1.2.5.jar"
  const AuthServer: string := "https://authserver.ely.by"
  /** The JVM agent that routes authentication to the ely.by server. */
  const JavaAgentArgument: string := "-javaagent:" + AuthlibInjectorPath + "=" + AuthServer
  const LauncherName: string := "EchoLauncher"
  const LauncherVersion: string := "1.1"

  /** The JVM arguments: heap bounds, the agent, then the extra arguments split on whitespace. */
  function JvmArguments(maxRam: string, minRam: string, extra: string): seq<string>
  {
    ["-Xmx" + maxRam, "-Xms" + minRam, JavaAgentArgument] + Split(extra)
  }

  /**
   * Three fixed entries come first; after them one entry per whitespace-free
   * token of the extra arguments, none of them empty.
   */
  lemma JvmArgumentsShape(maxRam: string, minRam: string, extra: string)
    ensures |JvmArguments(maxRam, minRam, extra)| >= 3
    ensures JvmArguments(maxRam, minRam, extra)[..3] == ["-Xmx" + maxRam, "-Xms" + minRam, JavaAgentArgument]
    ensures forall k :: 3 <= k < |JvmArguments(maxRam, minRam, extra)| ==> IsWord(JvmArguments(maxRam, minRam, extra)[k])
  {
    SplitGivesWords(extra);
  }

  /**
   * Extra arguments typed as words with any whitespace around and between
   * them are appended verbatim and in order, one entry per word.
   */
  lemma JvmArgumentsKeepExtraOrder(maxRam: string, minRam: string, seps: seq<string>, words: seq<string>)
    requires IsLayout(seps, words)
    ensures JvmArguments(maxRam, minRam, Interleave(seps, words))[3..] == words
  {
    SplitInterleave(seps, words);
  }

  /** "-Dfoo=1 -Dbar=2" adds exactly two entries after the fixed three, in that order. */
  lemma JvmArgumentsTwoExtras(maxRam: string, minRam: string)
    ensures JvmArguments(maxRam, minRam, "-Dfoo=1 -Dbar=2")
              == ["-Xmx" + maxRam, "-Xms" + minRam, JavaAgentArgument, "-Dfoo=1", "-Dbar=2"]
  {
    var words := ["-Dfoo=1", "-Dbar=2"];
    var seps := ["", " ", ""];
    assert IsWord(words[0]) && IsWord(words[1]);
    assert IsBlank(seps[0]) && IsBlank(seps[1]) && IsBlank(seps[2]);
    assert IsLayout(seps, words);
    assert Interleave(seps, words) == "-Dfoo=1 -Dbar=2";
    SplitInterleave(seps, words);
  }

  /** The `options` dictionary handed to the command builder. */
  datatype LaunchOptions = LaunchOptions(
    username: string,
    uuid: string,
    token: string,
    jvmArguments: seq<string>,
    launcherName: string,
    launcherVersion: string,
    gameDirectory: Path,
    executablePath: Path)

  /** The arguments of `get_minecraft_command(version_id, build_path, options)`. */
  datatype LaunchRequest = LaunchRequest(versionId: string, gameDir: Path, options: LaunchOptions)

  /** The texts of the three Java settings fields, as typed. */
  datatype JavaSettings = JavaSettings(maxRam: string, minRam: string, extraArgs: string)

  /** How a launch ends: one notice per guard, or the command handed over for spawning. */
  datatype LaunchOutcome =
    | NotLoggedIn                          // no saved session
    | NoBuildSelected                      // empty selection
    | BuildNotFound                        // no record with the selected name
    | InstallFailed(error: ResolveError)   // ensure_installed raised
    | NoVersionId                          // ensure_installed gave None or ""
    | JavaNotFound                         // get_java_path raised
    | Started(request: LaunchRequest)

  /** The options for a session, a build directory, a Java executable and the settings fields. */
  function OptionsFor(sess: Session, buildPath: Path, java: Path, settings: JavaSettings): LaunchOptions
  {
    LaunchOptions(sess.username, sess.uuid, sess.accessToken,
                  JvmArguments(Strip(settings.maxRam), Strip(settings.minRam), settings.extraArgs),
                  LauncherName, LauncherVersion, buildPath, java)
  }

  /**
   * `launch_selected_build`. Guards in order: a session, a selected name, a
   * record with that name, then the resolver (an exception, or an empty
   * id), then the Java runtime. Installs happen only once a record is found,
   * and only the ones the resolver makes; a started launch runs the resolved
   * id with an executable that exists.
   */
  method Launch(session: Option<Session>, selected: string, builds: seq<Build>, buildsDir: Path,
                env: Installer, existing: set<Path>, settings: JavaSettings)
    returns (outcome: LaunchOutcome, calls: seq<InstallCall>)
    ensures session.None? ==> outcome == NotLoggedIn && calls == []
    ensures session.Some? && selected == [] ==> outcome == NoBuildSelected && calls == []
    ensures session.Some? && selected != [] && !HasName(builds, selected) ==>
              outcome == BuildNotFound && calls == []
    ensures session.Some? && selected != [] && HasName(builds, selected) ==>
              var resolved := Resolve(FindBuild(builds, selected).value, buildsDir, env);
              var java := JavaPathFor(existing, BuildPath(buildsDir, selected));
              && calls == resolved.calls
              && (resolved.resolution.Failed? ==> outcome == InstallFailed(resolved.resolution.error))
              && (resolved.resolution == Unresolved || resolved.resolution == Resolved([]) ==>
                    outcome == NoVersionId)
              && (resolved.resolution.Resolved? && resolved.resolution.id != [] && java.None? ==>
                    outcome == JavaNotFound)
              && (resolved.resolution.Resolved? && resolved.resolution.id != [] && java.Some? ==>
                    outcome == Started(LaunchRequest(resolved.resolution.id, BuildPath(buildsDir, selected),
                                                     OptionsFor(session.value, BuildPath(buildsDir, selected),
                                                                java.value, settings))))
    ensures outcome.Started? ==> outcome.request.options.executablePath in existing
    ensures outcome.Started? ==> outcome.request.versionId != []
  {
    calls := [];
    if session.None? {
      return NotLoggedIn, calls;
    }
    var sess := session.value;
    if selected == [] {
      return NoBuildSelected, calls;
    }
    var found := FindBuild(builds, selected);
    if found.None? {
      return BuildNotFound, calls;
    }
    var build := found.value;
    var resolution;
    resolution, calls := EnsureInstalled(build, buildsDir, env);
    if resolution.Failed? {
      return InstallFailed(resolution.error), calls;
    }
    if resolution.Unresolved? || resolution.id == [] {
      return NoVersionId, calls;
    }
    var buildPath := BuildPath(buildsDir, selected);
    var java := FindJavaPath(existing, buildPath);
    if java.None? {
      return JavaNotFound, calls;
    }
    var options := OptionsFor(sess, buildPath, java.value, settings);
    outcome := Started(LaunchRequest(resolution.id, buildPath, options));
  }
}
