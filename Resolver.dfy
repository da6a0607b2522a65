/**
 * Version resolution (`ensure_installed`): turns a build record into the
 * identifier of an installed game version, installing what the build's type
 * calls for. The installation library is an abstract collaborator: every
 * call into it is recorded in an install trace, and whatever it answers
 * (which versions it knows, the directory listings after an install) is an
 * input value.
 */
module Resolver {
  import opened Wrappers
  import opened Text
  import opened Registry
  import opened Layout

  /** One call into the installation library, in the order made. */
  datatype InstallCall =
    | InstallVersion(version: string, gameDir: Path)      // install.install_minecraft_version
    | InstallFabric(version: string, gameDir: Path)       // install_fabric
    | InstallForge(forgeVersion: string, gameDir: Path)   // forge.install_forge_version

  /** The answers of the installation library and of the build's versions directory. */
  datatype Installer = Installer(
    versionDirs: set<string>,             // entries of <game>/versions before anything is installed
    fabricListing: seq<string>,           // os.listdir(<game>/versions) after the fabric installs
    forgeVersions: map<string, string>,   // find_forge_version: game version -> forge version
    autoInstallable: set<string>,         // forge versions for which supports_automatic_install holds
    installedIds: seq<string>)            // ids of get_installed_versions(<game>) after the forge install

  /** `find_forge_version(mc_version)`: the forge release for a game version, if any. */
  function FindForgeVersion(env: Installer, mcVersion: string): Option<string>
  {
    if mcVersion in env.forgeVersions then Some(env.forgeVersions[mcVersion]) else None
  }

  /** `supports_automatic_install(forge_version)`. */
  predicate SupportsAutomaticInstall(env: Installer, forgeVersion: string)
  {
    forgeVersion in env.autoInstallable
  }

  /**
   * `version_installed(ver_id)`: the path versions/<ver_id> exists. Joining
   * the empty name gives the versions directory itself, which
   * `ensure_installed` has just created, so the empty id always counts as
   * installed.
   */
  predicate VersionInstalled(env: Installer, versionId: string)
  {
    versionId == [] || versionId in env.versionDirs
  }

  const FabricMarker: string := "fabric-loader"
  const ForgeMarker: string := "forge"

  /** The two loader families whose installed identifier is found by scanning. */
  datatype Loader = FabricLoader | ForgeLoader

  /**
   * The pattern rule of each scan: a fabric entry ends with `-<version>` and
   * contains "fabric-loader"; a forge id contains `<version>` and "forge".
   */
  predicate Matches(loader: Loader, candidate: string, mcVersion: string)
  {
    match loader
    case FabricLoader => EndsWith(candidate, "-" + mcVersion) && Contains(candidate, FabricMarker)
    case ForgeLoader => Contains(candidate, mcVersion) && Contains(candidate, ForgeMarker)
  }

  /** Entry `k` is the first entry of `s` that matches. */
  ghost predicate IsFirstMatch(loader: Loader, s: seq<string>, mcVersion: string, k: int)
  {
    0 <= k < |s| && Matches(loader, s[k], mcVersion)
    && forall j :: 0 <= j < k ==> !Matches(loader, s[j], mcVersion)
  }

  /** First match in listing order, or none (the specification of both scans). */
  function FirstMatch(loader: Loader, s: seq<string>, mcVersion: string): Option<string>
    decreases |s|
  {
    if s == [] then None
    else if Matches(loader, s[0], mcVersion) then Some(s[0])
    else FirstMatch(loader, s[1..], mcVersion)
  }

  /** `FirstMatch` is none exactly when nothing matches, and otherwise is the entry at the first matching position. */
  lemma {:induction false} FirstMatchIsFirst(loader: Loader, s: seq<string>, mcVersion: string)
    ensures FirstMatch(loader, s, mcVersion).None? <==>
              forall k :: 0 <= k < |s| ==> !Matches(loader, s[k], mcVersion)
    ensures FirstMatch(loader, s, mcVersion).Some? ==>
              exists k :: IsFirstMatch(loader, s, mcVersion, k) && s[k] == FirstMatch(loader, s, mcVersion).value
    decreases |s|
  {
    if s != [] && !Matches(loader, s[0], mcVersion) {
      var tail := s[1..];
      FirstMatchIsFirst(loader, tail, mcVersion);
      assert forall k :: 1 <= k < |s| ==> s[k] == tail[k - 1];
      if FirstMatch(loader, tail, mcVersion).Some? {
        var k :| IsFirstMatch(loader, tail, mcVersion, k) && tail[k] == FirstMatch(loader, tail, mcVersion).value;
        assert IsFirstMatch(loader, s, mcVersion, k + 1);
      }
    } else if s != [] {
      assert IsFirstMatch(loader, s, mcVersion, 0);
    }
  }

  /**
   * The fabric scan over `os.listdir(versions_dir)`: stops at the first entry
   * ending with `-<version>` that contains "fabric-loader".
   */
  method FindFabricVersionId(listing: seq<string>, mcVersion: string) returns (id: Option<string>)
    ensures id == FirstMatch(FabricLoader, listing, mcVersion)
  {
    id := None;
    var i := 0;
    while i < |listing|
      invariant 0 <= i <= |listing|
      invariant FirstMatch(FabricLoader, listing, mcVersion) == FirstMatch(FabricLoader, listing[i..], mcVersion)
    {
      var d := listing[i];
      assert listing[i..][1..] == listing[i + 1..];
      if EndsWith(d, "-" + mcVersion) && Contains(d, FabricMarker) {
        id := Some(d);
        break;
      }
      i := i + 1;
    }
  }

  /**
   * The forge scan over the installed versions (a `for`/`else` in the
   * source): the first id containing both the game version and "forge".
   */
  method FindForgeVersionId(installedIds: seq<string>, mcVersion: string) returns (id: Option<string>)
    ensures id == FirstMatch(ForgeLoader, installedIds, mcVersion)
  {
    id := None;
    var i := 0;
    while i < |installedIds|
      invariant 0 <= i <= |installedIds|
      invariant FirstMatch(ForgeLoader, installedIds, mcVersion) == FirstMatch(ForgeLoader, installedIds[i..], mcVersion)
    {
      var v := installedIds[i];
      assert installedIds[i..][1..] == installedIds[i + 1..];
      if Contains(v, mcVersion) && Contains(v, ForgeMarker) {
        id := Some(v);
        break;
      }
      i := i + 1;
    }
  }

  /** The exceptions `ensure_installed` raises. */
  datatype ResolveError =
    | FabricIdNotFound                          // fabric installed, no matching entry
    | ForgeUnsupportedVersion(mcVersion: string)  // find_forge_version gave None
    | ForgeNoAutomaticInstall(forgeVersion: string)
    | ForgeIdNotFound                           // forge installed, no matching id

  /** What `ensure_installed` returns: an id, `None` (a type it does not know), or an exception. */
  datatype Resolution = Resolved(id: string) | Unresolved | Failed(error: ResolveError)

  /** A resolution together with the install trace it produced. */
  datatype ResolveOutcome = ResolveOutcome(resolution: Resolution, calls: seq<InstallCall>)

  /** The three-way decision on the build type, as a function of the collaborator's answers. */
  function Resolve(build: Build, buildsDir: Path, env: Installer): ResolveOutcome
  {
    var v := build.version;
    var dir := BuildPath(buildsDir, build.name);
    if build.kind == "vanilla" then
      ResolveOutcome(Resolved(v), if VersionInstalled(env, v) then [] else [InstallVersion(v, dir)])
    else if build.kind == "fabric" then
      var found := FirstMatch(FabricLoader, env.fabricListing, v);
      ResolveOutcome(if found.Some? then Resolved(found.value) else Failed(FabricIdNotFound),
                     [InstallVersion(v, dir), InstallFabric(v, dir)])
    else if build.kind == "forge" then
      match FindForgeVersion(env, v)
      case None => ResolveOutcome(Failed(ForgeUnsupportedVersion(v)), [])
      case Some(fv) =>
        if !SupportsAutomaticInstall(env, fv) then
          ResolveOutcome(Failed(ForgeNoAutomaticInstall(fv)), [])
        else
          var found := FirstMatch(ForgeLoader, env.installedIds, v);
          ResolveOutcome(if found.Some? then Resolved(found.value) else Failed(ForgeIdNotFound),
                         [InstallForge(fv, dir)])
    else
      ResolveOutcome(Unresolved, [])
  }

  /** `ensure_installed(build)`: the installs are recorded in `calls`, in the order made. */
  method EnsureInstalled(build: Build, buildsDir: Path, env: Installer)
    returns (res: Resolution, calls: seq<InstallCall>)
    ensures ResolveOutcome(res, calls) == Resolve(build, buildsDir, env)
  {
    var v := build.version;
    var gameDir := BuildPath(buildsDir, build.name);
    calls := [];
    if build.kind == "vanilla" {
      res := Resolved(v);
      if !VersionInstalled(env, v) {
        calls := calls + [InstallVersion(v, gameDir)];
      }
    } else if build.kind == "fabric" {
      calls := calls + [InstallVersion(v, gameDir)];
      calls := calls + [InstallFabric(v, gameDir)];
      var found := FindFabricVersionId(env.fabricListing, v);
      if found.None? {
        return Failed(FabricIdNotFound), calls;
      }
      res := Resolved(found.value);
    } else if build.kind == "forge" {
      var forgeVersion := FindForgeVersion(env, v);
      if forgeVersion.None? {
        return Failed(ForgeUnsupportedVersion(v)), calls;
      }
      if !SupportsAutomaticInstall(env, forgeVersion.value) {
        return Failed(ForgeNoAutomaticInstall(forgeVersion.value)), calls;
      }
      calls := calls + [InstallForge(forgeVersion.value, gameDir)];
      var found := FindForgeVersionId(env.installedIds, v);
      if found.None? {
        return Failed(ForgeIdNotFound), calls;
      }
      res := Resolved(found.value);
    } else {
      res := Unresolved;
    }
  }

  /**
   * Vanilla: the id is always the build's version, and the one install call
   * happens exactly when that version is not already in versions/.
   */
  lemma VanillaResolution(build: Build, buildsDir: Path, env: Installer)
    requires build.kind == "vanilla"
    ensures Resolve(build, buildsDir, env).resolution == Resolved(build.version)
    ensures VersionInstalled(env, build.version) ==> Resolve(build, buildsDir, env).calls == []
    ensures !VersionInstalled(env, build.version) ==>
              Resolve(build, buildsDir, env).calls == [InstallVersion(build.version, BuildPath(buildsDir, build.name))]
  {
  }

  /**
   * Fabric: the base install and then the loader install always happen; the
   * id is the first listing entry that matches the pattern, and resolution
   * fails exactly when none does.
   */
  lemma FabricResolution(build: Build, buildsDir: Path, env: Installer)
    requires build.kind == "fabric"
    ensures Resolve(build, buildsDir, env).calls ==
              [InstallVersion(build.version, BuildPath(buildsDir, build.name)),
               InstallFabric(build.version, BuildPath(buildsDir, build.name))]
    ensures Resolve(build, buildsDir, env).resolution == Failed(FabricIdNotFound) <==>
              forall k :: 0 <= k < |env.fabricListing| ==> !Matches(FabricLoader, env.fabricListing[k], build.version)
    ensures Resolve(build, buildsDir, env).resolution.Resolved? ==>
              exists k :: IsFirstMatch(FabricLoader, env.fabricListing, build.version, k)
                          && env.fabricListing[k] == Resolve(build, buildsDir, env).resolution.id
    ensures Resolve(build, buildsDir, env).resolution.Resolved? || Resolve(build, buildsDir, env).resolution == Failed(FabricIdNotFound)
  {
    FirstMatchIsFirst(FabricLoader, env.fabricListing, build.version);
  }

  /**
   * Forge, in the order the source checks: no forge release fails before any
   * install; a release without automatic install fails before any install;
   * otherwise exactly one install, then the first matching id or a failure.
   */
  lemma ForgeResolution(build: Build, buildsDir: Path, env: Installer)
    requires build.kind == "forge"
    ensures build.version !in env.forgeVersions ==>
              Resolve(build, buildsDir, env) == ResolveOutcome(Failed(ForgeUnsupportedVersion(build.version)), [])
    ensures build.version in env.forgeVersions && !SupportsAutomaticInstall(env, env.forgeVersions[build.version]) ==>
              Resolve(build, buildsDir, env)
                == ResolveOutcome(Failed(ForgeNoAutomaticInstall(env.forgeVersions[build.version])), [])
    ensures build.version in env.forgeVersions && SupportsAutomaticInstall(env, env.forgeVersions[build.version]) ==>
              && Resolve(build, buildsDir, env).calls
                   == [InstallForge(env.forgeVersions[build.version], BuildPath(buildsDir, build.name))]
              && (Resolve(build, buildsDir, env).resolution == Failed(ForgeIdNotFound) <==>
                    forall k :: 0 <= k < |env.installedIds| ==> !Matches(ForgeLoader, env.installedIds[k], build.version))
              && (Resolve(build, buildsDir, env).resolution.Resolved? ==>
                    exists k :: IsFirstMatch(ForgeLoader, env.installedIds, build.version, k)
                                && env.installedIds[k] == Resolve(build, buildsDir, env).resolution.id)
  {
    FirstMatchIsFirst(ForgeLoader, env.installedIds, build.version);
  }

  /** A type other than the three known ones resolves to `None` and installs nothing. */
  lemma UnknownKindResolution(build: Build, buildsDir: Path, env: Installer)
    requires build.kind != "vanilla" && build.kind != "fabric" && build.kind != "forge"
    ensures Resolve(build, buildsDir, env) == ResolveOutcome(Unresolved, [])
  {
  }

  /**
   * The only way to resolve to the empty id is a vanilla build whose version
   * is empty, and such a build installs nothing.
   */
  lemma EmptyIdOnlyFromEmptyVanilla(build: Build, buildsDir: Path, env: Installer)
    requires Resolve(build, buildsDir, env).resolution == Resolved([])
    ensures build.kind == "vanilla" && build.version == []
    ensures Resolve(build, buildsDir, env).calls == []
  {
    if build.kind == "fabric" {
      FirstMatchIsFirst(FabricLoader, env.fabricListing, build.version);
    } else if build.kind == "forge" {
      FirstMatchIsFirst(ForgeLoader, env.installedIds, build.version);
    }
  }
}
