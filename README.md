# EchoLauncher decision core, modelled in Dafny

EchoLauncher is a desktop launcher for Minecraft builds. A build is a named
record `{name, version, type}` kept in builds.json, with its own directory
under builds/. This project models the part of `main.py` that makes the
decisions, and leaves the plumbing around it as inputs:

- **Build registry** (`Registry`): builds.json is one sequence value, read
  whole and written whole. The set of build directories sits beside it.
  `add_build` refuses a duplicate name. The filter in `delete_build` removes
  records by name. `next(...)` looks up the selected build. The invariant is
  that names are unique and every build has its directory.
- **Version resolver** (`Resolver`): `ensure_installed` decides on the build
  type (vanilla, fabric or forge). Calls into the installation library are
  returned as an install trace, `calls`. What the library answers is an input
  value: the directory listings, the forge version lookup, and whether
  automatic install is supported. `Resolve` is the specification function.
  `EnsureInstalled` and its two scan loops are proved against it.
- **Forge promo cache** (`ForgePromos`): `fetch_forge_promos` is a class over
  a map. It fills an empty cache from the downloaded "promos" object: only
  keys ending in `-latest` are kept, with that 7-character suffix removed. A
  cache that is already filled is left alone.
- **Java runtime discovery** (`JavaRuntime`): `get_java_path` returns the
  first existing runtime among the gamma and delta layouts, or fails. Which
  files exist is given as a set of paths.
- **Session refresh** (`Sessions`): session.json is a class field. A refresh
  that succeeds replaces the access token, uuid and username, and keeps the
  client token. A refresh that fails leaves the file as it was.
- **Launch** (`Launcher`): `launch_selected_build` checks its guards in a
  fixed order. On success it yields the request passed to the command
  builder. That request holds the options dictionary and the JVM argument
  list: `-Xmx`, `-Xms`, the authlib agent, then the extra arguments split on
  whitespace. `Text` holds the Python string operations involved: `endswith`,
  `in`, `strip()` and `split()`.

Some behaviours of the code are easy to misread. The model follows the code as written:

- A missing Java runtime. The launch has a dedicated "Java not found"
  message (main.py:274-275), but it cannot be reached. `get_java_path`
  (main.py:30-47) raises outside the launch's `try` (main.py:243-248), so the
  launch stops with an uncaught exception instead. By the time the message's
  check runs, the returned path was just found to exist. The model returns
  `JavaNotFound`, and `Launch` proves that a started launch always has an
  existing executable.
- The forge release of a build. `ensure_installed` asks the installation
  library (`find_forge_version`, main.py:204), not the promotions table. The
  promo cache only fills the version list of the creation dialog
  (main.py:399-401).
- An empty vanilla version. It counts as installed: joining "" onto the
  versions directory names that directory itself, which was just created
  (main.py:176-181). The empty id then reaches the launch's "no version"
  notice (main.py:245-246) without any install
  (`Resolver.EmptyIdOnlyFromEmptyVanilla`).
- The build type is a free string in builds.json. Any value other than the
  three known ones makes `ensure_installed` return `None` (main.py:173, 222),
  and the launch shows its "no version" notice.

## Model

| member | source | states |
|---|---|---|
| `Text.ContainsIffOccurs` | main.py:195 | the substring test `sub in s` holds exactly when some window of `s` equals `sub` |
| `Text.DropSuffix` | main.py:89 | removing a suffix the string ends with leaves the part that, with the suffix appended, gives back the string |
| `Text.TrimStart` | main.py:255 | the leading-whitespace strip drops only whitespace, keeps a suffix of the input, and leaves no whitespace at the front |
| `Text.TrimEnd` | main.py:255 | the trailing-whitespace strip drops only whitespace, keeps a prefix of the input, and leaves no whitespace at the end |
| `Text.Strip` | main.py:255-256 | `strip()` yields a window of the input with only whitespace outside it, and the window neither starts nor ends with whitespace |
| `Text.StripIdempotent` | main.py:255-256 | stripping a stripped string changes nothing |
| `Text.SplitGivesWords` | main.py:267 | every token of `split()` is non-empty and has no whitespace |
| `Text.SplitBlank` | main.py:267 | whitespace in front of a string does not change its tokens |
| `Text.SplitInterleave` | main.py:267 | splitting words laid out with any whitespace around and between them (non-empty between two words) gives back the same words in the same order |
| `Text.SplitLayout` | main.py:267 | every string is such a layout of its own tokens, so the two lemmas together determine `split()` on every input |
| `Registry.FindBuild` | main.py:238 | the lookup gives none exactly when no record has the name, and otherwise the first record with that name |
| `Registry.FindBuildUnique` | main.py:238 | with unique names, looking up a record's name gives that very record |
| `Registry.WithoutName` | main.py:422 | the delete filter keeps exactly the records whose name differs from the deleted one |
| `Registry.WithoutNameAppend` | main.py:422 | the delete filter works piecewise over concatenation, so survivors keep their original order |
| `Registry.WithoutAbsentName` | main.py:422 | deleting a name no record has leaves the registry unchanged |
| `Registry.AddThenDelete` | main.py:118-124 | appending a record with a fresh name and then deleting that name restores the registry |
| `Registry.WithoutNameKeepsUnique` | main.py:422 | deleting keeps names unique |
| `Registry.AppendFreshKeepsUnique` | main.py:120-123 | appending a record whose name is new keeps names unique |
| `Registry.BuildRegistry.constructor` | main.py:108-112 | the registry starts as the records and directories found on disk |
| `Registry.BuildRegistry.Add` | main.py:118-126 | a duplicate name fails and changes nothing; otherwise the record is appended at the end, its directory is created, and uniqueness is preserved |
| `Registry.BuildRegistry.Delete` | main.py:416-424 | an empty selection or a declined confirmation changes nothing; otherwise every record with the name is removed, the rest stay in order, its directory goes, and the invariant is preserved |
| `Resolver.FirstMatchIsFirst` | main.py:194-197 | the scan result is none exactly when no entry matches, and otherwise is the entry at the first matching position |
| `Resolver.FindFabricVersionId` | main.py:194-197 | the fabric loop returns the first listing entry that ends with `-<version>` and contains "fabric-loader" |
| `Resolver.FindForgeVersionId` | main.py:215-220 | the forge `for`/`else` loop returns the first installed id that contains the version and "forge" |
| `Resolver.EnsureInstalled` | main.py:169-222 | the resolver's result and its install trace are those of the three-way decision `Resolve` |
| `Resolver.VanillaResolution` | main.py:184-187 | vanilla always resolves to the build's version; the one install call happens exactly when that version is not installed |
| `Resolver.FabricResolution` | main.py:190-199 | fabric always installs the base version and then the loader; it resolves to the first matching entry and fails exactly when none matches |
| `Resolver.ForgeResolution` | main.py:202-220 | forge fails with no install when no release exists, then with no install when automatic install is unsupported; otherwise it installs once and resolves to the first matching id or fails when none matches |
| `Resolver.UnknownKindResolution` | main.py:169-173 | a type other than the three known ones resolves to `None` and installs nothing |
| `Resolver.EmptyIdOnlyFromEmptyVanilla` | main.py:180-187 | only a vanilla build with an empty version resolves to the empty id, and it installs nothing |
| `ForgePromos.DropLatestSuffix` | main.py:88-89 | a game version followed by "-latest" is a promo key, and cutting the suffix gives the version back |
| `ForgePromos.PromoTableKeys` | main.py:87-90 | a game version is in the downloaded table exactly when `<version>-latest` is a promo key, and it maps to that key's value |
| `ForgePromos.AfterFetch` | main.py:80-92 | a filled cache is unchanged; an empty cache stays empty on a failed download, and otherwise holds exactly the versions whose "-latest" key was promoted, each mapped to that key's value |
| `ForgePromos.FetchIdempotent` | main.py:82-83 | fetching again with the same answer changes nothing |
| `ForgePromos.ForgePromoCache.constructor` | main.py:78 | the cache starts empty |
| `ForgePromos.ForgePromoCache.Fetch` | main.py:80-92 | the key-by-key loop leaves the cache as `AfterFetch` of the old cache and the download |
| `JavaRuntime.FindJavaPath` | main.py:30-47 | the gamma executable if it exists, otherwise the delta executable if it exists, otherwise failure; a returned path always exists |
| `Sessions.SessionStore.constructor` | main.py:100-104 | the store starts as the session found on disk, or none |
| `Sessions.SessionStore.Refresh` | main.py:148-165 | with no session nothing is sent or changed; otherwise the saved token pair is sent; only a granted reply changes the file, replacing access token, uuid and username and keeping the client token; a rejection reports the server's message or the default one |
| `Launcher.JvmArgumentsShape` | main.py:263-267 | the JVM arguments start with `-Xmx<max>`, `-Xms<min>` and the agent, followed only by non-empty tokens without whitespace |
| `Launcher.JvmArgumentsKeepExtraOrder` | main.py:263-267 | extra arguments typed as words with any whitespace around and between them follow the fixed three verbatim, one entry per word, in order |
| `Launcher.JvmArgumentsTwoExtras` | main.py:263-267 | "-Dfoo=1 -Dbar=2" adds exactly two entries after the fixed three, in that order |
| `Launcher.Launch` | main.py:226-283 | guards in order: no session, no selection, no record, resolver failure, empty id, no Java; installs happen only once a record is found; a started launch runs the resolved non-empty id with the session's identity, stripped heap bounds, the split extras and an existing executable |

## Left out

- The Tk interface: windows, widgets, dialogs, images and the combobox refresh (main.py:297-453). It is UI, not logic.
- `login` (main.py:130-146) is not part of this model. Only the refresh of an existing session is modelled.
- HTTP calls to the auth, refresh and forge promotions endpoints are network I/O. Their answers are inputs: a reply with a status and the fields read, a transport failure, or the "promos" object.
- The installation library is a black box: installs, version listings, `find_forge_version`, `supports_automatic_install` and command construction. The model records its calls and takes its answers as given. A library call that raises during an install is not modelled.
- Reading and writing the JSON files is modelled as whole values held in class fields (builds, session). The Java config load and save, and `save_java_settings`, are not modelled (main.py:65-75, 346-351). The launch takes the texts of the settings fields as inputs.
- `os.makedirs` of the versions directory (main.py:176-177) is modelled only through its one effect on the decision: the empty version id counts as installed.
- Paths are lists of components. A name holding a separator, `..` or an absolute path is not normalised as `os.path.join` would do it.
- A session file that is an empty object, or lacks one of its four keys, is not modelled. The saved session is either absent or a full record. Keys of the file beyond the four are not carried.
- A builds.json record that lacks one of its keys is not modelled.
- `subprocess.Popen`, `webbrowser.open`, message boxes and the `print` of a failed promo download are process and OS effects. A started launch ends with the request handed to the command builder.
- The module-level version lists (main.py:57-61) and the sorted version list of the creation dialog (main.py:393-403) are foreign library calls and UI.
- Import-time path setup via `sys.frozen` (main.py:18-28) depends on the environment.
- The order in which a dict hands out its keys is not modelled. The promo table does not depend on it, because two different "-latest" keys never name the same game version.
