/**
 * The build registry: the file builds.json, a JSON array of
 * `{name, version, type}` records read and written whole, together with the
 * per-build directories under builds/ that creation and deletion maintain.
 */
module Registry {
  import opened Wrappers

  /** One record of builds.json; `kind` is its "type" field, a free string in the file. */
  datatype Build = Build(name: string, version: string, kind: string)

  /** The registry invariant: no two records share a name. */
  ghost predicate NamesUnique(builds: seq<Build>)
  {
    forall i, j :: 0 <= i < j < |builds| ==> builds[i].name != builds[j].name
  }

  /** `any(b["name"] == name for b in builds)`. */
  predicate HasName(builds: seq<Build>, name: string)
  {
    exists i :: 0 <= i < |builds| && builds[i].name == name
  }

  /** Record `k` is the first one named `name`. */
  ghost predicate FirstNamed(builds: seq<Build>, name: string, k: int)
  {
    0 <= k < |builds| && builds[k].name == name
    && forall j :: 0 <= j < k ==> builds[j].name != name
  }

  /**
   * `next((b for b in builds if b["name"] == name), None)`: the first record
   * with that name, or none exactly when no record has it.
   */
  function FindBuild(builds: seq<Build>, name: string): (r: Option<Build>)
    ensures r.None? <==> !HasName(builds, name)
    ensures r.Some? ==> exists k :: FirstNamed(builds, name, k) && builds[k] == r.value
    decreases |builds|
  {
    if builds == [] then None
    else if builds[0].name == name then
      assert FirstNamed(builds, name, 0);
      Some(builds[0])
    else
      var r := FindBuild(builds[1..], name);
      assert forall i :: 1 <= i < |builds| ==> builds[i] == builds[1..][i - 1];
      assert r.Some? ==> exists k :: FirstNamed(builds, name, k) && builds[k] == r.value by {
        if r.Some? {
          var k :| FirstNamed(builds[1..], name, k) && builds[1..][k] == r.value;
          assert FirstNamed(builds, name, k + 1);
        }
      }
      r
  }

  /** In a registry with unique names, looking up a record's name yields that record. */
  lemma FindBuildUnique(builds: seq<Build>, b: Build)
    requires NamesUnique(builds)
    requires b in builds
    ensures FindBuild(builds, b.name) == Some(b)
  {
    var i :| 0 <= i < |builds| && builds[i] == b;
    var r := FindBuild(builds, b.name);
    var k :| FirstNamed(builds, b.name, k) && builds[k] == r.value;
    assert k == i;
  }

  /** `[b for b in builds if b["name"] != name]`, the list edit of a deletion. */
  function WithoutName(builds: seq<Build>, name: string): (r: seq<Build>)
    ensures forall b :: b in r <==> b in builds && b.name != name
    ensures |r| <= |builds|
    decreases |builds|
  {
    if builds == [] then []
    else if builds[0].name != name then [builds[0]] + WithoutName(builds[1..], name)
    else WithoutName(builds[1..], name)
  }

  /** The filter works piecewise, so the surviving records keep their relative order. */
  lemma {:induction false} WithoutNameAppend(a: seq<Build>, b: seq<Build>, name: string)
    ensures WithoutName(a + b, name) == WithoutName(a, name) + WithoutName(b, name)
    decreases |a|
  {
    if a == [] {
      assert a + b == b;
    } else {
      assert (a + b)[1..] == a[1..] + b;
      WithoutNameAppend(a[1..], b, name);
    }
  }

  /** Deleting a name that no record carries leaves the registry as it was. */
  lemma {:induction false} WithoutAbsentName(builds: seq<Build>, name: string)
    requires !HasName(builds, name)
    ensures WithoutName(builds, name) == builds
    decreases |builds|
  {
    if builds != [] {
      assert !HasName(builds[1..], name) by {
        forall i | 0 <= i < |builds[1..]| ensures builds[1..][i].name != name {
          assert builds[1..][i] == builds[i + 1];
        }
      }
      WithoutAbsentName(builds[1..], name);
      assert builds == [builds[0]] + builds[1..];
    }
  }

  /** Adding a fresh name and then deleting it restores the registry. */
  lemma AddThenDelete(builds: seq<Build>, b: Build)
    requires !HasName(builds, b.name)
    ensures WithoutName(builds + [b], b.name) == builds
  {
    WithoutNameAppend(builds, [b], b.name);
    WithoutAbsentName(builds, b.name);
    assert WithoutName([b], b.name) == [];
  }

  /** Deleting keeps names unique. */
  lemma {:induction false} WithoutNameKeepsUnique(builds: seq<Build>, name: string)
    requires NamesUnique(builds)
    ensures NamesUnique(WithoutName(builds, name))
    decreases |builds|
  {
    if builds != [] {
      var tail := builds[1..];
      assert NamesUnique(tail) by {
        forall i, j | 0 <= i < j < |tail| ensures tail[i].name != tail[j].name {
          assert tail[i] == builds[i + 1] && tail[j] == builds[j + 1];
        }
      }
      WithoutNameKeepsUnique(tail, name);
      var rest := WithoutName(tail, name);
      if builds[0].name != name {
        var r := [builds[0]] + rest;
        forall i, j | 0 <= i < j < |r| ensures r[i].name != r[j].name {
          if i == 0 {
            assert r[j] in tail;
            var m :| 0 <= m < |tail| && tail[m] == r[j];
            assert builds[m + 1] == r[j];
          } else {
            assert r[i] == rest[i - 1] && r[j] == rest[j - 1];
          }
        }
      }
    }
  }

  /** Appending a record whose name is new keeps names unique. */
  lemma AppendFreshKeepsUnique(builds: seq<Build>, b: Build)
    requires NamesUnique(builds)
    requires !HasName(builds, b.name)
    ensures NamesUnique(builds + [b])
  {
    var r := builds + [b];
    forall i, j | 0 <= i < j < |r| ensures r[i].name != r[j].name {
      assert r[i] == builds[i];
    }
  }

  /** Result of `add_build`: the record appended, or the duplicate-name error it raises. */
  datatype AddOutcome = Added(build: Build) | DuplicateName

  /**
   * builds.json (`builds`) and the set of directory names under builds/
   * (`dirs`), each read whole and written whole by the operations below.
   */
  class BuildRegistry {
    var builds: seq<Build>
    var dirs: set<string>

    /** Names are unique and every registered build has its directory. */
    ghost predicate Valid()
      reads this
    {
      NamesUnique(builds) && forall b :: b in builds ==> b.name in dirs
    }

    /**
     * The registry as loaded from disk (`load_builds`, an absent file read as
     * `[]`). `load_builds` accepts whatever the file holds, so `Valid()` is
     * not established here: `Add` and `Delete` keep it once it holds, and a
     * hand-edited file with repeated names stays as it is.
     */
    constructor (builds: seq<Build>, dirs: set<string>)
      ensures this.builds == builds && this.dirs == dirs
    {
      this.builds := builds;
      this.dirs := dirs;
    }

    /**
     * `add_build`: a name already present is refused and nothing changes;
     * otherwise the record goes at the end and its directory is created
     * (creation is idempotent, so an existing directory is fine).
     */
    method Add(name: string, version: string, kind: string) returns (r: AddOutcome)
      modifies this
      ensures HasName(old(builds), name) ==>
                r == DuplicateName && builds == old(builds) && dirs == old(dirs)
      ensures !HasName(old(builds), name) ==>
                && r == Added(Build(name, version, kind))
                && builds == old(builds) + [Build(name, version, kind)]
                && dirs == old(dirs) + {name}
      ensures old(Valid()) ==> Valid()
    {
      if HasName(builds, name) {
        return DuplicateName;
      }
      var b := Build(name, version, kind);
      if NamesUnique(builds) {
        AppendFreshKeepsUnique(builds, b);
      }
      builds := builds + [b];
      dirs := dirs + {name};
      r := Added(b);
    }

    /**
     * `delete_build` for the selected name: an empty selection or a declined
     * confirmation does nothing; otherwise every record with that name is
     * dropped, the rest stay in order, and the directory is removed (a
     * missing directory is not an error).
     */
    method Delete(name: string, confirmed: bool)
      modifies this
      ensures name == [] || !confirmed ==> builds == old(builds) && dirs == old(dirs)
      ensures name != [] && confirmed ==>
                builds == WithoutName(old(builds), name) && dirs == old(dirs) - {name}
      ensures old(Valid()) ==> Valid()
    {
      if name == [] || !confirmed {
        return;
      }
      if NamesUnique(builds) {
        WithoutNameKeepsUnique(builds, name);
      }
      builds := WithoutName(builds, name);
      dirs := dirs - {name};
    }
  }
}
