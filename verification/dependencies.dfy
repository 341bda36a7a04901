/** The local dependency folder: `set_dependencies_folder`,
    `find_dependencies` and `install_local_dependencies`. */
module Dependencies {
  import opened Optional
  import opened Text
  import opened Order
  import opened Host

  /** The artifact kinds searched for, in the order they are searched. */
  const ArtifactExtensions: seq<string> := [".whl", ".tar.gz", ".zip"]

  /** `set_dependencies_folder`: the path is accepted exactly when it exists
      (any kind of entry, not only a directory); a rejected path leaves the
      folder as it was. Returns the answer and the folder afterwards. */
  function SetDependenciesFolder(folder: Option<string>, path: string, fs: FileSystem): (r: (bool, Option<string>))
    ensures r.0 <==> Exists(fs, path)
    ensures r.1 == if r.0 then Some(path) else folder
  {
    if Exists(fs, path) then (true, Some(path)) else (false, folder)
  }

  /** `if not self.dependencies_folder`: no folder, or the empty path. */
  predicate FolderSet(folder: Option<string>) {
    folder.Some? && folder.value != ""
  }

  /** A folder accepted by `SetDependenciesFolder` is a set folder. */
  lemma AcceptedFolderIsSet(folder: Option<string>, path: string, fs: FileSystem)
    requires SetDependenciesFolder(folder, path, fs).0
    ensures FolderSet(SetDependenciesFolder(folder, path, fs).1)
  {
  }

  /** Whether `glob` matches a directory entry `name` against `*<ext>`: the
      name ends with the extension and is not hidden (a leading `*` never
      matches a leading dot). */
  predicate GlobMatches(name: string, ext: string) {
    EndsWith(name, ext) && !StartsWith(name, ".")
  }

  predicate IsArtifact(path: string) {
    EndsWith(path, ".whl") || EndsWith(path, ".tar.gz") || EndsWith(path, ".zip")
  }

  /** Joining names to one folder keeps different names apart. */
  lemma PathJoinInjective(p: Platform, folder: string, a: string, b: string)
    requires PathJoin(p, folder, a) == PathJoin(p, folder, b)
    ensures a == b
  {
    var pre := if folder == "" || IsSeparator(p, folder[|folder| - 1]) then folder else folder + [Separator(p)];
    PathJoinShape(p, folder, a);
    PathJoinShape(p, folder, b);
    assert PathJoin(p, folder, a) == pre + a && PathJoin(p, folder, b) == pre + b;
    assert (pre + a)[|pre|..] == a && (pre + b)[|pre|..] == b;
  }

  /** The names `*<ext>` matches, in directory order. */
  function Matching(names: seq<string>, ext: string): (ms: seq<string>)
    ensures forall n | n in ms :: n in names && GlobMatches(n, ext)
    ensures forall n | n in names && GlobMatches(n, ext) :: n in ms
    decreases |names|
  {
    if |names| == 0 then []
    else
      var rest := Matching(names[1..], ext);
      assert names == [names[0]] + names[1..];
      if GlobMatches(names[0], ext) then [names[0]] + rest else rest
  }

  /** Filtering a duplicate-free listing leaves it duplicate-free. */
  lemma {:induction false} MatchingDistinct(names: seq<string>, ext: string)
    requires Distinct(names)
    ensures Distinct(Matching(names, ext))
    decreases |names|
  {
    if |names| > 0 {
      assert Distinct(names[1..]);
      MatchingDistinct(names[1..], ext);
      var rest := Matching(names[1..], ext);
      forall j | 0 <= j < |names[1..]| ensures names[1..][j] != names[0] {
        assert names[1..][j] == names[j + 1];
      }
    }
  }

  lemma SuffixOfSuffix(s: string, t: string, u: string)
    requires EndsWith(s, t) && EndsWith(t, u)
    ensures EndsWith(s, u)
  {
    assert s[|s| - |u|..] == s[|s| - |t|..][|t| - |u|..];
  }

  /** The directory `glob` splits off the pattern `os.path.join(folder, "*" + ext)`
      with `os.path.split`. Matches are joined to it, not to `folder` as given:
      trailing separators are trimmed and the platform's own one is put back. */
  function GlobDir(p: Platform, folder: string, ext: string): string {
    Dirname(p, PathJoin(p, folder, "*" + ext))
  }

  /** The directory every search of a folder joins its matches to. */
  function SearchDir(p: Platform, folder: string): string {
    GlobDir(p, folder, "")
  }

  /** An extension without separators does not change the directory part. */
  lemma GlobDirSame(p: Platform, folder: string, ext: string)
    requires forall k | 0 <= k < |ext| :: !IsSeparator(p, ext[k])
    ensures GlobDir(p, folder, ext) == SearchDir(p, folder)
  {
    StarNoSeparator(p, ext);
    StarNoSeparator(p, "");
    PatternShape(p, folder, "*" + ext);
    PatternShape(p, folder, "*" + "");
    DirnameAfter(p, Prefix(p, folder), "*" + ext);
    DirnameAfter(p, Prefix(p, folder), "*" + "");
  }

  /** The folder as a join spells it before the name. */
  function Prefix(p: Platform, folder: string): (pre: string)
    ensures pre == "" || IsSeparator(p, pre[|pre| - 1])
  {
    if folder == "" || IsSeparator(p, folder[|folder| - 1]) then folder else folder + [Separator(p)]
  }

  lemma PatternShape(p: Platform, folder: string, name: string)
    ensures PathJoin(p, folder, name) == Prefix(p, folder) + name
  {
    PathJoinShape(p, folder, name);
  }

  lemma StarNoSeparator(p: Platform, ext: string)
    requires forall k | 0 <= k < |ext| :: !IsSeparator(p, ext[k])
    ensures forall k | 0 <= k < |"*" + ext| :: !IsSeparator(p, ("*" + ext)[k])
  {
    forall k | 0 <= k < |"*" + ext| ensures !IsSeparator(p, ("*" + ext)[k]) {
      if k > 0 { assert ("*" + ext)[k] == ext[k - 1]; }
    }
  }

  /** Below a directory ending in a separator, a separator-free name does not
      change what `dirname` gives. */
  lemma DirnameAfter(p: Platform, pre: string, name: string)
    requires pre == "" || IsSeparator(p, pre[|pre| - 1])
    requires forall k | 0 <= k < |name| :: !IsSeparator(p, name[k])
    ensures Dirname(p, pre + name) == DirOfHead(p, pre)
  {
    HeadLengthAfter(p, pre, name);
  }

  /** The three searches all join their matches to the same directory. */
  lemma ArtifactDir(p: Platform, folder: string, k: nat)
    requires k < |ArtifactExtensions|
    ensures GlobDir(p, folder, ArtifactExtensions[k]) == SearchDir(p, folder)
  {
    var ext := ArtifactExtensions[k];
    assert forall i | 0 <= i < |ext| :: ext[i] in ".whltargzip";
    GlobDirSame(p, folder, ext);
  }

  /** A folder with a name in it is searched under its own spelling, with any
      trailing separators trimmed. */
  lemma {:induction false} SearchDirTrims(p: Platform, folder: string)
    requires exists k | 0 <= k < |folder| :: !IsSeparator(p, folder[k])
    ensures SearchDir(p, folder) == TrimSeparators(p, folder)
  {
    PathJoinShape(p, folder, "*");
    if IsSeparator(p, folder[|folder| - 1]) {
      HeadLengthAfter(p, folder, "*");
      assert PathJoin(p, folder, "*" + "") == folder + "*";
    } else {
      var pre := folder + [Separator(p)];
      assert PathJoin(p, folder, "*" + "") == pre + "*";
      HeadLengthAfter(p, pre, "*");
      assert pre[..|pre| - 1] == folder;
      var j :| 0 <= j < |folder| && !IsSeparator(p, folder[j]);
      assert pre[j] == folder[j];
    }
  }

  /** A doubled separator after the folder does not reach the artifact's path:
      the search directory is trimmed to `deps`. */
  lemma DoubledSeparatorTrimmed()
    ensures SearchDir(Unix, "deps//") == "deps"
    ensures GlobExtension(Unix, "deps//", ["x.whl"], ".whl") == ["deps/x.whl"]
  {
    var folder := "deps//";
    assert !IsSeparator(Unix, folder[0]);
    SearchDirTrims(Unix, folder);
    TrimExample();
    ArtifactDir(Unix, folder, 0);
    assert GlobDir(Unix, folder, ".whl") == "deps";
    var g := GlobExtension(Unix, folder, ["x.whl"], ".whl");
    assert "x.whl"[0] == 'x' && "x.whl"[1..] == ".whl";
    assert GlobMatches("x.whl", ".whl");
    assert Matching(["x.whl"], ".whl") == ["x.whl"] by {
      assert ["x.whl"][1..] == [];
    }
    assert PathJoin(Unix, "deps", "x.whl") == "deps/x.whl";
  }

  lemma TrimExample()
    ensures TrimSeparators(Unix, "deps//") == "deps"
  {
    assert "deps//"[..5] == "deps/";
    assert "deps/"[..4] == "deps";
    assert TrimSeparators(Unix, "deps") == "deps";
  }

  /** `glob.glob(os.path.join(folder, "*" + ext))`: the matching names, joined
      to the directory part of the pattern, in directory order. */
  function GlobExtension(p: Platform, folder: string, names: seq<string>, ext: string): (r: seq<string>)
    ensures forall i | 0 <= i < |r| :: EndsWith(r[i], ext)
    // every match comes from a matching name ...
    ensures forall i | 0 <= i < |r| :: exists n | n in names && GlobMatches(n, ext) :: r[i] == PathJoin(p, GlobDir(p, folder, ext), n)
    // ... and every matching name is matched
    ensures forall n | n in names && GlobMatches(n, ext) :: PathJoin(p, GlobDir(p, folder, ext), n) in r
    // a directory lists each name once, and then each match is found once
    ensures Distinct(names) ==> Distinct(r)
  {
    var dir := GlobDir(p, folder, ext);
    var ms := Matching(names, ext);
    var r := seq(|ms|, i requires 0 <= i < |ms| => PathJoin(p, dir, ms[i]));
    forall i | 0 <= i < |r|
      ensures EndsWith(r[i], ext)
      ensures exists n | n in names && GlobMatches(n, ext) :: r[i] == PathJoin(p, dir, n)
    {
      assert ms[i] in names && GlobMatches(ms[i], ext);
      SuffixOfSuffix(r[i], ms[i], ext);
    }
    assert forall n | n in names && GlobMatches(n, ext) :: PathJoin(p, dir, n) in r by {
      forall n | n in names && GlobMatches(n, ext) ensures PathJoin(p, dir, n) in r {
        var i :| 0 <= i < |ms| && ms[i] == n;
        assert r[i] == PathJoin(p, dir, n);
      }
    }
    assert Distinct(names) ==> Distinct(r) by {
      if Distinct(names) {
        MatchingDistinct(names, ext);
        forall i, j | 0 <= i < j < |r| ensures r[i] != r[j] {
          if r[i] == r[j] {
            PathJoinInjective(p, dir, ms[i], ms[j]);
          }
        }
      }
    }
    r
  }

  /** Position of a path's extension in `ArtifactExtensions`. */
  function ExtensionRank(path: string): nat {
    if EndsWith(path, ".whl") then 0 else if EndsWith(path, ".tar.gz") then 1 else 2
  }

  /** A path ending in the `k`-th extension is an artifact of rank `k`. */
  lemma RankOfExtension(path: string, k: nat)
    requires k < |ArtifactExtensions| && EndsWith(path, ArtifactExtensions[k])
    ensures IsArtifact(path) && ExtensionRank(path) == k
  {
    if k == 1 {
      assert path[|path| - 1] == 'z';
    } else if k == 2 {
      assert path[|path| - 1] == 'p';
    }
  }

  /** A directory entry one of the three searches matches. */
  predicate ArtifactName(n: string) {
    GlobMatches(n, ".whl") || GlobMatches(n, ".tar.gz") || GlobMatches(n, ".zip")
  }

  /** `x` is the folder joined with an entry some search matches. */
  ghost predicate FromListing(p: Platform, folder: string, names: seq<string>, x: string) {
    exists n | n in names && ArtifactName(n) :: x == PathJoin(p, SearchDir(p, folder), n)
  }

  lemma MatchedName(n: string, k: nat)
    requires k < |ArtifactExtensions| && GlobMatches(n, ArtifactExtensions[k])
    ensures ArtifactName(n)
  {
    if k == 0 {
      assert GlobMatches(n, ".whl");
    } else if k == 1 {
      assert GlobMatches(n, ".tar.gz");
    } else {
      assert GlobMatches(n, ".zip");
    }
  }

  /** What one extension's search contributes: artifacts of that rank ... */
  lemma GroupRanks(p: Platform, folder: string, names: seq<string>, k: nat)
    requires k < |ArtifactExtensions|
    ensures var g := GlobExtension(p, folder, names, ArtifactExtensions[k]);
            forall x | x in g :: IsArtifact(x) && ExtensionRank(x) == k
  {
    var g := GlobExtension(p, folder, names, ArtifactExtensions[k]);
    forall x | x in g ensures IsArtifact(x) && ExtensionRank(x) == k {
      var i :| 0 <= i < |g| && g[i] == x;
      RankOfExtension(x, k);
    }
  }

  /** ... each one a listed entry joined to the folder. */
  lemma GroupListed(p: Platform, folder: string, names: seq<string>, k: nat)
    requires k < |ArtifactExtensions|
    ensures var g := GlobExtension(p, folder, names, ArtifactExtensions[k]);
            forall x | x in g :: FromListing(p, folder, names, x)
  {
    var g := GlobExtension(p, folder, names, ArtifactExtensions[k]);
    forall x | x in g ensures FromListing(p, folder, names, x) {
      var i :| 0 <= i < |g| && g[i] == x;
      ArtifactDir(p, folder, k);
      var n :| n in names && GlobMatches(n, ArtifactExtensions[k]) && x == PathJoin(p, SearchDir(p, folder), n);
      MatchedName(n, k);
    }
  }

  /** Three duplicate-free groups of different ranks make a duplicate-free list. */
  lemma GroupsDistinct(a: seq<string>, b: seq<string>, c: seq<string>)
    requires Distinct(a) && Distinct(b) && Distinct(c)
    requires forall x | x in a :: ExtensionRank(x) == 0
    requires forall x | x in b :: ExtensionRank(x) == 1
    requires forall x | x in c :: ExtensionRank(x) == 2
    ensures Distinct(a + b + c)
  {
    var r := a + b + c;
    forall i, j | 0 <= i < j < |r| ensures r[i] != r[j] {
      if i < |a| && j < |a| {
        assert r[i] == a[i] && r[j] == a[j];
      } else if |a| <= i && j < |a| + |b| {
        assert r[i] == b[i - |a|] && r[j] == b[j - |a|];
      } else if |a| + |b| <= i {
        assert r[i] == c[i - |a| - |b|] && r[j] == c[j - |a| - |b|];
      } else {
        assert r[i] in a + b + c && r[j] in a + b + c;
        assert (r[i] in a && i < |a|) || (r[i] in b && i < |a| + |b|) by {
          if i < |a| { assert r[i] == a[i]; } else { assert r[i] == b[i - |a|]; }
        }
        assert (r[j] in b && |a| <= j < |a| + |b|) || (r[j] in c && |a| + |b| <= j) by {
          if j < |a| + |b| { assert r[j] == b[j - |a|]; } else { assert r[j] == c[j - |a| - |b|]; }
        }
      }
    }
  }

  /** The three searches, one after the other. */
  function Searches(p: Platform, folder: string, names: seq<string>): seq<seq<string>> {
    [GlobExtension(p, folder, names, ArtifactExtensions[0]),
     GlobExtension(p, folder, names, ArtifactExtensions[1]),
     GlobExtension(p, folder, names, ArtifactExtensions[2])]
  }

  lemma GroupedSound(p: Platform, folder: string, names: seq<string>)
    ensures var s := Searches(p, folder, names);
            var r := s[0] + s[1] + s[2];
            forall x | x in r :: IsArtifact(x) && FromListing(p, folder, names, x)
  {
    var s := Searches(p, folder, names);
    GroupRanks(p, folder, names, 0);
    GroupRanks(p, folder, names, 1);
    GroupRanks(p, folder, names, 2);
    GroupListed(p, folder, names, 0);
    GroupListed(p, folder, names, 1);
    GroupListed(p, folder, names, 2);
  }

  lemma GroupedOrdered(p: Platform, folder: string, names: seq<string>)
    ensures var s := Searches(p, folder, names);
            var r := s[0] + s[1] + s[2];
            forall i, j | 0 <= i < j < |r| :: ExtensionRank(r[i]) <= ExtensionRank(r[j])
  {
    var s := Searches(p, folder, names);
    GroupRanks(p, folder, names, 0);
    GroupRanks(p, folder, names, 1);
    GroupRanks(p, folder, names, 2);
    RankedConcat(s[0], s[1], s[2]);
  }

  /** Three groups of ranks 0, 1 and 2, one after the other, are ordered by rank. */
  lemma RankedConcat(a: seq<string>, b: seq<string>, c: seq<string>)
    requires forall x | x in a :: ExtensionRank(x) == 0
    requires forall x | x in b :: ExtensionRank(x) == 1
    requires forall x | x in c :: ExtensionRank(x) == 2
    ensures var r := a + b + c;
            forall i, j | 0 <= i < j < |r| :: ExtensionRank(r[i]) <= ExtensionRank(r[j])
  {
    var r := a + b + c;
    forall i, j | 0 <= i < j < |r| ensures ExtensionRank(r[i]) <= ExtensionRank(r[j]) {
      if i < |a| {
        assert r[i] == a[i];
      } else if j >= |a| + |b| {
        assert r[j] == c[j - |a| - |b|];
      } else {
        assert r[i] == b[i - |a|] && r[j] == b[j - |a|];
      }
    }
  }

  lemma GroupedComplete(p: Platform, folder: string, names: seq<string>)
    ensures var s := Searches(p, folder, names);
            forall n | n in names && ArtifactName(n) :: PathJoin(p, SearchDir(p, folder), n) in s[0] + s[1] + s[2]
  {
    var s := Searches(p, folder, names);
    var dir := SearchDir(p, folder);
    ArtifactDir(p, folder, 0);
    ArtifactDir(p, folder, 1);
    ArtifactDir(p, folder, 2);
    forall n | n in names && ArtifactName(n) ensures PathJoin(p, dir, n) in s[0] + s[1] + s[2] {
      if GlobMatches(n, ".whl") {
        assert PathJoin(p, dir, n) in s[0];
      } else if GlobMatches(n, ".tar.gz") {
        assert PathJoin(p, dir, n) in s[1];
      } else {
        assert PathJoin(p, dir, n) in s[2];
      }
    }
  }

  lemma GroupedDistinct(p: Platform, folder: string, names: seq<string>)
    ensures var s := Searches(p, folder, names);
            Distinct(names) ==> Distinct(s[0] + s[1] + s[2])
  {
    if Distinct(names) {
      var s := Searches(p, folder, names);
      GroupRanks(p, folder, names, 0);
      GroupRanks(p, folder, names, 1);
      GroupRanks(p, folder, names, 2);
      GroupsDistinct(s[0], s[1], s[2]);
    }
  }

  /** The matches of the three extensions, one extension after the other. */
  function Grouped(p: Platform, folder: string, names: seq<string>): (r: seq<string>)
    ensures forall i, j | 0 <= i < j < |r| :: ExtensionRank(r[i]) <= ExtensionRank(r[j])
    // every element is an artifact: a listed entry that a search matches, joined to the folder ...
    ensures forall x | x in r :: IsArtifact(x) && FromListing(p, folder, names, x)
    // ... every such entry is there ...
    ensures forall n | n in names && ArtifactName(n) :: PathJoin(p, SearchDir(p, folder), n) in r
    // ... and, the listing being duplicate-free, only once
    ensures Distinct(names) ==> Distinct(r)
  {
    var s := Searches(p, folder, names);
    GroupedSound(p, folder, names);
    GroupedOrdered(p, folder, names);
    GroupedComplete(p, folder, names);
    GroupedDistinct(p, folder, names);
    s[0] + s[1] + s[2]
  }

  /** `find_dependencies`. Nothing without a folder. Otherwise every
      artifact-named entry of the folder: in `src/venv_creator.py` sorted as
      strings, in `create_venv.py` grouped by extension (`.whl`, then
      `.tar.gz`, then `.zip`) in directory order. */
  function FindDependencies(m: Machine, folder: Option<string>, rev: Revision): (r: seq<string>)
    ensures !FolderSet(folder) ==> r == []
    ensures forall x | x in r :: IsArtifact(x)
    ensures FolderSet(folder) ==> forall x | x in r :: FromListing(m.platform, folder.value, m.listing(folder.value), x)
    ensures FolderSet(folder) ==> forall n | n in m.listing(folder.value) && ArtifactName(n) :: PathJoin(m.platform, SearchDir(m.platform, folder.value), n) in r
    ensures FolderSet(folder) && Distinct(m.listing(folder.value)) ==> Distinct(r)
    ensures rev == Current ==> SortedBy(r, Codes)
    ensures rev == Legacy ==> forall i, j | 0 <= i < j < |r| :: ExtensionRank(r[i]) <= ExtensionRank(r[j])
  {
    if !FolderSet(folder) then []
    else
      var g := Grouped(m.platform, folder.value, m.listing(folder.value));
      if rev == Current then
        var r := SortBy(g, Codes);
        SameMembers(r, g);
        assert Distinct(m.listing(folder.value)) ==> Distinct(r) by {
          if Distinct(m.listing(folder.value)) {
            SortDistinct(g, Codes);
          }
        }
        r
      else g
  }

  /** The two copies find the same artifacts; the current one sorts them. */
  lemma DependencyRevisions(m: Machine, folder: Option<string>)
    ensures FindDependencies(m, folder, Current) == SortBy(FindDependencies(m, folder, Legacy), Codes)
    ensures multiset(FindDependencies(m, folder, Current)) == multiset(FindDependencies(m, folder, Legacy))
  {
  }

  // ---------------------------------------------------------------------
  // Installation

  /** The outcome of a local installation and the installer runs it made. */
  datatype LocalRun = LocalRun(result: StepResult, calls: seq<Command>)

  /** The `for dep in dependencies` loop under `check=True`: artifacts are
      installed in list order and the first non-zero exit status ends the step. */
  function InstallArtifacts(pip: string, deps: seq<string>, exitCode: Command -> int): (r: LocalRun)
    ensures r.result == Succeeded || (r.result.Failed? && r.result.failure.InstallerExit?)
    ensures |r.calls| <= |deps|
    ensures forall i | 0 <= i < |r.calls| :: r.calls[i] == InstallArtifact(pip, deps[i])
    ensures forall i | 0 <= i < |r.calls| - 1 :: exitCode(r.calls[i]) == 0
    ensures r.result == Succeeded <==> |r.calls| == |deps| && forall i | 0 <= i < |deps| :: exitCode(InstallArtifact(pip, deps[i])) == 0
    ensures r.result.Failed? ==>
              && |r.calls| > 0
              && var last := r.calls[|r.calls| - 1];
              && exitCode(last) != 0
              && r.result.failure == InstallerExit(last.artifact, exitCode(last))
  {
    if |deps| == 0 then LocalRun(Succeeded, [])
    else
      var cmd := InstallArtifact(pip, deps[0]);
      if exitCode(cmd) != 0 then LocalRun(Failed(InstallerExit(deps[0], exitCode(cmd))), [cmd])
      else
        var rest := InstallArtifacts(pip, deps[1..], exitCode);
        var r := LocalRun(rest.result, [cmd] + rest.calls);
        assert forall i | 1 <= i < |deps| :: deps[1..][i - 1] == deps[i];
        assert forall i | 1 <= i < |r.calls| :: r.calls[i] == rest.calls[i - 1];
        r
  }

  /** `install_local_dependencies`: skipped without a folder, failed without
      an installer run when the folder holds no artifact, and otherwise the
      artifacts installed in `find_dependencies` order with the environment's pip. */
  function InstallLocal(m: Machine, folder: Option<string>, env: string, rev: Revision): (r: LocalRun)
    ensures r.result == Skipped <==> !FolderSet(folder)
    ensures r.result == Failed(NoArtifacts) <==> FolderSet(folder) && FindDependencies(m, folder, rev) == []
    ensures r.result == Skipped || r.result == Failed(NoArtifacts) ==> r.calls == []
    ensures FolderSet(folder) && FindDependencies(m, folder, rev) != [] ==>
              r == InstallArtifacts(PipPath(m.platform, env), FindDependencies(m, folder, rev), m.exitCode)
  {
    if !FolderSet(folder) then LocalRun(Skipped, [])
    else
      var deps := FindDependencies(m, folder, rev);
      if deps == [] then LocalRun(Failed(NoArtifacts), [])
      else InstallArtifacts(PipPath(m.platform, env), deps, m.exitCode)
  }

  /** What `InstallArtifacts` promises determines its outcome: any run that
      makes the calls in order, stops exactly at the first non-zero exit
      status and reports it, is the one `InstallArtifacts` describes. */
  lemma InstallArtifactsUnique(pip: string, deps: seq<string>, exitCode: Command -> int, r: LocalRun)
    requires r.result == Succeeded || (r.result.Failed? && r.result.failure.InstallerExit?)
    requires |r.calls| <= |deps|
    requires forall i | 0 <= i < |r.calls| :: r.calls[i] == InstallArtifact(pip, deps[i])
    requires forall i | 0 <= i < |r.calls| - 1 :: exitCode(r.calls[i]) == 0
    requires r.result == Succeeded <==> |r.calls| == |deps| && forall i | 0 <= i < |deps| :: exitCode(InstallArtifact(pip, deps[i])) == 0
    requires r.result.Failed? ==>
               && |r.calls| > 0
               && var last := r.calls[|r.calls| - 1];
               && exitCode(last) != 0
               && r.result.failure == InstallerExit(last.artifact, exitCode(last))
    ensures r == InstallArtifacts(pip, deps, exitCode)
  {
    var f := InstallArtifacts(pip, deps, exitCode);
    if r.result == Succeeded {
      assert f.result == Succeeded;
    } else {
      assert f.result != Succeeded;
    }
    assert r.calls == f.calls;
  }

  /** The installation loop as the source writes it: one installer call per
      artifact, in order, stopping at the first non-zero exit status. */
  method InstallEach(pip: string, deps: seq<string>, exitCode: Command -> int)
    returns (result: StepResult, calls: seq<Command>)
    ensures LocalRun(result, calls) == InstallArtifacts(pip, deps, exitCode)
    ensures |calls| <= |deps|
    ensures forall i | 0 <= i < |calls| :: calls[i] == InstallArtifact(pip, deps[i])
    ensures result == Succeeded <==> |calls| == |deps| && forall i | 0 <= i < |calls| :: exitCode(calls[i]) == 0
  {
    calls := [];
    var i := 0;
    while i < |deps|
      invariant 0 <= i <= |deps| && |calls| == i
      invariant forall j | 0 <= j < i :: calls[j] == InstallArtifact(pip, deps[j]) && exitCode(calls[j]) == 0
    {
      var cmd := InstallArtifact(pip, deps[i]);
      calls := calls + [cmd];
      if exitCode(cmd) != 0 {
        result := Failed(InstallerExit(deps[i], exitCode(cmd)));
        InstallArtifactsUnique(pip, deps, exitCode, LocalRun(result, calls));
        return;
      }
      i := i + 1;
    }
    result := Succeeded;
    InstallArtifactsUnique(pip, deps, exitCode, LocalRun(result, calls));
  }

  /** `install_local_dependencies` written as the source's statements. */
  method InstallLocalDependencies(m: Machine, folder: Option<string>, env: string, rev: Revision)
    returns (result: StepResult, calls: seq<Command>)
    ensures LocalRun(result, calls) == InstallLocal(m, folder, env, rev)
    ensures result == Skipped <==> !FolderSet(folder)
    ensures result == Failed(NoArtifacts) <==> FolderSet(folder) && FindDependencies(m, folder, rev) == []
  {
    if !FolderSet(folder) {
      return Skipped, [];
    }
    var deps := FindDependencies(m, folder, rev);
    if |deps| == 0 {
      return Failed(NoArtifacts), [];
    }
    result, calls := InstallEach(PipPath(m.platform, env), deps, m.exitCode);
  }
}
