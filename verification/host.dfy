/** The machine the environment creator runs on, reduced to what its logic
    observes: the platform, a snapshot of the file system, and the answers of
    the external commands it starts. Everything outside the program is an
    input here, so every operation of the model is a pure function. */
module Host {
  import opened Optional
  import opened Text
  import opened Version

  /** `platform.system().lower()` is compared with "windows" only: every other
      system, Linux and macOS included, takes the Unix branch. */
  datatype Platform = Windows | Unix

  function PlatformOf(osType: string): Platform {
    if osType == "windows" then Windows else Unix
  }

  /** Path separators `os.path` accepts on the platform, and the one it writes. */
  predicate IsSeparator(p: Platform, c: char) {
    c == '/' || (p == Windows && c == '\\')
  }

  function Separator(p: Platform): char {
    if p == Windows then '\\' else '/'
  }

  /** `os.path.join(a, b)` for a relative `b`: a separator is inserted unless
      `a` is empty or already ends with one. */
  function PathJoin(p: Platform, a: string, b: string): (r: string)
    ensures StartsWith(r, a) && EndsWith(r, b)
    ensures |r| <= |a| + |b| + 1
  {
    if a == "" || IsSeparator(p, a[|a| - 1]) then a + b else a + [Separator(p)] + b
  }

  /** The exact spelling of a join: nothing is inserted after an empty
      directory or one that already ends in a separator, and otherwise exactly
      the platform's own separator. */
  lemma PathJoinShape(p: Platform, a: string, b: string)
    ensures a == "" || IsSeparator(p, a[|a| - 1]) ==> PathJoin(p, a, b) == a + b
    ensures a != "" && !IsSeparator(p, a[|a| - 1]) ==>
              PathJoin(p, a, b) == a + [Separator(p)] + b && IsSeparator(p, PathJoin(p, a, b)[|a|])
  {
  }

  /** `os.path.dirname(path)`: everything before the last separator, with the
      separators that end it removed unless it consists of separators only. */
  function Dirname(p: Platform, path: string): (r: string)
    // empty exactly when the path has no separator at all
    ensures r == "" <==> forall k | 0 <= k < |path| :: !IsSeparator(p, path[k])
    // a prefix of the head, and only separators were cut from the head
    ensures var h := HeadLength(p, path);
            && |r| <= h && r == path[..|r|]
            && forall k | |r| <= k < h :: IsSeparator(p, path[k])
    // the trailing separators are gone, unless there is nothing else
    ensures r == "" || !IsSeparator(p, r[|r| - 1]) || forall k | 0 <= k < |r| :: IsSeparator(p, r[k])
    // a head made of separators only is kept whole
    ensures (forall k | 0 <= k < HeadLength(p, path) :: IsSeparator(p, path[k])) ==> r == path[..HeadLength(p, path)]
  {
    DirOfHead(p, path[..HeadLength(p, path)])
  }

  /** The directory named by a head: its trailing separators removed, unless it
      consists of separators only. */
  function DirOfHead(p: Platform, head: string): (r: string)
    ensures head != "" && (exists k | 0 <= k < |head| :: !IsSeparator(p, head[k])) ==> r == TrimSeparators(p, head) && r != ""
    ensures head == "" || (forall k | 0 <= k < |head| :: IsSeparator(p, head[k])) ==> r == head
  {
    if head != "" && exists k | 0 <= k < |head| :: !IsSeparator(p, head[k]) then
      var j :| 0 <= j < |head| && !IsSeparator(p, head[j]);
      var r := TrimSeparators(p, head);
      assert |r| > j;
      r
    else head
  }

  /** Length of `path` up to and including its last separator (0 if none). */
  function HeadLength(p: Platform, path: string): (n: nat)
    ensures n <= |path|
    ensures n == 0 || IsSeparator(p, path[n - 1])
    ensures forall k | n <= k < |path| :: !IsSeparator(p, path[k])
  {
    if path == "" then 0
    else if IsSeparator(p, path[|path| - 1]) then |path|
    else
      var n := HeadLength(p, path[..|path| - 1]);
      assert forall k | n <= k < |path| - 1 :: path[..|path| - 1][k] == path[k];
      n
  }

  /** A directory that is empty or ends in a separator, followed by a name
      without separators, has its head exactly up to that directory's end. */
  lemma HeadLengthAfter(p: Platform, dir: string, name: string)
    requires dir == "" || IsSeparator(p, dir[|dir| - 1])
    requires forall k | 0 <= k < |name| :: !IsSeparator(p, name[k])
    ensures HeadLength(p, dir + name) == |dir|
    ensures (dir + name)[..|dir|] == dir
  {
    var s := dir + name;
    var n := HeadLength(p, s);
    if dir != "" {
      assert s[|dir| - 1] == dir[|dir| - 1];
    }
    assert forall k | |dir| <= k < |s| :: s[k] == name[k - |dir|];
  }

  /** `s.rstrip(separators)`. */
  function TrimSeparators(p: Platform, s: string): (r: string)
    ensures |r| <= |s| && r == s[..|r|]
    ensures forall k | |r| <= k < |s| :: IsSeparator(p, s[k])
    ensures r == "" || !IsSeparator(p, r[|r| - 1])
  {
    if s != "" && IsSeparator(p, s[|s| - 1]) then
      var r := TrimSeparators(p, s[..|s| - 1]);
      assert s[..|s| - 1][..|r|] == s[..|r|];
      assert forall k | |r| <= k < |s| - 1 :: s[..|s| - 1][k] == s[k];
      r
    else s
  }

  /** `_get_pip_path`: `<env>/Scripts/pip.exe` on Windows, `<env>/bin/pip` elsewhere. */
  function PipPath(p: Platform, env: string): string {
    PathJoin(p, PathJoin(p, env, if p == Windows then "Scripts" else "bin"), if p == Windows then "pip.exe" else "pip")
  }

  /** Spelled out for an environment path that does not end in a separator:
      the Windows layout is chosen exactly when the system name is "windows". */
  lemma PipPathLayout(osType: string, env: string)
    requires env != "" && !IsSeparator(PlatformOf(osType), env[|env| - 1])
    ensures osType == "windows" ==> PipPath(PlatformOf(osType), env) == env + "\\Scripts\\pip.exe"
    ensures osType != "windows" ==> PipPath(PlatformOf(osType), env) == env + "/bin/pip"
  {
    var p := PlatformOf(osType);
    if p == Windows {
      assert PathJoin(p, env, "Scripts") == env + "\\Scripts";
      assert (env + "\\Scripts")[|env + "\\Scripts"| - 1] == 's';
      assert env + "\\Scripts" + "\\" + "pip.exe" == env + "\\Scripts\\pip.exe";
    } else {
      assert PathJoin(p, env, "bin") == env + "/bin";
      assert (env + "/bin")[|env + "/bin"| - 1] == 'n';
      assert env + "/bin" + "/" + "pip" == env + "/bin/pip";
    }
  }

  /** What `os.path` reports about an existing path. `isFile` follows links
      (`os.path.isfile`); `isLink` is about the path itself (`os.path.islink`). */
  datatype Entry = Entry(isFile: bool, isLink: bool, size: nat, lines: seq<string>)

  /** The paths that exist, with what is known of each. */
  type FileSystem = map<string, Entry>

  /** `os.path.exists`: the empty path never exists. */
  predicate Exists(fs: FileSystem, path: string) {
    path != "" && path in fs
  }

  predicate IsRegularNonLink(fs: FileSystem, path: string) {
    Exists(fs, path) && fs[path].isFile && !fs[path].isLink
  }

  /** The external commands the program starts and whose exit status it reads. */
  datatype Command =
    | CreateEnvironment(python: string, target: string)           // <python> -m venv <target>
    | InstallArtifact(pip: string, artifact: string)             // <pip> install <artifact>
    | InstallManifest(pip: string, manifest: string, contents: seq<string>)  // <pip> install -r <manifest>

  /** The machine as the program sees it. The function fields answer the
      questions the program puts to the outside world:
      - `glob`: the matches of a search pattern, in the order `glob.glob` yields them;
      - `listing`: the names directly inside a directory, in directory order;
      - `version`: what `<python> --version` produced;
      - `exitCode`: the exit status of a command;
      - `absolute`: `os.path.abspath(os.path.join(root, relative))`. */
  datatype Machine = Machine(
    platform: Platform,
    username: Option<string>,
    fs: FileSystem,
    glob: string -> seq<string>,
    listing: string -> seq<string>,
    version: string -> VersionReply,
    exitCode: Command -> int,
    absolute: (string, string) -> string)

  /** The three-way outcome of an optional step (`None`, `True`, `False` in the source). */
  datatype StepResult = Skipped | Succeeded | Failed(failure: Failure)

  /** Why a step failed; the source prints this and returns `False`. */
  datatype Failure =
    | NoArtifacts                                 // the folder holds no artifact
    | InstallerExit(target: string, code: int)    // pip exited non-zero
    | InvalidReferences(problems: seq<Problem>)   // manifest references missing or empty files
    | Unreadable(path: string)                    // the manifest cannot be opened as a file

  /** A manifest reference that cannot be installed, by its line in the manifest. */
  datatype Problem = Missing(reference: string) | EmptyFile(reference: string)

  /** Which of the two copies of the program is modelled: `Current` is
      `src/venv_creator.py`, `Legacy` the older top-level `create_venv.py`. */
  datatype Revision = Current | Legacy
}
