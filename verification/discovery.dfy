/** Finding interpreter installations: `find_python_installations` with its
    Windows branch (`_find_windows_python`, version ranking) and its Unix
    branch (`_find_linux_python`, regular-file filter). */
module Discovery {
  import opened Optional
  import opened Text
  import opened Order
  import opened Version
  import opened Host

  /** An f-string renders a missing user name (`None`) as the text "None". */
  function UserSegment(user: Option<string>): string {
    match user
    case Some(name) => name
    case None => "None"
  }

  /** The per-user directory first, then the two machine-wide program directories. */
  function WindowsPatterns(user: Option<string>): seq<string> {
    [ "C:\\Users\\" + UserSegment(user) + "\\AppData\\Local\\Programs\\Python\\Python*\\python.exe",
      "C:\\Program Files\\Python*\\python.exe",
      "C:\\Program Files (x86)\\Python*\\python.exe" ]
  }

  function UnixPatterns(user: Option<string>): seq<string> {
    [ "/usr/bin/python3*",
      "/usr/local/bin/python3*",
      "/home/" + UserSegment(user) + "/.local/bin/python3*" ]
  }

  /** The matches of each pattern in turn, duplicates and all. */
  function Matches(glob: string -> seq<string>, patterns: seq<string>): (r: seq<string>)
    ensures forall p :: p in r <==> exists i | 0 <= i < |patterns| :: p in glob(patterns[i])
  {
    if |patterns| == 0 then []
    else
      var rest := Matches(glob, patterns[1..]);
      assert forall i | 1 <= i < |patterns| :: patterns[1..][i - 1] == patterns[i];
      glob(patterns[0]) + rest
  }

  // ---------------------------------------------------------------------
  // Windows: rank by reported version

  /** The version an installation reports, if its report parses. */
  function VersionOf(m: Machine, path: string): Option<seq<nat>> {
    ParseVersion(VersionText(m.version(path)))
  }

  /** The sort key of a path whose report parses. */
  function RankOf(m: Machine, path: string): seq<nat> {
    match VersionOf(m, path)
    case Some(v) => v
    case None => []
  }

  /** `RankOf` as a sort key. */
  function Ranker(m: Machine): string -> seq<nat> {
    p => RankOf(m, p)
  }

  /** The entry `(path, version, version_tuple)` the source collects. */
  datatype Candidate = Candidate(path: string, reported: string, version: seq<nat>)

  function CandidateVersion(c: Candidate): seq<nat> {
    c.version
  }

  function CandidatePath(c: Candidate): string {
    c.path
  }

  /** What querying one path yields: the candidate entry when its report
      parses, nothing when `int()` raises. */
  function Probe(m: Machine): string -> Option<Candidate> {
    p => if VersionOf(m, p).Some? then Some(Candidate(p, VersionText(m.version(p)), RankOf(m, p))) else None
  }

  /** Probes every path in order and keeps the entries that came back; the
      others are skipped, as by the `except ValueError: continue`. */
  function Collect(paths: seq<string>, probe: string -> Option<Candidate>): seq<Candidate> {
    if |paths| == 0 then []
    else
      var rest := Collect(paths[1..], probe);
      match probe(paths[0])
      case Some(c) => [c] + rest
      case None => rest
  }

  /** Every collected entry is what probing its own path gave. */
  lemma {:induction false} CollectProbed(paths: seq<string>, probe: string -> Option<Candidate>)
    requires forall p :: probe(p).Some? ==> probe(p).value.path == p
    ensures forall c | c in Collect(paths, probe) :: probe(c.path) == Some(c)
    decreases |paths|
  {
    if |paths| > 0 {
      CollectProbed(paths[1..], probe);
      var rest := Collect(paths[1..], probe);
      var cs := Collect(paths, probe);
      if probe(paths[0]).Some? {
        var c := probe(paths[0]).value;
        assert c.path == paths[0];
        assert cs == [c] + rest;
        assert probe(c.path) == Some(c);
      } else {
        assert cs == rest;
      }
    }
  }

  lemma {:induction false} CollectAppend(a: seq<string>, b: seq<string>, probe: string -> Option<Candidate>)
    ensures Collect(a + b, probe) == Collect(a, probe) + Collect(b, probe)
    decreases |a|
  {
    if |a| > 0 {
      assert (a + b)[1..] == a[1..] + b;
      assert (a + b)[0] == a[0];
      CollectAppend(a[1..], b, probe);
    } else {
      assert a + b == b;
    }
  }

  /** Queries every path in order and keeps those whose report parses. */
  function Candidates(m: Machine, paths: seq<string>): seq<Candidate> {
    Collect(paths, Probe(m))
  }

  /** Every collected candidate carries the parsed version of its own path. */
  lemma CandidatesRanked(m: Machine, paths: seq<string>)
    ensures var cs := Candidates(m, paths);
            forall i | 0 <= i < |cs| :: cs[i].version == RankOf(m, cs[i].path)
  {
    var cs := Candidates(m, paths);
    CollectProbed(paths, Probe(m));
    forall i | 0 <= i < |cs| ensures cs[i].version == RankOf(m, cs[i].path) {
      assert cs[i] in cs;
      ProbeRanked(m, cs[i]);
    }
  }

  lemma ProbeRanked(m: Machine, c: Candidate)
    requires Probe(m)(c.path) == Some(c)
    ensures c.version == RankOf(m, c.path)
  {
  }

  lemma CandidatesAppend(m: Machine, a: seq<string>, b: seq<string>)
    ensures Candidates(m, a + b) == Candidates(m, a) + Candidates(m, b)
  {
    CollectAppend(a, b, Probe(m));
  }

  /** The paths whose probe comes back, in their original order. */
  function Probed(paths: seq<string>, probe: string -> Option<Candidate>): (r: seq<string>)
    ensures forall p :: p in r <==> p in paths && probe(p).Some?
  {
    if |paths| == 0 then []
    else
      var rest := Probed(paths[1..], probe);
      assert forall p :: p in paths <==> p == paths[0] || p in paths[1..];
      if probe(paths[0]).Some? then [paths[0]] + rest else rest
  }

  /** Collecting and then taking the paths keeps exactly the probed paths, in order. */
  lemma {:induction false} CollectPaths(paths: seq<string>, probe: string -> Option<Candidate>)
    requires forall p :: probe(p).Some? ==> probe(p).value.path == p
    ensures MapSeq(Collect(paths, probe), CandidatePath) == Probed(paths, probe)
    decreases |paths|
  {
    if |paths| > 0 {
      CollectPaths(paths[1..], probe);
      var rest := Collect(paths[1..], probe);
      if probe(paths[0]).Some? {
        MapCons(probe(paths[0]).value, rest, CandidatePath);
      }
    }
  }

  /** The paths whose report parses, in their original order. */
  function Parseable(m: Machine, paths: seq<string>): (r: seq<string>)
    ensures forall p :: p in r <==> p in paths && VersionOf(m, p).Some?
  {
    Probed(paths, Probe(m))
  }

  lemma CandidatePathsAreParseable(m: Machine, paths: seq<string>)
    ensures MapSeq(Candidates(m, paths), CandidatePath) == Parseable(m, paths)
  {
    CollectPaths(paths, Probe(m));
  }

  lemma MapCons<T, U>(x: T, s: seq<T>, f: T -> U)
    ensures MapSeq([x] + s, f) == [f(x)] + MapSeq(s, f)
  {
  }

  /** The ranked candidates: in `src/venv_creator.py` each pattern's matches
      are queried as they are found; `create_venv.py` collects the matches of
      all patterns first and queries them afterwards. */
  function RankWindows(m: Machine, rev: Revision): seq<Candidate> {
    var patterns := WindowsPatterns(m.username);
    var collected :=
      if rev == Current then
        Candidates(m, m.glob(patterns[0])) + Candidates(m, m.glob(patterns[1])) + Candidates(m, m.glob(patterns[2]))
      else
        Candidates(m, m.glob(patterns[0]) + m.glob(patterns[1]) + m.glob(patterns[2]));
    SortBy(collected, CandidateVersion)
  }

  /** `_find_windows_python`: the paths of the ranked candidates. */
  function FindWindows(m: Machine, rev: Revision): seq<string> {
    MapSeq(RankWindows(m, rev), CandidatePath)
  }

  /** Both copies collect the same candidates in the same order. */
  lemma WindowsCollected(m: Machine, rev: Revision)
    ensures RankWindows(m, rev) == SortBy(Candidates(m, Matches(m.glob, WindowsPatterns(m.username))), CandidateVersion)
  {
    var patterns := WindowsPatterns(m.username);
    var g0, g1, g2 := m.glob(patterns[0]), m.glob(patterns[1]), m.glob(patterns[2]);
    assert Matches(m.glob, patterns[2..]) == g2 by {
      assert patterns[2..][1..] == [];
    }
    assert Matches(m.glob, patterns[1..]) == g1 + g2 by {
      assert patterns[1..][1..] == patterns[2..];
    }
    assert Matches(m.glob, patterns) == g0 + (g1 + g2);
    assert g0 + g1 + g2 == g0 + (g1 + g2);
    CandidatesAppend(m, g0 + g1, g2);
    CandidatesAppend(m, g0, g1);
  }

  /** The Windows result is the stable sort, by reported version, of exactly
      the matches whose report parses. */
  lemma WindowsRanking(m: Machine, rev: Revision)
    ensures FindWindows(m, rev) == SortBy(Parseable(m, Matches(m.glob, WindowsPatterns(m.username))), Ranker(m))
  {
    var hits := Matches(m.glob, WindowsPatterns(m.username));
    var cs := Candidates(m, hits);
    WindowsCollected(m, rev);
    CandidatesRanked(m, hits);
    SortMap(cs, CandidateVersion, CandidatePath, Ranker(m));
    CandidatePathsAreParseable(m, hits);
  }

  /** The two copies rank identically. */
  lemma WindowsRevisionsAgree(m: Machine)
    ensures FindWindows(m, Current) == FindWindows(m, Legacy)
  {
    WindowsCollected(m, Current);
    WindowsCollected(m, Legacy);
  }

  /** What the ranking promises: a match is listed exactly when its report
      parses (unparseable ones are dropped, duplicates are kept), the list is
      ascending by version tuple, and installations reporting the same version
      stay in discovery order. */
  lemma WindowsResult(m: Machine, rev: Revision)
    ensures var r := FindWindows(m, rev);
            var hits := Matches(m.glob, WindowsPatterns(m.username));
            && (forall p :: p in r <==> p in hits && VersionOf(m, p).Some?)
            && multiset(r) == multiset(Parseable(m, hits))
            && (forall i, j | 0 <= i < j < |r| :: LexLe(RankOf(m, r[i]), RankOf(m, r[j])))
            && (forall k :: WithKey(r, Ranker(m), k) == WithKey(Parseable(m, hits), Ranker(m), k))
  {
    var hits := Matches(m.glob, WindowsPatterns(m.username));
    WindowsRanking(m, rev);
    var r := FindWindows(m, rev);
    assert forall p :: p in r <==> p in multiset(r);
    forall k ensures WithKey(r, Ranker(m), k) == WithKey(Parseable(m, hits), Ranker(m), k) {
      SortStable(Parseable(m, hits), Ranker(m), k);
    }
  }

  // ---------------------------------------------------------------------
  // Unix: regular files only, no duplicates, sorted by name

  function RegularOnly(fs: FileSystem, paths: seq<string>): (r: seq<string>)
    ensures forall p :: p in r <==> p in paths && IsRegularNonLink(fs, p)
  {
    if |paths| == 0 then []
    else
      var rest := RegularOnly(fs, paths[1..]);
      assert forall p :: p in paths <==> p == paths[0] || p in paths[1..];
      if IsRegularNonLink(fs, paths[0]) then [paths[0]] + rest else rest
  }

  /** The elements of a Python `set` built from `s`, one of each. */
  function Dedup(s: seq<string>): (r: seq<string>)
    ensures Distinct(r)
    ensures forall p :: p in r <==> p in s
  {
    if |s| == 0 then []
    else
      var r := Dedup(s[..|s| - 1]);
      assert forall p :: p in s <==> p in s[..|s| - 1] || p == s[|s| - 1];
      if s[|s| - 1] in r then r else r + [s[|s| - 1]]
  }

  /** `_find_linux_python` (both copies): strictly ascending, so sorted and
      free of duplicates, and holding exactly the matches that are regular
      files and not symbolic links. */
  function FindUnix(m: Machine): (r: seq<string>)
    ensures StrictlySortedBy(r, Codes)
    ensures forall p :: p in r <==> p in Matches(m.glob, UnixPatterns(m.username)) && IsRegularNonLink(m.fs, p)
  {
    var found := Dedup(RegularOnly(m.fs, Matches(m.glob, UnixPatterns(m.username))));
    var r := SortBy(found, Codes);
    SortDistinct(found, Codes);
    assert forall p :: p in r <==> p in multiset(found);
    assert StrictlySortedBy(r, Codes) by {
      forall i, j | 0 <= i < j < |r| ensures LexLt(Codes(r[i]), Codes(r[j])) {
        if Codes(r[i]) == Codes(r[j]) {
          CodesInjective(r[i], r[j]);
        }
      }
    }
    r
  }

  /** A `set` has no order, yet the result does not depend on one: any
      strictly ascending list of the same paths is the same list. */
  lemma UnixOrderIndependent(m: Machine, s: seq<string>)
    requires StrictlySortedBy(s, Codes)
    requires forall p :: p in s <==> p in Matches(m.glob, UnixPatterns(m.username)) && IsRegularNonLink(m.fs, p)
    ensures s == FindUnix(m)
  {
    StrictlySortedUnique(s, FindUnix(m), Codes);
  }

  /** `find_python_installations`: the branch is chosen by the platform alone. */
  function FindPythonInstallations(m: Machine, rev: Revision): (r: seq<string>)
    ensures m.platform == Windows ==> forall p :: p in r <==> p in Matches(m.glob, WindowsPatterns(m.username)) && VersionOf(m, p).Some?
    // on Windows: every parseable hit exactly once, lowest version first, ties in glob order
    ensures m.platform == Windows ==> multiset(r) == multiset(Parseable(m, Matches(m.glob, WindowsPatterns(m.username))))
    ensures m.platform == Windows ==> forall i, j | 0 <= i < j < |r| :: LexLe(RankOf(m, r[i]), RankOf(m, r[j]))
    ensures m.platform == Windows ==>
              forall k :: WithKey(r, Ranker(m), k) == WithKey(Parseable(m, Matches(m.glob, WindowsPatterns(m.username))), Ranker(m), k)
    ensures m.platform == Unix ==> forall p :: p in r <==> p in Matches(m.glob, UnixPatterns(m.username)) && IsRegularNonLink(m.fs, p)
    ensures m.platform == Unix ==> StrictlySortedBy(r, Codes)
  {
    if m.platform == Windows then WindowsResult(m, rev); FindWindows(m, rev) else FindUnix(m)
  }

  /** The two copies find the same installations, in the same order. */
  lemma InstallationsAgree(m: Machine)
    ensures FindPythonInstallations(m, Current) == FindPythonInstallations(m, Legacy)
  {
    if m.platform == Windows {
      WindowsRevisionsAgree(m);
    }
  }
}
