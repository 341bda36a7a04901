/** `install_requirements`: the requirements manifest is copied line by line
    into a temporary manifest next to it, with every `dependencies/...`
    reference replaced by its absolute path, checked, installed with
    `pip install -r`, and the temporary manifest removed again. */
module Manifest {
  import opened Optional
  import opened Text
  import opened Host

  /** Lines starting with this text name a file of the project's dependency folder. */
  const ReferencePrefix: string := "dependencies/"

  /** The name of the rewritten manifest, placed in the manifest's directory. */
  const TempName: string := "temp_requirements.txt"

  /** `src/venv_creator.py` rejects a referenced file of size zero;
      `create_venv.py` only warns about it. */
  predicate EmptyIsError(rev: Revision) {
    rev == Current
  }

  /** What the pass makes of one line of the manifest. */
  datatype Verdict =
    | Copied(text: string)       // an ordinary line, written stripped
    | Resolved(path: string)     // a reference to a usable file, written as its absolute path
    | Flawed(problem: Problem)   // a reference to a missing (or, if rejected, empty) file

  predicate IsReference(line: string) {
    StartsWith(Strip(line), ReferencePrefix)
  }

  /** The absolute path a reference line stands for. */
  function Target(m: Machine, root: string, line: string): string {
    m.absolute(root, Strip(line))
  }

  /** The line a reference would be written as, if accepted: an ordinary line
      stripped, a reference as its absolute path. */
  function Expected(m: Machine, root: string, line: string): string {
    if IsReference(line) then Target(m, root, line) else Strip(line)
  }

  /** A reference whose target exists with size zero. */
  predicate IsEmptyReference(m: Machine, root: string, line: string) {
    IsReference(line) && Exists(m.fs, Target(m, root, line)) && m.fs[Target(m, root, line)].size == 0
  }

  /** The body of the `for line in original` loop. */
  function Classify(m: Machine, root: string, line: string, emptyIsError: bool): Verdict {
    var stripped := Strip(line);
    if !StartsWith(stripped, ReferencePrefix) then Copied(stripped)
    else
      var absolute := m.absolute(root, stripped);
      if !Exists(m.fs, absolute) then Flawed(Missing(stripped))
      else if emptyIsError && m.fs[absolute].size == 0 then Flawed(EmptyFile(stripped))
      else Resolved(absolute)
  }

  /** The cases of `Classify`: ordinary lines are copied; a reference is a
      problem when its target is missing, or empty and empty files are
      rejected; otherwise it is written as its absolute path. */
  lemma ClassifyCases(m: Machine, root: string, line: string, emptyIsError: bool)
    ensures var v := Classify(m, root, line, emptyIsError);
            && (v.Copied? <==> !IsReference(line))
            && (v.Flawed? ==> IsReference(line) && v.problem.reference == Strip(line))
            && (v.Flawed? && v.problem.Missing? <==> IsReference(line) && !Exists(m.fs, Target(m, root, line)))
            && (v.Flawed? && v.problem.EmptyFile? <==> emptyIsError && IsEmptyReference(m, root, line))
            && (!v.Flawed? ==> v == (if IsReference(line) then Resolved(Expected(m, root, line)) else Copied(Expected(m, root, line))))
  {
  }

  /** What the pass produced: the lines of the temporary manifest, and the
      problems (`missing_files`) in the order they were met. */
  datatype Rewrite = Rewrite(written: seq<string>, problems: seq<Problem>)

  /** The line an accepted verdict writes. */
  function Emitted(v: Verdict): string
    requires !v.Flawed?
  {
    if v.Copied? then v.text else v.path
  }

  /** One line's contribution put in front of the rest of the pass. */
  function Prepend(v: Verdict, rest: Rewrite): Rewrite {
    match v
    case Copied(text) => Rewrite([text] + rest.written, rest.problems)
    case Resolved(path) => Rewrite([path] + rest.written, rest.problems)
    case Flawed(problem) => Rewrite(rest.written, [problem] + rest.problems)
  }

  /** Two passes' results, one after the other. */
  function Concat(a: Rewrite, b: Rewrite): Rewrite {
    Rewrite(a.written + b.written, a.problems + b.problems)
  }

  /** The output of the pass, assembled from the verdicts on its lines in order. */
  function Assemble(vs: seq<Verdict>): (r: Rewrite)
    ensures |r.written| + |r.problems| == |vs|
  {
    if |vs| == 0 then Rewrite([], []) else Prepend(vs[0], Assemble(vs[1..]))
  }

  function Verdicts(m: Machine, root: string, lines: seq<string>, emptyIsError: bool): seq<Verdict> {
    seq(|lines|, i requires 0 <= i < |lines| => Classify(m, root, lines[i], emptyIsError))
  }

  /** The whole pass over the manifest's lines. Every line either writes one
      line or records one problem. */
  function RewritePass(m: Machine, root: string, lines: seq<string>, emptyIsError: bool): (r: Rewrite)
    ensures |r.written| + |r.problems| == |lines|
  {
    Assemble(Verdicts(m, root, lines, emptyIsError))
  }

  lemma PrependConcat(v: Verdict, a: Rewrite, b: Rewrite)
    ensures Prepend(v, Concat(a, b)) == Concat(Prepend(v, a), b)
  {
    match v
    case Copied(text) =>
      assert [text] + (a.written + b.written) == ([text] + a.written) + b.written;
    case Resolved(path) =>
      assert [path] + (a.written + b.written) == ([path] + a.written) + b.written;
    case Flawed(problem) =>
      assert [problem] + (a.problems + b.problems) == ([problem] + a.problems) + b.problems;
  }

  lemma {:induction false} AssembleAppend(vs: seq<Verdict>, ws: seq<Verdict>)
    ensures Assemble(vs + ws) == Concat(Assemble(vs), Assemble(ws))
    decreases |vs|
  {
    if |vs| == 0 {
      assert vs + ws == ws;
      assert Concat(Rewrite([], []), Assemble(ws)) == Assemble(ws);
    } else {
      assert (vs + ws)[0] == vs[0];
      assert (vs + ws)[1..] == vs[1..] + ws;
      AssembleAppend(vs[1..], ws);
      PrependConcat(vs[0], Assemble(vs[1..]), Assemble(ws));
    }
  }

  lemma {:induction false} AssembleProblems(vs: seq<Verdict>)
    ensures var r := Assemble(vs);
            && (forall k | 0 <= k < |r.problems| :: exists i | 0 <= i < |vs| :: vs[i] == Flawed(r.problems[k]))
            && (forall i | 0 <= i < |vs| :: vs[i].Flawed? ==> vs[i].problem in r.problems)
    decreases |vs|
  {
    if |vs| > 0 {
      AssembleProblems(vs[1..]);
      var r, rest := Assemble(vs), Assemble(vs[1..]);
      assert forall i | 1 <= i < |vs| :: vs[1..][i - 1] == vs[i];
      if vs[0].Flawed? {
        assert r.problems == [vs[0].problem] + rest.problems;
        forall k | 0 <= k < |r.problems|
          ensures exists i | 0 <= i < |vs| :: vs[i] == Flawed(r.problems[k])
        {
          if k == 0 {
            assert vs[0] == Flawed(r.problems[k]);
          } else {
            assert r.problems[k] == rest.problems[k - 1];
            var i :| 0 <= i < |vs[1..]| && vs[1..][i] == Flawed(rest.problems[k - 1]);
            assert vs[i + 1] == Flawed(r.problems[k]);
          }
        }
      } else {
        assert r.problems == rest.problems;
        forall k | 0 <= k < |r.problems|
          ensures exists i | 0 <= i < |vs| :: vs[i] == Flawed(r.problems[k])
        {
          var i :| 0 <= i < |vs[1..]| && vs[1..][i] == Flawed(rest.problems[k]);
          assert vs[i + 1] == Flawed(r.problems[k]);
        }
      }
    }
  }

  lemma {:induction false} AssembleClean(vs: seq<Verdict>)
    requires Assemble(vs).problems == []
    ensures forall i | 0 <= i < |vs| :: !vs[i].Flawed?
    ensures var r := Assemble(vs);
            && |r.written| == |vs|
            && forall i | 0 <= i < |vs| :: !vs[i].Flawed? && r.written[i] == Emitted(vs[i])
    decreases |vs|
  {
    if |vs| > 0 {
      assert !vs[0].Flawed?;
      AssembleClean(vs[1..]);
      var r, rest := Assemble(vs), Assemble(vs[1..]);
      assert r.written == [Emitted(vs[0])] + rest.written;
      forall i | 1 <= i < |vs| ensures !vs[i].Flawed? && r.written[i] == Emitted(vs[i]) {
        assert vs[1..][i - 1] == vs[i];
        assert r.written[i] == rest.written[i - 1];
      }
    }
  }

  /** The pass is compositional: the pass over two runs of lines writes and
      reports what the two passes do, one after the other. So problems appear
      in the order of the lines that cause them, all of them, not only the first. */
  lemma RewriteAppend(m: Machine, root: string, a: seq<string>, b: seq<string>, emptyIsError: bool)
    ensures RewritePass(m, root, a + b, emptyIsError) == Concat(RewritePass(m, root, a, emptyIsError), RewritePass(m, root, b, emptyIsError))
  {
    var va, vb := Verdicts(m, root, a, emptyIsError), Verdicts(m, root, b, emptyIsError);
    assert Verdicts(m, root, a + b, emptyIsError) == va + vb;
    AssembleAppend(va, vb);
  }

  /** A single line writes its expected text or records exactly its problem. */
  lemma RewriteOneLine(m: Machine, root: string, line: string, emptyIsError: bool)
    ensures var v := Classify(m, root, line, emptyIsError);
            RewritePass(m, root, [line], emptyIsError)
              == if v.Flawed? then Rewrite([], [v.problem]) else Rewrite([Expected(m, root, line)], [])
  {
    var vs := Verdicts(m, root, [line], emptyIsError);
    assert vs[1..] == [];
    ClassifyCases(m, root, line, emptyIsError);
  }

  /** The problems reported are exactly those of the flawed lines. */
  lemma ProblemsOfFlawedLines(m: Machine, root: string, lines: seq<string>, emptyIsError: bool)
    ensures var r := RewritePass(m, root, lines, emptyIsError);
            && (forall k | 0 <= k < |r.problems| :: exists i | 0 <= i < |lines| :: Classify(m, root, lines[i], emptyIsError) == Flawed(r.problems[k]))
            && (forall i | 0 <= i < |lines| :: Classify(m, root, lines[i], emptyIsError).Flawed? ==> Classify(m, root, lines[i], emptyIsError).problem in r.problems)
  {
    var vs := Verdicts(m, root, lines, emptyIsError);
    var r := Assemble(vs);
    AssembleProblems(vs);
    forall k | 0 <= k < |r.problems|
      ensures exists i | 0 <= i < |lines| :: Classify(m, root, lines[i], emptyIsError) == Flawed(r.problems[k])
    {
      var i :| 0 <= i < |vs| && vs[i] == Flawed(r.problems[k]);
      assert Classify(m, root, lines[i], emptyIsError) == vs[i];
    }
    forall i | 0 <= i < |lines| && Classify(m, root, lines[i], emptyIsError).Flawed?
      ensures Classify(m, root, lines[i], emptyIsError).problem in r.problems
    {
      assert Classify(m, root, lines[i], emptyIsError) == vs[i];
    }
  }

  /** With no problem found, the temporary manifest corresponds to the original
      line for line: ordinary lines are copied stripped (blank lines too), and
      each reference is replaced by its absolute path. */
  lemma CleanRewrite(m: Machine, root: string, lines: seq<string>, emptyIsError: bool)
    requires RewritePass(m, root, lines, emptyIsError).problems == []
    ensures var r := RewritePass(m, root, lines, emptyIsError);
            && |r.written| == |lines|
            && forall i | 0 <= i < |lines| :: r.written[i] == Expected(m, root, lines[i])
  {
    var vs := Verdicts(m, root, lines, emptyIsError);
    AssembleClean(vs);
    forall i | 0 <= i < |lines| ensures Emitted(vs[i]) == Expected(m, root, lines[i]) {
      ClassifyCases(m, root, lines[i], emptyIsError);
    }
  }

  /** In `create_venv.py` only missing files are problems: a zero-length file
      is written as its absolute path like any other existing file. */
  lemma LegacyReportsOnlyMissing(m: Machine, root: string, lines: seq<string>)
    ensures var r := RewritePass(m, root, lines, EmptyIsError(Legacy));
            forall k | 0 <= k < |r.problems| :: r.problems[k].Missing?
    ensures forall i | 0 <= i < |lines| :: IsEmptyReference(m, root, lines[i]) ==> Classify(m, root, lines[i], EmptyIsError(Legacy)) == Resolved(Target(m, root, lines[i]))
  {
    ProblemsOfFlawedLines(m, root, lines, EmptyIsError(Legacy));
    forall i | 0 <= i < |lines| {
      ClassifyCases(m, root, lines[i], EmptyIsError(Legacy));
    }
  }

  /** In `src/venv_creator.py` a reference to a zero-length file is reported. */
  lemma CurrentReportsEmpty(m: Machine, root: string, lines: seq<string>, i: nat)
    requires i < |lines| && IsEmptyReference(m, root, lines[i])
    ensures EmptyFile(Strip(lines[i])) in RewritePass(m, root, lines, EmptyIsError(Current)).problems
  {
    ProblemsOfFlawedLines(m, root, lines, EmptyIsError(Current));
    ClassifyCases(m, root, lines[i], EmptyIsError(Current));
  }

  /** When no reference names a zero-length file, the two copies rewrite and
      report identically. */
  lemma RevisionsAgreeWithoutEmptyFiles(m: Machine, root: string, lines: seq<string>)
    requires forall i | 0 <= i < |lines| :: !IsEmptyReference(m, root, lines[i])
    ensures RewritePass(m, root, lines, true) == RewritePass(m, root, lines, false)
  {
    forall i | 0 <= i < |lines| ensures Classify(m, root, lines[i], true) == Classify(m, root, lines[i], false) {
      ClassifyCases(m, root, lines[i], true);
      ClassifyCases(m, root, lines[i], false);
    }
    assert Verdicts(m, root, lines, true) == Verdicts(m, root, lines, false);
  }

  // ---------------------------------------------------------------------
  // The step

  /** Where the temporary manifest goes: next to the manifest. */
  function TempPath(p: Platform, manifest: string): string {
    PathJoin(p, Dirname(p, manifest), TempName)
  }

  /** The outcome of the step, the installer runs it made, and the file system
      left behind (the temporary manifest is removed in `finally`). */
  datatype RequirementsRun = RequirementsRun(result: StepResult, calls: seq<Command>, fsAfter: FileSystem)

  /** The lines `for line in original` reads. The temporary manifest is opened
      for writing, and so truncated, after the manifest is opened and before it
      is read: a manifest that is itself the temporary manifest reads as empty. */
  function ManifestLines(p: Platform, fs: FileSystem, manifest: string): (lines: seq<string>)
    requires manifest in fs
    ensures manifest != TempPath(p, manifest) ==> lines == fs[manifest].lines
    ensures manifest == TempPath(p, manifest) ==> lines == []
  {
    if manifest == TempPath(p, manifest) then [] else fs[manifest].lines
  }

  /** `install_requirements`. */
  function InstallRequirements(m: Machine, venv: string, manifest: Option<string>, rev: Revision): (r: RequirementsRun)
    // nothing to do without an existing manifest, and nothing is touched
    ensures r.result == Skipped <==> manifest.None? || !Exists(m.fs, manifest.value)
    ensures r.result == Skipped ==> r.calls == [] && r.fsAfter == m.fs
    // otherwise the temporary manifest is gone afterwards, and nothing else changed
    ensures r.result != Skipped ==>
              && var temp := TempPath(m.platform, manifest.value);
              && temp !in r.fsAfter
              && forall q | q != temp :: (q in r.fsAfter <==> q in m.fs) && (q in m.fs ==> r.fsAfter[q] == m.fs[q])
    // a manifest that cannot be opened as a file fails without running pip
    ensures r.result == Failed(Unreadable(if manifest.Some? then manifest.value else "")) <==>
              manifest.Some? && Exists(m.fs, manifest.value) && !m.fs[manifest.value].isFile
    // problems found block the installation, and are all reported
    ensures r.result.Failed? && r.result.failure.InvalidReferences? ==>
              && r.calls == []
              && r.result.failure.problems == RewritePass(m, Dirname(m.platform, manifest.value), ManifestLines(m.platform, m.fs, manifest.value), EmptyIsError(rev)).problems
              && r.result.failure.problems != []
    // and a readable manifest with problems reports exactly them, without pip
    ensures manifest.Some? && Exists(m.fs, manifest.value) && m.fs[manifest.value].isFile &&
            RewritePass(m, Dirname(m.platform, manifest.value), ManifestLines(m.platform, m.fs, manifest.value), EmptyIsError(rev)).problems != [] ==>
              && r.calls == []
              && r.result == Failed(InvalidReferences(RewritePass(m, Dirname(m.platform, manifest.value), ManifestLines(m.platform, m.fs, manifest.value), EmptyIsError(rev)).problems))
    ensures r.result.Failed? && r.result.failure.Unreadable? ==> r.calls == []
    // pip runs at most once, on the rewritten manifest, and only when it is clean
    ensures |r.calls| <= 1
    ensures |r.calls| == 1 ==>
              && var path := manifest.value;
              && var rw := RewritePass(m, Dirname(m.platform, path), ManifestLines(m.platform, m.fs, path), EmptyIsError(rev));
              && rw.problems == []
              && r.calls[0] == InstallManifest(PipPath(m.platform, venv), TempPath(m.platform, path), rw.written)
    // and a clean, readable manifest always gets its pip run
    ensures manifest.Some? && Exists(m.fs, manifest.value) && m.fs[manifest.value].isFile &&
            RewritePass(m, Dirname(m.platform, manifest.value), ManifestLines(m.platform, m.fs, manifest.value), EmptyIsError(rev)).problems == [] ==>
              && |r.calls| == 1
              && (r.result == Succeeded || (r.result.Failed? && r.result.failure.InstallerExit?))
    ensures r.result == Succeeded <==> |r.calls| == 1 && m.exitCode(r.calls[0]) == 0
  {
    if manifest.None? || !Exists(m.fs, manifest.value) then RequirementsRun(Skipped, [], m.fs)
    else
      var path := manifest.value;
      var root := Dirname(m.platform, path);
      var temp := TempPath(m.platform, path);
      var fsAfter := m.fs - {temp};
      if !m.fs[path].isFile then RequirementsRun(Failed(Unreadable(path)), [], fsAfter)
      else
        var rw := RewritePass(m, root, ManifestLines(m.platform, m.fs, path), EmptyIsError(rev));
        if rw.problems != [] then RequirementsRun(Failed(InvalidReferences(rw.problems)), [], fsAfter)
        else
          var cmd := InstallManifest(PipPath(m.platform, venv), temp, rw.written);
          var code := m.exitCode(cmd);
          RequirementsRun(if code == 0 then Succeeded else Failed(InstallerExit(temp, code)), [cmd], fsAfter)
  }

  /** The difference between the copies on a manifest whose references all
      exist, one of them with size zero: the current copy refuses to install,
      the older one installs with the file's absolute path in the manifest. */
  lemma EmptyReferenceDiffers(m: Machine, venv: string, path: string, i: nat)
    requires Exists(m.fs, path) && m.fs[path].isFile
    requires var lines := ManifestLines(m.platform, m.fs, path);
             var root := Dirname(m.platform, path);
             && i < |lines| && IsEmptyReference(m, root, lines[i])
             && forall j | 0 <= j < |lines| :: IsReference(lines[j]) ==> Exists(m.fs, Target(m, root, lines[j]))
    ensures var current := InstallRequirements(m, venv, Some(path), Current);
            && current.result.Failed? && current.result.failure.InvalidReferences?
            && current.calls == []
    ensures var legacy := InstallRequirements(m, venv, Some(path), Legacy);
            var lines := ManifestLines(m.platform, m.fs, path);
            var root := Dirname(m.platform, path);
            && |legacy.calls| == 1
            && |legacy.calls[0].contents| == |lines|
            && legacy.calls[0].contents[i] == Target(m, root, lines[i])
  {
    var lines := ManifestLines(m.platform, m.fs, path);
    var root := Dirname(m.platform, path);
    CurrentReportsEmpty(m, root, lines, i);
    var rw := RewritePass(m, root, lines, false);
    ProblemsOfFlawedLines(m, root, lines, false);
    if rw.problems != [] {
      var j :| 0 <= j < |lines| && Classify(m, root, lines[j], false) == Flawed(rw.problems[0]);
      ClassifyCases(m, root, lines[j], false);
      assert false;
    }
    CleanRewrite(m, root, lines, false);
  }
}
