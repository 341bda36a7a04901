/** `run`: discovery, the operator's choice of interpreter, creation of the
    environment, then the two optional installation steps. The questions the
    program asks are answered up front, in a `Answers` record. */
module Session {
  import opened Optional
  import opened Text
  import opened Host
  import opened Discovery
  import opened Dependencies
  import opened Manifest

  /** What `get_project_details` gathered: the project directory, the
      environment's name, and the manifest path, recorded only when one exists
      or was written. */
  datatype Project = Project(path: string, envName: string, requirements: Option<string>)

  /** The operator's answers: the numbers typed at the selection prompt, in
      order, and whether an existing environment may be replaced. */
  datatype Answers = Answers(picks: seq<int>, project: Project, overwrite: bool)

  /** How far a session got. */
  datatype Stage =
    | NoInstallations   // nothing found: the session ends at once
    | NoSelection       // the prompts ran out before a number in range was typed
    | Cancelled         // the environment exists and may not be replaced
    | CreationFailed    // `-m venv` exited non-zero
    | Created           // the environment exists; the optional steps ran

  /** The session's trace: where it ended, every external command it started
      in order, the outcomes of the two optional steps, and the file system
      left behind by the requirements step. */
  datatype Report = Report(stage: Stage, calls: seq<Command>, local: StepResult, requirements: StepResult, fsAfter: FileSystem)

  /** The selection loop: the first answer `n` with `1 <= n <= |installations|`
      picks the `n`-th installation; every other answer is refused and asked again. */
  function Select(installations: seq<string>, picks: seq<int>): (r: Option<string>)
    ensures r.Some? <==> exists k | 0 <= k < |picks| :: 1 <= picks[k] <= |installations|
    ensures r.Some? ==> r.value in installations
  {
    if |picks| == 0 then None
    else if 1 <= picks[0] <= |installations| then Some(installations[picks[0] - 1])
    else
      assert forall k | 1 <= k < |picks| :: picks[1..][k - 1] == picks[k];
      Select(installations, picks[1..])
  }

  /** The pick is the first in-range answer: all answers before it were refused. */
  lemma {:induction false} SelectFirstValid(installations: seq<string>, picks: seq<int>, k: nat)
    requires k < |picks| && 1 <= picks[k] <= |installations|
    requires forall j | 0 <= j < k :: !(1 <= picks[j] <= |installations|)
    ensures Select(installations, picks) == Some(installations[picks[k] - 1])
    decreases k
  {
    if k > 0 {
      assert forall j | 0 <= j < k - 1 :: picks[1..][j] == picks[j + 1];
      SelectFirstValid(installations, picks[1..], k - 1);
    }
  }

  /** `os.path.join(project['path'], project['venv_name'])`. */
  function EnvironmentPath(m: Machine, project: Project): string {
    PathJoin(m.platform, project.path, project.envName)
  }

  /** From the creation of the environment on: the creation command, then,
      if it succeeded, the local step and the requirements step. */
  function Provision(m: Machine, folder: Option<string>, python: string, venv: string, requirements: Option<string>, rev: Revision): (r: Report)
    ensures r.stage == Created || r.stage == CreationFailed
    ensures r.calls != [] && r.calls[0] == CreateEnvironment(python, venv)
    ensures r.stage == Created <==> m.exitCode(r.calls[0]) == 0
    ensures r.stage == CreationFailed ==> |r.calls| == 1 && r.local == Skipped && r.requirements == Skipped && r.fsAfter == m.fs
    ensures r.stage == Created ==>
              && var local := InstallLocal(m, folder, venv, rev);
              && var req := InstallRequirements(m, venv, requirements, rev);
              && r.local == local.result
              && r.requirements == req.result
              && r.calls == [r.calls[0]] + local.calls + req.calls
              && r.fsAfter == req.fsAfter
  {
    var create := CreateEnvironment(python, venv);
    if m.exitCode(create) != 0 then Report(CreationFailed, [create], Skipped, Skipped, m.fs)
    else
      var local := InstallLocal(m, folder, venv, rev);
      var req := InstallRequirements(m, venv, requirements, rev);
      Report(Created, [create] + local.calls + req.calls, local.result, req.result, req.fsAfter)
  }

  /** `run`, with `folder` the dependency folder set before it. */
  function Run(m: Machine, folder: Option<string>, answers: Answers, rev: Revision): (r: Report)
    ensures r.stage == NoInstallations <==> FindPythonInstallations(m, rev) == []
    ensures r.stage != Created ==> r.local == Skipped && r.requirements == Skipped && r.fsAfter == m.fs
    ensures r.stage == NoInstallations || r.stage == NoSelection || r.stage == Cancelled <==> r.calls == []
    ensures r.calls != [] ==>
              && r.calls[0].CreateEnvironment?
              && r.calls[0].python in FindPythonInstallations(m, rev)
              && r.calls[0].target == EnvironmentPath(m, answers.project)
    ensures r.stage == CreationFailed ==> |r.calls| == 1 && m.exitCode(r.calls[0]) != 0
    ensures r.stage == Created ==> m.exitCode(r.calls[0]) == 0
    ensures r.calls != [] ==> r == Provision(m, folder, r.calls[0].python, EnvironmentPath(m, answers.project), answers.project.requirements, rev)
    // no pick ends the session; so does declining to overwrite an existing target
    ensures r.stage == NoSelection <==>
              FindPythonInstallations(m, rev) != [] && Select(FindPythonInstallations(m, rev), answers.picks).None?
    ensures r.stage == Cancelled <==>
              && FindPythonInstallations(m, rev) != []
              && Select(FindPythonInstallations(m, rev), answers.picks).Some?
              && Exists(m.fs, EnvironmentPath(m, answers.project)) && !answers.overwrite
    // otherwise the environment is created from the interpreter the operator picked
    ensures && FindPythonInstallations(m, rev) != []
            && Select(FindPythonInstallations(m, rev), answers.picks).Some?
            && (!Exists(m.fs, EnvironmentPath(m, answers.project)) || answers.overwrite)
            ==> r.calls != []
    ensures r.calls != [] ==> r.calls[0].python == Select(FindPythonInstallations(m, rev), answers.picks).value
  {
    var installations := FindPythonInstallations(m, rev);
    if installations == [] then Report(NoInstallations, [], Skipped, Skipped, m.fs)
    else
      match Select(installations, answers.picks)
      case None => Report(NoSelection, [], Skipped, Skipped, m.fs)
      case Some(python) =>
        var venv := EnvironmentPath(m, answers.project);
        if Exists(m.fs, venv) && !answers.overwrite then Report(Cancelled, [], Skipped, Skipped, m.fs)
        else Provision(m, folder, python, venv, answers.project.requirements, rev)
  }

  /** Once the environment exists, the two optional steps are exactly
      `install_local_dependencies` and `install_requirements` on it, in that
      order, and each step runs when and only when it applies. */
  lemma CreatedRunsBothSteps(m: Machine, folder: Option<string>, answers: Answers, rev: Revision)
    ensures var r := Run(m, folder, answers, rev);
            var venv := EnvironmentPath(m, answers.project);
            var local := InstallLocal(m, folder, venv, rev);
            var req := InstallRequirements(m, venv, answers.project.requirements, rev);
            r.stage == Created ==>
              && r.local == local.result
              && r.requirements == req.result
              && r.calls == [r.calls[0]] + local.calls + req.calls
              && (r.local != Skipped <==> FolderSet(folder))
              && (r.requirements == Skipped <==> answers.project.requirements.None? || !Exists(m.fs, answers.project.requirements.value))
  {
    var r := Run(m, folder, answers, rev);
    if r.stage == Created {
      var venv := EnvironmentPath(m, answers.project);
      assert r == Provision(m, folder, r.calls[0].python, venv, answers.project.requirements, rev);
    }
  }

  /** The requirements step does not depend on the local step: whatever the
      folder, and however its installation went, the manifest step is the same
      call of `install_requirements` on the same environment, its pip calls close
      the run, and its outcome and the files it leaves are the same. Exit statuses
      come from `Machine.exitCode`, which does not see earlier installs, so the
      equal outcomes rest on that as well as on the control flow. */
  lemma RequirementsIndependentOfLocal(m: Machine, f1: Option<string>, f2: Option<string>, answers: Answers, rev: Revision)
    ensures var r1, r2 := Run(m, f1, answers, rev), Run(m, f2, answers, rev);
            var q := InstallRequirements(m, EnvironmentPath(m, answers.project), answers.project.requirements, rev);
            r1.stage == Created ==>
              && r2.stage == Created
              && |q.calls| <= |r1.calls| && r1.calls[|r1.calls| - |q.calls|..] == q.calls
              && |q.calls| <= |r2.calls| && r2.calls[|r2.calls| - |q.calls|..] == q.calls
              && r1.requirements == q.result == r2.requirements
              && r1.fsAfter == q.fsAfter == r2.fsAfter
  {
    if Run(m, f1, answers, rev).stage == Created {
      var installations := FindPythonInstallations(m, rev);
      var python := Select(installations, answers.picks).value;
      var venv := EnvironmentPath(m, answers.project);
      var q := InstallRequirements(m, venv, answers.project.requirements, rev);
      var r1 := Run(m, f1, answers, rev);
      var r2 := Run(m, f2, answers, rev);
      assert r1 == Provision(m, f1, python, venv, answers.project.requirements, rev);
      assert r2 == Provision(m, f2, python, venv, answers.project.requirements, rev);
      SuffixOfConcat([r1.calls[0]] + InstallLocal(m, f1, venv, rev).calls, q.calls);
      SuffixOfConcat([r2.calls[0]] + InstallLocal(m, f2, venv, rev).calls, q.calls);
    }
  }

  lemma SuffixOfConcat<T>(a: seq<T>, b: seq<T>)
    ensures (a + b)[|a + b| - |b|..] == b
  {
    assert |a + b| - |b| == |a|;
  }

  /** A failed creation runs no installation step at all. */
  lemma CreationFailureStopsEverything(m: Machine, folder: Option<string>, answers: Answers, rev: Revision)
    ensures var r := Run(m, folder, answers, rev);
            r.stage == CreationFailed ==>
              forall i | 0 <= i < |r.calls| :: !r.calls[i].InstallArtifact? && !r.calls[i].InstallManifest?
  {
    var r := Run(m, folder, answers, rev);
    if r.stage == CreationFailed {
      assert |r.calls| == 1 && r.calls[0].CreateEnvironment?;
    }
  }

  /** Whichever copy runs, the session reaches the same stage and runs the same
      creation command; the copies differ only inside the installation steps. */
  lemma StagesAgree(m: Machine, folder: Option<string>, answers: Answers)
    ensures Run(m, folder, answers, Current).stage == Run(m, folder, answers, Legacy).stage
    ensures Run(m, folder, answers, Current).calls != [] ==>
              Run(m, folder, answers, Legacy).calls != [] &&
              Run(m, folder, answers, Current).calls[0] == Run(m, folder, answers, Legacy).calls[0]
  {
    InstallationsAgree(m);
    var installations := FindPythonInstallations(m, Current);
    if installations != [] && Select(installations, answers.picks).Some? {
      var python := Select(installations, answers.picks).value;
      var venv := EnvironmentPath(m, answers.project);
      if !(Exists(m.fs, venv) && !answers.overwrite) {
        var requirements := answers.project.requirements;
        assert Run(m, folder, answers, Current) == Provision(m, folder, python, venv, requirements, Current);
        assert Run(m, folder, answers, Legacy) == Provision(m, folder, python, venv, requirements, Legacy);
      }
    }
  }
}
