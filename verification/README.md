# VenvCreator, modelled in Dafny

This project models the logic of `VenvCreator`, a small interactive tool that
creates a Python virtual environment for a project. The repository holds the
class twice. `src/venv_creator.py` is the current copy, and the unit tests
import it. `create_venv.py` is an older top-level copy. The model covers both
copies through `Host.Revision`: `Current` stands for `src/venv_creator.py` and
`Legacy` for `create_venv.py`. Where the copies behave differently, the model
follows each one, and lemmas state exactly where they agree and where they
differ.

The tool does five things, and each has its own module:

- **Discovering interpreters** (`Discovery`, `Version`):
  - On Windows, it searches three glob patterns and asks each hit for its `--version`.
  - It parses the reported version into a tuple of integers, drops hits whose version does not parse, and sorts the rest stably in Python tuple order.
  - On any other system, it keeps the hits that are regular files and not symbolic links, removes duplicates, and sorts them.
- **Choosing the dependency folder and finding artifacts in it** (`Dependencies`):
  - It finds `.whl`, `.tar.gz` and `.zip` files in the folder.
  - It installs them one by one with the environment's `pip`, and stops at the first installer failure.
- **Rewriting the requirements manifest** (`Manifest`):
  - It copies each stripped line into `temp_requirements.txt` next to the manifest, replacing `dependencies/...` references with absolute paths.
  - It collects every reference to a missing file, and in the current copy also every reference to an empty file.
  - It runs `pip install -r` on the rewritten manifest only when no problem was found, and always removes the temporary file.
- **Running a session** (`Session`):
  - The steps are discovery, the operator's choice, creation of the environment, then the two optional installation steps.
- **Support modules**:
  - `Text` covers Python's `str.strip`, `str.replace` and `str.split`, and code-point order.
  - `Order` covers lexicographic order on tuples, and a stable sort with its stability, permutation and uniqueness facts.
  - `Host` holds the machine as the program sees it, the outcome types, and `os.path.join`/`dirname`.

Everything the program asks of the outside world is an input of the model. All of it sits in a `Host.Machine` record:

- a snapshot of the file system, as a map from path to what `os.path` reports;
- the hits of each glob pattern;
- the entries of a directory;
- the output of `--version`;
- the exit status of each command;
- `os.path.abspath(os.path.join(...))`, as a given function.

The operator's answers are a `Session.Answers` record. Every operation is a pure function. The installation loop is also written as a method whose loop invariants carry the proof.

## Model

| member | source | states |
|---|---|---|
| Text.Strip | src/venv_creator.py:169 | The result is empty exactly when the line is all whitespace (Python's full whitespace set). Otherwise it neither starts nor ends with whitespace. It holds only characters of the line. |
| Text.StripSlice | src/venv_creator.py:169 | The stripped line is one contiguous slice of the line. Everything before the slice and everything after it is whitespace. |
| Text.StripUnpadded | src/venv_creator.py:134 | A text with no surrounding whitespace is left unchanged by stripping. |
| Text.RemoveAll | src/venv_creator.py:100 | `replace("Python ", "")` never lengthens the text and introduces no new characters. |
| Text.RemoveAllAbsent | src/venv_creator.py:100 | A text that lacks the first character of the pattern is left unchanged. |
| Text.Split | src/venv_creator.py:100 | `split(".")` gives at least one piece. No piece contains the separator. Joining the pieces with the separator gives back the text. |
| Text.SplitJoin | src/venv_creator.py:100 | Splitting the join of separator-free pieces gives the pieces back. The split is the inverse of the join. |
| Text.CodesInjective | src/venv_creator.py:123 | Two strings with equal code-point sequences are equal, so string order is a total order and sorting needs no tie-breaks. |
| Order.LexLtIffFirstDifference | src/venv_creator.py:106-107 | Tuple order holds exactly when, at the first position where the tuples differ, the left one is smaller. If there is no such position, the left tuple is a proper prefix of the right. |
| Order.PrefixRanksFirst | src/venv_creator.py:106-107 | A tuple ranks strictly below every proper extension of it. There is no zero padding. |
| Order.LexTrichotomy | src/venv_creator.py:106-107 | Any two tuples compare as less, equal or greater. |
| Order.LexLtTransitive | src/venv_creator.py:106-107 | Tuple order is transitive. |
| Order.LexLtIrreflexive | src/venv_creator.py:106-107 | No tuple ranks below itself. |
| Order.SortBy | src/venv_creator.py:106-107 | `sorted(..., key=...)` returns the same elements, counted, in non-decreasing key order. |
| Order.SortStable | src/venv_creator.py:106-107 | For every key value, the elements with that key keep their original relative order. |
| Order.InsertStable | src/venv_creator.py:106-107 | Inserting an element keeps the elements that share its key in their order, and places it after all of them. |
| Order.SortDistinct | src/venv_creator.py:123 | Sorting a list without duplicates gives a list without duplicates. |
| Order.StrictlySortedUnique | src/venv_creator.py:123 | Two strictly ascending lists with the same members are equal. |
| Order.SortMap | src/venv_creator.py:106-107 | Sorting the entries by their version tuple and then taking the paths gives the same list as sorting the paths by their versions, provided each entry carries its path's tuple. |
| Version.VersionText | src/venv_creator.py:125-136 | When the query replies, the version text is exactly its output, stripped. So it has no surrounding whitespace. A failed query gives "Version unknown". |
| Version.ParseShowNat | src/venv_creator.py:101 | `int()` of the decimal spelling of `n` is `n`. |
| Version.ParseAll | src/venv_creator.py:101 | The tuple exists exactly when every segment parses. It then has one component per segment, and each component is that segment's value. |
| Version.ParseRendered | src/venv_creator.py:101 | The decimal spellings of a tuple's components parse back to exactly that tuple. |
| Version.ParseVersion | src/venv_creator.py:99-104 | A version text yields a tuple exactly when every `.`-separated segment of the text, with "Python " removed, is a non-empty run of decimal digits. The tuple has at least one component. |
| Version.VersionRoundTrip | src/venv_creator.py:99-104 | "Python " followed by a rendered version parses back to exactly that version. So does the version without the prefix. |
| Version.UnparseableReports | src/venv_creator.py:135-136 | "Version unknown", a failed query and empty output never yield a tuple. |
| Version.NumericNotTextual | src/venv_creator.py:99-107 | "Python 3.9.1" and "Python 3.10.0" parse to (3,9,1) and (3,10,0), and (3,9,1) ranks first. |
| Version.TextualOrderDiffers | src/venv_creator.py:99-107 | Compared as strings, "3.10.0" would rank before "3.9.1". This is why the ranking parses. |
| Version.PrefixOrdering | src/venv_creator.py:106-107 | (3,9) < (3,9,1) < (3,10). |
| Host.PathJoin | src/venv_creator.py:77-81 | The result starts with the directory and ends with the name, with at most one separator added. |
| Host.PathJoinShape | src/venv_creator.py:162 | When the directory is empty or already ends with a separator, the join is the directory followed by the name. Otherwise exactly one platform separator is put between them. |
| Host.HeadLength | src/venv_creator.py:161 | The head of a path ends just after its last separator. It is empty when the path has none. |
| Host.HeadLengthAfter | src/venv_creator.py:161 | Below a directory that ends in a separator, a name without separators leaves the head at exactly that directory. |
| Host.DirOfHead | src/venv_creator.py:161 | A head holding a non-separator loses its trailing separators and stays non-empty. A head of separators only is kept as it is. |
| Host.Dirname | src/venv_creator.py:161 | The directory is empty exactly when the path holds no separator. Otherwise it is the path up to its last separator, with the trailing run of separators removed. A root made only of separators is kept whole. |
| Host.PipPathLayout | create_venv.py:49 | pip is at `<env>\Scripts\pip.exe` when the system name is "windows" and at `<env>/bin/pip` for every other system. |
| Discovery.Matches | src/venv_creator.py:90-97 | A path is a hit exactly when one of the patterns' globs returned it. |
| Discovery.CollectProbed | src/venv_creator.py:97-104 | Every collected entry is what querying its own path produced. |
| Discovery.CollectAppend | src/venv_creator.py:96-104 | Collecting over two runs of paths is collecting over each, one after the other. |
| Discovery.CollectPaths | src/venv_creator.py:97-104 | The paths of the collected entries are exactly the paths whose query succeeded, in their original order. |
| Discovery.CandidatesRanked | src/venv_creator.py:99-104 | Every collected candidate carries the parsed version of its own path. |
| Discovery.Parseable | src/venv_creator.py:99-104 | A hit is kept exactly when its reported version parses. |
| Discovery.CandidatesAppend | src/venv_creator.py:96-104 | Querying the hits pattern by pattern gives the same candidates, in the same order, as querying all hits at once. |
| Discovery.CandidatePathsAreParseable | src/venv_creator.py:99-104 | The paths of the candidates are the parseable hits in discovery order. |
| Discovery.WindowsCollected | create_venv.py:89-104 | The older copy collects all hits first, the current one queries per pattern. Both collect the same candidates in the same order. |
| Discovery.WindowsRanking | src/venv_creator.py:96-107 | The Windows result is the stable sort, by reported version, of the parseable hits. |
| Discovery.WindowsRevisionsAgree | create_venv.py:78-109 | Both copies rank Windows installations identically. |
| Discovery.WindowsResult | src/venv_creator.py:96-107 | A hit is listed exactly when its version parses. The list is a permutation of the parseable hits, so duplicates are kept. It is non-decreasing in tuple order, and hits with equal versions stay in discovery order. |
| Discovery.RegularOnly | src/venv_creator.py:120 | A hit is kept exactly when it is a regular file and not a symbolic link. |
| Discovery.Dedup | src/venv_creator.py:117-121 | The `set` has no duplicates and holds exactly the added paths. |
| Discovery.FindUnix | src/venv_creator.py:109-123 | The Unix result is strictly ascending, so sorted and duplicate-free. A path is in it exactly when it is a hit that is a regular file and not a symbolic link. |
| Discovery.UnixOrderIndependent | create_venv.py:122-129 | Any strictly ascending list of exactly those paths is the result, whatever order the set is iterated in. |
| Discovery.FindPythonInstallations | src/venv_creator.py:83-85 | On Windows, the list holds each parseable hit as often as it was found. It is non-decreasing in version order, and hits with equal versions keep discovery order. Elsewhere, the members are the regular non-link hits, strictly ascending. |
| Discovery.InstallationsAgree | create_venv.py:72-76 | Both copies find the same installations in the same order, on either platform. |
| Dependencies.SetDependenciesFolder | create_venv.py:27-32 | The answer is true exactly when the path exists. The folder becomes the path only then; otherwise it is left as it was. |
| Dependencies.AcceptedFolderIsSet | src/venv_creator.py:20-26 | An accepted folder passes the later `if not self.dependencies_folder` test. |
| Dependencies.PathJoinInjective | src/venv_creator.py:36 | Joining two names to the same folder gives the same path only when the names are equal. |
| Dependencies.Matching | src/venv_creator.py:36 | The names `*<ext>` matches are exactly the listed names that end with the extension and are not hidden. |
| Dependencies.MatchingDistinct | src/venv_creator.py:36 | A listing without duplicates gives matches without duplicates. |
| Dependencies.DirnameAfter | src/venv_creator.py:36 | The directory part of a pattern is fixed by what comes before its last component, whatever that component is. |
| Dependencies.GlobDirSame | src/venv_creator.py:36 | Every extension without separators gives the same directory part, so all three searches join their matches to one directory. |
| Dependencies.ArtifactDir | src/venv_creator.py:34-36 | Each of `.whl`, `.tar.gz` and `.zip` is searched under that same directory. |
| Dependencies.PatternShape | src/venv_creator.py:36 | The pattern is the folder, with a separator added unless it already ends in one, followed by `*<ext>`. |
| Dependencies.StarNoSeparator | src/venv_creator.py:36 | `*<ext>` holds no separator when the extension holds none. |
| Dependencies.SearchDirTrims | src/venv_creator.py:36 | A folder holding a non-separator is searched under its own spelling with trailing separators trimmed. `glob` rebuilds paths from the pattern's `os.path.split` head, not from the folder as typed. |
| Dependencies.DoubledSeparatorTrimmed | src/venv_creator.py:36 | For the folder `deps//` the search directory is `deps`, and the entry `x.whl` is found as `deps/x.whl`. |
| Dependencies.GlobExtension | src/venv_creator.py:35-36 | Every match ends with the extension. Each is a listed, non-hidden entry with that ending, joined to the directory part of the pattern. Every such entry is matched. A listing without duplicates gives no duplicate match. |
| Dependencies.RankOfExtension | src/venv_creator.py:34 | A path ending in one of the three extensions is an artifact, and its rank is that extension's position. |
| Dependencies.GroupRanks | create_venv.py:40-41 | Each search contributes only artifacts whose rank is that search's position. |
| Dependencies.GroupListed | create_venv.py:40-41 | Each search contributes only listed artifact-named entries, joined to the folder. |
| Dependencies.GroupedSound | create_venv.py:39-42 | The three searches together contribute only artifacts that are listed entries of the folder, joined to it. |
| Dependencies.RankedConcat | create_venv.py:40-42 | Extending the list by the `.whl`, `.tar.gz` and `.zip` groups in that order leaves it ordered by extension. |
| Dependencies.GroupedOrdered | create_venv.py:39-42 | The three searches together are ordered by extension. |
| Dependencies.GroupedComplete | create_venv.py:39-42 | Every listed artifact-named entry, joined to the folder, is found by one of the searches. |
| Dependencies.GroupsDistinct | create_venv.py:39-42 | Groups of different extensions share no path, so duplicate-free groups make a duplicate-free list. |
| Dependencies.GroupedDistinct | create_venv.py:39-42 | A listing without duplicates gives a list without duplicates. |
| Dependencies.Grouped | create_venv.py:34-42 | The unsorted list is grouped `.whl`, then `.tar.gz`, then `.zip`. Its members are exactly the folder's artifact-named entries, joined to the search directory (the folder with trailing separators trimmed). Each appears once when the listing has no duplicates. |
| Dependencies.FindDependencies | src/venv_creator.py:28-37 | Without a folder the list is empty. Otherwise its members are exactly the folder's artifact-named entries, joined to the search directory, each once when the listing has no duplicates. It is sorted as strings in the current copy, and grouped by extension in the older one. |
| Dependencies.DependencyRevisions | create_venv.py:34-42 | The current copy's list is the older copy's list, sorted. The two hold the same elements, counted. |
| Dependencies.InstallArtifacts | src/venv_creator.py:51-64 | Artifacts are installed in list order. The step ends at the first non-zero exit, which is reported. It succeeds exactly when every artifact was installed with exit status 0. |
| Dependencies.InstallArtifactsUnique | src/venv_creator.py:51-69 | Any run that makes the calls in order and stops exactly at the first failure is the one the loop makes. |
| Dependencies.InstallLocal | src/venv_creator.py:39-69 | The step is skipped exactly when no folder is set. It fails with no installer call exactly when the folder holds no artifact. Otherwise it is exactly the installation loop over the artifacts found. |
| Dependencies.InstallEach | src/venv_creator.py:51-64 | The loop makes the same calls and reaches the same outcome as `InstallArtifacts`. The i-th call installs the i-th artifact, and success means every call exited 0. |
| Dependencies.InstallLocalDependencies | create_venv.py:44-64 | The step as statements agrees with `InstallLocal`. It is skipped exactly when no folder is set, and fails for lack of artifacts exactly when none is found. |
| Manifest.ClassifyCases | src/venv_creator.py:169-182 | An ordinary line is copied stripped. A reference to a missing file is a Missing problem. A reference to an empty file is an EmptyFile problem exactly when empty files are rejected. Any other reference is written as its absolute path. |
| Manifest.RewritePass | src/venv_creator.py:168-182 | Every line either writes one line or records one problem. |
| Manifest.AssembleAppend | src/venv_creator.py:168-182 | Assembling two runs of verdicts gives the two results, one after the other. |
| Manifest.AssembleProblems | src/venv_creator.py:172-178 | Every reported problem comes from a flawed verdict, and every flawed verdict's problem is reported. |
| Manifest.AssembleClean | src/venv_creator.py:179-182 | Without problems, no verdict is flawed and the output holds each verdict's line in order. |
| Manifest.RewriteAppend | src/venv_creator.py:165-188 | The pass over two runs of lines is the two passes, one after the other. So problems are listed in the order of their lines. |
| Manifest.RewriteOneLine | src/venv_creator.py:169-182 | One line writes its expected text or records exactly its problem. |
| Manifest.ProblemsOfFlawedLines | src/venv_creator.py:172-178 | Every missing (or, in the current copy, empty) reference is reported, not only the first, and nothing else is. |
| Manifest.CleanRewrite | src/venv_creator.py:168-182 | Without problems, the temporary manifest has one line per original line, in order. Ordinary lines are copied stripped, blank lines included, and each reference becomes its absolute path. |
| Manifest.LegacyReportsOnlyMissing | create_venv.py:182-190 | In the older copy only missing files are problems. A zero-length file is written as its absolute path. |
| Manifest.CurrentReportsEmpty | src/venv_creator.py:176-178 | In the current copy a reference to a zero-length file is reported as an EmptyFile problem. |
| Manifest.RevisionsAgreeWithoutEmptyFiles | create_venv.py:176-192 | If no reference names a zero-length file, both copies rewrite and report identically. |
| Manifest.ManifestLines | src/venv_creator.py:166-167 | The lines read are the manifest's own. A manifest that is itself the temporary file is truncated first and reads as empty. |
| Manifest.InstallRequirements | src/venv_creator.py:156-212 | The step is skipped, touching nothing, exactly when no manifest is given or it does not exist. A manifest that is not a file fails as unreadable, without running pip. A readable manifest with problems fails with exactly the rewrite pass's problems, all of them, and pip is not run. A readable manifest without problems always has pip run once on the rewritten manifest, and the step then ends in success or an installer-exit failure. It succeeds exactly when pip exits 0. On every path that was not skipped, the temporary manifest is gone afterwards and nothing else changed. |
| Manifest.EmptyReferenceDiffers | create_venv.py:186-204 | With every reference present and one of them empty, the current copy refuses to install. The older copy installs, with the empty file's absolute path in the manifest. |
| Session.Select | src/venv_creator.py:299-308 | A selection is made exactly when some answer is between 1 and the number of installations. The selected path is one of the installations. |
| Session.SelectFirstValid | src/venv_creator.py:299-308 | The first in-range answer `n` picks the n-th installation. Earlier answers are refused. |
| Session.Provision | src/venv_creator.py:322-341 | The first command creates the environment. Failure stops there. Success runs the local step and then the requirements step, in that order. |
| Session.Run | src/venv_creator.py:285-341 | With no installation the session ends without commands. It ends with no selection exactly when no answer picks an installation. It is cancelled exactly when an installation was picked and the target exists but may not be replaced. In every other case the environment is created at `<path>/<venv_name>` from exactly the picked interpreter. Without creation neither install step runs. |
| Session.CreatedRunsBothSteps | src/venv_creator.py:322-338 | Once created, the local step runs exactly when a folder is set. The requirements step is skipped exactly when no existing manifest was recorded. Their commands follow the creation in that order. |
| Session.RequirementsIndependentOfLocal | src/venv_creator.py:325-338 | Once the environment is created, the requirements step runs whatever the folder and however the local step went. Its pip calls close the run unchanged, and its outcome and the resulting file system are the same. |
| Session.CreationFailureStopsEverything | create_venv.py:342-364 | After a failed creation no installer runs. |
| Session.StagesAgree | create_venv.py:296-364 | Both copies reach the same stage and run the same creation command. |

## Left out

- Subprocesses are not executed. Version queries, `-m venv` and both `pip install` forms are answered by `Machine.version` and `Machine.exitCode`. The 5-second timeout of the current copy's version query is a wall-clock matter. It and the older copy's broader `except Exception` both end in the same "Version unknown" text, so both are `Crashed`.
- Exceptions other than `CalledProcessError` are not modelled. This covers a missing pip raising `OSError`, which escapes `install_local_dependencies` and `create_venv`. It also covers I/O and decoding errors inside `install_requirements`, apart from a manifest that is not a file.
- The rewrite pass checks references against the file system as it was before the pass. The temporary file it is writing is not part of that snapshot.
- Paths are compared as strings. A manifest reached through another spelling of the temporary file's path is not recognised as the same file.
- `shutil.rmtree` on overwrite and the files `-m venv` creates are not applied to the file system. The steps after creation read the same snapshot, and only the requirements step's removal of the temporary manifest is tracked.
- Interactive and display code is left out: `get_project_details`, `print_activation_instructions`, the printed messages, and the prompts' wording. The project details and the operator's answers are given records. A non-numeric answer at the selection prompt is modelled as an out-of-range number.
- `os.path.expanduser` is not modelled, and neither is the environment-variable lookup of the user name. The user name is an input, and `None` renders as "None" in the patterns as an f-string would.
- Glob matching is given as each pattern's hit list, and for the dependency folder as a directory listing matched by suffix with hidden names skipped. Windows' case-insensitive matching is not modelled. Nor is the folder path itself being read as a pattern when it contains `*`, `?` or `[`.
- Text.Strip: the contract states the ends and the content only. The exact slice is stated by Text.StripSlice, because that existential in the function's own contract is too costly for its many callers.
- Host.PathJoin: the contract bounds the shape only. The exact result is stated by Host.PathJoinShape, for the same reason.
- Session.RequirementsIndependentOfLocal: the equal outcome rests partly on `Machine.exitCode`, which gives each command's exit status without regard to earlier installs. A pip whose result depends on what the local step installed is not modelled.
- Host.PathJoin: drive letters and absolute second arguments are not modelled. Most calls join a fixed relative name. The operator's environment name at src/venv_creator.py:310 is only checked to be non-empty, so it may be absolute. `os.path.join` would then return it alone, while the model joins it below the project path as a relative name.
- Host.Dirname: drive letters and Windows roots are not modelled. A path such as `C:x` or `C:\` is split like any other.
- Text.RemoveAll: the contract bounds the result's length and characters only. Its exact effect on version texts is stated through Version.VersionRoundTrip and Version.UnparseableReports.
- Version.ParseVersion: `int()` is modelled on ASCII digits only. Python also accepts surrounding whitespace, a sign, `_` separators and non-ASCII decimal digits. A segment such as " 3" parses in Python and does not parse here.
- Dependencies.SetDependenciesFolder: the folder is accepted when the path exists, whatever kind of entry it is. This follows the code, which calls `os.path.exists`.
- Manifest.CleanRewrite: blank lines of the manifest are copied as empty lines. This follows the code.
- The unit tests are not modelled.
