# ReferenceCheck, modelled in Dafny

ReferenceCheck reads C# project files and checks that every assembly reference
with a `HintPath` points to a file that exists next to the project. It works on
one project file, or, with `-d`, on every `*.csproj` found under the immediate
subdirectories of a root directory. For each missing file it prints the
identity head and records `"{project}, {identity head}"`; it keeps a run-wide
count, and directory mode lists the recorded lines in its final summary.

The model follows the program's structure:

- `wrappers.dfy`, module `Wrappers`: `Option` stands for a C# reference that may be null, and `Result` for an operation that may throw.
- `strings.dfy`, module `Strings`: `String.Split(char)` as a function. It is proved to be the inverse of `Join`. The identity head (`Include.Split(',')[0]`) and the project name (`path.Split('\\').Last()`) are built on it, each pinned down by its characterising properties.
- `documents.dfy`, module `Documents`: the parsed project document is an element tree. `GetReferences` follows the source's query: `Descendants()`, then `Where` (local name `Reference`), then `Select` (a `Reference` record built from `Include` and the first `HintPath` child). A reference element without `Include` makes extraction fail. The query is proved equal to a structural definition (`TreeReferences`), a record for the element itself followed by its children's, and shown to find elements at any depth.
- `checking.dfy`, module `Checking`: the platform as a value (`FileSystem`), with these parts:
  - the existing files and directories as sets;
  - `XDocument.Load` as a function to an optional tree;
  - `Path.Combine`, `Path.GetDirectoryName` and the two directory listings as functions it does not interpret.

  On top of that value, the module defines what checking one project computes (`CheckProject`, `FileReport`) and what a run over many files computes (`RunFiles`, `TotalInvalid`, `AllEntries`, `Discovered`). It also holds the lemmas about these: counts, entries, additivity, and "no hint path, no finding".
- `program.dfy`, module `ReferenceCheck`: class `Program` holds the source's static fields (`printReferences`, `printAsOneliners`, `checkDirectory`, `targetPath`, `totalInvalids`, `invalidProjects`). Its methods update them as the source does:
  - `ProcessArguments`, `CheckIfExists` (a loop with invariants), `ProcessFile` and `ProcessDirectory` (two nested loops) correspond to the source's methods;
  - `Run` is `Main` without the printing and the process exit.

  Each method is proved against the functions of `Checking`. The class invariant `Valid()` says that `totalInvalids` equals the length of `invalidProjects`.

Three behaviours of the code that the model keeps:

- `-d` with an argument that is an existing *file* is accepted by `ProcessArguments` (`File.Exists(args[0]) || ...`). The run then fails in `Directory.GetDirectories`, which the model records as the `NotADirectory` failure. It is not rejected as an invalid invocation.
- A file that cannot be loaded, or that has a reference without `Include`, ends the whole run. It is not isolated per file. The model returns `Aborted`, keeping the projects processed before it, and skips the rest (`AbortedStaysAborted`).
- `Include` may be the empty string. The code does not insist that an identity is non-empty, and neither does the model.

## Model

| member | source | states |
|---|---|---|
| Strings.IndexOf | ReferenceCheck/Program.cs:164 | the result is the position of the first occurrence of the character, or the length when it does not occur |
| Strings.Split | ReferenceCheck/Program.cs:164 | `String.Split(char)` gives at least one piece, and no piece contains the separator |
| Strings.JoinSplit | ReferenceCheck/Program.cs:164 | joining the pieces of a split with the separator gives back the original string |
| Strings.SplitJoin | ReferenceCheck/Program.cs:164 | splitting the join of at least one separator-free piece gives back exactly those pieces |
| Strings.SplitLast | ReferenceCheck/Program.cs:153 | the last piece of a split is a suffix of the string, preceded by the separator when it is shorter than the string |
| Strings.IdentityHead | ReferenceCheck/Program.cs:164 | the identity head is a prefix of `Include` with no comma that ends where the first comma is; it is all of `Include` when there is no comma |
| Strings.IdentityHeadUnique | ReferenceCheck/Program.cs:164 | any string with those properties is the identity head, so they define it |
| Strings.IdentityHeadExample | ReferenceCheck/Program.cs:164 | `"Foo.Bar, Version=1.0.0.0, Culture=neutral"` has identity head `"Foo.Bar"` |
| Strings.ProjectName | ReferenceCheck/Program.cs:153 | the project name is a suffix of the directory with no `\`, preceded by `\` when shorter; it is the whole directory when there is no `\` |
| Strings.ProjectNameUnique | ReferenceCheck/Program.cs:153 | any suffix with those properties is the project name |
| Strings.ProjectNameExample | ReferenceCheck/Program.cs:153 | `C:\src\Acme.Core` has project name `Acme.Core` |
| Documents.Descendants | ReferenceCheck/Program.cs:188 | the traversal is never empty and visits the root element first |
| Documents.FollowIsDescendant | ReferenceCheck/Program.cs:188 | every element reached by a path of child indices, at any depth, is among the descendants |
| Documents.DescendantIsFollow | ReferenceCheck/Program.cs:188 | conversely, every descendant is reached by some path of child indices, so nothing outside the document is visited |
| Documents.OneReferenceProjectReferences | ReferenceCheck/Program.cs:188-195 | a project with one `Reference` element carrying `Include` and a `HintPath` child yields exactly that one record |
| Documents.ReferenceElements | ReferenceCheck/Program.cs:188 | an element is kept exactly when it is in the input and its local name is `Reference` |
| Documents.ReferenceElementsAppend | ReferenceCheck/Program.cs:188 | filtering preserves order: filtering a concatenation concatenates the filtered parts |
| Documents.FirstNamed | ReferenceCheck/Program.cs:192-193 | the position of the first child with the given local name, or the child count when there is none |
| Documents.HintPath | ReferenceCheck/Program.cs:192-194 | the hint path is absent exactly when no direct child is named `HintPath`; otherwise it is the value of the first such child |
| Documents.ToReference | ReferenceCheck/Program.cs:189-195 | a record is built exactly when `Include` is present, carrying its value and the hint path; otherwise extraction fails on that element |
| Documents.SelectReferences | ReferenceCheck/Program.cs:189-195 | selection succeeds exactly when every reference element has `Include`, and then yields one record per element |
| Documents.SelectReferencesAt | ReferenceCheck/Program.cs:189-195 | the record at position k is built from the element at position k: same order, `Include` value and hint path |
| Documents.SelectReferencesFailure | ReferenceCheck/Program.cs:191 | a failure names the first reference element that lacks `Include` |
| Documents.SelectReferencesAppend | ReferenceCheck/Program.cs:189-195 | selecting over a concatenation concatenates the parts' results, and the earlier failure wins |
| Documents.GetReferences | ReferenceCheck/Program.cs:183-198 | on success, there is one record per reference element of the document |
| Documents.NoReferenceElements | ReferenceCheck/Program.cs:188-197 | a document without reference elements yields the empty sequence, and does not fail |
| Documents.GetReferencesSucceeds | ReferenceCheck/Program.cs:188-191 | extraction succeeds exactly when every reference element in the document has an `Include` attribute |
| Documents.ReferenceAtAnyDepth | ReferenceCheck/Program.cs:188-195 | a reference element at any depth contributes its record to the result |
| Documents.GetReferencesIsStructural | ReferenceCheck/Program.cs:188-195 | the query equals the structural definition: the element's own record, then each child's, in document order |
| Documents.ForestIsStructural | ReferenceCheck/Program.cs:188-195 | the same for a sequence of sibling trees |
| Checking.IsMissing | ReferenceCheck/Program.cs:159-162 | a reference without a hint path is never missing; one with a hint path is missing exactly when the hint combined with the project directory is not an existing file |
| Checking.Entry | ReferenceCheck/Program.cs:167 | an entry is the project name, then `", "`, then the identity head, so both parts can be read back by position |
| Checking.MissingCount | ReferenceCheck/Program.cs:151-171 | the number of missing references is at most the number of references |
| Checking.MissingEntries | ReferenceCheck/Program.cs:164-168 | there is one entry per missing reference |
| Checking.MissingAppend | ReferenceCheck/Program.cs:157-171 | count and entries are additive over consecutive groups of references, and entries keep reference order |
| Checking.MissingCountIsCardinality | ReferenceCheck/Program.cs:157-171 | the count equals the number of positions whose reference has a hint path and whose combined path is not an existing file |
| Checking.UnhintedNeverCounted | ReferenceCheck/Program.cs:159-170 | a reference without a hint path changes neither the count nor the entries, whatever the file system holds |
| Checking.NoHintsNoneMissing | ReferenceCheck/Program.cs:159 | references without hint paths give a count of zero on every file system |
| Checking.EntriesNameMissingReferences | ReferenceCheck/Program.cs:164-167 | every entry is `"{project}, {identity head}"` of a reference that is missing |
| Checking.CheckProject | ReferenceCheck/Program.cs:149-176 | invalid count at most the number processed (all references), one entry per invalid reference, and the project name contains no `\` |
| Checking.SingleReferenceScenario | ReferenceCheck/Program.cs:157-173 | one hinted reference whose identity has no comma: count 0 and no entry when the combined path exists, else count 1 and the single entry `"{project}, {identity}"` |
| Checking.FileReport | ReferenceCheck/Program.cs:113-123 | processing a file fails exactly when it cannot be loaded (`Unloadable`) or its query fails (`MalformedProject`, naming the element without `Include`); a success is `CheckProject` of the extracted references against the file's own directory, so the project is named after that directory, and count and entries are kept in step |
| Checking.RunFiles | ReferenceCheck/Program.cs:84-90 | a completed run has one report per file; an aborted one has fewer reports than files |
| Checking.RunFilesReports | ReferenceCheck/Program.cs:84-90 | report k is the result for file k, and an aborted run stopped at the first file that failed |
| Checking.AbortedStaysAborted | ReferenceCheck/Program.cs:84-90 | after a failure, no later file is processed |
| Checking.TotalInvalid | ReferenceCheck/Program.cs:173 | the run's total is at least each project's count, and it is zero exactly when every project has a count of zero |
| Checking.AllEntries | ReferenceCheck/Program.cs:167 | a line is in the run's list exactly when some project's entries contain it |
| Checking.TotalInvalidAppend | ReferenceCheck/Program.cs:173 | the run's total over consecutive groups of projects is the sum of the groups' totals |
| Checking.AllEntriesAppend | ReferenceCheck/Program.cs:167 | the run's list over consecutive groups of projects is the groups' lists in order |
| Checking.SummaryInStep | ReferenceCheck/Program.cs:167-173 | when each project keeps count and entries in step, the run has one list entry per counted reference |
| Checking.Discovered | ReferenceCheck/Program.cs:84-86 | every file that the recursive search of a listed subdirectory returns is visited (`DiscoveredMembers` adds the converse) |
| Checking.DiscoveredMembers | ReferenceCheck/Program.cs:84-86 | a file is visited exactly when the recursive search of some immediate subdirectory returns it |
| Checking.DirectoryRun | ReferenceCheck/Program.cs:84-90 | the run fails with `NotADirectory` on the root, before any project, exactly when the root is not an existing directory (`GetDirectories` throws); a completed run has one report per visited file |
| Checking.DirectoryScenario | ReferenceCheck/Program.cs:84-90 | two subdirectories holding one project each, the first with its hinted file present and the second without: the run completes in order with a total of 1 and one entry naming the second project and its reference |
| Checking.Accepts | ReferenceCheck/Program.cs:59-66 | there must be an argument; an existing file is always accepted; anything else is accepted exactly when directory mode is on and it is an existing directory |
| Checking.FileRun | ReferenceCheck/Program.cs:48 | single-file mode completes with that file's report exactly when processing it succeeds, and otherwise aborts with its failure |
| ReferenceCheck.Program.constructor | ReferenceCheck/Program.cs:14-19 | flags off, no target, zero total, empty list |
| ReferenceCheck.Program.ProcessArguments | ReferenceCheck/Program.cs:56-76 | no arguments: refused, nothing changes; `-l` or `-lo` turns on listing, `-lo` turns on one-liners and `-d` turns on directory mode; accepted, with `targetPath = args[0]`, exactly when `args[0]` is an existing file or an existing directory in directory mode |
| ReferenceCheck.Program.CheckIfExists | ReferenceCheck/Program.cs:149-176 | the report is `CheckProject`; `totalInvalids` grows by exactly its count, and `invalidProjects` grows by exactly its entries, with nothing earlier changed |
| ReferenceCheck.Program.ProcessFile | ReferenceCheck/Program.cs:113-123 | the result is `FileReport` for the file, checked against the file's own directory; counters grow by that project's results; a failure leaves them unchanged |
| ReferenceCheck.Program.ProcessDirectory | ReferenceCheck/Program.cs:82-107 | the outcome is the run over the files of the immediate subdirectories, in order; counters grow by the sum of the projects' counts and by their entries in order |
| ReferenceCheck.Program.Run | ReferenceCheck/Program.cs:28-50 | the flags end as `ProcessArguments` leaves them; refused exactly when the arguments are not accepted, with target and counters unchanged; otherwise the directory run when `-d` is given or already on, else the single-file run, on `args[0]`, with counters grown by its totals |

## Left out

- Console output: the usage text, the per-reference listing (`ListReferences`, selected by `-l`/`-lo`), the per-project lines and the final directory summary. They are presentation. `CheckIfExists` returns the values it prints (project name, references processed, invalid count) as a report.
- `Environment.Exit(-1)` and unhandled exceptions: the model returns `Exit.InvalidInvocation` or an `Aborted` outcome instead of ending a process.
- XML text parsing (`XDocument.Load`): a file's document is given as an optional element tree, and `None` stands for any load or parse error. An element's `Value` is a given string rather than the concatenated text of its descendants. Attributes are keyed by plain name, as `Attribute("Include")` looks up an attribute with no namespace.
- The platform's path rules. `File.Exists` and `Directory.Exists` are given sets. `Path.Combine`, `Path.GetDirectoryName`, `Directory.GetDirectories` and `Directory.EnumerateFiles(d, "*.csproj", AllDirectories)` are given functions, so file-name pattern matching and enumeration order belong to the caller. `Path.GetDirectoryName` returning null (a root path) is not modelled: it cannot be the directory of an existing file.
- Lazy evaluation of the LINQ query. The source enumerates it once for the optional listing, once in the checking loop and once to count. The model extracts eagerly into a sequence. So a reference without `Include` fails before any counter changes, whereas the source fails during the listing (with `-l`/`-lo`) or during its checking loop, in the latter case after entries for earlier references have been added. The program then terminates, so no later output depends on that partial state.
- `totalInvalids` is a 32-bit `int` in the source and unbounded here. Wrap-around would need more than two billion missing references.
