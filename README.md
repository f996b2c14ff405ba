# CreamInstaller selection scan, modelled in Dafny

CreamInstaller's selection form (`CreamInstaller/Forms/SelectForm.cs`) finds
the Steam games and the Paradox Launcher installed on a machine. It decides which of
them CreamAPI can be applied to, resolves their DLC through SteamCMD, and
keeps a tree of check boxes the user picks games and DLC from. This
project models that discovery-and-selection core and proves what it
promises:

- **Libraries** (`libraries.dfy`): the Steam library folders. Steam's own
  `steamapps` folder comes first. After it come the existing `<path>\steamapps`
  folders named by the numerically keyed entries of `libraryfolders.vdf`,
  each once, in the order first seen.
- **Manifests** (`manifests.dfy`): the games of one library, read from its
  `.acf` manifests. Files with blank or unparsable fields are skipped. The
  branch defaults to `public` and the game folder is
  `library\common\installdir`. "Nothing found" is `None`, never an empty list.
- **Markers** (`markers.dfy`): the directories of a game's folder tree that
  directly hold `steam_api.dll` or `steam_api64.dll`, in pre-order. An
  unreadable subfolder contributes nothing.
- **Discovery** (`discovery.dfy`): the candidate list (the launcher, then
  every library's games) and, per candidate, the rules that drop it or
  admit it with its marker directories and its named DLC.
- **Selection** (`selection.dfy`): the `ProgramSelection` state an
  admission writes, including the in-place DLC merge, which keeps "selected ⊆ known".
  It also holds `PopulateParadoxLauncherDlc`, which rebuilds the launcher's extra-DLC list.
- **TreeNodes** (`treenodes.dfy`): the check-box tree. It covers the nodes the
  scan creates, the parent rule, a game node's handler, stale-node pruning,
  `TreeNodeSorter.Compare` and the all-checkbox sweep.
- **Support modules:**
  - `wrappers.dfy`, `text.dfy`: `string.IsNullOrWhiteSpace`, 32-bit `int.TryParse`, `int.ToString`;
  - `paths.dfy`: `Path.GetExtension`;
  - `vdf.dfy`: the parsed VDF tree and its dynamic member lookup;
  - `host.dfy`: the machine snapshot;
  - `seqs.dfy`: the list a `foreach` builds, and de-duplication.

The loops of the source are methods with loop invariants. Each is proved
equal to a function of its inputs, and the functions carry the lemmas. The
DLC merge and the Paradox rebuild change the fields of a `ProgramSelection`
object in place. The all-checkbox sweep flips the entries of an array.

The registry, the file system, the VDF parser and SteamCMD are inputs. The
machine is a `Host.Machine` value: registry values, existing directories,
file listings and parsed data files. A game folder is a `Markers.Dir` tree.
SteamCMD's answers are `Discovery.Inputs`. A cancellation request is one
boolean for the whole call. The game folder trees (`Discovery.Inputs.trees`)
and the directories of `Host.Machine` are independent inputs: the model does
not require that a game folder known to one is known to the other. A folder
missing from the trees is treated as a missing folder.

## Model

| member | source | states |
|---|---|---|
| Text.TryParseInt32 | CreamInstaller/Forms/SelectForm.cs:102-103 | a parsed value always fits in 32 bits |
| Text.ParseInt32ToString | CreamInstaller/Forms/SelectForm.cs:219-220 | the text `"" + id` of a 32-bit id parses back to the id, so a node's name stands for its app id |
| Text.Int32ToStringInjective | CreamInstaller/Forms/SelectForm.cs:236-237 | two ids have the same node name exactly when they are equal |
| Text.IsNullOrWhiteSpace | CreamInstaller/Forms/SelectForm.cs:47 | `string.IsNullOrWhiteSpace`: absent (`null`) or made only of white-space characters |
| Text.Int32ToString | CreamInstaller/Forms/SelectForm.cs:219-220 | the decimal text `"" + id` of an id, with a `-` for a negative one; `ParseInt32ToString` is its inverse |
| Paths.GetExtension | CreamInstaller/Forms/SelectForm.cs:87 | the extension is empty or a `.` followed by a dot-free, separator-free suffix of the path |
| Paths.ExtensionIff | CreamInstaller/Forms/SelectForm.cs:87 | for an extension like `.acf`: the extension equals it exactly when the path ends with it |
| Vdf.Member | CreamInstaller/Forms/SelectForm.cs:90-93 | a dynamic lookup finds something exactly when the token has a child with that key |
| Vdf.MemberAt | CreamInstaller/Forms/SelectForm.cs:90-93 | the lookup yields the value of the first child with that key |
| Seqs.DedupElements | CreamInstaller/Forms/SelectForm.cs:49 | de-duplication keeps every element and adds none |
| Seqs.DedupDistinct | CreamInstaller/Forms/SelectForm.cs:49 | the de-duplicated list has no repetitions |
| Seqs.DedupHead | CreamInstaller/Forms/SelectForm.cs:39 | the first element stays first |
| Seqs.DedupFirstSeenOrder | CreamInstaller/Forms/SelectForm.cs:44-49 | kept elements appear in the order of their first occurrences |
| Seqs.DedupAppend | CreamInstaller/Forms/SelectForm.cs:49 | adding one element extends the list exactly when it is not yet `Contains`ed |
| Libraries.ListedLibrariesIff | CreamInstaller/Forms/SelectForm.cs:44-49 | a path is listed exactly when some entry has a numeric key, a non-blank `path`, and `<path>\steamapps` exists |
| Libraries.ListedLibraries | CreamInstaller/Forms/SelectForm.cs:44-49 | the `<path>\steamapps` folders of the `libraryfolders.vdf` entries, in entry order: numeric key, non-blank `path`, existing folder; `ListedLibrariesIff` states when a path is listed |
| Libraries.SteamInstallPath | CreamInstaller/Forms/SelectForm.cs:32-33 | Steam's `InstallPath` under `HKLM\SOFTWARE\Valve\Steam`, else the one under the `Wow6432Node` key, else none |
| Libraries.LibraryDirectories | CreamInstaller/Forms/SelectForm.cs:30-54 | the library list: nothing when cancelled or without an existing install path and `steamapps`; else `steamapps`, then the listed libraries not yet present; `LibraryDirectoriesShape` states its shape |
| Libraries.LibraryDirectoriesShape | CreamInstaller/Forms/SelectForm.cs:31-49 | the library list is Steam's `steamapps` first, has no repetitions, then holds exactly the other listed libraries; every entry ends in `\steamapps` and exists; it is empty exactly when cancelled or the install path or its `steamapps` is missing |
| Libraries.GameLibraryDirectories | CreamInstaller/Forms/SelectForm.cs:28-55 | the method's list is the library list |
| Libraries.AddListedLibraries | CreamInstaller/Forms/SelectForm.cs:44-50 | the loop appends each qualifying library unless already present |
| Manifests.FileCandidates | CreamInstaller/Forms/SelectForm.cs:87-104 | one file yields at most one game |
| Manifests.CandidateFrom | CreamInstaller/Forms/SelectForm.cs:94-104 | the game a manifest's fields give: skipped on a blank required field or an id that does not parse, otherwise the parsed ids, the name, the branch (`public` when `betakey` is blank) and `library\common\installdir`; `CandidateFields` and `CandidateSkipped` state both directions |
| Manifests.CandidateFields | CreamInstaller/Forms/SelectForm.cs:90-104 | a game has the manifest's non-blank name, its parsed `appid` and `buildid`, a non-blank branch that is `public` exactly when `betakey` is blank or `public`, and the folder `library\common\installdir` |
| Manifests.CandidateSkipped | CreamInstaller/Forms/SelectForm.cs:94-103 | a manifest is skipped exactly when a required field is blank or an id does not parse |
| Manifests.ReadFieldsOf | CreamInstaller/Forms/SelectForm.cs:90-99 | every field of a manifest as Steam writes it is read back; no `UserConfig` means no `betakey` |
| Manifests.Int32TextNotBlank | CreamInstaller/Forms/SelectForm.cs:94-97 | a written id is never blank |
| Manifests.ManifestRoundTrip | CreamInstaller/Forms/SelectForm.cs:90-104 | reading the manifest written for a game yields that game |
| Manifests.CandidatesAppend | CreamInstaller/Forms/SelectForm.cs:84-106 | skipped files do not stop the scan: the games of two listings in a row are those of each |
| Manifests.CandidatesIff | CreamInstaller/Forms/SelectForm.cs:84-106 | a game is found exactly when some listed file yields it |
| Manifests.FileCandidatesOnlyManifests | CreamInstaller/Forms/SelectForm.cs:87 | only existing files ending in `.acf` yield a game |
| Manifests.PortalFields | CreamInstaller/Forms/SelectForm.cs:90-99 | the fields of a sample manifest with an empty `betakey` |
| Manifests.PortalIds | CreamInstaller/Forms/SelectForm.cs:102-103 | `"400"` and `"12"` parse to 400 and 12 |
| Manifests.EmptyBetakeyScenario | CreamInstaller/Forms/SelectForm.cs:99-101 | that manifest is taken on the `public` branch under `common\Portal` |
| Manifests.GetGamesFromLibraryDirectory | CreamInstaller/Forms/SelectForm.cs:79-109 | the scanner's answer is the library's games; `None` when cancelled, missing or empty; never an empty list |
| Markers.HitsSound | CreamInstaller/Forms/SelectForm.cs:60-76 | every reported directory is a readable directory of the tree and holds a marker |
| Markers.Hits | CreamInstaller/Forms/SelectForm.cs:61-74 | the marker directories of a readable folder in pre-order: the folder itself when it holds `steam_api.dll` or `steam_api64.dll`, then each subfolder's, an unreadable one adding nothing; `HitsSound`, `HitsComplete` and `SubtreeIsBlock` state what it finds |
| Markers.MarkerDirectories | CreamInstaller/Forms/SelectForm.cs:57-77 | the search's answer: none when cancelled or the folder is missing, otherwise the hits, an empty list becoming none; `MarkerDirectoriesNone` states when it is none |
| Markers.HitsComplete | CreamInstaller/Forms/SelectForm.cs:60-76 | every readable directory of the tree holding a marker is reported |
| Markers.SubtreeIsBlock | CreamInstaller/Forms/SelectForm.cs:63-71 | pre-order: the hits of any subtree form one contiguous block of the answer |
| Markers.OwnHitFirst | CreamInstaller/Forms/SelectForm.cs:63 | a marker directory comes before its descendants |
| Markers.ChildHitsAppend | CreamInstaller/Forms/SelectForm.cs:65-74 | the hits of two runs of subfolders are those of each, in order |
| Markers.UnreadableContributesNothing | CreamInstaller/Forms/SelectForm.cs:68-73 | a subfolder whose listing throws changes nothing |
| Markers.MarkerDirectoriesNone | CreamInstaller/Forms/SelectForm.cs:60-76 | "none found" exactly when cancelled, missing, or no readable directory holds a marker; never an empty list |
| Markers.NestedScenario | CreamInstaller/Forms/SelectForm.cs:57-77 | a sample tree yields the game folder, then `bin\x64` |
| Markers.SearchDirectory | CreamInstaller/Forms/SelectForm.cs:57-77 | the recursive search of an existing folder returns its marker directories |
| Markers.GetDllDirectoriesFromGameDirectory | CreamInstaller/Forms/SelectForm.cs:57-77 | the entry point's answer, with a missing folder as "none found" |
| Discovery.ApplicableCandidatesIff | CreamInstaller/Forms/SelectForm.cs:128-139 | the list starts with the launcher when its folder exists, and holds exactly the launcher and the games found in the libraries |
| Discovery.FoundGamesIff | CreamInstaller/Forms/SelectForm.cs:133-139 | a game is collected exactly when one library's manifests yield it |
| Discovery.GamesOfLibrary | CreamInstaller/Forms/SelectForm.cs:135-138 | an existing library contributes its manifests' games |
| Discovery.GetApplicablePrograms | CreamInstaller/Forms/SelectForm.cs:127-139 | the method's list is the candidate list |
| Discovery.AddLibraryGames | CreamInstaller/Forms/SelectForm.cs:133-139 | the loop appends each library's games in library order |
| Discovery.AdmitIff | CreamInstaller/Forms/SelectForm.cs:152-190 | a candidate is admitted exactly when: not cancelled, not blocked, marker directories found, a positive id has app information listing some DLC, and the name is not blank; it keeps its fields |
| Discovery.Admit | CreamInstaller/Forms/SelectForm.cs:152-190 | one candidate's task: dropped when cancelled, blocked, without marker directories, a game without app information or without DLC, or with a blank name; otherwise admitted with its marker directories, app information and named DLC; `AdmitIff` and `AdmittedDlc` state both directions |
| Discovery.AdmittedDlc | CreamInstaller/Forms/SelectForm.cs:163-188 | the DLC are exactly the listed ids with a non-blank name, mapped to that name; id 0 has none |
| Discovery.ResolveDlc | CreamInstaller/Forms/SelectForm.cs:166-186 | the loop's dictionary is the named DLC of the list |
| Discovery.ResolvedDlc | CreamInstaller/Forms/SelectForm.cs:166-186 | the DLC of a list of ids whose app information gives a non-blank `common.name`, each mapped to that name |
| Discovery.ProcessCandidate | CreamInstaller/Forms/SelectForm.cs:152-190 | the task body follows its early returns to the same answer |
| Discovery.AdmitCandidates | CreamInstaller/Forms/SelectForm.cs:143-190 | the candidates' admissions in list order; a cancelled scan admits nothing |
| Discovery.AdmittedIff | CreamInstaller/Forms/SelectForm.cs:143-190 | an admission is in the result exactly when some candidate is admitted with it |
| Selection.ProgramSelection.constructor | CreamInstaller/Forms/SelectForm.cs:192 | a new selection has nothing selected and nothing known |
| Selection.ProgramSelection.MergeDlc | CreamInstaller/Forms/SelectForm.cs:231-235 | every resolved DLC becomes known with its name; with the all-checkbox checked every one is selected too, otherwise the selected DLC stay as they were; "selected ⊆ known" is preserved |
| Selection.ProgramSelection.Apply | CreamInstaller/Forms/SelectForm.cs:192-235 | an admission makes its selection usable with its fields; enabled when the box is checked; DLC merged except for the launcher; "selected ⊆ known" preserved |
| Selection.ParadoxEntriesIff | CreamInstaller/Forms/SelectForm.cs:443-455 | a pass lists exactly the qualifying selections: usable (and enabled in the first pass), another name, publisher Paradox Interactive; each entry has its id, name and the pass's DLC |
| Selection.ParadoxDlcShape | CreamInstaller/Forms/SelectForm.cs:442-455 | the fallback is taken exactly when no usable enabled selection qualifies; the launcher never lists itself |
| Selection.ParadoxDlc | CreamInstaller/Forms/SelectForm.cs:442-455 | the launcher's list: the usable enabled Paradox games with their selected DLC, or, when there are none, all usable Paradox games with all their DLC; `ParadoxEntriesIff` and `ParadoxDlcShape` state what it holds |
| Selection.PopulateParadoxLauncherDlc | CreamInstaller/Forms/SelectForm.cs:440-457 | the launcher's new list is the first pass, or the fallback, over the selections as they were; every other field of the launcher is unchanged and "selected ⊆ known" is kept |
| Selection.ParadoxPass | CreamInstaller/Forms/SelectForm.cs:442-455 | one `foreach` clears (in the first pass) and refills the list |
| Selection.AddParadoxEntry | CreamInstaller/Forms/SelectForm.cs:445-447 | one selection's entry is appended exactly when it qualifies |
| TreeNodes.Compare | CreamInstaller/Forms/SelectForm.cs:371-378 | the comparer answers only 0 or 1, never a negative value |
| TreeNodes.CompareIds | CreamInstaller/Forms/SelectForm.cs:375-377 | on node names made from ids, it answers 1 exactly when the first id is larger |
| TreeNodes.CompareStrictOnNumbers | CreamInstaller/Forms/SelectForm.cs:375-377 | on numeric names "answers 1" is irreflexive, asymmetric and transitive |
| TreeNodes.CompareNonNumeric | CreamInstaller/Forms/SelectForm.cs:375-376 | two non-numeric names each compare greater than the other, and than themselves |
| TreeNodes.ProgramNode | CreamInstaller/Forms/SelectForm.cs:219-222 | a program node's name parses to its id, its label is the name, it is checked when enabled, a found node keeps its children |
| TreeNodes.DlcNode | CreamInstaller/Forms/SelectForm.cs:236-240 | the corrected DLC node of the finding below: its name parses to its id and its label is the DLC name, as at lines 236-238; it is checked exactly when the DLC id is selected, where line 239 as written also compares the name |
| TreeNodes.DlcNodeCheckedAsWritten | CreamInstaller/Forms/SelectForm.cs:239 | the check state line 239 computes as written: the selection holds the DLC under this id and with this very name |
| TreeNodes.RenamedDlcShownUnchecked | CreamInstaller/Forms/SelectForm.cs:239 | a DLC selected under an older name is shown unchecked by the line as written, though still selected |
| TreeNodes.DlcNodeAfterMerge | CreamInstaller/Forms/SelectForm.cs:234-239 | after the merge a DLC node is checked exactly when the DLC is selected: always with the box checked, else when selected before |
| TreeNodes.AnyChecked | CreamInstaller/Forms/SelectForm.cs:351 | the parent rule holds exactly when some child is checked |
| TreeNodes.CheckDlcNode | CreamInstaller/Forms/SelectForm.cs:347-351 | after a DLC node changes, only it changes among the children, and the game node is checked exactly when some DLC node is |
| TreeNodes.SetAll | CreamInstaller/Forms/SelectForm.cs:359 | every DLC node takes the game node's state and keeps its name, label and children; afterwards some DLC node is checked exactly when the state is "checked" and there is a DLC node |
| TreeNodes.CheckGameNode | CreamInstaller/Forms/SelectForm.cs:356-359 | the node check states only: a game node set to a state: a game with DLC sets every DLC node alike, one without keeps its children; `CheckGameNodeConsistent` states that the parent rule then holds |
| TreeNodes.CheckGameNodeConsistent | CreamInstaller/Forms/SelectForm.cs:356-359 | after a game with DLC nodes is toggled, the parent rule holds for it |
| TreeNodes.PruneNodesClean | CreamInstaller/Forms/SelectForm.cs:311-314 | no node with a non-numeric name survives |
| TreeNodes.PruneNodesKeepsClean | CreamInstaller/Forms/SelectForm.cs:311-314 | nothing else is removed below a kept node |
| TreeNodes.PruneIff | CreamInstaller/Forms/SelectForm.cs:311-314 | a node is kept at the top level exactly when it is a registered top-level node, pruned below |
| TreeNodes.PruneAppend | CreamInstaller/Forms/SelectForm.cs:311-314 | top-level nodes are pruned one by one: the survivors of two runs of nodes are those of the first followed by those of the second, so kept nodes stay in order |
| TreeNodes.PruneSingle | CreamInstaller/Forms/SelectForm.cs:313 | one top-level node is kept, pruned below, exactly when its name is a registered selection's id |
| TreeNodes.PruneClean | CreamInstaller/Forms/SelectForm.cs:311-314 | every surviving top-level node is registered and everything below it is numeric |
| TreeNodes.PruneIdempotent | CreamInstaller/Forms/SelectForm.cs:311-314 | pruning twice is pruning once |
| TreeNodes.ProgramNodeSurvives | CreamInstaller/Forms/SelectForm.cs:313 | a program node survives exactly when its selection is still registered |
| TreeNodes.Prune | CreamInstaller/Forms/SelectForm.cs:311-314 | the top-level nodes named by a registered selection's id, each with every descendant whose name is not a number removed; `PruneIff`, `PruneAppend`, `PruneClean` and `PruneIdempotent` state what survives |
| TreeNodes.SweptAt | CreamInstaller/Forms/SelectForm.cs:508-519 | after a pass a top-level node is checked exactly when it or an earlier one was unchecked |
| TreeNodes.Swept | CreamInstaller/Forms/SelectForm.cs:508-519 | one pass of the sweep over the top-level check states: the flag turns on at the first unchecked node and each node takes the flag's value; `SweptAt` states each entry |
| TreeNodes.SweepAllChecked | CreamInstaller/Forms/SelectForm.cs:508-521 | with every node checked, the pass unchecks all; on the top-level boxes alone, superseded by `PassAllChecked`, which also tracks the DLC |
| TreeNodes.SweepFirstUnchecked | CreamInstaller/Forms/SelectForm.cs:508-521 | with the first node unchecked, the pass checks all; on the top-level boxes alone, superseded by `PassFirstUnchecked` |
| TreeNodes.SweepTwice | CreamInstaller/Forms/SelectForm.cs:506-521 | with the first node checked and another unchecked, the pass unchecks the first; the pass that line 521 triggers then checks all; on the top-level boxes alone, superseded by `PassTwiceFirstChecked` and `ClickOutcome`, which add the DLC states that decide the re-raise |
| TreeNodes.Pass | CreamInstaller/Forms/SelectForm.cs:508-519 | one pass over the top-level nodes with their DLC: a node the flag does not match takes the flag, and its DLC nodes with it (lines 356-359); `PassAt` states each node |
| TreeNodes.PassAt | CreamInstaller/Forms/SelectForm.cs:508-519 | a node the flag reaches ends checked, and complete unless it was already checked with an unchecked DLC node; a node before the first unchecked one ends unchecked with its DLC |
| TreeNodes.PassAllChecked | CreamInstaller/Forms/SelectForm.cs:508-519 | with every top-level node checked, a pass unchecks every node and DLC, so the box reads "not all checked" |
| TreeNodes.PassFirstUnchecked | CreamInstaller/Forms/SelectForm.cs:508-519 | with the first node unchecked, a pass checks every node, and each ends complete unless it was checked with an unchecked DLC node |
| TreeNodes.PassTwiceFirstChecked | CreamInstaller/Forms/SelectForm.cs:508-521 | with the first node checked, the first pass unchecks it, the pass line 521 raises checks every node, and all end complete exactly when no stale node was there |
| TreeNodes.ClickAllChecked | CreamInstaller/Forms/SelectForm.cs:506-521 | a click with every node checked leaves every node and DLC unchecked |
| TreeNodes.ClickFirstUnchecked | CreamInstaller/Forms/SelectForm.cs:506-521 | a click with the first node unchecked checks everything, unless a stale node makes line 521 raise a second pass that unchecks everything |
| TreeNodes.ClickFirstChecked | CreamInstaller/Forms/SelectForm.cs:506-521 | a click with the first node checked and a later one unchecked takes two passes to check everything, or three to uncheck everything when a stale node is there |
| TreeNodes.ClickSettles | CreamInstaller/Forms/SelectForm.cs:521 | the passes a click raises end: when line 521 has raised two more, the third does not change the box |
| TreeNodes.ClickOutcome | CreamInstaller/Forms/SelectForm.cs:506-522 | the end state of a click: all unchecked when every node was checked; all checked with their DLC when some node was unchecked and none is stale; all unchecked otherwise |
| TreeNodes.ClickCanUncheckEverything | CreamInstaller/Forms/SelectForm.cs:506-521 | as written: an unchecked game before a checked game with an unchecked DLC; the click ends with nothing checked |
| TreeNodes.IntendedClick | CreamInstaller/Forms/SelectForm.cs:506-522 | corrected: a click checks every node and DLC when not everything was checked, and unchecks them all otherwise, so the box then shows the tree |
| TreeNodes.ClickAgrees | CreamInstaller/Forms/SelectForm.cs:506-522 | the source's click is the corrected one whenever every node was complete, or some node is unchecked and none is stale |
| TreeNodes.IntendedClickChecksAll | CreamInstaller/Forms/SelectForm.cs:506-522 | corrected: on the input of `ClickCanUncheckEverything` every node and DLC ends checked |
| TreeNodes.AllCheckBoxSweep | CreamInstaller/Forms/SelectForm.cs:506-522 | the method leaves the states of one pass, and returns `shouldCheck` (some node was unchecked) and whether line 521 changes the box |

A top-level node is a `TreeNodes.Root`: its own check box, and whether it
and every DLC node below it are checked ("complete"). `TrueForAll` at line
363 asks every node, DLC included, for this. A pass flips the nodes the flag
does not match, and each flipped node's handler sets its DLC nodes alike
(lines 356-359). It then quietly sets the box to "every node complete"
(lines 362-364). Line 521 sets the box to `shouldCheck`. When that changes
the box, `CheckedChanged` raises the sweep again, and `Click` runs the passes
that follow. Another pass is raised exactly when, after the last flipped node,
the tree's completeness differs from `shouldCheck`. A node the pass does not
flip can be checked with an unchecked DLC node. Such a node, at or after the
first unchecked node, is "stale", and with one the click unchecks everything
(`ClickOutcome`). The last section records this. Every top-level node is
taken to run the game-node branch of the handler (lines 356-364), as
`ProgramSelection.FromAppId` at line 344 finds a selection for each of them
once pruning (line 313) has dropped the unregistered ones.

## Left out

- **Registry, file system, `libraryfolders.vdf` and manifest parsing:** they
  are inputs (`Host.Machine`); the Gameloop.Vdf parser is not part of this model.
- **`Directory.GetDirectories` on a game folder that throws:** this is not modelled;
  the exception escapes the source's root call. A subfolder that throws is `Unreadable`.
- **SteamCMD:** `GetAppInfo`, `ParseDlcAppIds` and `Setup` are inputs
  (`Discovery.Inputs`). The branch and build id passed to `GetAppInfo` play no part.
- **Discovery.DlcIds:** missing app information is taken to list no DLC. The
  source passes `null` to `SteamCMD.ParseDlcAppIds` (line 165) for a
  candidate with an id of 0 or below, such as the Paradox Launcher. It is
  assumed to answer an empty list, so such a candidate keeps no DLC.
- **Task fan-out:** the `Task.Run` fan-out, `RunningTasks`, `Thread.Sleep`,
  progress reports and `Invoke` marshalling are omitted. Candidates and DLC are
  processed one after another.
- **Cancellation:** `Program.Canceled` is one boolean for the whole scan. The
  per-iteration re-checks therefore agree with the first check.
- **`ProgramSelection` internals:** `FromAppId`, `Validate`, `ValidateAll`,
  `ToggleDlc`, `ToggleAllDlc` and the registry of all selections are not part of
  this model. `AllUsable` and `AllUsableEnabled` are taken as the selections in
  registration order, filtered.
- **Selection lookup:** how a selection is found or created for an admission
  (`FromAppId(appId) ?? new()`) is omitted; `Apply` updates a given selection.
- **Icons:** icon lookups and icon fields (lines 199-207) are omitted.
- Selection.PopulateParadoxLauncherDlc: called without a launcher, the source
  looks up the registered launcher selection (`ProgramSelection.FromAppId(0)`,
  line 439). The model takes the launcher as given and does nothing for `null`,
  because `ProgramSelection`'s registry is not part of this model.
- **Selection.PopulateParadoxLauncherDlc:** a selection whose `AppInfo` is
  `null` makes the source throw. The model reads that as "no publisher".
- **`ExtraSteamAppIdDlc` entries:** each entry holds a copy of a selection's
  DLC dictionary, not a shared reference. Later changes to that dictionary are
  not reflected.
- **Selection.ProgramSelection.MergeDlc:** the dictionary's enumeration order
  is not modelled. Keys are taken in an arbitrary order, which does not change
  the result.
- **The tree view:**
  - the tree view itself (`TreeNodes` gathered in pre-order by
    `GatherTreeNodes`, `Find` by name, `Remove`, `Nodes.Add`) is not modelled
    as mutable objects;
  - node creation, the handlers and pruning are functions on `TreeNodes.TreeNode` values;
  - `Node.Remove` in place and the aliasing of found nodes are therefore not captured.
- **TreeNodes.AllCheckBoxSweep:** it runs one pass. The passes raised through
  line 521 are the function `Click`, not nested calls of the method. A root's
  DLC nodes are summed up in one flag, `complete`.
- **TreeNodes.CheckGameNode:** it states only the node check states. The
  handler's effects on the selection (`ToggleAllDlc` at line 358, `Enabled`
  at line 361) and the button updates at lines 367-368 are not modelled.
- **TreeNodes.SweepTwice:** it and the other `Sweep` lemmas are about the
  top-level check boxes alone. The DLC states that decide whether line 521
  raises a further pass are in `Pass` and `Click`.
- **Libraries.LibraryDirectories:** a `libraryfolders.vdf` that exists but
  cannot be read is read as "no document". In the source, `File.ReadAllText`
  (line 41) throws, and nothing catches it before lines 331-334, which abort
  the scan and may retry it.
- **Manifests.GetGamesFromLibraryDirectory:** a library listing and a manifest
  file are taken as readable. A `Directory.GetFiles` (line 83) or a manifest's
  `File.ReadAllText` (line 87) that throws aborts the whole scan at lines
  331-334 in the source. The model reads such a file as "no document".
- **TreeNodes.Compare:** a node argument that is not a `TreeNode` (the `as`
  cast yielding `null`) is not modelled.
- **`int.TryParse`:** it is modelled with the invariant culture: ASCII digits,
  `-`/`+`, and leading and trailing white space of U+0009-U+000D and space. A
  trailing `\0` and culture-specific signs are not accepted.
- Vdf.Member: a member lookup on a scalar (`VValue`) token yields "absent" here.
  In the source, `property.Value?.path` (line 46) and `result.Value?.appid`
  (lines 90-93, 99) go through the dynamic binder, which would most likely throw
  on a scalar rather than yield `null`. One example is the older
  `libraryfolders.vdf` layout of `"1" "D:\\Library"` entries. The Gameloop.Vdf
  library is not part of this model.
- Vdf.AsText: `?.ToString()` of an object (`VObject`) token is its serialized
  text in the source. The model reads it as "absent". A manifest whose `appid`,
  `installdir`, `name` or `buildid` is an object is therefore skipped, and an
  object `betakey` falls back to `public`. The source would read that text
  instead.
- Selection.ProgramSelection.constructor: the initial values it states for the
  fields other than the DLC dictionaries and the extra-DLC list are the .NET
  defaults of a new object, with `null` strings as empty text.
  `ProgramSelection`'s own source is not part of this model.
- **File names:** they compare case-sensitively. `.ACF` is therefore not an
  `.acf` manifest here; the source's `==` on extensions is also case-sensitive.
- **`Program.IsGameBlocked`:** it is an input, the set of blocked (name, folder) pairs.
- **UI:** buttons, labels, dialogs, context menus, the `FileSystemWatcher`, the
  `goto retry` loop and `OnAccept` are omitted.

## Findings

| source | as written | input that shows it | evidently intended | confidence | as-written member | corrected member |
|---|---|---|---|---|---|---|
| CreamInstaller/Forms/SelectForm.cs:239 | a DLC node is checked when the selection holds the pair (id, name), so its stored name must equal the newly resolved one | DLC 5 selected as "Old", resolved now as "New", all-checkbox unchecked: the DLC stays selected but its node is shown unchecked | the node is checked exactly when the DLC is selected (its id is in `SelectedSteamDlc`) | low, not executed | TreeNodes.RenamedDlcShownUnchecked | TreeNodes.DlcNodeAfterMerge |
| CreamInstaller/Forms/SelectForm.cs:506-521 | the sweep decides from the top-level boxes alone, while the box it leaves and line 521's re-raise depend on every DLC node | an unchecked game, then a checked game with an unchecked DLC: the user clicks the box to check everything, and the first pass checks both games, but the second game still has an unchecked DLC, so line 521 raises a second pass that unchecks everything | the click checks every game and DLC when some were unchecked, and unchecks them all otherwise | medium, not executed | TreeNodes.ClickCanUncheckEverything | TreeNodes.IntendedClick |
