/**
 * `GetCreamApiApplicablePrograms` (SelectForm.cs, lines 127-246), run one
 * candidate after another: the candidate list (the Paradox Launcher folder,
 * then the games of every Steam library), and for each candidate the rules
 * that drop it or admit it with its marker directories and resolved DLC.
 * SteamCMD's answers are inputs.
 */
module Discovery {
  import opened Wrappers
  import opened Text
  import opened Vdf
  import opened Host
  import opened Seqs
  import opened Libraries
  import opened Manifests
  import opened Markers

  const LauncherSuffix := "\\Programs\\Paradox Interactive"
  const LauncherName := "Paradox Launcher"

  /** What SteamCMD reports for one app: its `appinfo` tree and the DLC ids
      `ParseDlcAppIds` extracts from it. */
  datatype AppInfo = AppInfo(info: Property, dlcIds: seq<int>)

  /** The inputs the per-candidate task consults: the folder tree of each
      existing game directory, SteamCMD's app information by app id, and the
      protected-games filter. */
  datatype Inputs = Inputs(
    trees: map<string, Dir>,
    apps: map<int, AppInfo>,
    blockProtectedGames: bool,
    blocked: set<(string, string)>   // (name, directory) pairs `Program.IsGameBlocked` accepts
  )

  /** A candidate that survived every drop rule. */
  datatype Admission = Admission(
    appId: int, name: string, directory: string,
    dllDirectories: seq<string>, appInfo: Option<AppInfo>, dlc: map<int, string>)

  function LauncherDirectory(m: Machine): string {
    m.localApplicationData + LauncherSuffix
  }

  /** The launcher's entry, when its folder exists: app id 0, no branch, build 0. */
  function LauncherCandidates(m: Machine): seq<Candidate> {
    if DirectoryExists(m, LauncherDirectory(m)) then [Candidate(0, LauncherName, "", 0, LauncherDirectory(m))] else []
  }

  /** The games of one library; a "none found" answer adds nothing. */
  function GamesOf(m: Machine, canceled: bool): string -> seq<Candidate> {
    library => GameList(LibraryGames(m, library, canceled))
  }

  function GameList(games: Option<seq<Candidate>>): seq<Candidate> {
    if games.Some? then games.value else []
  }

  /** The applicable-program list of lines 129-139, as a function of the machine. */
  function ApplicableCandidates(m: Machine, canceled: bool): seq<Candidate> {
    if canceled then [] else LauncherCandidates(m) + FlatMap(GamesOf(m, canceled), LibraryDirectories(m, canceled))
  }

  /** The list holds the launcher (first, when its folder exists) and exactly
      the games found in the Steam libraries. */
  lemma ApplicableCandidatesIff(m: Machine, c: Candidate)
    ensures var r := ApplicableCandidates(m, false);
      && (DirectoryExists(m, LauncherDirectory(m)) ==> r[0] == Candidate(0, LauncherName, "", 0, LauncherDirectory(m)))
      && (c in r <==>
            (|| c in LauncherCandidates(m)
             || exists i | 0 <= i < |LibraryDirectories(m, false)| ::
                  c in Candidates(m, LibraryDirectories(m, false)[i], GetFiles(m, LibraryDirectories(m, false)[i]))))
  {
    var libs := LibraryDirectories(m, false);
    var games := FlatMap(GamesOf(m, false), libs);
    assert ApplicableCandidates(m, false) == LauncherCandidates(m) + games;
    LibraryDirectoriesShape(m, false);
    FoundGamesIff(m, libs, c);
  }

  /** A game is among those of a list of existing libraries exactly when
      one of their manifests yields it. */
  lemma FoundGamesIff(m: Machine, libs: seq<string>, c: Candidate)
    requires forall i | 0 <= i < |libs| :: DirectoryExists(m, libs[i])
    ensures c in FlatMap(GamesOf(m, false), libs) <==>
      exists i | 0 <= i < |libs| :: c in Candidates(m, libs[i], GetFiles(m, libs[i]))
  {
    FlatMapIff(GamesOf(m, false), libs, c);
    if c in FlatMap(GamesOf(m, false), libs) {
      var i :| 0 <= i < |libs| && c in GamesOf(m, false)(libs[i]);
      GamesOfLibrary(m, libs[i]);
    }
    if exists i | 0 <= i < |libs| :: c in Candidates(m, libs[i], GetFiles(m, libs[i])) {
      var i :| 0 <= i < |libs| && c in Candidates(m, libs[i], GetFiles(m, libs[i]));
      GamesOfLibrary(m, libs[i]);
    }
  }

  /** The games of an existing library are its manifests' candidates. */
  lemma GamesOfLibrary(m: Machine, library: string)
    requires DirectoryExists(m, library)
    ensures GamesOf(m, false)(library) == Candidates(m, library, GetFiles(m, library))
  {
  }

  /** The source's list building: the launcher first, then each library's games. */
  method GetApplicablePrograms(m: Machine, canceled: bool) returns (applicablePrograms: seq<Candidate>)
    ensures applicablePrograms == ApplicableCandidates(m, canceled)
  {
    if canceled {
      return [];
    }
    applicablePrograms := [];
    var launcherRootDirectory := m.localApplicationData + LauncherSuffix;
    if DirectoryExists(m, launcherRootDirectory) {
      applicablePrograms := applicablePrograms + [Candidate(0, LauncherName, "", 0, launcherRootDirectory)];
    }
    var gameLibraryDirectories := GameLibraryDirectories(m, canceled);
    applicablePrograms := AddLibraryGames(m, canceled, gameLibraryDirectories, applicablePrograms);
  }

  /** One turn of the loop over the libraries. */
  lemma GamesStep(m: Machine, canceled: bool, libraries: seq<string>, i: nat, seed: seq<Candidate>,
                  found: seq<Candidate>, games: Option<seq<Candidate>>)
    requires i < |libraries| && games == LibraryGames(m, libraries[i], canceled)
    requires found == seed + FlatMap(GamesOf(m, canceled), libraries[..i])
    ensures found + GameList(games) == seed + FlatMap(GamesOf(m, canceled), libraries[..i + 1])
  {
    var f := GamesOf(m, canceled);
    assert f(libraries[i]) == GameList(games);
    FlatMapStep(f, libraries, i);
    AppendAssociative(seed, FlatMap(f, libraries[..i]), GameList(games));
  }

  /** The `foreach` over the library folders (lines 134-139). */
  method AddLibraryGames(m: Machine, canceled: bool, gameLibraryDirectories: seq<string>, seed: seq<Candidate>)
    returns (applicablePrograms: seq<Candidate>)
    ensures applicablePrograms == seed + FlatMap(GamesOf(m, canceled), gameLibraryDirectories)
  {
    applicablePrograms := seed;
    var i := 0;
    while i < |gameLibraryDirectories|
      invariant 0 <= i <= |gameLibraryDirectories|
      invariant applicablePrograms == seed + FlatMap(GamesOf(m, canceled), gameLibraryDirectories[..i])
    {
      var games := GetGamesFromLibraryDirectory(m, gameLibraryDirectories[i], canceled);
      GamesStep(m, canceled, gameLibraryDirectories, i, seed, applicablePrograms, games);
      if games.Some? {
        applicablePrograms := applicablePrograms + games.value;
      } else {
        assert applicablePrograms + GameList(games) == applicablePrograms;
      }
      i := i + 1;
    }
    assert gameLibraryDirectories[..i] == gameLibraryDirectories;
  }

  /** The folder tree of a directory; absent when it does not exist. */
  function Tree(inputs: Inputs, directory: string): Option<Dir> {
    if directory in inputs.trees then Some(inputs.trees[directory]) else None
  }

  /** `SteamCMD.GetAppInfo`: absent when SteamCMD has nothing for the id. */
  function GetAppInfo(inputs: Inputs, appId: int): Option<AppInfo> {
    if appId in inputs.apps then Some(inputs.apps[appId]) else None
  }

  /** `SteamCMD.ParseDlcAppIds`; no app information lists no DLC. */
  function DlcIds(appInfo: Option<AppInfo>): seq<int> {
    if appInfo.None? then [] else appInfo.value.dlcIds
  }

  /** The name of a DLC: `common.name` of its own app information. */
  function DlcName(inputs: Inputs, id: int): Option<string> {
    match GetAppInfo(inputs, id)
    case None => None
    case Some(dlcAppInfo) => AsText(Member(Member(Some(dlcAppInfo.info.value), "common"), "name"))
  }

  predicate Named(inputs: Inputs, id: int) {
    !IsNullOrWhiteSpace(DlcName(inputs, id))
  }

  /** The DLC dictionary the per-DLC tasks fill: every listed id whose name
      is not blank, with that name; the others are left out. */
  function ResolvedDlc(inputs: Inputs, ids: seq<int>): map<int, string> {
    map id | id in ids && Named(inputs, id) :: DlcName(inputs, id).value
  }

  /** The drop rules of lines 151-190 in source order; `None` when dropped. */
  function Admit(inputs: Inputs, c: Candidate, canceled: bool): Option<Admission> {
    if canceled then None
    else if inputs.blockProtectedGames && (c.name, c.directory) in inputs.blocked then None
    else match MarkerDirectories(Tree(inputs, c.directory), canceled)
      case None => None
      case Some(dllDirectories) =>
        var appInfo := if c.appId > 0 then GetAppInfo(inputs, c.appId) else None;
        if c.appId > 0 && appInfo.None? then None
        else
          var ids := DlcIds(appInfo);
          if ids == [] && c.appId > 0 then None
          else if IsBlank(c.name) then None
          else Some(Admission(c.appId, c.name, c.directory, dllDirectories, appInfo, ResolvedDlc(inputs, ids)))
  }

  /** A candidate is admitted exactly when it is not cancelled or blocked, its
      folder holds marker directories, a positive app id has SteamCMD
      information listing at least one DLC, and its name is not blank; the
      names of the DLC play no part. The admission carries the candidate's
      fields and the marker directories. */
  lemma AdmitIff(inputs: Inputs, c: Candidate, canceled: bool)
    ensures var r := Admit(inputs, c, canceled);
      && (r.Some? <==>
            && !canceled
            && !(inputs.blockProtectedGames && (c.name, c.directory) in inputs.blocked)
            && c.directory in inputs.trees && Hits(inputs.trees[c.directory]) != []
            && (c.appId > 0 ==> c.appId in inputs.apps && inputs.apps[c.appId].dlcIds != [])
            && !IsBlank(c.name))
      && (r.Some? ==> r.value.appId == c.appId && r.value.name == c.name && r.value.directory == c.directory
                      && r.value.dllDirectories == Hits(inputs.trees[c.directory]))
  {
  }

  /** The DLC of an admission: exactly the listed ids with a non-blank name,
      each with that name; a DLC with a blank name is omitted. An app id that
      is not positive (the launcher's 0) has no app information and no DLC. */
  lemma AdmittedDlc(inputs: Inputs, c: Candidate, canceled: bool)
    requires Admit(inputs, c, canceled).Some?
    ensures var a := Admit(inputs, c, canceled).value;
      && (c.appId <= 0 ==> a.appInfo.None? && a.dlc == map[])
      && (c.appId > 0 ==> a.appInfo == Some(inputs.apps[c.appId]))
      && (forall id :: id in a.dlc <==> id in DlcIds(a.appInfo) && Named(inputs, id))
      && (forall id | id in a.dlc :: a.dlc[id] == DlcName(inputs, id).value && !IsBlank(a.dlc[id]))
  {
  }

  /** The per-DLC lookups (lines 166-185), one after another. */
  method ResolveDlc(inputs: Inputs, dlcIds: seq<int>) returns (dlc: map<int, string>)
    ensures dlc == ResolvedDlc(inputs, dlcIds)
  {
    dlc := map[];
    var i := 0;
    while i < |dlcIds|
      invariant 0 <= i <= |dlcIds|
      invariant dlc == ResolvedDlc(inputs, dlcIds[..i])
    {
      var id := dlcIds[i];
      ResolvedStep(inputs, dlcIds, i);
      var dlcName: Option<string> := None;
      var dlcAppInfo := GetAppInfo(inputs, id);
      if dlcAppInfo.Some? {
        dlcName := AsText(Member(Member(Some(dlcAppInfo.value.info.value), "common"), "name"));
      }
      assert dlcName == DlcName(inputs, id);
      if !IsNullOrWhiteSpace(dlcName) {
        dlc := dlc[id := dlcName.value];
      }
      i := i + 1;
    }
    assert dlcIds[..i] == dlcIds;
  }

  /** One more listed id adds its entry when it is named. */
  lemma ResolvedStep(inputs: Inputs, ids: seq<int>, i: nat)
    requires i < |ids|
    ensures ResolvedDlc(inputs, ids[..i + 1]) ==
      if Named(inputs, ids[i]) then ResolvedDlc(inputs, ids[..i])[ids[i] := DlcName(inputs, ids[i]).value]
      else ResolvedDlc(inputs, ids[..i])
  {
    assert forall k :: k in ids[..i + 1] <==> k in ids[..i] || k == ids[i] by {
      assert ids[..i + 1] == ids[..i] + [ids[i]];
    }
  }

  /** The task body for one candidate (lines 151-190), with its early returns. */
  method ProcessCandidate(inputs: Inputs, c: Candidate, canceled: bool) returns (admission: Option<Admission>)
    ensures admission == Admit(inputs, c, canceled)
  {
    if canceled {
      return None;
    }
    if inputs.blockProtectedGames && (c.name, c.directory) in inputs.blocked {
      return None;
    }
    var dllDirectories := GetDllDirectoriesFromGameDirectory(Tree(inputs, c.directory), canceled);
    if dllDirectories.None? {
      return None;
    }
    var appInfo: Option<AppInfo> := None;
    if c.appId > 0 {
      appInfo := GetAppInfo(inputs, c.appId);
    }
    if c.appId > 0 && appInfo.None? {
      return None;
    }
    var dlcIds := DlcIds(appInfo);
    var dlc: map<int, string> := map[];
    if |dlcIds| > 0 {
      dlc := ResolveDlc(inputs, dlcIds);
    } else if c.appId > 0 {
      return None;
    }
    if IsBlank(c.name) {
      return None;
    }
    assert dlcIds == [] ==> ResolvedDlc(inputs, dlcIds) == map[];
    return Some(Admission(c.appId, c.name, c.directory, dllDirectories.value, appInfo, dlc));
  }

  /** `Admit` as a value, for `FlatMap`. */
  function AdmitOf(inputs: Inputs, canceled: bool): Candidate -> seq<Admission> {
    c => match Admit(inputs, c, canceled) case None => [] case Some(a) => [a]
  }

  /** The admissions of a candidate list, in list order. */
  function Admitted(inputs: Inputs, candidates: seq<Candidate>, canceled: bool): seq<Admission> {
    FlatMap(AdmitOf(inputs, canceled), candidates)
  }

  /** The loop over the candidates (lines 142-247) without the task fan-out:
      a cancelled scan admits nothing, and a dropped candidate does not stop the others. */
  method AdmitCandidates(inputs: Inputs, candidates: seq<Candidate>, canceled: bool)
    returns (admitted: seq<Admission>)
    ensures admitted == Admitted(inputs, candidates, canceled)
    ensures canceled ==> admitted == []
  {
    admitted := [];
    var i := 0;
    while i < |candidates|
      invariant 0 <= i <= |candidates|
      invariant admitted == Admitted(inputs, candidates[..i], canceled)
      invariant canceled ==> admitted == []
    {
      FlatMapStep(AdmitOf(inputs, canceled), candidates, i);
      var admission := ProcessCandidate(inputs, candidates[i], canceled);
      if admission.Some? {
        admitted := admitted + [admission.value];
      }
      i := i + 1;
    }
    assert candidates[..i] == candidates;
  }

  /** A candidate is admitted in the list exactly when it is admitted on its own. */
  lemma AdmittedIff(inputs: Inputs, candidates: seq<Candidate>, canceled: bool, a: Admission)
    ensures a in Admitted(inputs, candidates, canceled) <==>
      exists i | 0 <= i < |candidates| :: Admit(inputs, candidates[i], canceled) == Some(a)
  {
    FlatMapIff(AdmitOf(inputs, canceled), candidates, a);
    if a in Admitted(inputs, candidates, canceled) {
      var i :| 0 <= i < |candidates| && a in AdmitOf(inputs, canceled)(candidates[i]);
      assert Admit(inputs, candidates[i], canceled) == Some(a);
    }
    if exists i | 0 <= i < |candidates| :: Admit(inputs, candidates[i], canceled) == Some(a) {
      var i :| 0 <= i < |candidates| && Admit(inputs, candidates[i], canceled) == Some(a);
      assert a in AdmitOf(inputs, canceled)(candidates[i]);
    }
  }
}
