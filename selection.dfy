/**
 * The state of one program the user can select (`ProgramSelection`) as the
 * scan writes it: the admission's fields, the DLC merge of lines 231-235, and
 * `PopulateParadoxLauncherDlc` (lines 437-457), which rebuilds the Paradox
 * Launcher's list of extra DLC from the other selections.
 */
module Selection {
  import opened Wrappers
  import opened Vdf
  import opened Discovery

  const ParadoxPublisher := "Paradox Interactive"

  /** One entry of `ExtraSteamAppIdDlc`: a game's app id, name and DLC. */
  datatype ExtraDlc = ExtraDlc(appId: int, name: string, dlc: map<int, string>)

  class ProgramSelection {
    var enabled: bool
    var usable: bool
    var steamAppId: int
    var name: string
    var rootDirectory: string
    var dllDirectories: seq<string>
    var appInfo: Option<AppInfo>
    var allDlc: map<int, string>        // AllSteamDlc
    var selectedDlc: map<int, string>   // SelectedSteamDlc
    var extraDlc: seq<ExtraDlc>         // ExtraSteamAppIdDlc

    /** Only known DLC can be selected. */
    predicate Valid()
      reads this
    {
      selectedDlc.Keys <= allDlc.Keys
    }

    /** `new()`: nothing selected, nothing known. */
    constructor ()
      ensures !enabled && !usable && steamAppId == 0 && name == "" && rootDirectory == ""
      ensures dllDirectories == [] && appInfo.None?
      ensures allDlc == map[] && selectedDlc == map[] && extraDlc == []
      ensures Valid()
    {
      enabled := false;
      usable := false;
      steamAppId := 0;
      name := "";
      rootDirectory := "";
      dllDirectories := [];
      appInfo := None;
      allDlc := map[];
      selectedDlc := map[];
      extraDlc := [];
    }

    /** The DLC merge (lines 233-235): every resolved DLC becomes known under
        its name, and is also selected when the all-checkbox is checked. */
    method MergeDlc(dlc: map<int, string>, allChecked: bool)
      modifies this`allDlc, this`selectedDlc
      ensures allDlc == old(allDlc) + dlc
      ensures selectedDlc == if allChecked then old(selectedDlc) + dlc else old(selectedDlc)
      ensures old(Valid()) ==> Valid()
    {
      var pending := dlc.Keys;
      while pending != {}
        invariant pending <= dlc.Keys
        invariant allDlc == old(allDlc) + Merged(dlc, pending)
        invariant selectedDlc == if allChecked then old(selectedDlc) + Merged(dlc, pending) else old(selectedDlc)
        decreases pending
      {
        HasElement(pending);
        var key :| key in pending;
        MergedStep(dlc, pending, key);
        UpdateMerge(allDlc, old(allDlc), Merged(dlc, pending), key, dlc[key]);
        allDlc := allDlc[key := dlc[key]];
        if allChecked {
          UpdateMerge(selectedDlc, old(selectedDlc), Merged(dlc, pending), key, dlc[key]);
          selectedDlc := selectedDlc[key := dlc[key]];
        }
        pending := pending - {key};
      }
      assert Merged(dlc, pending) == dlc;
    }

    /** The entries of `dlc` the merge has written while `pending` remain. */
    static function Merged(dlc: map<int, string>, pending: set<int>): map<int, string> {
      map k | k in dlc.Keys - pending :: dlc[k]
    }

    /** Writing one more pending key adds its entry to what is merged. */
    static lemma MergedStep(dlc: map<int, string>, pending: set<int>, key: int)
      requires key in pending && pending <= dlc.Keys
      ensures Merged(dlc, pending - {key}) == Merged(dlc, pending)[key := dlc[key]]
    {
    }

    static lemma UpdateMerge(current: map<int, string>, base: map<int, string>, merged: map<int, string>, key: int, value: string)
      requires current == base + merged
      ensures current[key := value] == base + merged[key := value]
    {
    }

    /** A set other than the empty set has an element. */
    static lemma HasElement(keys: set<int>)
      requires keys != {}
      ensures exists k :: k in keys
    {
      if forall k :: k !in keys {
        assert false;
      }
    }

    /** An admitted candidate updates its selection (lines 192-205 and
        231-235): usable, with the candidate's id, name, folder, marker
        directories and app information, enabled when the all-checkbox is
        checked, and, except for the launcher (id 0), with its DLC merged. */
    method Apply(a: Admission, allChecked: bool)
      modifies this`usable, this`steamAppId, this`name, this`rootDirectory, this`dllDirectories,
               this`appInfo, this`enabled, this`allDlc, this`selectedDlc
      ensures usable && steamAppId == a.appId && name == a.name && rootDirectory == a.directory
      ensures dllDirectories == a.dllDirectories && appInfo == a.appInfo
      ensures enabled == (old(enabled) || allChecked)
      ensures allDlc == if a.appId == 0 then old(allDlc) else old(allDlc) + a.dlc
      ensures selectedDlc == if a.appId != 0 && allChecked then old(selectedDlc) + a.dlc else old(selectedDlc)
      ensures old(Valid()) ==> Valid()
    {
      usable := true;
      steamAppId := a.appId;
      name := a.name;
      rootDirectory := a.directory;
      dllDirectories := a.dllDirectories;
      appInfo := a.appInfo;
      if allChecked {
        enabled := true;
      }
      if a.appId != 0 {
        MergeDlc(a.dlc, allChecked);
      }
    }
  }

  /** The part of a selection `PopulateParadoxLauncherDlc` reads. */
  datatype View = View(appId: int, name: string, usable: bool, enabled: bool, publisher: Option<string>,
                       selectedDlc: map<int, string>, allDlc: map<int, string>)

  /** `AppInfo.Value?.extended?.publisher`. */
  function Publisher(appInfo: Option<AppInfo>): Option<string> {
    if appInfo.None? then None else AsText(Member(Member(Some(appInfo.value.info.value), "extended"), "publisher"))
  }

  function ViewOf(s: ProgramSelection): View
    reads s`steamAppId, s`name, s`usable, s`enabled, s`appInfo, s`selectedDlc, s`allDlc
  {
    View(s.steamAppId, s.name, s.usable, s.enabled, Publisher(s.appInfo), s.selectedDlc, s.allDlc)
  }

  /** A launcher entry is made for a selection with another name than the
      launcher's whose publisher is exactly Paradox Interactive. */
  predicate ParadoxGame(v: View, launcherName: string) {
    v.name != launcherName && v.publisher == Some(ParadoxPublisher)
  }

  /** One pass of `PopulateParadoxLauncherDlc` over `views`: from the usable
      and enabled selections with their selected DLC (`fromSelected`), or
      from all usable ones with their full DLC. */
  function ParadoxEntries(views: seq<View>, launcherName: string, fromSelected: bool): seq<ExtraDlc> {
    if views == [] then []
    else
      var v := views[|views| - 1];
      var rest := ParadoxEntries(views[..|views| - 1], launcherName, fromSelected);
      if v.usable && (v.enabled || !fromSelected) && ParadoxGame(v, launcherName)
      then rest + [ExtraDlc(v.appId, v.name, if fromSelected then v.selectedDlc else v.allDlc)]
      else rest
  }

  /** The launcher's list: the first pass, or the fallback pass when the first finds nothing. */
  function ParadoxDlc(views: seq<View>, launcherName: string): seq<ExtraDlc> {
    var primary := ParadoxEntries(views, launcherName, true);
    if primary != [] then primary else ParadoxEntries(views, launcherName, false)
  }

  /** An entry of a pass comes from a qualifying selection, with its id, its
      name and the DLC that pass takes, and every qualifying selection yields one. */
  lemma {:induction false} ParadoxEntriesIff(views: seq<View>, launcherName: string, fromSelected: bool, e: ExtraDlc)
    ensures e in ParadoxEntries(views, launcherName, fromSelected) <==>
      exists i | 0 <= i < |views| ::
        && views[i].usable && (views[i].enabled || !fromSelected) && ParadoxGame(views[i], launcherName)
        && e == ExtraDlc(views[i].appId, views[i].name, if fromSelected then views[i].selectedDlc else views[i].allDlc)
  {
    if views != [] {
      var n := |views| - 1;
      var init := views[..n];
      ParadoxEntriesIff(init, launcherName, fromSelected, e);
      if exists i | 0 <= i < |views| ::
        && views[i].usable && (views[i].enabled || !fromSelected) && ParadoxGame(views[i], launcherName)
        && e == ExtraDlc(views[i].appId, views[i].name, if fromSelected then views[i].selectedDlc else views[i].allDlc)
      {
        var i :| 0 <= i < |views|
          && views[i].usable && (views[i].enabled || !fromSelected) && ParadoxGame(views[i], launcherName)
          && e == ExtraDlc(views[i].appId, views[i].name, if fromSelected then views[i].selectedDlc else views[i].allDlc);
        if i < n {
          assert init[i] == views[i];
        }
      }
      if e in ParadoxEntries(init, launcherName, fromSelected) {
        var i :| 0 <= i < n
          && init[i].usable && (init[i].enabled || !fromSelected) && ParadoxGame(init[i], launcherName)
          && e == ExtraDlc(init[i].appId, init[i].name, if fromSelected then init[i].selectedDlc else init[i].allDlc);
        assert init[i] == views[i];
      }
    }
  }

  /** The fallback is taken exactly when no usable, enabled selection is a
      Paradox game; it then lists every usable Paradox game with all its DLC.
      The launcher never lists itself by name. */
  lemma ParadoxDlcShape(views: seq<View>, launcherName: string)
    ensures var r := ParadoxDlc(views, launcherName);
      && ((exists i | 0 <= i < |views| :: views[i].usable && views[i].enabled && ParadoxGame(views[i], launcherName))
            ==> r == ParadoxEntries(views, launcherName, true))
      && ((forall i | 0 <= i < |views| :: !(views[i].usable && views[i].enabled && ParadoxGame(views[i], launcherName)))
            ==> r == ParadoxEntries(views, launcherName, false))
      && (forall e | e in r :: e.name != launcherName)
  {
    var primary := ParadoxEntries(views, launcherName, true);
    if exists i | 0 <= i < |views| :: views[i].usable && views[i].enabled && ParadoxGame(views[i], launcherName) {
      var i :| 0 <= i < |views| && views[i].usable && views[i].enabled && ParadoxGame(views[i], launcherName);
      ParadoxEntriesIff(views, launcherName, true, ExtraDlc(views[i].appId, views[i].name, views[i].selectedDlc));
    } else if primary != [] {
      ParadoxEntriesIff(views, launcherName, true, primary[0]);
    }
    var r := ParadoxDlc(views, launcherName);
    forall e | e in r
      ensures e.name != launcherName
    {
      ParadoxEntriesIff(views, launcherName, primary != [], e);
    }
  }

  /** The source's rebuild of the launcher's list from the registered selections. */
  method PopulateParadoxLauncherDlc(paradoxLauncher: ProgramSelection?, all: seq<ProgramSelection>)
    modifies if paradoxLauncher != null then {paradoxLauncher} else {}
    ensures paradoxLauncher != null ==> paradoxLauncher.extraDlc == ParadoxDlc(old(Views(all)), paradoxLauncher.name)
    ensures paradoxLauncher != null ==>
      && paradoxLauncher.enabled == old(paradoxLauncher.enabled) && paradoxLauncher.usable == old(paradoxLauncher.usable)
      && paradoxLauncher.steamAppId == old(paradoxLauncher.steamAppId) && paradoxLauncher.name == old(paradoxLauncher.name)
      && paradoxLauncher.rootDirectory == old(paradoxLauncher.rootDirectory)
      && paradoxLauncher.dllDirectories == old(paradoxLauncher.dllDirectories)
      && paradoxLauncher.appInfo == old(paradoxLauncher.appInfo)
      && paradoxLauncher.allDlc == old(paradoxLauncher.allDlc) && paradoxLauncher.selectedDlc == old(paradoxLauncher.selectedDlc)
    ensures paradoxLauncher != null && old(paradoxLauncher.Valid()) ==> paradoxLauncher.Valid()
  {
    if paradoxLauncher == null {
      return;
    }
    ParadoxPass(paradoxLauncher, all, true);
    if paradoxLauncher.extraDlc == [] {
      ParadoxPass(paradoxLauncher, all, false);
    }
  }

  /** The selections as the scan reads them, in registration order. */
  function Views(all: seq<ProgramSelection>): (r: seq<View>)
    reads all`steamAppId, all`name, all`usable, all`enabled, all`appInfo, all`selectedDlc, all`allDlc
    decreases |all|
    ensures |r| == |all|
  {
    if all == [] then [] else Views(all[..|all| - 1]) + [ViewOf(all[|all| - 1])]
  }

  lemma {:induction false} ViewsAt(all: seq<ProgramSelection>, i: nat)
    requires i < |all|
    ensures Views(all)[i] == ViewOf(all[i])
    decreases |all|
  {
    if i < |all| - 1 {
      ViewsAt(all[..|all| - 1], i);
    }
  }

  /** The entry a pass makes for one selection, if any. */
  function ParadoxEntry(v: View, launcherName: string, fromSelected: bool): seq<ExtraDlc> {
    if v.usable && (v.enabled || !fromSelected) && ParadoxGame(v, launcherName)
    then [ExtraDlc(v.appId, v.name, if fromSelected then v.selectedDlc else v.allDlc)]
    else []
  }

  lemma ParadoxStep(views: seq<View>, launcherName: string, fromSelected: bool, i: nat)
    requires i < |views|
    ensures ParadoxEntries(views[..i + 1], launcherName, fromSelected)
         == ParadoxEntries(views[..i], launcherName, fromSelected) + ParadoxEntry(views[i], launcherName, fromSelected)
  {
    assert views[..i + 1][..i] == views[..i];
  }

  /** One `foreach` of `PopulateParadoxLauncherDlc`; the first pass starts by
      clearing the list. */
  method ParadoxPass(paradoxLauncher: ProgramSelection, all: seq<ProgramSelection>, fromSelected: bool)
    modifies paradoxLauncher`extraDlc
    requires !fromSelected ==> paradoxLauncher.extraDlc == []
    ensures paradoxLauncher.extraDlc == ParadoxEntries(old(Views(all)), paradoxLauncher.name, fromSelected)
  {
    ghost var views := Views(all);
    forall j | 0 <= j < |all|
      ensures views[j] == ViewOf(all[j])
    {
      ViewsAt(all, j);
    }
    var launcherName := paradoxLauncher.name;
    paradoxLauncher.extraDlc := [];
    var i := 0;
    while i < |all|
      invariant 0 <= i <= |all|
      invariant paradoxLauncher.extraDlc == ParadoxEntries(views[..i], launcherName, fromSelected)
    {
      ParadoxStep(views, launcherName, fromSelected, i);
      assert views[i] == ViewOf(all[i]) by {
        assert old(ViewOf(all[i])) == ViewOf(all[i]);
      }
      AddParadoxEntry(paradoxLauncher, all[i], launcherName, fromSelected);
      i := i + 1;
    }
    assert views[..i] == views;
  }

  /** The body of that `foreach` for one selection: its entry is added when it qualifies. */
  method AddParadoxEntry(paradoxLauncher: ProgramSelection, selection: ProgramSelection, launcherName: string, fromSelected: bool)
    modifies paradoxLauncher`extraDlc
    ensures paradoxLauncher.extraDlc == old(paradoxLauncher.extraDlc) + ParadoxEntry(old(ViewOf(selection)), launcherName, fromSelected)
  {
    if selection.usable && (selection.enabled || !fromSelected)
       && selection.name != launcherName && Publisher(selection.appInfo) == Some(ParadoxPublisher) {
      var dlc := if fromSelected then selection.selectedDlc else selection.allDlc;
      paradoxLauncher.extraDlc := paradoxLauncher.extraDlc + [ExtraDlc(selection.steamAppId, selection.name, dlc)];
    }
  }
}
