/**
 * `GameLibraryDirectories` (SelectForm.cs, lines 28-55): the Steam library
 * folders to scan. Steam's own `steamapps` folder comes first, then every
 * existing `<path>\steamapps` named by a numerically keyed entry of
 * `libraryfolders.vdf`, each once, in the order first seen.
 */
module Libraries {
  import opened Wrappers
  import opened Text
  import opened Paths
  import opened Vdf
  import opened Host
  import opened Seqs

  const SteamAppsSuffix := "\\steamapps"
  const LibraryFoldersFile := "\\libraryfolders.vdf"

  /** The library named by one `libraryfolders.vdf` entry, when its key is
      numeric, its `path` is not blank, and `<path>\steamapps` exists. */
  function EntryLibrary(m: Machine, entry: Property): (r: seq<string>)
    ensures |r| <= 1
  {
    if TryParseInt32(entry.key).None? then []
    else
      var path := AsText(Member(Some(entry.value), "path"));
      if IsNullOrWhiteSpace(path) then []
      else if DirectoryExists(m, path.value + SteamAppsSuffix) then [path.value + SteamAppsSuffix]
      else []
  }

  /** `EntryLibrary` as a value, for `FlatMap`. */
  function EntryLibraryOf(m: Machine): Property -> seq<string> {
    entry => EntryLibrary(m, entry)
  }

  /** The existing libraries the entries name, in entry order, repetitions included. */
  function ListedLibraries(m: Machine, entries: seq<Property>): seq<string> {
    FlatMap(EntryLibraryOf(m), entries)
  }

  lemma ListedLibrariesIff(m: Machine, entries: seq<Property>, p: string)
    ensures p in ListedLibraries(m, entries) <==>
      exists i | 0 <= i < |entries| :: EntryLibrary(m, entries[i]) == [p]
  {
    FlatMapIff(EntryLibraryOf(m), entries, p);
    if p in ListedLibraries(m, entries) {
      var i :| 0 <= i < |entries| && p in EntryLibraryOf(m)(entries[i]);
      assert EntryLibrary(m, entries[i]) == [p];
    }
    if exists i | 0 <= i < |entries| :: EntryLibrary(m, entries[i]) == [p] {
      var i :| 0 <= i < |entries| && EntryLibrary(m, entries[i]) == [p];
      assert p in EntryLibraryOf(m)(entries[i]);
    }
  }

  /** The registry value that is read: the Wow6432Node one only when the first is absent. */
  function SteamInstallPath(m: Machine): Option<string> {
    if m.steamInstallPath.Some? then m.steamInstallPath else m.steamInstallPathWow64
  }

  /** The top-level properties of `libraryfolders.vdf` in `libraryFolder`. */
  function LibraryFolderEntries(m: Machine, libraryFolder: string): seq<Property> {
    match ReadDocument(m, libraryFolder + LibraryFoldersFile)
    case None => []
    case Some(document) => Children(document.value)
  }

  /** The library list, as a function of the machine. */
  function LibraryDirectories(m: Machine, canceled: bool): seq<string> {
    if canceled then []
    else match SteamInstallPath(m)
      case None => []
      case Some(install) =>
        var libraryFolder := install + SteamAppsSuffix;
        if !DirectoryExists(m, install) || !DirectoryExists(m, libraryFolder) then []
        else Dedup([libraryFolder] + ListedLibraries(m, LibraryFolderEntries(m, libraryFolder)))
  }

  /** What the list promises: Steam's own `steamapps` folder first, no
      repetitions, and after it exactly the other existing libraries that
      `libraryfolders.vdf` names, in the order they are first named. */
  lemma LibraryDirectoriesShape(m: Machine, canceled: bool)
    ensures var r := LibraryDirectories(m, canceled);
      && Distinct(r)
      && (r != [] <==> !canceled && SteamInstallPath(m).Some?
                       && DirectoryExists(m, SteamInstallPath(m).value)
                       && DirectoryExists(m, SteamInstallPath(m).value + SteamAppsSuffix))
      && (r != [] ==> r[0] == SteamInstallPath(m).value + SteamAppsSuffix)
      && (r != [] ==> forall p ::
            p in r[1..] <==> p != r[0] && p in ListedLibraries(m, LibraryFolderEntries(m, r[0])))
      && (forall i | 0 <= i < |r| :: EndsWith(r[i], SteamAppsSuffix) && DirectoryExists(m, r[i]))
  {
    var r := LibraryDirectories(m, canceled);
    if r != [] {
      var base := SteamInstallPath(m).value + SteamAppsSuffix;
      var listed := ListedLibraries(m, LibraryFolderEntries(m, base));
      var xs := [base] + listed;
      DedupDistinct(xs);
      DedupHead(xs);
      DedupElements(xs);
      assert r == Dedup(xs);
      forall p ensures p in r[1..] <==> p != r[0] && p in listed {
        if p in r[1..] {
          var k :| 1 <= k < |r| && r[k] == p;
          assert r[k] != r[0];
        }
        if p != r[0] && p in r {
          var k :| 0 <= k < |r| && r[k] == p;
          assert k != 0;
          assert r[1..][k - 1] == p;
        }
      }
      forall i | 0 <= i < |r|
        ensures EndsWith(r[i], SteamAppsSuffix) && DirectoryExists(m, r[i])
      {
        assert r[i] in xs;
        if r[i] != base {
          ListedLibrariesIff(m, LibraryFolderEntries(m, base), r[i]);
        }
      }
    } else {
      var install := SteamInstallPath(m);
      if !canceled && install.Some? && DirectoryExists(m, install.value)
         && DirectoryExists(m, install.value + SteamAppsSuffix) {
        DedupHead([install.value + SteamAppsSuffix] + ListedLibraries(m, LibraryFolderEntries(m, install.value + SteamAppsSuffix)));
      }
    }
  }

  /** The source's loop: Steam's own library first, then each qualifying
      path from `libraryfolders.vdf` unless already present. */
  method GameLibraryDirectories(m: Machine, canceled: bool) returns (gameDirectories: seq<string>)
    ensures gameDirectories == LibraryDirectories(m, canceled)
  {
    gameDirectories := [];
    if canceled {
      return;
    }
    var steamInstallPath := m.steamInstallPath;
    if steamInstallPath.None? {
      steamInstallPath := m.steamInstallPathWow64;
    }
    if steamInstallPath.Some? && DirectoryExists(m, steamInstallPath.value) {
      var libraryFolder := steamInstallPath.value + SteamAppsSuffix;
      if DirectoryExists(m, libraryFolder) {
        gameDirectories := AddListedLibraries(m, libraryFolder, LibraryFolderEntries(m, libraryFolder));
      }
    }
  }

  /** One turn of the loop over the `libraryfolders.vdf` entries. */
  lemma AddStep(m: Machine, libraryFolder: string, entries: seq<Property>, i: nat, dirs: seq<string>)
    requires i < |entries|
    requires dirs == Dedup([libraryFolder] + ListedLibraries(m, entries[..i]))
    ensures var e := EntryLibrary(m, entries[i]);
      Dedup([libraryFolder] + ListedLibraries(m, entries[..i + 1])) == if e == [] || e[0] in dirs then dirs else dirs + e
  {
    var seen := [libraryFolder] + ListedLibraries(m, entries[..i]);
    var e := EntryLibrary(m, entries[i]);
    FlatMapStep(EntryLibraryOf(m), entries, i);
    DedupAppend(seen, e);
    assert seen + e == [libraryFolder] + ListedLibraries(m, entries[..i + 1]);
  }

  /** The `foreach` over the entries of `libraryfolders.vdf` (lines 44-50),
      starting from the list that holds Steam's own library. */
  method AddListedLibraries(m: Machine, libraryFolder: string, entries: seq<Property>)
    returns (gameDirectories: seq<string>)
    ensures gameDirectories == Dedup([libraryFolder] + ListedLibraries(m, entries))
  {
    gameDirectories := [libraryFolder];
    assert [libraryFolder] + ListedLibraries(m, entries[..0]) == [libraryFolder];
    var i := 0;
    while i < |entries|
      invariant 0 <= i <= |entries|
      invariant gameDirectories == Dedup([libraryFolder] + ListedLibraries(m, entries[..i]))
    {
      var property := entries[i];
      AddStep(m, libraryFolder, entries, i, gameDirectories);
      if TryParseInt32(property.key).Some? {
        var path := AsText(Member(Some(property.value), "path"));
        if !IsNullOrWhiteSpace(path) {
          var library := path.value + SteamAppsSuffix;
          if DirectoryExists(m, library) && library !in gameDirectories {
            gameDirectories := gameDirectories + [library];
          }
        }
      }
      i := i + 1;
    }
    assert entries[..i] == entries;
  }
}
