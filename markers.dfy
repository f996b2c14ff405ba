/**
 * `GetDllDirectoriesFromGameDirectory` (SelectForm.cs, lines 57-77): every
 * directory of a game's folder tree that directly holds `steam_api.dll` or
 * `steam_api64.dll`, in pre-order. A subdirectory whose listing fails
 * contributes nothing, and an empty answer is reported as "none found".
 */
module Markers {
  import opened Wrappers
  import opened Seqs

  const ApiDll := "\\steam_api.dll"
  const Api64Dll := "\\steam_api64.dll"

  /** A directory as the scan sees it: its path, the paths of the files that
      exist in it, and its subdirectories in listing order. */
  datatype Dir = Dir(path: string, files: set<string>, subdirectories: seq<Entry>)

  /** A subdirectory: one whose own listing succeeds, or one whose listing
      throws (access denied, removed meanwhile), which the caller's `catch` swallows. */
  datatype Entry = Listed(dir: Dir) | Unreadable

  predicate HasMarker(d: Dir) {
    d.path + ApiDll in d.files || d.path + Api64Dll in d.files
  }

  /** The marker directories of the tree at `d`, `d` itself first. */
  function Hits(d: Dir): seq<string>
    decreases d
  {
    (if HasMarker(d) then [d.path] else []) + ChildHits(d.subdirectories)
  }

  /** The marker directories under the given subdirectories, in listing order. */
  function ChildHits(es: seq<Entry>): seq<string>
    decreases es
  {
    if es == [] then [] else ChildHits(es[..|es| - 1]) + EntryHits(es[|es| - 1])
  }

  function EntryHits(e: Entry): seq<string>
    decreases e
  {
    match e
    case Unreadable => []
    case Listed(c) => Hits(c)
  }

  /** `null` in place of an empty list. */
  function NonEmpty(xs: seq<string>): Option<seq<string>> {
    if xs == [] then None else Some(xs)
  }

  /** The answer for a folder that may not exist (`None`). */
  function MarkerDirectories(root: Option<Dir>, canceled: bool): Option<seq<string>> {
    if canceled || root.None? then None else NonEmpty(Hits(root.value))
  }

  /** `e` is `d` or lies in a readable part of the tree below `d`. */
  predicate Reaches(d: Dir, e: Dir)
    decreases d
  {
    d == e || ChildReaches(d.subdirectories, e)
  }

  predicate ChildReaches(es: seq<Entry>, e: Dir)
    decreases es
  {
    es != [] && (ChildReaches(es[..|es| - 1], e) || EntryReaches(es[|es| - 1], e))
  }

  predicate EntryReaches(x: Entry, e: Dir)
    decreases x
  {
    x.Listed? && Reaches(x.dir, e)
  }

  /** Every reported directory is a readable directory of the tree holding a marker. */
  lemma {:induction false} HitsSound(d: Dir, p: string)
    requires p in Hits(d)
    ensures exists e :: Reaches(d, e) && HasMarker(e) && e.path == p
    decreases d
  {
    if HasMarker(d) && p == d.path {
      assert Reaches(d, d);
    } else {
      ChildHitsSound(d.subdirectories, p);
      var e :| ChildReaches(d.subdirectories, e) && HasMarker(e) && e.path == p;
      assert Reaches(d, e);
    }
  }

  lemma {:induction false} ChildHitsSound(es: seq<Entry>, p: string)
    requires p in ChildHits(es)
    ensures exists e :: ChildReaches(es, e) && HasMarker(e) && e.path == p
    decreases es
  {
    var n := |es| - 1;
    if p in ChildHits(es[..n]) {
      ChildHitsSound(es[..n], p);
      var e :| ChildReaches(es[..n], e) && HasMarker(e) && e.path == p;
      assert ChildReaches(es, e);
    } else {
      EntryHitsSound(es[n], p);
      var e :| EntryReaches(es[n], e) && HasMarker(e) && e.path == p;
      assert ChildReaches(es, e);
    }
  }

  lemma {:induction false} EntryHitsSound(x: Entry, p: string)
    requires p in EntryHits(x)
    ensures exists e :: EntryReaches(x, e) && HasMarker(e) && e.path == p
    decreases x
  {
    HitsSound(x.dir, p);
  }

  /** Every readable directory of the tree that holds a marker is reported. */
  lemma {:induction false} HitsComplete(d: Dir, e: Dir)
    requires Reaches(d, e) && HasMarker(e)
    ensures e.path in Hits(d)
    decreases d
  {
    if d != e {
      ChildHitsComplete(d.subdirectories, e);
    }
  }

  lemma {:induction false} ChildHitsComplete(es: seq<Entry>, e: Dir)
    requires ChildReaches(es, e) && HasMarker(e)
    ensures e.path in ChildHits(es)
    decreases es
  {
    var n := |es| - 1;
    if ChildReaches(es[..n], e) {
      ChildHitsComplete(es[..n], e);
    } else {
      EntryHitsComplete(es[n], e);
    }
  }

  lemma {:induction false} EntryHitsComplete(x: Entry, e: Dir)
    requires EntryReaches(x, e) && HasMarker(e)
    ensures e.path in EntryHits(x)
    decreases x
  {
    HitsComplete(x.dir, e);
  }

  /** Pre-order: the hits of any readable subtree form one block of the
      whole answer, so a marker directory comes right before its descendants. */
  lemma {:induction false} SubtreeIsBlock(d: Dir, e: Dir)
    requires Reaches(d, e)
    ensures exists before, after :: Hits(d) == before + Hits(e) + after
    decreases d
  {
    if d == e {
      assert Hits(d) == [] + Hits(e) + [];
    } else {
      var own := if HasMarker(d) then [d.path] else [];
      ChildSubtreeIsBlock(d.subdirectories, e);
      var before, after :| ChildHits(d.subdirectories) == before + Hits(e) + after;
      AppendAssociative(own, before + Hits(e), after);
      AppendAssociative(own, before, Hits(e));
      assert Hits(d) == (own + before) + Hits(e) + after;
    }
  }

  lemma {:induction false} ChildSubtreeIsBlock(es: seq<Entry>, e: Dir)
    requires ChildReaches(es, e)
    ensures exists before, after :: ChildHits(es) == before + Hits(e) + after
    decreases es
  {
    var n := |es| - 1;
    var init := ChildHits(es[..n]);
    if ChildReaches(es[..n], e) {
      ChildSubtreeIsBlock(es[..n], e);
      var before, after :| init == before + Hits(e) + after;
      AppendAssociative(before + Hits(e), after, EntryHits(es[n]));
      assert ChildHits(es) == before + Hits(e) + (after + EntryHits(es[n]));
    } else {
      EntrySubtreeIsBlock(es[n], e);
      var before, after :| EntryHits(es[n]) == before + Hits(e) + after;
      AppendAssociative(init, before + Hits(e), after);
      AppendAssociative(init, before, Hits(e));
      assert ChildHits(es) == (init + before) + Hits(e) + after;
    }
  }

  lemma {:induction false} EntrySubtreeIsBlock(x: Entry, e: Dir)
    requires EntryReaches(x, e)
    ensures exists before, after :: EntryHits(x) == before + Hits(e) + after
    decreases x
  {
    SubtreeIsBlock(x.dir, e);
  }

  /** A marker directory's own entry heads the block of its subtree. */
  lemma OwnHitFirst(d: Dir)
    requires HasMarker(d)
    ensures Hits(d) != [] && Hits(d)[0] == d.path
  {
  }

  lemma {:induction false} ChildHitsAppend(a: seq<Entry>, b: seq<Entry>)
    ensures ChildHits(a + b) == ChildHits(a) + ChildHits(b)
    decreases b
  {
    if b == [] {
      assert a + b == a;
    } else {
      ChildHitsAppend(a, b[..|b| - 1]);
      assert (a + b)[..|a + b| - 1] == a + b[..|b| - 1];
    }
  }

  /** A subdirectory whose listing fails contributes nothing: the answer is
      that of the same listing without it. */
  lemma UnreadableContributesNothing(es: seq<Entry>, i: nat)
    requires i < |es| && es[i].Unreadable?
    ensures ChildHits(es) == ChildHits(es[..i] + es[i + 1..])
  {
    var a, b := es[..i], es[i + 1..];
    assert es == (a + [es[i]]) + b by {
      assert es == es[..i + 1] + b;
      assert es[..i + 1] == a + [es[i]];
    }
    ChildHitsAppend(a + [es[i]], b);
    ChildHitsAppend(a, [es[i]]);
    ChildHitsAppend(a, b);
    assert ChildHits([es[i]]) == [] by {
      assert [es[i]][..0] == [];
    }
    assert ChildHits(a) + [] == ChildHits(a);
  }

  /** "Nothing found" exactly when the scan is cancelled, the folder does not
      exist, or no readable directory of its tree holds a marker. */
  lemma MarkerDirectoriesNone(root: Option<Dir>, canceled: bool)
    ensures MarkerDirectories(root, canceled).None? <==>
      canceled || root.None? || forall e :: Reaches(root.value, e) ==> !HasMarker(e)
    ensures MarkerDirectories(root, canceled) != Some([])
  {
    if !canceled && root.Some? {
      var d := root.value;
      if Hits(d) != [] {
        HitsSound(d, Hits(d)[0]);
      }
      forall e | Reaches(d, e) && HasMarker(e)
        ensures Hits(d) != []
      {
        HitsComplete(d, e);
      }
    }
  }

  /** A game folder holding `steam_api64.dll`, an unreadable subfolder, and a
      readable `bin` whose `x64` subfolder holds `steam_api.dll` but whose
      `data` subfolder holds neither: the game folder and `bin\x64` are found, in that order. */
  lemma NestedScenario()
    ensures var x64 := Dir("G\\bin\\x64", {"G\\bin\\x64\\steam_api.dll"}, []);
      var data := Dir("G\\bin\\data", {"G\\bin\\data\\steam.dll"}, []);
      var bin := Dir("G\\bin", {}, [Listed(data), Listed(x64)]);
      var game := Dir("G", {"G\\steam_api64.dll"}, [Unreadable, Listed(bin)]);
      MarkerDirectories(Some(game), false) == Some(["G", "G\\bin\\x64"])
  {
    var bin := ScenarioBin();
    BinScenario();
    var game := Dir("G", {"G\\steam_api64.dll"}, [Unreadable, Listed(bin)]);
    assert HasMarker(game) by { assert game.path + Api64Dll == "G\\steam_api64.dll"; }
    assert [Unreadable, Listed(bin)][..1] == [Unreadable];
    assert [Unreadable][..0] == [];
    assert ChildHits([Unreadable]) == [];
    assert ChildHits(game.subdirectories) == ["G\\bin\\x64"];
    assert Hits(game) == ["G", "G\\bin\\x64"];
  }

  /** The scenario's `bin` folder. */
  function ScenarioBin(): Dir {
    var x64 := Dir("G\\bin\\x64", {"G\\bin\\x64\\steam_api.dll"}, []);
    var data := Dir("G\\bin\\data", {"G\\bin\\data\\steam.dll"}, []);
    Dir("G\\bin", {}, [Listed(data), Listed(x64)])
  }

  /** In `bin`, only `x64` holds a marker. */
  lemma BinScenario()
    ensures Hits(ScenarioBin()) == ["G\\bin\\x64"]
  {
    var x64 := Dir("G\\bin\\x64", {"G\\bin\\x64\\steam_api.dll"}, []);
    var data := Dir("G\\bin\\data", {"G\\bin\\data\\steam.dll"}, []);
    var bin := ScenarioBin();
    assert HasMarker(x64) by { assert x64.path + ApiDll == "G\\bin\\x64\\steam_api.dll"; }
    assert !HasMarker(data) by {
      assert data.path + ApiDll != "G\\bin\\data\\steam.dll";
      assert data.path + Api64Dll != "G\\bin\\data\\steam.dll";
    }
    assert !HasMarker(bin);
    assert Hits(x64) == ["G\\bin\\x64"];
    assert Hits(data) == [];
    assert [Listed(data), Listed(x64)][..1] == [Listed(data)];
    assert [Listed(data)][..0] == [];
    assert ChildHits([Listed(data)]) == [];
    assert ChildHits(bin.subdirectories) == ["G\\bin\\x64"];
  }

  /** The search of one existing directory (the recursive call's view). */
  method SearchDirectory(d: Dir, canceled: bool) returns (dllDirectories: Option<seq<string>>)
    ensures dllDirectories == MarkerDirectories(Some(d), canceled)
    decreases d
  {
    if canceled {
      return None;
    }
    var found: seq<string> := [];
    if d.path + ApiDll in d.files || d.path + Api64Dll in d.files {
      found := [d.path];
    }
    var directories := d.subdirectories;
    var own := found;
    var i := 0;
    while i < |directories|
      invariant 0 <= i <= |directories|
      invariant found == own + ChildHits(directories[..i])
    {
      assert directories[..i + 1][..i] == directories[..i];
      match directories[i] {
        case Unreadable =>
        case Listed(c) =>
          var more := SearchDirectory(c, canceled);
          if more.Some? {
            found := found + more.value;
          }
      }
      i := i + 1;
    }
    assert directories[..i] == directories;
    if found == [] {
      return None;
    }
    return Some(found);
  }

  /** The source's entry point: a folder that does not exist yields "none found". */
  method GetDllDirectoriesFromGameDirectory(gameDirectory: Option<Dir>, canceled: bool)
    returns (dllDirectories: Option<seq<string>>)
    ensures dllDirectories == MarkerDirectories(gameDirectory, canceled)
  {
    if canceled || gameDirectory.None? {
      return None;
    }
    dllDirectories := SearchDirectory(gameDirectory.value, canceled);
  }
}
