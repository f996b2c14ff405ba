/**
 * `GetGamesFromLibraryDirectory` (SelectForm.cs, lines 79-109): the games a
 * Steam library folder holds, read from its `appmanifest_*.acf` files.
 */
module Manifests {
  import opened Wrappers
  import opened Text
  import opened Paths
  import opened Vdf
  import opened Host
  import opened Seqs

  const ManifestExtension := ".acf"
  const CommonDirectory := "\\common\\"
  const DefaultBranch := "public"

  /** The source's `Tuple<int, string, string, int, string>`: app id, name,
      branch, build id and install directory. */
  datatype Candidate = Candidate(appId: int, name: string, branch: string, buildId: int, directory: string)

  /** The text fields the scan reads from a manifest's `AppState` object,
      each absent when missing or not a scalar. */
  datatype Fields = Fields(appid: Option<string>, installdir: Option<string>, name: Option<string>,
                           buildid: Option<string>, betakey: Option<string>)

  function ReadFields(manifest: Property): Fields {
    var state := Some(manifest.value);
    Fields(AsText(Member(state, "appid")), AsText(Member(state, "installdir")), AsText(Member(state, "name")),
           AsText(Member(state, "buildid")), AsText(Member(Member(state, "UserConfig"), "betakey")))
  }

  /** The candidate the fields describe, or `None` when the file is skipped:
      a blank `appid`, `installdir`, `name` or `buildid`, or an `appid` or
      `buildid` that is not a 32-bit integer. A blank `betakey` means the
      public branch. */
  function CandidateFrom(library: string, f: Fields): Option<Candidate> {
    if IsNullOrWhiteSpace(f.appid) || IsNullOrWhiteSpace(f.installdir)
       || IsNullOrWhiteSpace(f.name) || IsNullOrWhiteSpace(f.buildid) then None
    else
      var branch := if IsNullOrWhiteSpace(f.betakey) then DefaultBranch else f.betakey.value;
      var gameDirectory := library + CommonDirectory + f.installdir.value;
      match (TryParseInt32(f.appid.value), TryParseInt32(f.buildid.value))
      case (Some(id), Some(build)) => Some(Candidate(id, f.name.value, branch, build, gameDirectory))
      case _ => None
  }

  /** The candidate one parsed manifest describes, or `None` when skipped. */
  function ManifestCandidate(library: string, manifest: Property): Option<Candidate> {
    CandidateFrom(library, ReadFields(manifest))
  }

  /** What one file contributes: its candidate when it is an `.acf` file that
      exists, parses and is not skipped, else nothing. */
  function FileCandidates(m: Machine, library: string, file: string): (r: seq<Candidate>)
    ensures |r| <= 1
  {
    if GetExtension(file) == ManifestExtension && ReadDocument(m, file).Some? then
      match ManifestCandidate(library, ReadDocument(m, file).value)
      case Some(c) => [c]
      case None => []
    else []
  }

  /** `FileCandidates` as a value, for `FlatMap`. */
  function FileCandidatesOf(m: Machine, library: string): string -> seq<Candidate> {
    file => FileCandidates(m, library, file)
  }

  /** The candidates of the listed files, in listing order. */
  function Candidates(m: Machine, library: string, files: seq<string>): seq<Candidate> {
    FlatMap(FileCandidatesOf(m, library), files)
  }

  /** The scanner's answer: `None` ("nothing found") when the scan is
      cancelled, the folder does not exist, or no file yields a candidate. */
  function LibraryGames(m: Machine, library: string, canceled: bool): Option<seq<Candidate>> {
    if canceled || !DirectoryExists(m, library) then None
    else
      var games := Candidates(m, library, GetFiles(m, library));
      if games == [] then None else Some(games)
  }

  /** A candidate's fields are the manifest's own: non-blank name, the parsed
      `appid` and `buildid`, a non-blank branch that is `public` exactly when
      `betakey` is blank or `public`, and a directory under the library's
      `common` folder. */
  lemma CandidateFields(library: string, f: Fields)
    requires CandidateFrom(library, f).Some?
    ensures var c := CandidateFrom(library, f).value;
      && f.name == Some(c.name) && !IsBlank(c.name)
      && TryParseInt32(f.appid.value) == Some(c.appId)
      && TryParseInt32(f.buildid.value) == Some(c.buildId)
      && !IsBlank(c.branch)
      && (c.branch == DefaultBranch <==> (IsNullOrWhiteSpace(f.betakey) || f.betakey == Some(DefaultBranch)))
      && (!IsNullOrWhiteSpace(f.betakey) ==> c.branch == f.betakey.value)
      && c.directory == library + CommonDirectory + f.installdir.value
  {
    assert DefaultBranch[0] == 'p';
  }

  /** The candidate is dropped exactly when a required field is blank or an
      id does not parse. */
  lemma CandidateSkipped(library: string, f: Fields)
    ensures CandidateFrom(library, f).None? <==>
      IsNullOrWhiteSpace(f.appid) || IsNullOrWhiteSpace(f.installdir)
      || IsNullOrWhiteSpace(f.name) || IsNullOrWhiteSpace(f.buildid)
      || TryParseInt32(f.appid.value).None? || TryParseInt32(f.buildid.value).None?
  {
  }

  /** The manifest Steam writes for an installed app, with the given install
      folder and, unless the branch is `public`, a `UserConfig.betakey`. */
  function ManifestOf(c: Candidate, installdir: string): Property {
    var fields := [
      Property("appid", Value(Int32ToString(c.appId))),
      Property("name", Value(c.name)),
      Property("installdir", Value(installdir)),
      Property("buildid", Value(Int32ToString(c.buildId)))];
    var userConfig := if c.branch == DefaultBranch then [] else [Property("UserConfig", Object([Property("betakey", Value(c.branch))]))];
    Property("AppState", Object(fields + userConfig))
  }

  /** Every field Steam writes is read back; no `UserConfig` reads as no `betakey`. */
  lemma ReadFieldsOf(c: Candidate, installdir: string)
    ensures ReadFields(ManifestOf(c, installdir)) ==
      Fields(Some(Int32ToString(c.appId)), Some(installdir), Some(c.name), Some(Int32ToString(c.buildId)),
             if c.branch == DefaultBranch then None else Some(c.branch))
  {
    ManifestIdentity(c, installdir);
    ManifestPlacement(c, installdir);
    ManifestBranch(c, installdir);
  }

  lemma ManifestIdentity(c: Candidate, installdir: string)
    ensures var state := Some(ManifestOf(c, installdir).value);
      && AsText(Member(state, "appid")) == Some(Int32ToString(c.appId))
      && AsText(Member(state, "name")) == Some(c.name)
  {
    var ps := ManifestOf(c, installdir).value.children;
    MemberAt(ps, "appid", 0);
    MemberAt(ps, "name", 1);
  }

  lemma ManifestPlacement(c: Candidate, installdir: string)
    ensures var state := Some(ManifestOf(c, installdir).value);
      && AsText(Member(state, "installdir")) == Some(installdir)
      && AsText(Member(state, "buildid")) == Some(Int32ToString(c.buildId))
  {
    var ps := ManifestOf(c, installdir).value.children;
    MemberAt(ps, "installdir", 2);
    MemberAt(ps, "buildid", 3);
  }

  lemma ManifestBranch(c: Candidate, installdir: string)
    ensures AsText(Member(Member(Some(ManifestOf(c, installdir).value), "UserConfig"), "betakey"))
         == if c.branch == DefaultBranch then None else Some(c.branch)
  {
    var ps := ManifestOf(c, installdir).value.children;
    if c.branch != DefaultBranch {
      MemberAt(ps, "UserConfig", 4);
      MemberAt([Property("betakey", Value(c.branch))], "betakey", 0);
    } else {
      assert Member(Some(ManifestOf(c, installdir).value), "UserConfig").None?;
    }
  }

  /** A 32-bit integer's text is never blank. */
  lemma Int32TextNotBlank(n: int)
    ensures !IsBlank(Int32ToString(n))
  {
    var d := NatToDigits(if n < 0 then -n else n);
    NatToDigitsValue(if n < 0 then -n else n);
    var s := Int32ToString(n);
    assert s[|s| - 1] == d[|d| - 1];
  }

  /** Reading back a manifest written for a candidate gives the candidate. */
  lemma ManifestRoundTrip(library: string, c: Candidate, installdir: string)
    requires InInt32(c.appId) && InInt32(c.buildId)
    requires !IsBlank(c.name) && !IsBlank(installdir) && !IsBlank(c.branch)
    requires c.directory == library + CommonDirectory + installdir
    ensures ManifestCandidate(library, ManifestOf(c, installdir)) == Some(c)
  {
    ReadFieldsOf(c, installdir);
    ParseInt32ToString(c.appId);
    ParseInt32ToString(c.buildId);
    Int32TextNotBlank(c.appId);
    Int32TextNotBlank(c.buildId);
    var f := ReadFields(ManifestOf(c, installdir));
    CandidateFromParsed(library, f, c.appId, c.buildId);
    assert (if IsNullOrWhiteSpace(f.betakey) then DefaultBranch else f.betakey.value) == c.branch;
  }

  /** Once every required field is present and both ids parse, the candidate
      is built from them. */
  lemma CandidateFromParsed(library: string, f: Fields, id: int, build: int)
    requires !IsNullOrWhiteSpace(f.appid) && !IsNullOrWhiteSpace(f.installdir)
    requires !IsNullOrWhiteSpace(f.name) && !IsNullOrWhiteSpace(f.buildid)
    requires TryParseInt32(f.appid.value) == Some(id) && TryParseInt32(f.buildid.value) == Some(build)
    ensures CandidateFrom(library, f) ==
      Some(Candidate(id, f.name.value, if IsNullOrWhiteSpace(f.betakey) then DefaultBranch else f.betakey.value,
                     build, library + CommonDirectory + f.installdir.value))
  {
  }

  /** Skipped files do not stop the scan: the candidates of two listings
      run one after the other are those of each, in order. */
  lemma CandidatesAppend(m: Machine, library: string, a: seq<string>, b: seq<string>)
    ensures Candidates(m, library, a + b) == Candidates(m, library, a) + Candidates(m, library, b)
  {
    FlatMapAppend(FileCandidatesOf(m, library), a, b);
  }

  /** A candidate comes from exactly those files that yield it. */
  lemma CandidatesIff(m: Machine, library: string, files: seq<string>, c: Candidate)
    ensures c in Candidates(m, library, files) <==>
      exists i | 0 <= i < |files| :: FileCandidates(m, library, files[i]) == [c]
  {
    FlatMapIff(FileCandidatesOf(m, library), files, c);
    if c in Candidates(m, library, files) {
      var i :| 0 <= i < |files| && c in FileCandidatesOf(m, library)(files[i]);
      assert FileCandidates(m, library, files[i]) == [c];
    }
    if exists i | 0 <= i < |files| :: FileCandidates(m, library, files[i]) == [c] {
      var i :| 0 <= i < |files| && FileCandidates(m, library, files[i]) == [c];
      assert c in FileCandidatesOf(m, library)(files[i]);
    }
  }

  /** Only files whose extension is exactly `.acf` are read. */
  lemma FileCandidatesOnlyManifests(m: Machine, library: string, file: string)
    requires FileCandidates(m, library, file) != []
    ensures EndsWith(file, ManifestExtension) && file in m.documents
  {
    ExtensionIff(file, ManifestExtension);
  }

  /** A manifest as Steam writes it for app 400 with an empty `betakey`. */
  function PortalManifest(): Property {
    Property("AppState", Object([
      Property("appid", Value("400")), Property("name", Value("Portal")),
      Property("installdir", Value("Portal")), Property("buildid", Value("12")),
      Property("UserConfig", Object([Property("betakey", Value(""))]))]))
  }

  lemma PortalFields()
    ensures ReadFields(PortalManifest()) == Fields(Some("400"), Some("Portal"), Some("Portal"), Some("12"), Some(""))
  {
    PortalIdentity();
    PortalPlacement();
  }

  lemma PortalIdentity()
    ensures var state := Some(PortalManifest().value);
      && AsText(Member(state, "appid")) == Some("400")
      && AsText(Member(state, "name")) == Some("Portal")
  {
    var ps := PortalManifest().value.children;
    MemberAt(ps, "appid", 0);
    MemberAt(ps, "name", 1);
  }

  lemma PortalPlacement()
    ensures var state := Some(PortalManifest().value);
      && AsText(Member(state, "installdir")) == Some("Portal")
      && AsText(Member(state, "buildid")) == Some("12")
      && AsText(Member(Member(state, "UserConfig"), "betakey")) == Some("")
  {
    var ps := PortalManifest().value.children;
    MemberAt(ps, "installdir", 2);
    MemberAt(ps, "buildid", 3);
    MemberAt(ps, "UserConfig", 4);
    MemberAt([Property("betakey", Value(""))], "betakey", 0);
  }

  lemma PortalIds()
    ensures TryParseInt32("400") == Some(400) && TryParseInt32("12") == Some(12)
  {
    ParseInt32ToString(400);
    ParseInt32ToString(12);
    assert Int32ToString(400) == "400" by {
      assert NatToDigits(4) == "4";
      assert NatToDigits(40) == "4" + "0";
    }
    assert Int32ToString(12) == "12" by {
      assert NatToDigits(1) == "1";
    }
  }

  /** The Portal manifest is taken, on the public branch, under `common\Portal`. */
  lemma EmptyBetakeyScenario(library: string)
    ensures ManifestCandidate(library, PortalManifest())
         == Some(Candidate(400, "Portal", DefaultBranch, 12, library + CommonDirectory + "Portal"))
  {
    PortalFields();
    PortalCandidate(library);
  }

  lemma PortalCandidate(library: string)
    ensures CandidateFrom(library, Fields(Some("400"), Some("Portal"), Some("Portal"), Some("12"), Some("")))
         == Some(Candidate(400, "Portal", DefaultBranch, 12, library + CommonDirectory + "Portal"))
  {
    PortalIds();
    assert !IsBlank("Portal") by { assert "Portal"[0] == 'P'; }
    assert !IsBlank("400") by { assert "400"[0] == '4'; }
    assert !IsBlank("12") by { assert "12"[0] == '1'; }
    CandidateFromParsed(library, Fields(Some("400"), Some("Portal"), Some("Portal"), Some("12"), Some("")), 400, 12);
  }

  /** The source's loop over the files of one library folder. */
  method GetGamesFromLibraryDirectory(m: Machine, libraryDirectory: string, canceled: bool)
    returns (games: Option<seq<Candidate>>)
    ensures games == LibraryGames(m, libraryDirectory, canceled)
    ensures games != Some([])
  {
    if canceled || !DirectoryExists(m, libraryDirectory) {
      return None;
    }
    var found: seq<Candidate> := [];
    var files := GetFiles(m, libraryDirectory);
    var i := 0;
    while i < |files|
      invariant 0 <= i <= |files|
      invariant found == Candidates(m, libraryDirectory, files[..i])
    {
      var file := files[i];
      FlatMapStep(FileCandidatesOf(m, libraryDirectory), files, i);
      if GetExtension(file) == ManifestExtension && ReadDocument(m, file).Some? {
        var candidate := ManifestCandidate(libraryDirectory, ReadDocument(m, file).value);
        if candidate.Some? {
          found := found + [candidate.value];
        }
      }
      i := i + 1;
    }
    assert files[..i] == files;
    if found == [] {
      return None;
    }
    return Some(found);
  }
}
