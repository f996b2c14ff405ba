/**
 * The machine the scan reads, as a snapshot: the two registry values that may
 * hold Steam's install path, the local application-data folder, which
 * directories exist, the file listing of each directory, and the data files
 * that exist and parse. Registry, `Directory`, `File` and the Gameloop.Vdf
 * parser are thereby inputs rather than I/O.
 */
module Host {
  import opened Wrappers
  import opened Vdf

  datatype Machine = Machine(
    steamInstallPath: Option<string>,       // HKLM\SOFTWARE\Valve\Steam, InstallPath
    steamInstallPathWow64: Option<string>,  // HKLM\SOFTWARE\Wow6432Node\Valve\Steam, InstallPath
    localApplicationData: string,           // Environment.SpecialFolder.LocalApplicationData
    directories: set<string>,               // the paths for which Directory.Exists holds
    files: map<string, seq<string>>,        // Directory.GetFiles, in listing order
    documents: map<string, Property>        // File.Exists and ValveDataFile.TryDeserialize succeed
  )

  predicate DirectoryExists(m: Machine, path: string) {
    path in m.directories
  }

  /** The full paths of the files directly inside `dir`. */
  function GetFiles(m: Machine, dir: string): seq<string> {
    if dir in m.files then m.files[dir] else []
  }

  /** The parsed data file at `path`; absent when the file is missing or does not parse. */
  function ReadDocument(m: Machine, path: string): Option<Property> {
    if path in m.documents then Some(m.documents[path]) else None
  }
}
