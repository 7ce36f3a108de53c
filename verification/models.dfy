/**
 * The analyser's records (`domain/model`) and the plain inputs that stand in for the package
 * archive and the package manager.
 */
module Models {
  import opened Wrappers

  /** A bundled native library: file name within its ABI directory, the ABI label, the entry size. */
  datatype LibraryInfo = LibraryInfo(name: string, abi: string, size: int)

  /** Category of a third-party library recognised in the bytecode. */
  datatype LibraryCategory =
    | Analytics | Advertising | Social | Payment | Cloud | Ui | Networking | OtherLibrary
  {
    function DisplayName(): string {
      match this
      case Analytics => "Analytics & Tracking"
      case Advertising => "Advertising"
      case Social => "Social Media"
      case Payment => "Payment"
      case Cloud => "Cloud Services"
      case Ui => "UI Libraries"
      case Networking => "Networking"
      case OtherLibrary => "Other"
    }
  }

  /** A third-party library: display name, the class-name prefix that matched, its category. */
  datatype DetectedLibrary = DetectedLibrary(name: string, packageName: string, category: LibraryCategory)

  /** Category of a requested permission, in declaration order. */
  datatype PermissionCategory =
    | Camera | Location | Storage | Microphone | Contacts | Phone | Sms | Calendar
    | Sensors | Network | Bluetooth | System | Other
  {
    /** Position in the declaration order, which is also the order the categorizer tests. */
    function Ordinal(): nat {
      match this
      case Camera => 0
      case Location => 1
      case Storage => 2
      case Microphone => 3
      case Contacts => 4
      case Phone => 5
      case Sms => 6
      case Calendar => 7
      case Sensors => 8
      case Network => 9
      case Bluetooth => 10
      case System => 11
      case Other => 12
    }

    function DisplayName(): string {
      match this
      case Camera => "Camera"
      case Location => "Location"
      case Storage => "Storage"
      case Microphone => "Microphone"
      case Contacts => "Contacts"
      case Phone => "Phone"
      case Sms => "SMS & Messaging"
      case Calendar => "Calendar"
      case Sensors => "Sensors"
      case Network => "Network"
      case Bluetooth => "Bluetooth & NFC"
      case System => "System"
      case Other => "Other"
    }
  }

  /** A requested permission: its identifier, whether it is granted, its category. */
  datatype PermissionInfo = PermissionInfo(name: string, granted: bool, category: PermissionCategory)

  /** The eleven fields the analysis assembles, in the order the analyser passes them. */
  datatype AnalysisResult = AnalysisResult(
    packageName: string,
    appName: string,
    nativeLibraries: seq<LibraryInfo>,
    apkPath: string,
    apkSize: int,
    framework: string,
    language: string,
    primaryAbi: string,
    is64Bit: bool,
    supportedAbis: seq<string>,
    permissions: seq<PermissionInfo>)

  // ----- inputs standing in for the archive and the package manager -----

  /**
   * What the bytecode decoder makes of an entry's bytes: copying them to a temporary file fails,
   * they do not load as a dex file, or the type descriptors of the classes they define. A dex
   * whose class iteration fails part-way is given by the descriptors read before the failure,
   * whose matches the analyser keeps.
   */
  datatype DexPayload = CopyFails | NotDex | DexTypes(descriptors: seq<string>)

  /** One archive entry: its path, whether it is a directory, its size, and its decoded content. */
  datatype ZipEntry = ZipEntry(name: string, isDirectory: bool, size: int, payload: DexPayload)

  /**
   * The package archive as one scan sees it: it cannot be opened, or its entries in archive
   * order — `complete` is false when the enumeration failed after yielding `entries`.
   */
  datatype Archive = Unopenable | Listing(entries: seq<ZipEntry>, complete: bool)

  /** The entry paths, when the whole listing could be read. */
  function EntryNames(archive: Archive): (names: Option<seq<string>>)
    ensures names.Some? <==> archive.Listing? && archive.complete
    ensures names.Some? ==>
      && |names.value| == |archive.entries|
      && forall i | 0 <= i < |archive.entries| :: names.value[i] == archive.entries[i].name
  {
    match archive
    case Unopenable => None
    case Listing(entries, complete) =>
      if complete then Some(seq(|entries|, i requires 0 <= i < |entries| => entries[i].name))
      else None
  }

  /** The package manager's answer for the requested permissions of a package. */
  datatype PackageLookup =
    | LookupFails
    | Found(requestedPermissions: Option<seq<string>>, requestedPermissionsFlags: Option<seq<bv32>>)

  /** The package manager's answer for the application record: its archive path and label. */
  datatype InstalledApp = InstalledApp(sourceDir: string, appLabel: string)
}
