# Mobile tech-stack analyser, modelled in Dafny

This project models the decision logic of an Android app that inspects installed packages and
reports their technology stack. The app is written in Kotlin under the package
`com.example.mobiletechstack`. The model covers:

- **Native library extraction** (`NativeLibraryAnalyzer`). It decides which archive entries are
  native libraries (`lib/<abi>/<file>.so`). It lists the distinct ABIs with the 64-bit ones first,
  and picks the primary ABI by a fixed preference list.
- **Framework and language detection** (`FrameworkDetector`). Ordered library-name rules are tried
  on the lower-cased library file names. Ordered archive-layout rules are tried on the entry paths.
  If neither fires, the result is native Android, split into Kotlin and Java by the `kotlin/`
  directory or `.kotlin_module` files.
- **Permission parsing and categorisation** (`PermissionAnalyzer`). It covers the grant bit of each
  requested permission and the keyword `when` chain that sorts a permission name into a category.
- **Analytics fingerprinting in dex bytecode** (`DexAnalyzer`). It selects `classes<digits>.dex`
  entries and decodes type descriptors into dotted class names. It matches class names against a
  15-row prefix table, deduplicates, and sorts by library name.
- **Result assembly** (`APKAnalyzer.analyzeApp`). It models the wiring of the eleven result fields
  and the consistency between them.
- **The pure helpers of the detail screen** (`DetailScreen.kt`). These are:
  - the architecture caption and the SDK-level caption;
  - the granted / not-granted filter and its chip counts;
  - grouping permissions by category, sorted by display name;
  - grouping native libraries by ABI;
  - the short permission label.

The modules are `Wrappers` (Option/Result), `Strings` and `Seqs` (the Kotlin library operations
the code relies on), `Models` (the records), then one module per source file: the five analysers
and `DetailScreen`. The archive is an input value (`Archive`). Each entry carries its path, the
directory flag, its size, and what reading it as dex yields (`DexPayload`). The package manager's
answers are also input values (`InstalledApp`, `PackageLookup`).

Four behaviours of the program are worth stating plainly:

- **Primary ABI fallback.** With no preferred ABI present, the primary ABI is the first element
  of `getAbis`. That list is sorted 64-bit first, so the result is the first-seen 64-bit ABI when
  there is one, not the first ABI in scan order (`NativeLibraryAnalyzer.PrimaryAbiFallback`).
- **Archive that cannot be opened.** It is not fatal. Each stage opens the archive itself and
  degrades to its empty value (`ApkAnalyzer.UnopenableArchiveDegrades`). The only failure of
  `analyzeApp` is an unknown package.
- **Analytics scan.** `analyzeApp` does not run it. `detectAnalyticsLibraries` is a separate entry
  point, and nothing stores its output: the detail screen reads a `detectedLibraries` field of the
  result that no `AnalysisResult` declaration has and no analyser fills.
- **Deduplication key.** Detected libraries are deduplicated by record equality: name, package
  prefix and category.

## Model

| member | source | states |
|---|---|---|
| NativeLibraryAnalyzer.LibraryOf | app/src/main/java/com/example/mobiletechstack/domain/analyzer/NativeLibraryAnalyzer.kt:14-31 | a kept entry is a non-directory named `lib/<abi>/<name>`, with slash-free ABI and name, a `.so` name, and the entry's size |
| NativeLibraryAnalyzer.LibraryOfComplete | app/src/main/java/com/example/mobiletechstack/domain/analyzer/NativeLibraryAnalyzer.kt:14-31 | converse of the filter: every non-directory `lib/<abi>/<file>.so` with slash-free parts yields exactly that library |
| NativeLibraryAnalyzer.LibraryPathShape | app/src/main/java/com/example/mobiletechstack/domain/analyzer/NativeLibraryAnalyzer.kt:15-23 | an accepted path that splits into three parts is `lib/` + ABI + `/` + file, and the `.so` suffix lies in the file part |
| NativeLibraryAnalyzer.WrongDepthSkipped | app/src/main/java/com/example/mobiletechstack/domain/analyzer/NativeLibraryAnalyzer.kt:20-21 | `lib/x.so` (two parts) and `lib/a/b/x.so` (four parts) yield no library |
| NativeLibraryAnalyzer.EmptyAbiKept | app/src/main/java/com/example/mobiletechstack/domain/analyzer/NativeLibraryAnalyzer.kt:20-23 | `lib//x.so` is kept with an empty ABI |
| NativeLibraryAnalyzer.CollectLibraries | app/src/main/java/com/example/mobiletechstack/domain/analyzer/NativeLibraryAnalyzer.kt:13-33 | every collected library comes from some entry, every accepted entry's library is collected, and there are no more libraries than entries |
| NativeLibraryAnalyzer.CollectLibrariesAppend | app/src/main/java/com/example/mobiletechstack/domain/analyzer/NativeLibraryAnalyzer.kt:13-33 | the scan distributes over concatenation, so archive order is kept and nothing is deduplicated |
| NativeLibraryAnalyzer.ExtractNativeLibraries | app/src/main/java/com/example/mobiletechstack/domain/analyzer/NativeLibraryAnalyzer.kt:8-40 | an archive that cannot be opened gives []; otherwise the libraries are exactly those of the accepted entries |
| NativeLibraryAnalyzer.PartialScanIsPrefix | app/src/main/java/com/example/mobiletechstack/domain/analyzer/NativeLibraryAnalyzer.kt:35-39 | an enumeration that fails part-way keeps what was collected: a prefix of the full scan's result |
| NativeLibraryAnalyzer.Is64Contains | app/src/main/java/com/example/mobiletechstack/domain/analyzer/NativeLibraryAnalyzer.kt:48 | the bitness scan is exactly the substring test `contains("64")` |
| NativeLibraryAnalyzer.GetAbis | app/src/main/java/com/example/mobiletechstack/domain/analyzer/NativeLibraryAnalyzer.kt:42-52 | no duplicates; an ABI is listed iff some library has it; every 64-bit ABI precedes every other |
| NativeLibraryAnalyzer.GetAbisStablePartition | app/src/main/java/com/example/mobiletechstack/domain/analyzer/NativeLibraryAnalyzer.kt:43-51 | the list is the first-seen distinct ABIs, stably partitioned into 64-bit then the rest (a stable descending sort on a two-valued key) |
| NativeLibraryAnalyzer.InsertAbiAfter64 | app/src/main/java/com/example/mobiletechstack/domain/analyzer/NativeLibraryAnalyzer.kt:46-51 | a 32-bit ABI inserted into a 64-bit run followed by a 32-bit run lands between the two runs |
| NativeLibraryAnalyzer.SortByBitness | app/src/main/java/com/example/mobiletechstack/domain/analyzer/NativeLibraryAnalyzer.kt:46-51 | the sort is a permutation of its input; SortByBitnessPartition shows it equals the 64-bit ABIs in input order followed by the others in input order |
| NativeLibraryAnalyzer.GetPrimaryAbi | app/src/main/java/com/example/mobiletechstack/domain/analyzer/NativeLibraryAnalyzer.kt:54-66 | "Unknown" for no libraries; otherwise one of the listed ABIs |
| NativeLibraryAnalyzer.ChoosePrimary | app/src/main/java/com/example/mobiletechstack/domain/analyzer/NativeLibraryAnalyzer.kt:57-65 | "Unknown" exactly for an empty ABI list, otherwise an ABI of the list; ChoosePrimaryPreference and ChoosePrimaryFallback pin which one |
| NativeLibraryAnalyzer.PrimaryAbiPreference | app/src/main/java/com/example/mobiletechstack/domain/analyzer/NativeLibraryAnalyzer.kt:57-62 | the result is the first entry of the preference list that some library uses |
| NativeLibraryAnalyzer.PrimaryAbiFallback | app/src/main/java/com/example/mobiletechstack/domain/analyzer/NativeLibraryAnalyzer.kt:55-63 | with no preferred ABI present: the first-seen 64-bit ABI if any, else the first-seen ABI |
| NativeLibraryAnalyzer.PrimaryAbiPrefersArm64 | app/src/main/java/com/example/mobiletechstack/domain/analyzer/NativeLibraryAnalyzer.kt:58-60 | armeabi-v7a together with arm64-v8a gives arm64-v8a |
| NativeLibraryAnalyzer.PrimaryAbiX86Only | app/src/main/java/com/example/mobiletechstack/domain/analyzer/NativeLibraryAnalyzer.kt:61-64 | x86 alone gives x86; no libraries gives "Unknown" |
| NativeLibraryAnalyzer.UnknownPrimaryAbi | app/src/main/java/com/example/mobiletechstack/domain/analyzer/NativeLibraryAnalyzer.kt:57-64 | for a non-empty list, "Unknown" iff no library has a preferred ABI and the first listed ABI is literally "Unknown" |
| NativeLibraryAnalyzer.UnknownAbiDirectory | app/src/main/java/com/example/mobiletechstack/domain/analyzer/NativeLibraryAnalyzer.kt:63-64 | a library under `lib/Unknown/` makes the primary ABI "Unknown", so the sentinel and a real label can coincide |
| FrameworkDetector.FirstMatch | app/src/main/java/com/example/mobiletechstack/domain/analyzer/FrameworkDetector.kt:11-45 | nothing iff no rule fires; otherwise the label of a rule that fires with no firing rule before it |
| FrameworkDetector.FirstMatchIsFirstFiring | app/src/main/java/com/example/mobiletechstack/domain/analyzer/FrameworkDetector.kt:11-45 | the first firing rule determines the answer uniquely |
| FrameworkDetector.AnalyzeApkStructure | app/src/main/java/com/example/mobiletechstack/domain/analyzer/FrameworkDetector.kt:84-127 | each flag holds iff its layout rule fires on the entry paths; a listing that fails gives all-false |
| FrameworkDetector.HasFlutterAssets | app/src/main/java/com/example/mobiletechstack/domain/analyzer/FrameworkDetector.kt:93-97 | the Flutter flag is the three-marker rule of the layout table |
| FrameworkDetector.HasReactNativeBundle | app/src/main/java/com/example/mobiletechstack/domain/analyzer/FrameworkDetector.kt:100-103 | the React Native flag is the bundle rule of the layout table |
| FrameworkDetector.HasCordova | app/src/main/java/com/example/mobiletechstack/domain/analyzer/FrameworkDetector.kt:106-109 | the Cordova flag is the two-marker rule of the layout table |
| FrameworkDetector.HasUnityAssets | app/src/main/java/com/example/mobiletechstack/domain/analyzer/FrameworkDetector.kt:112-115 | the Unity flag is the player-data rule of the layout table |
| FrameworkDetector.HasXamarinAssemblies | app/src/main/java/com/example/mobiletechstack/domain/analyzer/FrameworkDetector.kt:118-121 | the Xamarin flag is the assemblies rule of the layout table |
| FrameworkDetector.FrameworkFromStructure | app/src/main/java/com/example/mobiletechstack/domain/analyzer/FrameworkDetector.kt:47-72 | no answer exactly when no layout flag is set; any answer is a known framework label; StructureChainIsFirstMatch shows it is the first firing layout rule |
| FrameworkDetector.StructureChainIsFirstMatch | app/src/main/java/com/example/mobiletechstack/domain/analyzer/FrameworkDetector.kt:47-72 | the chain of early returns over the five flags is the first-match reading of the layout table |
| FrameworkDetector.KotlinModuleSuffixSuffices | app/src/main/java/com/example/mobiletechstack/domain/analyzer/FrameworkDetector.kt:140-143 | the case-insensitive "kotlin" test is implied by the `.kotlin_module` suffix |
| FrameworkDetector.DetectKotlin | app/src/main/java/com/example/mobiletechstack/domain/analyzer/FrameworkDetector.kt:129-152 | true iff the listing succeeds and some path starts with `kotlin/` or ends with `.kotlin_module` |
| FrameworkDetector.DetectLanguage | app/src/main/java/com/example/mobiletechstack/domain/analyzer/FrameworkDetector.kt:154-156 | "Kotlin" iff Kotlin is detected, "Java" iff not |
| FrameworkDetector.DetectFramework | app/src/main/java/com/example/mobiletechstack/domain/analyzer/FrameworkDetector.kt:8-82 | the label is one of the ten known labels; a native label means no library rule and no layout rule fired |
| FrameworkDetector.LibrarySignalWins | app/src/main/java/com/example/mobiletechstack/domain/analyzer/FrameworkDetector.kt:9-45 | once a library rule fires, its label is returned whatever the archive holds |
| FrameworkDetector.LibraryNamesCaseInsensitive | app/src/main/java/com/example/mobiletechstack/domain/analyzer/FrameworkDetector.kt:9 | only the lower-cased library names matter |
| FrameworkDetector.StructureDecides | app/src/main/java/com/example/mobiletechstack/domain/analyzer/FrameworkDetector.kt:47-81 | without a library signal, the first firing layout rule decides; otherwise "Native Android (" + detected language + ")" |
| FrameworkDetector.CordovaOnlyFromLayout | app/src/main/java/com/example/mobiletechstack/domain/analyzer/FrameworkDetector.kt:59-62 | "Cordova/Ionic" means no library rule fired and the Cordova rule is the first layout rule that fires |
| FrameworkDetector.UnreadableArchive | app/src/main/java/com/example/mobiletechstack/domain/analyzer/FrameworkDetector.kt:124-126 | when the archive cannot be listed in full, only the library rules can change the plain-Java answer |
| FrameworkDetector.FlutterLibraryBeatsReactNativeBundle | app/src/main/java/com/example/mobiletechstack/domain/analyzer/FrameworkDetector.kt:11-14 | a `libflutter.so` library gives "Flutter" even beside a React Native bundle |
| PermissionAnalyzer.FirstTrue | app/src/main/java/com/example/mobiletechstack/domain/analyzer/PermissionAnalyzer.kt:63-135 | the `when` chain takes the first branch whose test holds: every earlier test is false |
| PermissionAnalyzer.CategorizePermission | app/src/main/java/com/example/mobiletechstack/domain/analyzer/PermissionAnalyzer.kt:60-136 | any category other than Other has a keyword in the upper-cased name; CategorizeFirstMention adds that Other means no keyword at all and that no earlier category is mentioned |
| PermissionAnalyzer.CategorizeFirstMention | app/src/main/java/com/example/mobiletechstack/domain/analyzer/PermissionAnalyzer.kt:60-136 | Other iff no keyword of any category occurs in the upper-cased name; otherwise a category with a keyword present and none in an earlier category |
| PermissionAnalyzer.CategorizeIgnoresCase | app/src/main/java/com/example/mobiletechstack/domain/analyzer/PermissionAnalyzer.kt:61 | a name and its lower- or upper-cased forms get the same category |
| PermissionAnalyzer.CameraFirst | app/src/main/java/com/example/mobiletechstack/domain/analyzer/PermissionAnalyzer.kt:64 | any name containing CAMERA is Camera |
| PermissionAnalyzer.FirstMentionDecides | app/src/main/java/com/example/mobiletechstack/domain/analyzer/PermissionAnalyzer.kt:63-135 | a category mentioned by the name, with no earlier category mentioned, is the answer |
| PermissionAnalyzer.LocationKeywords | app/src/main/java/com/example/mobiletechstack/domain/analyzer/PermissionAnalyzer.kt:66-70 | the location branch reduces to LOCATION or GPS, because the three longer keywords contain LOCATION |
| PermissionAnalyzer.PhoneKeywords | app/src/main/java/com/example/mobiletechstack/domain/analyzer/PermissionAnalyzer.kt:87-93 | the phone branch reduces to PHONE or CALL |
| PermissionAnalyzer.SmsKeywords | app/src/main/java/com/example/mobiletechstack/domain/analyzer/PermissionAnalyzer.kt:95-99 | the SMS branch reduces to SMS or MMS |
| PermissionAnalyzer.ContactsKeywords | app/src/main/java/com/example/mobiletechstack/domain/analyzer/PermissionAnalyzer.kt:82-85 | the contacts branch reduces to CONTACTS or GET_ACCOUNTS |
| PermissionAnalyzer.BluetoothKeywords | app/src/main/java/com/example/mobiletechstack/domain/analyzer/PermissionAnalyzer.kt:117-121 | the Bluetooth branch reduces to BLUETOOTH or NFC |
| PermissionAnalyzer.MediaLocationIsLocation | app/src/main/java/com/example/mobiletechstack/domain/analyzer/PermissionAnalyzer.kt:64-70 | ACCESS_MEDIA_LOCATION is Location: it passes Camera and contains LOCATION |
| PermissionAnalyzer.CallLogIsPhone | app/src/main/java/com/example/mobiletechstack/domain/analyzer/PermissionAnalyzer.kt:64-93 | READ_CALL_LOG passes the five earlier branches and is Phone |
| PermissionAnalyzer.ParsePermissions | app/src/main/java/com/example/mobiletechstack/domain/analyzer/PermissionAnalyzer.kt:29-58 | no requested array gives []; otherwise one record per name, in order, granted iff the flag exists and has the grant bit, with its category |
| PermissionAnalyzer.MissingFlagsNotGranted | app/src/main/java/com/example/mobiletechstack/domain/analyzer/PermissionAnalyzer.kt:40-44 | a missing flag array, or an index past its end, is not granted |
| PermissionAnalyzer.GrantBitOnly | app/src/main/java/com/example/mobiletechstack/domain/analyzer/PermissionAnalyzer.kt:41 | only bit 2 counts: flag 3 is granted, flag 1 is not |
| PermissionAnalyzer.ExtractPermissions | app/src/main/java/com/example/mobiletechstack/domain/analyzer/PermissionAnalyzer.kt:15-27 | a failed package lookup gives []; otherwise the parse of the package's arrays |
| DexAnalyzer.SameNameSameRow | app/src/main/java/com/example/mobiletechstack/domain/analyzer/DexAnalyzer.kt:16-55 | no two rows of the signature table share a library name |
| DexAnalyzer.IsDexEntryName | app/src/main/java/com/example/mobiletechstack/domain/analyzer/DexAnalyzer.kt:83 | a name passes exactly when it is at least 11 characters long and is `classes`, an all-digit middle, then `.dex` |
| DexAnalyzer.DexEntryNameShape | app/src/main/java/com/example/mobiletechstack/domain/analyzer/DexAnalyzer.kt:83 | a name is scanned iff it is `classes`, a possibly empty run of decimal digits, then `.dex` |
| DexAnalyzer.DexEntryNameExamples | app/src/main/java/com/example/mobiletechstack/domain/analyzer/DexAnalyzer.kt:83 | classes.dex and classes2.dex match the whole-name pattern; lib/classes.dex and classes.dex.bak do not |
| DexAnalyzer.ClassName | app/src/main/java/com/example/mobiletechstack/domain/analyzer/DexAnalyzer.kt:107-110 | the decoded class name has no slash and is no longer than the descriptor |
| DexAnalyzer.ClassNameOfDescriptor | app/src/main/java/com/example/mobiletechstack/domain/analyzer/DexAnalyzer.kt:107-110 | decoding undoes `L` + slashed name + `;` for class names without a slash |
| DexAnalyzer.DescriptorOfClassName | app/src/main/java/com/example/mobiletechstack/domain/analyzer/DexAnalyzer.kt:107-110 | encoding undoes decoding for `L…;` descriptors without a dot |
| DexAnalyzer.MatchesIn | app/src/main/java/com/example/mobiletechstack/domain/analyzer/DexAnalyzer.kt:112-122 | a record is produced iff some row's pattern starts the class name |
| DexAnalyzer.ClassesMatches | app/src/main/java/com/example/mobiletechstack/domain/analyzer/DexAnalyzer.kt:106-123 | the records of a dex are those of the rows some class of the dex starts with |
| DexAnalyzer.DexLibraries | app/src/main/java/com/example/mobiletechstack/domain/analyzer/DexAnalyzer.kt:100-130 | a dex that fails to load gives []; otherwise the distinct records of its classes |
| DexAnalyzer.Collect | app/src/main/java/com/example/mobiletechstack/domain/analyzer/DexAnalyzer.kt:61-66 | the gathered records are exactly those of the rows fingerprinted by some scanned dex |
| DexAnalyzer.DetectAnalyticsLibraries | app/src/main/java/com/example/mobiletechstack/domain/analyzer/DexAnalyzer.kt:57-75 | [] when the scan fails as a whole; otherwise exactly the fingerprinted rows as Analytics records, in strictly increasing name order |
| DexAnalyzer.ReportedOnce | app/src/main/java/com/example/mobiletechstack/domain/analyzer/DexAnalyzer.kt:59-70 | each library is reported at most once |
| DexAnalyzer.DetectionOrderIndependent | app/src/main/java/com/example/mobiletechstack/domain/analyzer/DexAnalyzer.kt:57-75 | two archives whose decodable dex files define the same class names give the same result |
| DexAnalyzer.UndecodableDexIgnored | app/src/main/java/com/example/mobiletechstack/domain/analyzer/DexAnalyzer.kt:125-127 | a dex that fails to load is skipped without affecting the others |
| DexAnalyzer.FacebookDuplicatesCollapse | app/src/main/java/com/example/mobiletechstack/domain/analyzer/DexAnalyzer.kt:25 | two classes under com.facebook.appevents in one dex yield exactly one Facebook Analytics record |
| ApkAnalyzer.AnalyzeApp | app/src/main/java/com/example/mobiletechstack/domain/analyzer/APKAnalyzer.kt:14-46 | fails iff the package is unknown; otherwise each field comes from its analyser, and is64Bit iff the primary ABI contains "64" |
| ApkAnalyzer.AnalysisConsistent | app/src/main/java/com/example/mobiletechstack/domain/analyzer/APKAnalyzer.kt:20-44 | every result agrees with itself: bitness, primary ABI among the supported ones, ABIs mirror the libraries, 64-bit first, framework label known, native label matches language |
| ApkAnalyzer.UnknownPrimaryAbiMeaning | app/src/main/java/com/example/mobiletechstack/domain/analyzer/APKAnalyzer.kt:26-30 | an "Unknown" primary ABI is 32-bit and means no libraries, unless an ABI directory is named "Unknown" |
| ApkAnalyzer.UnopenableArchiveDegrades | app/src/main/java/com/example/mobiletechstack/domain/analyzer/APKAnalyzer.kt:20-36 | an archive that cannot be opened still gives a result: no libraries or ABIs, "Unknown", 32-bit, native Java, permissions kept |
| DetailScreen.FormatArchitecture | app/src/main/java/com/example/mobiletechstack/ui/detail/DetailScreen.kt:30-33 | the caption starts with the ABI and ends with " (64-bit)" or " (32-bit)" as the flag says |
| DetailScreen.FormatArchitectureInjective | app/src/main/java/com/example/mobiletechstack/ui/detail/DetailScreen.kt:30-33 | different ABIs or flags give different captions |
| DetailScreen.AndroidVersion | app/src/main/java/com/example/mobiletechstack/ui/detail/DetailScreen.kt:394-411 | levels 21 to 35 get their release name from the release table, later levels "Android " + (level - 20), earlier levels "API " + level |
| DetailScreen.FormatSdkVersion | app/src/main/java/com/example/mobiletechstack/ui/detail/DetailScreen.kt:393-413 | the caption is exactly "API <level> (" followed by the release name and ")": the prefix, the suffix, and a length that leaves nothing between them |
| DetailScreen.FormatSdkVersionInjective | app/src/main/java/com/example/mobiletechstack/ui/detail/DetailScreen.kt:393-413 | different API levels get different captions |
| DetailScreen.FilterPermissions | app/src/main/java/com/example/mobiletechstack/ui/detail/DetailScreen.kt:446-450 | All shows everything; Granted shows exactly the granted permissions; Not Granted shows exactly the others |
| DetailScreen.FilterKeepsOrder | app/src/main/java/com/example/mobiletechstack/ui/detail/DetailScreen.kt:448-449 | filtering distributes over concatenation and keeps or drops each item, so order is kept |
| DetailScreen.FilterIdempotent | app/src/main/java/com/example/mobiletechstack/ui/detail/DetailScreen.kt:446-450 | applying the same chip twice shows the same list |
| DetailScreen.CountGranted | app/src/main/java/com/example/mobiletechstack/ui/detail/DetailScreen.kt:518 | the granted count is at most the list length and is 0 exactly when no permission is granted; ChipCounts ties it to the Granted chip's list |
| DetailScreen.CountNotGranted | app/src/main/java/com/example/mobiletechstack/ui/detail/DetailScreen.kt:525 | the not-granted count is at most the list length and is 0 exactly when every permission is granted; ChipCounts ties it to the Not Granted chip's list |
| DetailScreen.ChipCounts | app/src/main/java/com/example/mobiletechstack/ui/detail/DetailScreen.kt:518-525 | the Granted and Not Granted counts add up to All, and each equals the length of its chip's list |
| DetailScreen.GroupPermissions | app/src/main/java/com/example/mobiletechstack/ui/detail/DetailScreen.kt:460-461 | one non-empty section per category present, sorted by display name; each section holds exactly that category's shown permissions; sizes add up |
| DetailScreen.NoPermissionsNoGroups | app/src/main/java/com/example/mobiletechstack/ui/detail/DetailScreen.kt:460-461 | an empty filter result has no sections |
| DetailScreen.GroupLibrariesByAbi | app/src/main/java/com/example/mobiletechstack/ui/detail/DetailScreen.kt:166 | one non-empty group per ABI, each library in exactly its ABI's group, sizes adding up |
| DetailScreen.PermissionLabel | app/src/main/java/com/example/mobiletechstack/ui/detail/DetailScreen.kt:576 | the label has no dot; it is the whole name when there is no dot, else the name is a prefix, a dot, and the label |
| DetailScreen.LabelIsLastSegment | app/src/main/java/com/example/mobiletechstack/ui/detail/DetailScreen.kt:576 | the label of `prefix.segment`, for a dot-free segment, is the segment |
| DetailScreen.CameraLabel | app/src/main/java/com/example/mobiletechstack/ui/detail/DetailScreen.kt:576 | android.permission.CAMERA is shown as CAMERA |

## Left out

- Reading the ZIP archive and parsing dex files are not modelled. The archive is an input value
  holding entry paths, directory flags, sizes, and what loading each entry as dex yields. The
  archive is the same snapshot for every stage, although the code opens it once per stage.
- Package-manager calls are inputs: `getApplicationInfo`, `loadLabel`, `getPackageInfo`, and
  `File.length`.
- `Dispatchers.IO` and the coroutine context are left out; they do not affect results.
- The temporary-file copy in `extractDexFiles` is modelled only as whether it fails. The
  deletion of the temporary files afterwards has no effect on the result and is not modelled.
- A dex whose class iteration fails part-way is not a separate case. It is the `DexTypes` payload of
  the descriptors read before the failure, and `DexAnalyzer.DexLibraries` keeps their matches, as
  the analyser's set does.
- `println` logging in the catch blocks has no effect on results and is left out.
- Case mapping (`lowercase`, `uppercase`, `ignoreCase`) covers the ASCII letters only.
- String order for `sortedBy` is Dafny's order on `char`. Kotlin compares UTF-16 code units. The
  two agree on every label the code sorts, since those are ASCII.
- `DetailScreen.GroupLibrariesByAbi`: the first-seen order of the groups is stated separately, in
  `DetailScreen.AbiGroupsFirstSeenOrder`.
- The Compose UI, the view model, `MainActivity`, `ManifestAnalyzer` and
  `PackageUtils.formatSize` are outside the modelled core.
- The duplicate `com.example.myapplication` sources are also outside the modelled core.
- The fields of `Models.AnalysisResult` are the eleven arguments of the positional
  `AnalysisResult(...)` call in `analyzeApp` (APKAnalyzer.kt:39-44). The record declared in
  `AnalysisResult.kt` has only five of them (package name, app name, native libraries, path and
  size); the rest are commented out or missing. The detail screen also reads `versionInfo`,
  `securityFlags` and `detectedLibraries` (DetailScreen.kt:127-138). No declaration has these
  fields and nothing fills them, so they are not modelled.
- `Long` sizes and `Int` API levels are unbounded integers. No arithmetic in the core can
  overflow, since sizes are copied and `sdkVersion - 20` is taken only above 35.
