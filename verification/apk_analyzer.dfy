/**
 * Result assembly: one analysis of an installed package, composed from the native library scan,
 * the framework and language detection, and the permission extraction.
 */
module ApkAnalyzer {
  import opened Wrappers
  import opened Strings
  import opened Seqs
  import opened Models
  import opened NativeLibraryAnalyzer
  import opened FrameworkDetector
  import opened PermissionAnalyzer

  /** The package manager does not know the package. */
  datatype AnalysisError = PackageNotFound(packageName: string)

  /**
   * `analyzeApp`. The package manager's application record (`None` when the package is not
   * installed), the archive found at its path, the archive's length in bytes and the
   * requested-permission lookup are inputs. An unknown package is the only failure; every other
   * problem degrades a field.
   */
  function AnalyzeApp(packageName: string, app: Option<InstalledApp>, archive: Archive, apkSize: int,
                      lookup: PackageLookup): (r: Result<AnalysisResult, AnalysisError>)
    ensures r.Failure? <==> app.None?
    ensures r.Failure? ==> r.error == PackageNotFound(packageName)
    ensures r.Success? ==>
      && r.value.packageName == packageName
      && r.value.appName == app.value.appLabel
      && r.value.apkPath == app.value.sourceDir
      && r.value.apkSize == apkSize
      && r.value.permissions == ExtractPermissions(lookup)
      && r.value.nativeLibraries == ExtractNativeLibraries(archive)
      && r.value.framework == DetectFramework(archive, r.value.nativeLibraries)
      && r.value.language == DetectLanguage(archive)
      && r.value.primaryAbi == GetPrimaryAbi(r.value.nativeLibraries)
      && r.value.supportedAbis == GetAbis(r.value.nativeLibraries)
      && (r.value.is64Bit <==> Contains(r.value.primaryAbi, "64"))
  {
    match app
    case None => Failure(PackageNotFound(packageName))
    case Some(info) =>
      var nativeLibs := ExtractNativeLibraries(archive);
      var framework := DetectFramework(archive, nativeLibs);
      var language := DetectLanguage(archive);
      var primaryAbi := GetPrimaryAbi(nativeLibs);
      Is64Contains(primaryAbi);
      var is64Bit := Is64(primaryAbi);
      var supportedAbis := GetAbis(nativeLibs);
      var permissions := ExtractPermissions(lookup);
      Success(AnalysisResult(packageName, info.appLabel, nativeLibs, info.sourceDir, apkSize, framework,
                             language, primaryAbi, is64Bit, supportedAbis, permissions))
  }

  /**
   * The agreements between the fields of a result: the bitness flag reads the primary ABI, the
   * primary ABI is a supported one unless it is the sentinel, the supported ABIs are exactly the
   * distinct ABIs of the libraries with the 64-bit ones first, and a native framework label
   * names the reported language.
   */
  predicate Consistent(result: AnalysisResult) {
    && (result.is64Bit <==> Contains(result.primaryAbi, "64"))
    && (result.primaryAbi == "Unknown" || result.primaryAbi in result.supportedAbis)
    && (|result.nativeLibraries| == 0 <==> |result.supportedAbis| == 0)
    && NoDuplicates(result.supportedAbis)
    && (forall l | l in result.nativeLibraries :: l.abi in result.supportedAbis)
    && (forall a | a in result.supportedAbis :: exists l | l in result.nativeLibraries :: l.abi == a)
    && (forall i, j | 0 <= i < j < |result.supportedAbis| ::
          Contains(result.supportedAbis[j], "64") ==> Contains(result.supportedAbis[i], "64"))
    && result.framework in FrameworkLabels
    && (result.framework == KotlinLabel ==> result.language == "Kotlin")
    && (result.framework == JavaLabel ==> result.language == "Java")
  }

  /** A native label is only reported together with the language it names. */
  lemma NativeLabelNamesLanguage(archive: Archive, libs: seq<LibraryInfo>)
    ensures DetectFramework(archive, libs) == KotlinLabel ==> DetectLanguage(archive) == "Kotlin"
    ensures DetectFramework(archive, libs) == JavaLabel ==> DetectLanguage(archive) == "Java"
  {
    assert KotlinLabel != JavaLabel by {
      assert KotlinLabel[16] != JavaLabel[16];
    }
  }

  /** Every ABI of the list carries "64" exactly when it is 64-bit by the ordering's test. */
  lemma BitnessOrderReadsContains(abis: seq<string>)
    requires forall i, j | 0 <= i < j < |abis| :: Is64(abis[j]) ==> Is64(abis[i])
    ensures forall i, j | 0 <= i < j < |abis| :: Contains(abis[j], "64") ==> Contains(abis[i], "64")
  {
    forall i, j | 0 <= i < j < |abis|
      ensures Contains(abis[j], "64") ==> Contains(abis[i], "64")
    {
      Is64Contains(abis[i]);
      Is64Contains(abis[j]);
    }
  }

  /** Every successful analysis is internally consistent. */
  lemma AnalysisConsistent(packageName: string, app: Option<InstalledApp>, archive: Archive, apkSize: int,
                           lookup: PackageLookup)
    ensures var r := AnalyzeApp(packageName, app, archive, apkSize, lookup);
      r.Success? ==> Consistent(r.value)
  {
    var r := AnalyzeApp(packageName, app, archive, apkSize, lookup);
    if r.Success? {
      var libs := r.value.nativeLibraries;
      BitnessOrderReadsContains(GetAbis(libs));
      NativeLabelNamesLanguage(archive, libs);
      if |libs| > 0 {
        assert libs[0].abi in GetAbis(libs);
      }
    }
  }

  /**
   * The "Unknown" primary ABI is never 64-bit; it means no native libraries were found, unless
   * an ABI directory is itself named "Unknown" and no preferred ABI is present.
   */
  lemma UnknownPrimaryAbiMeaning(packageName: string, app: Option<InstalledApp>, archive: Archive, apkSize: int,
                                 lookup: PackageLookup)
    ensures var r := AnalyzeApp(packageName, app, archive, apkSize, lookup);
      r.Success? && r.value.primaryAbi == "Unknown" ==>
        && !r.value.is64Bit
        && ((r.value.nativeLibraries == [] && r.value.supportedAbis == []) || "Unknown" in r.value.supportedAbis)
  {
    var r := AnalyzeApp(packageName, app, archive, apkSize, lookup);
    ThirtyTwoBitLabels();
    if r.Success? {
      UnknownPrimaryAbiOfLibraries(r.value.nativeLibraries);
    }
  }

  /** The sentinel primary ABI of a library list: no libraries, or an ABI directory of that name. */
  lemma UnknownPrimaryAbiOfLibraries(libs: seq<LibraryInfo>)
    ensures GetPrimaryAbi(libs) == "Unknown" ==> (libs == [] && GetAbis(libs) == []) || "Unknown" in GetAbis(libs)
  {
    if |libs| > 0 {
      UnknownPrimaryAbi(libs);
      assert GetAbis(libs)[0] in GetAbis(libs);
    }
  }

  /** The 64-bit ABI labels read as 64-bit. */
  lemma SixtyFourBitLabels()
    ensures Contains("arm64-v8a", "64") && Contains("x86_64", "64")
  {
    assert OccursAt("arm64-v8a", "64", 3);
    assert OccursAt("x86_64", "64", 4);
  }

  /** The 32-bit ABI labels and the sentinel do not. */
  lemma ThirtyTwoBitLabels()
    ensures !Contains("armeabi-v7a", "64") && !Contains("x86", "64") && !Contains("Unknown", "64")
  {
    AbsentCharacter("armeabi-v7a", "64", '6');
    AbsentCharacter("x86", "64", '4');
    AbsentCharacter("Unknown", "64", '6');
  }

  /** Without native libraries there are no ABIs and the primary ABI is the sentinel. */
  lemma NoLibrariesNoAbis()
    ensures GetAbis([]) == [] && GetPrimaryAbi([]) == "Unknown"
  {
  }

  /** Without native libraries and without a full listing the detection falls back to plain Java. */
  lemma NoLibrariesNoFramework(archive: Archive)
    requires EntryNames(archive).None?
    ensures DetectFramework(archive, []) == JavaLabel && DetectLanguage(archive) == "Java"
  {
    UnreadableArchive(archive, []);
    assert LowerNames([]) == [];
  }

  /**
   * An archive that cannot be opened degrades the archive-derived fields to their empty values;
   * the identity fields and the permissions are still reported.
   */
  lemma UnopenableArchiveDegrades(packageName: string, info: InstalledApp, apkSize: int, lookup: PackageLookup)
    ensures var r := AnalyzeApp(packageName, Some(info), Unopenable, apkSize, lookup);
      && r.Success?
      && r.value.nativeLibraries == []
      && r.value.supportedAbis == []
      && r.value.primaryAbi == "Unknown"
      && !r.value.is64Bit
      && r.value.framework == JavaLabel
      && r.value.language == "Java"
      && r.value.permissions == ExtractPermissions(lookup)
  {
    NoLibrariesNoAbis();
    NoLibrariesNoFramework(Unopenable);
    ThirtyTwoBitLabels();
  }
}
