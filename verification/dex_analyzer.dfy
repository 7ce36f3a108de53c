/**
 * Bytecode fingerprinting: the dex entries of the archive are decoded into class names, each
 * class name is matched by prefix against a fixed table of analytics packages, and the libraries
 * found are deduplicated and sorted by display name.
 */
module DexAnalyzer {
  import opened Wrappers
  import opened Strings
  import opened Seqs
  import opened Models

  // ----- the signature table -----

  /** A table row: the package prefix that identifies a library, and the library's display name. */
  datatype Signature = Signature(pattern: string, libraryName: string)

  /** `analyticsPatterns`, in the order the table lists it. */
  const AnalyticsPatterns: seq<Signature> := [
    Signature("com.google.firebase.analytics", "Firebase Analytics"),
    Signature("com.google.android.gms.measurement", "Firebase Analytics (GMS)"),
    Signature("com.google.android.gms.analytics", "Google Analytics"),
    Signature("com.facebook.appevents", "Facebook Analytics"),
    Signature("com.facebook.FacebookSdk", "Facebook SDK"),
    Signature("com.appsflyer", "AppsFlyer"),
    Signature("com.amplitude", "Amplitude"),
    Signature("com.mixpanel.android", "Mixpanel"),
    Signature("io.branch.referral", "Branch.io"),
    Signature("com.adjust.sdk", "Adjust"),
    Signature("com.crashlytics", "Crashlytics"),
    Signature("com.google.firebase.crashlytics", "Firebase Crashlytics"),
    Signature("com.flurry.android", "Flurry Analytics"),
    Signature("com.localytics.android", "Localytics"),
    Signature("com.segment.analytics", "Segment")
  ]

  /** The record reported for a table row. */
  function Detected(sig: Signature): DetectedLibrary {
    DetectedLibrary(sig.libraryName, sig.pattern, Analytics)
  }

  /** The sort key of the output. */
  function LibraryName(lib: DetectedLibrary): string {
    lib.name
  }

  /** No two rows of the table share a display name. */
  lemma TableNamesDistinct()
    ensures forall i, j | 0 <= i < j < |AnalyticsPatterns| ::
      AnalyticsPatterns[i].libraryName != AnalyticsPatterns[j].libraryName
  {
  }

  /** Two rows that report libraries of the same name are the same row. */
  lemma SameNameSameRow(s: Signature, t: Signature)
    requires s in AnalyticsPatterns && t in AnalyticsPatterns
    requires s.libraryName == t.libraryName
    ensures s == t
  {
    TableNamesDistinct();
    var i :| 0 <= i < |AnalyticsPatterns| && AnalyticsPatterns[i] == s;
    var j :| 0 <= j < |AnalyticsPatterns| && AnalyticsPatterns[j] == t;
    assert !(i < j) && !(j < i);
  }

  // ----- dex entry names -----

  predicate IsDigit(c: char) {
    '0' <= c <= '9'
  }

  predicate AllDigits(s: string) {
    forall i | 0 <= i < |s| :: IsDigit(s[i])
  }

  /** The whole name matches `classes`, any run of decimal digits, then `.dex`. */
  predicate IsDexEntryName(name: string)
    ensures IsDexEntryName(name) <==>
      |name| >= 11 && AllDigits(name[7..|name| - 4]) && name == DexEntryName(name[7..|name| - 4])
  {
    assert |name| >= 11 ==> name == name[..7] + name[7..|name| - 4] + name[|name| - 4..];
    && |name| >= 11
    && StartsWith(name, "classes")
    && EndsWith(name, ".dex")
    && AllDigits(name[7..|name| - 4])
  }

  /** The names the pattern describes: `classes`, a digit run, `.dex`. */
  function DexEntryName(digits: string): string {
    "classes" + digits + ".dex"
  }

  /** The name filter accepts exactly the names of the form `classes<digits>.dex`. */
  lemma DexEntryNameShape(name: string)
    ensures IsDexEntryName(name) <==> exists digits | AllDigits(digits) :: name == DexEntryName(digits)
  {
    if IsDexEntryName(name) {
      var digits := name[7..|name| - 4];
      assert name == name[..7] + digits + name[|name| - 4..];
      assert name == DexEntryName(digits);
    }
    if exists digits | AllDigits(digits) :: name == DexEntryName(digits) {
      var digits :| AllDigits(digits) && name == DexEntryName(digits);
      assert name[7..|name| - 4] == digits;
    }
  }

  /** `classes.dex` and `classes2.dex` are scanned; `lib/classes.dex` and `classes.dex.bak` are not. */
  lemma DexEntryNameExamples()
    ensures IsDexEntryName("classes.dex")
    ensures IsDexEntryName("classes2.dex")
    ensures !IsDexEntryName("lib/classes.dex")
    ensures !IsDexEntryName("classes.dex.bak")
  {
    assert "classes.dex" == DexEntryName("");
    assert "classes2.dex" == DexEntryName("2");
    DexEntryNameShape("classes.dex");
    DexEntryNameShape("classes2.dex");
    assert "lib/classes.dex"[0] != "classes"[0];
    assert "classes.dex.bak"[14] != ".dex"[3];
  }

  // ----- descriptor decoding -----

  /** `removePrefix`: drops `prefix` once when the string starts with it. */
  function RemovePrefix(s: string, prefix: string): (r: string)
    ensures StartsWith(s, prefix) ==> prefix + r == s
    ensures !StartsWith(s, prefix) ==> r == s
  {
    if StartsWith(s, prefix) then s[|prefix|..] else s
  }

  /** `removeSuffix`: drops `suffix` once when the string ends with it. */
  function RemoveSuffix(s: string, suffix: string): (r: string)
    ensures EndsWith(s, suffix) ==> r + suffix == s
    ensures !EndsWith(s, suffix) ==> r == s
  {
    if EndsWith(s, suffix) then s[..|s| - |suffix|] else s
  }

  /** The dotted class name of a type descriptor: one leading `L` and one trailing `;` dropped, `/` turned into `.`. */
  function ClassName(descriptor: string): (name: string)
    ensures '/' !in name
    ensures |name| <= |descriptor|
  {
    var r := ReplaceChar(RemoveSuffix(RemovePrefix(descriptor, "L"), ";"), '/', '.');
    ReplaceCharRemoves(RemoveSuffix(RemovePrefix(descriptor, "L"), ";"), '/', '.');
    r
  }

  /** The type descriptor of a dotted class name. */
  function Descriptor(className: string): string {
    "L" + ReplaceChar(className, '.', '/') + ";"
  }

  /** Decoding undoes encoding for class names without a slash. */
  lemma ClassNameOfDescriptor(className: string)
    requires '/' !in className
    ensures ClassName(Descriptor(className)) == className
  {
    var body := ReplaceChar(className, '.', '/');
    var d := Descriptor(className);
    assert StartsWith(d, "L");
    assert d[1..] == body + ";";
    assert EndsWith(body + ";", ";");
    assert RemoveSuffix(RemovePrefix(d, "L"), ";") == body;
    ReplaceCharBack(className, '.', '/');
  }

  /** Encoding undoes decoding for descriptors of the form `L…;` without a dot. */
  lemma DescriptorOfClassName(descriptor: string)
    requires |descriptor| >= 2 && descriptor[0] == 'L' && descriptor[|descriptor| - 1] == ';'
    requires '.' !in descriptor
    ensures Descriptor(ClassName(descriptor)) == descriptor
  {
    var inner := descriptor[1..|descriptor| - 1];
    assert RemovePrefix(descriptor, "L") == descriptor[1..];
    assert RemoveSuffix(descriptor[1..], ";") == inner;
    assert '.' !in inner by {
      forall k | 0 <= k < |inner|
        ensures inner[k] != '.'
      {
        assert inner[k] == descriptor[k + 1];
      }
    }
    ReplaceCharBack(inner, '/', '.');
    assert descriptor == "L" + inner + ";";
  }

  // ----- prefix matching -----

  /** The rows of `table` whose pattern starts the class name, as records, in table order. */
  function MatchesIn(className: string, table: seq<Signature>): (libs: seq<DetectedLibrary>)
    ensures forall lib :: lib in libs <==>
      exists sig | sig in table :: StartsWith(className, sig.pattern) && lib == Detected(sig)
  {
    if |table| == 0 then []
    else
      var rest := MatchesIn(className, table[1..]);
      assert forall sig | sig in table[1..] :: sig in table;
      (if StartsWith(className, table[0].pattern) then [Detected(table[0])] else []) + rest
  }

  /** The records one class contributes. */
  function ClassMatches(className: string): seq<DetectedLibrary> {
    MatchesIn(className, AnalyticsPatterns)
  }

  /** The records the classes of one dex contribute, class by class. */
  function ClassesMatches(descriptors: seq<string>): (libs: seq<DetectedLibrary>)
    ensures forall lib :: lib in libs <==>
      exists d, sig | d in descriptors && sig in AnalyticsPatterns ::
        StartsWith(ClassName(d), sig.pattern) && lib == Detected(sig)
  {
    if |descriptors| == 0 then []
    else
      var init := descriptors[..|descriptors| - 1];
      var last := descriptors[|descriptors| - 1];
      assert descriptors == init + [last];
      ClassesMatches(init) + ClassMatches(ClassName(last))
  }

  /** `analyzeDexFile`: the distinct records of a decodable dex; nothing for one that does not decode. */
  function DexLibraries(payload: DexPayload): (libs: seq<DetectedLibrary>)
    requires !payload.CopyFails?
    ensures payload.NotDex? ==> libs == []
    ensures NoDuplicates(libs)
    ensures payload.DexTypes? ==> forall lib :: lib in libs <==>
      exists d, sig | d in payload.descriptors && sig in AnalyticsPatterns ::
        StartsWith(ClassName(d), sig.pattern) && lib == Detected(sig)
  {
    match payload
    case NotDex => []
    case DexTypes(descriptors) => Distinct(ClassesMatches(descriptors))
  }

  // ----- the whole scan -----

  /** A scanned entry: its whole name matches the dex pattern. */
  predicate Scanned(e: ZipEntry) {
    IsDexEntryName(e.name)
  }

  /** Copying some scanned entry out of the archive fails. */
  predicate CopyFailure(entries: seq<ZipEntry>) {
    exists e | e in entries :: Scanned(e) && e.payload.CopyFails?
  }

  /** The scan reaches its result: the archive opens, lists completely, and every dex entry copies. */
  predicate Scannable(archive: Archive) {
    archive.Listing? && archive.complete && !CopyFailure(archive.entries)
  }

  /** The entry is a scanned, decodable dex with a class that starts with the row's pattern. */
  predicate EntryFingerprints(e: ZipEntry, sig: Signature) {
    && Scanned(e)
    && e.payload.DexTypes?
    && exists d | d in e.payload.descriptors :: StartsWith(ClassName(d), sig.pattern)
  }

  /** A class of some decodable scanned dex starts with the row's pattern. */
  predicate Fingerprinted(entries: seq<ZipEntry>, sig: Signature) {
    exists e | e in entries :: EntryFingerprints(e, sig)
  }

  /** The entry is a scanned, decodable dex defining a class of this dotted name. */
  predicate EntryDefines(e: ZipEntry, className: string) {
    && Scanned(e)
    && e.payload.DexTypes?
    && exists d | d in e.payload.descriptors :: ClassName(d) == className
  }

  /** Some decodable scanned dex defines a class of this dotted name. */
  predicate DefinesClass(entries: seq<ZipEntry>, className: string) {
    exists e | e in entries :: EntryDefines(e, className)
  }

  /** The records of all scanned entries, dex file by dex file, as `addAll` gathers them. */
  function Collect(entries: seq<ZipEntry>): (libs: seq<DetectedLibrary>)
    requires !CopyFailure(entries)
    ensures forall lib :: lib in libs <==>
      exists sig | sig in AnalyticsPatterns :: Fingerprinted(entries, sig) && lib == Detected(sig)
  {
    if |entries| == 0 then []
    else
      var init := entries[..|entries| - 1];
      var last := entries[|entries| - 1];
      assert entries == init + [last];
      assert !CopyFailure(init) by {
        forall e | e in init
          ensures !(Scanned(e) && e.payload.CopyFails?)
        {
          assert e in entries;
        }
      }
      var r := Collect(init) + (if Scanned(last) then DexLibraries(last.payload) else []);
      CollectStep(init, last);
      assert !(Scanned(last) && last.payload.CopyFails?);
      r
  }

  /** Fingerprinting a list with one more entry: the earlier entries or the new one. */
  lemma CollectStep(init: seq<ZipEntry>, last: ZipEntry)
    ensures forall sig :: Fingerprinted(init + [last], sig) <==> Fingerprinted(init, sig) || EntryFingerprints(last, sig)
  {
    var entries := init + [last];
    assert forall e :: e in entries <==> e in init || e == last;
  }

  /**
   * `detectAnalyticsLibraries`: nothing when the scan fails as a whole; otherwise exactly the
   * rows some class name starts with, each once, as Analytics records in strictly increasing
   * name order.
   */
  function DetectAnalyticsLibraries(archive: Archive): (libs: seq<DetectedLibrary>)
    ensures !Scannable(archive) ==> libs == []
    ensures Scannable(archive) ==> forall lib :: lib in libs <==>
      exists sig | sig in AnalyticsPatterns :: Fingerprinted(archive.entries, sig) && lib == Detected(sig)
    ensures forall lib | lib in libs :: lib.category == Analytics
    ensures StrictlySortedByKey(libs, LibraryName)
  {
    if !Scannable(archive) then []
    else
      var found := Distinct(Collect(archive.entries));
      var libs := SortByKey(found, LibraryName);
      SortedOutput(found);
      libs
  }

  /** Sorting distinct table records by name yields a strictly increasing sequence with the same elements. */
  lemma SortedOutput(found: seq<DetectedLibrary>)
    requires NoDuplicates(found)
    requires forall lib | lib in found :: exists sig | sig in AnalyticsPatterns :: lib == Detected(sig)
    ensures var libs := SortByKey(found, LibraryName);
      && (forall lib :: lib in libs <==> lib in found)
      && StrictlySortedByKey(libs, LibraryName)
  {
    var libs := SortByKey(found, LibraryName);
    assert forall lib :: lib in libs <==> lib in multiset(libs);
    assert forall lib :: lib in found <==> lib in multiset(found);
    SortByKeySorted(found, LibraryName);
    NoDuplicatesPermutation(found, libs);
    forall i, j | 0 <= i < j < |libs|
      ensures LibraryName(libs[i]) != LibraryName(libs[j])
    {
      assert libs[i] in multiset(libs) && libs[j] in multiset(libs);
      var s :| s in AnalyticsPatterns && libs[i] == Detected(s);
      var t :| t in AnalyticsPatterns && libs[j] == Detected(t);
      if s.libraryName == t.libraryName {
        SameNameSameRow(s, t);
      }
    }
    SortedDistinctKeysStrict(libs, LibraryName);
  }

  /** A library is reported at most once, however many classes or dex files match it. */
  lemma ReportedOnce(archive: Archive, lib: DetectedLibrary)
    ensures multiset(DetectAnalyticsLibraries(archive))[lib] <= 1
  {
    var libs := DetectAnalyticsLibraries(archive);
    assert NoDuplicates(libs) by {
      forall i, j | 0 <= i < j < |libs|
        ensures libs[i] != libs[j]
      {
        assert LexLess(LibraryName(libs[i]), LibraryName(libs[j]));
        LexLessIrreflexive(LibraryName(libs[i]));
      }
    }
    NoDuplicatesMultiset(libs);
  }

  /**
   * The result depends only on which class names the decodable dex entries define: not on the
   * order of classes, of dex files, or of other entries.
   */
  lemma DetectionOrderIndependent(a: Archive, b: Archive)
    requires Scannable(a) && Scannable(b)
    requires forall c :: DefinesClass(a.entries, c) <==> DefinesClass(b.entries, c)
    ensures DetectAnalyticsLibraries(a) == DetectAnalyticsLibraries(b)
  {
    forall sig
      ensures Fingerprinted(a.entries, sig) <==> Fingerprinted(b.entries, sig)
    {
      FingerprintedByClasses(a.entries, b.entries, sig);
      FingerprintedByClasses(b.entries, a.entries, sig);
    }
    StrictlySortedUnique(DetectAnalyticsLibraries(a), DetectAnalyticsLibraries(b), LibraryName);
  }

  /** Fingerprinting carries over to a listing that defines the same classes. */
  lemma FingerprintedByClasses(x: seq<ZipEntry>, y: seq<ZipEntry>, sig: Signature)
    requires forall c :: DefinesClass(x, c) ==> DefinesClass(y, c)
    ensures Fingerprinted(x, sig) ==> Fingerprinted(y, sig)
  {
    if Fingerprinted(x, sig) {
      var e :| e in x && EntryFingerprints(e, sig);
      var d :| d in e.payload.descriptors && StartsWith(ClassName(d), sig.pattern);
      assert EntryDefines(e, ClassName(d));
      assert DefinesClass(x, ClassName(d));
      var e' :| e' in y && EntryDefines(e', ClassName(d));
      var d' :| d' in e'.payload.descriptors && ClassName(d') == ClassName(d);
      assert EntryFingerprints(e', sig);
    }
  }

  /** A dex entry that does not decode contributes nothing and does not stop the others. */
  lemma UndecodableDexIgnored(entries: seq<ZipEntry>, i: nat)
    requires i < |entries| && entries[i].payload.NotDex?
    ensures var rest := entries[..i] + entries[i + 1..];
      DetectAnalyticsLibraries(Listing(entries, true)) == DetectAnalyticsLibraries(Listing(rest, true))
  {
    var rest := entries[..i] + entries[i + 1..];
    assert forall e | e in rest :: e in entries;
    assert forall e | e in entries && e != entries[i] :: e in rest by {
      forall e | e in entries && e != entries[i]
        ensures e in rest
      {
        var k :| 0 <= k < |entries| && entries[k] == e;
        if k < i {
          assert rest[k] == e;
        } else {
          assert rest[k - 1] == e;
        }
      }
    }
    assert CopyFailure(entries) <==> CopyFailure(rest);
    if Scannable(Listing(entries, true)) {
      forall c
        ensures DefinesClass(entries, c) <==> DefinesClass(rest, c)
      {
        if DefinesClass(entries, c) {
          var e :| e in entries && EntryDefines(e, c);
          assert e in rest;
        }
      }
      DetectionOrderIndependent(Listing(entries, true), Listing(rest, true));
    }
  }

  /** A fingerprinted row is reported exactly once. */
  lemma FingerprintedReportedOnce(archive: Archive, sig: Signature)
    requires Scannable(archive)
    requires sig in AnalyticsPatterns && Fingerprinted(archive.entries, sig)
    ensures multiset(DetectAnalyticsLibraries(archive))[Detected(sig)] == 1
  {
    assert Detected(sig) in DetectAnalyticsLibraries(archive);
    ReportedOnce(archive, Detected(sig));
  }

  /** A single `classes.dex` holding the classes `x` and `y`. */
  function SingleDex(x: string, y: string): ZipEntry {
    ZipEntry("classes.dex", false, 0, DexTypes([Descriptor(x), Descriptor(y)]))
  }

  /** A single dex with a class under a row's pattern fingerprints that row, and the scan completes. */
  lemma SingleDexFingerprints(x: string, y: string, sig: Signature)
    requires '/' !in x && StartsWith(x, sig.pattern)
    ensures Scannable(Listing([SingleDex(x, y)], true))
    ensures Fingerprinted([SingleDex(x, y)], sig)
  {
    var e := SingleDex(x, y);
    DexEntryNameExamples();
    ClassNameOfDescriptor(x);
    assert e.payload.descriptors[0] == Descriptor(x);
    assert EntryFingerprints(e, sig);
    assert [e][0] == e;
  }

  /**
   * Two classes under `com.facebook.appevents` in one dex yield exactly one
   * "Facebook Analytics" record.
   */
  lemma FacebookDuplicatesCollapse(x: string, y: string)
    requires '/' !in x && '/' !in y
    requires StartsWith(x, "com.facebook.appevents") && StartsWith(y, "com.facebook.appevents")
    ensures multiset(DetectAnalyticsLibraries(Listing([SingleDex(x, y)], true)))[
      DetectedLibrary("Facebook Analytics", "com.facebook.appevents", Analytics)] == 1
  {
    var sig := AnalyticsPatterns[3];
    assert sig == Signature("com.facebook.appevents", "Facebook Analytics");
    SingleDexFingerprints(x, y, sig);
    FingerprintedReportedOnce(Listing([SingleDex(x, y)], true), sig);
  }
}
