/**
 * Framework detection: an ordered list of library-name rules, then an ordered list of
 * archive-layout rules, then the Kotlin/Java split for native Android apps.
 */
module FrameworkDetector {
  import opened Wrappers
  import opened Strings
  import opened Models

  // ----- rules -----

  /** One test on a name: it starts with the text, or contains it. */
  datatype Marker = Prefix(text: string) | Substring(text: string)

  predicate MarkerMatches(name: string, m: Marker) {
    match m
    case Prefix(t) => StartsWith(name, t)
    case Substring(t) => Contains(name, t)
  }

  /** A framework label and the markers that signal it; any one marker on any one name suffices. */
  datatype Rule = Rule(framework: string, markers: seq<Marker>)

  predicate NameMatches(name: string, rule: Rule) {
    exists m | m in rule.markers :: MarkerMatches(name, m)
  }

  predicate RuleFires(rule: Rule, names: seq<string>) {
    exists n | n in names :: NameMatches(n, rule)
  }

  /** Rule `i` is the first rule of the list that fires. */
  predicate FirstFiring(rules: seq<Rule>, names: seq<string>, i: int) {
    && 0 <= i < |rules|
    && RuleFires(rules[i], names)
    && forall j | 0 <= j < i :: !RuleFires(rules[j], names)
  }

  /**
   * The label of the first rule that fires, as a chain of early returns does it; nothing when no
   * rule fires.
   */
  function FirstMatch(rules: seq<Rule>, names: seq<string>): (framework: Option<string>)
    ensures framework.None? <==> forall i | 0 <= i < |rules| :: !RuleFires(rules[i], names)
    ensures framework.Some? ==>
      exists i | 0 <= i < |rules| :: FirstFiring(rules, names, i) && framework.value == rules[i].framework
  {
    if |rules| == 0 then None
    else if RuleFires(rules[0], names) then
      assert FirstFiring(rules, names, 0);
      Some(rules[0].framework)
    else
      var rest := FirstMatch(rules[1..], names);
      assert forall i | 1 <= i < |rules| :: rules[i] == rules[1..][i - 1];
      if rest.Some? then
        var i :| 0 <= i < |rules[1..]| && FirstFiring(rules[1..], names, i) && rest.value == rules[1..][i].framework;
        assert FirstFiring(rules, names, i + 1);
        rest
      else
        rest
  }

  /** The first firing rule is unique: `FirstMatch` names exactly the label of that rule. */
  lemma FirstMatchIsFirstFiring(rules: seq<Rule>, names: seq<string>, i: int)
    requires FirstFiring(rules, names, i)
    ensures FirstMatch(rules, names) == Some(rules[i].framework)
  {
    assert RuleFires(rules[i], names);
    assert FirstMatch(rules, names).Some?;
    var k :| 0 <= k < |rules| && FirstFiring(rules, names, k) && FirstMatch(rules, names).value == rules[k].framework;
    assert RuleFires(rules[k], names);
    assert !(k < i) && !(i < k);
  }

  /** The library-name rules, tested on lower-cased file names, in the order they are tried. */
  const LibraryRules: seq<Rule> := [
    Rule("Flutter", [Substring("libflutter.so")]),
    Rule("React Native", [Substring("libreactnative"), Substring("libhermes")]),
    Rule("Unity", [Substring("libunity.so"), Substring("libil2cpp.so")]),
    Rule("Xamarin", [Substring("libmonodroid"), Substring("libmonosgen")]),
    Rule("Cocos2d", [Substring("libcocos2d")]),
    Rule("Godot", [Substring("libgodot")]),
    Rule("Unreal Engine", [Substring("libue4"), Substring("libunreal")])
  ]

  /** The archive-layout rules, tested on the raw entry paths, in the order they are tried. */
  const StructureRules: seq<Rule> := [
    Rule("Flutter", [Prefix("assets/flutter_assets/"), Substring("isolate_snapshot_data"), Substring("vm_snapshot_data")]),
    Rule("React Native", [Substring("index.android.bundle"), Substring("assets/index.android.js")]),
    Rule("Cordova/Ionic", [Prefix("assets/www/cordova"), Substring("cordova.js")]),
    Rule("Unity", [Prefix("assets/bin/Data/"), Substring("resources.assets")]),
    Rule("Xamarin", [Prefix("assets/assemblies/"), Substring("Mono.Android.dll")])
  ]

  const KotlinLabel: string := "Native Android (Kotlin)"
  const JavaLabel: string := "Native Android (Java)"

  /** Every label `detectFramework` can return. */
  const FrameworkLabels: set<string> := {
    "Flutter", "React Native", "Unity", "Xamarin", "Cocos2d", "Godot", "Unreal Engine",
    "Cordova/Ionic", KotlinLabel, JavaLabel
  }

  // ----- archive layout -----

  /** The five layout flags; all false by default. */
  datatype ApkStructureInfo = ApkStructureInfo(
    hasFlutterAssets: bool,
    hasReactNativeBundle: bool,
    hasCordova: bool,
    hasUnityAssets: bool,
    hasXamarinAssemblies: bool)

  const NoStructure := ApkStructureInfo(false, false, false, false, false)

  /** A name matches a two-marker rule when it matches either marker. */
  lemma RuleFiresTwo(names: seq<string>, f: string, m1: Marker, m2: Marker)
    ensures RuleFires(Rule(f, [m1, m2]), names) <==>
      exists n | n in names :: MarkerMatches(n, m1) || MarkerMatches(n, m2)
  {
    assert forall n :: NameMatches(n, Rule(f, [m1, m2])) <==> MarkerMatches(n, m1) || MarkerMatches(n, m2);
  }

  /** A name matches a three-marker rule when it matches any of the three. */
  lemma RuleFiresThree(names: seq<string>, f: string, m1: Marker, m2: Marker, m3: Marker)
    ensures RuleFires(Rule(f, [m1, m2, m3]), names) <==>
      exists n | n in names :: MarkerMatches(n, m1) || MarkerMatches(n, m2) || MarkerMatches(n, m3)
  {
    assert forall n :: NameMatches(n, Rule(f, [m1, m2, m3])) <==>
      MarkerMatches(n, m1) || MarkerMatches(n, m2) || MarkerMatches(n, m3);
  }

  /** Flutter layout: the asset directory or either engine snapshot. */
  function HasFlutterAssets(names: seq<string>): (found: bool)
    ensures found <==> RuleFires(StructureRules[0], names)
  {
    RuleFiresThree(names, "Flutter",
      Prefix("assets/flutter_assets/"), Substring("isolate_snapshot_data"), Substring("vm_snapshot_data"));
    exists n | n in names ::
      StartsWith(n, "assets/flutter_assets/") || Contains(n, "isolate_snapshot_data") || Contains(n, "vm_snapshot_data")
  }

  /** React Native layout: a JavaScript bundle. */
  function HasReactNativeBundle(names: seq<string>): (found: bool)
    ensures found <==> RuleFires(StructureRules[1], names)
  {
    RuleFiresTwo(names, "React Native", Substring("index.android.bundle"), Substring("assets/index.android.js"));
    exists n | n in names :: Contains(n, "index.android.bundle") || Contains(n, "assets/index.android.js")
  }

  /** Cordova/Ionic layout: the web directory's Cordova files. */
  function HasCordova(names: seq<string>): (found: bool)
    ensures found <==> RuleFires(StructureRules[2], names)
  {
    RuleFiresTwo(names, "Cordova/Ionic", Prefix("assets/www/cordova"), Substring("cordova.js"));
    exists n | n in names :: StartsWith(n, "assets/www/cordova") || Contains(n, "cordova.js")
  }

  /** Unity layout: the player data directory or its resource file. */
  function HasUnityAssets(names: seq<string>): (found: bool)
    ensures found <==> RuleFires(StructureRules[3], names)
  {
    RuleFiresTwo(names, "Unity", Prefix("assets/bin/Data/"), Substring("resources.assets"));
    exists n | n in names :: StartsWith(n, "assets/bin/Data/") || Contains(n, "resources.assets")
  }

  /** Xamarin layout: the assemblies directory or the Mono binding assembly. */
  function HasXamarinAssemblies(names: seq<string>): (found: bool)
    ensures found <==> RuleFires(StructureRules[4], names)
  {
    RuleFiresTwo(names, "Xamarin", Prefix("assets/assemblies/"), Substring("Mono.Android.dll"));
    exists n | n in names :: StartsWith(n, "assets/assemblies/") || Contains(n, "Mono.Android.dll")
  }

  /**
   * `analyzeApkStructure`: each flag says whether its layout rule fires on the entry paths; an
   * archive that cannot be listed in full gives the all-false default.
   */
  function AnalyzeApkStructure(archive: Archive): (info: ApkStructureInfo)
    ensures EntryNames(archive).None? ==> info == NoStructure
    ensures EntryNames(archive).Some? ==>
      var names := EntryNames(archive).value;
      && (info.hasFlutterAssets <==> RuleFires(StructureRules[0], names))
      && (info.hasReactNativeBundle <==> RuleFires(StructureRules[1], names))
      && (info.hasCordova <==> RuleFires(StructureRules[2], names))
      && (info.hasUnityAssets <==> RuleFires(StructureRules[3], names))
      && (info.hasXamarinAssemblies <==> RuleFires(StructureRules[4], names))
  {
    match EntryNames(archive)
    case None => NoStructure
    case Some(names) =>
      ApkStructureInfo(
        HasFlutterAssets(names), HasReactNativeBundle(names), HasCordova(names),
        HasUnityAssets(names), HasXamarinAssemblies(names))
  }

  /** The chain of early returns over the layout flags. */
  function FrameworkFromStructure(info: ApkStructureInfo): (framework: Option<string>)
    ensures framework.None? <==> info == NoStructure
    ensures framework.Some? ==> framework.value in FrameworkLabels
  {
    if info.hasFlutterAssets then Some("Flutter")
    else if info.hasReactNativeBundle then Some("React Native")
    else if info.hasCordova then Some("Cordova/Ionic")
    else if info.hasUnityAssets then Some("Unity")
    else if info.hasXamarinAssemblies then Some("Xamarin")
    else None
  }

  /** A chain over five rules that tests each rule's flag in order is the first-match reading. */
  lemma FirstMatchOfFive(rules: seq<Rule>, names: seq<string>, b0: bool, b1: bool, b2: bool, b3: bool, b4: bool)
    requires |rules| == 5
    requires b0 <==> RuleFires(rules[0], names)
    requires b1 <==> RuleFires(rules[1], names)
    requires b2 <==> RuleFires(rules[2], names)
    requires b3 <==> RuleFires(rules[3], names)
    requires b4 <==> RuleFires(rules[4], names)
    ensures FirstMatch(rules, names) ==
      if b0 then Some(rules[0].framework)
      else if b1 then Some(rules[1].framework)
      else if b2 then Some(rules[2].framework)
      else if b3 then Some(rules[3].framework)
      else if b4 then Some(rules[4].framework)
      else None
  {
    if b0 {
      FirstMatchIsFirstFiring(rules, names, 0);
    } else if b1 {
      FirstMatchIsFirstFiring(rules, names, 1);
    } else if b2 {
      FirstMatchIsFirstFiring(rules, names, 2);
    } else if b3 {
      FirstMatchIsFirstFiring(rules, names, 3);
    } else if b4 {
      FirstMatchIsFirstFiring(rules, names, 4);
    }
  }

  /** The flag chain is the first-match reading of the layout rules. */
  lemma StructureChainIsFirstMatch(archive: Archive)
    requires EntryNames(archive).Some?
    ensures FrameworkFromStructure(AnalyzeApkStructure(archive)) == FirstMatch(StructureRules, EntryNames(archive).value)
  {
    var info := AnalyzeApkStructure(archive);
    FirstMatchOfFive(StructureRules, EntryNames(archive).value, info.hasFlutterAssets, info.hasReactNativeBundle,
      info.hasCordova, info.hasUnityAssets, info.hasXamarinAssemblies);
  }

  // ----- Kotlin -----

  /** `detectKotlin`'s second test: the path mentions "kotlin" in any case and ends in `.kotlin_module`. */
  predicate IsKotlinModule(name: string) {
    ContainsIgnoreCase(name, "kotlin") && EndsWith(name, ".kotlin_module")
  }

  /** The case-insensitive mention is implied by the suffix: the suffix alone decides. */
  lemma KotlinModuleSuffixSuffices(name: string)
    ensures IsKotlinModule(name) <==> EndsWith(name, ".kotlin_module")
  {
    KotlinInModuleSuffix();
    SuffixImpliesMention(name, ".kotlin_module", "kotlin");
  }

  /** The module suffix is lower-case and contains the lower-case word "kotlin". */
  lemma KotlinInModuleSuffix()
    ensures NoUpperCase(".kotlin_module") && Contains(".kotlin_module", "kotlin")
    ensures ToLower("kotlin") == "kotlin"
  {
    assert ".kotlin_module" == "." + "kotlin" + "_module";
    OccursBetween(".", "kotlin", "_module");
    assert NoUpperCase("kotlin");
    LowerUnchanged("kotlin");
  }

  /** A name ending with a lower-case suffix mentions, ignoring case, every lower-case word inside it. */
  lemma SuffixImpliesMention(name: string, suffix: string, word: string)
    requires NoUpperCase(suffix) && Contains(suffix, word) && ToLower(word) == word
    ensures EndsWith(name, suffix) ==> ContainsIgnoreCase(name, word)
  {
    if EndsWith(name, suffix) {
      EndsWithAfterLower(name, suffix);
      EndsWithContains(ToLower(name), suffix);
      ContainsTransitive(ToLower(name), suffix, word);
    }
  }

  /**
   * `detectKotlin`: some entry path lies under `kotlin/` or names a Kotlin module file; false
   * when the archive cannot be listed in full.
   */
  function DetectKotlin(archive: Archive): (usesKotlin: bool)
    ensures usesKotlin <==>
      && EntryNames(archive).Some?
      && exists n | n in EntryNames(archive).value :: StartsWith(n, "kotlin/") || EndsWith(n, ".kotlin_module")
  {
    match EntryNames(archive)
    case None => false
    case Some(names) =>
      assert forall n | n in names :: IsKotlinModule(n) <==> EndsWith(n, ".kotlin_module") by {
        forall n | n in names
          ensures IsKotlinModule(n) <==> EndsWith(n, ".kotlin_module")
        {
          KotlinModuleSuffixSuffices(n);
        }
      }
      if exists n | n in names :: StartsWith(n, "kotlin/") then true
      else if exists n | n in names :: IsKotlinModule(n) then true
      else false
  }

  /** `detectLanguage`. */
  function DetectLanguage(archive: Archive): (language: string)
    ensures language == "Kotlin" <==> DetectKotlin(archive)
    ensures language == "Java" <==> !DetectKotlin(archive)
  {
    if DetectKotlin(archive) then "Kotlin" else "Java"
  }

  // ----- the whole detection -----

  /** The library file names, lower-cased, in library order. */
  function LowerNames(libs: seq<LibraryInfo>): (names: seq<string>)
    ensures |names| == |libs| && forall i | 0 <= i < |libs| :: names[i] == ToLower(libs[i].name)
  {
    seq(|libs|, i requires 0 <= i < |libs| => ToLower(libs[i].name))
  }

  /**
   * `detectFramework`: the first library rule that fires on the lower-cased library names,
   * otherwise the first layout rule that fires on the archive, otherwise native Android with the
   * language `detectKotlin` finds.
   */
  function DetectFramework(archive: Archive, libs: seq<LibraryInfo>): (framework: string)
    ensures framework in FrameworkLabels
    ensures (framework == KotlinLabel || framework == JavaLabel) ==>
      && FirstMatch(LibraryRules, LowerNames(libs)).None?
      && FrameworkFromStructure(AnalyzeApkStructure(archive)).None?
  {
    match FirstMatch(LibraryRules, LowerNames(libs))
    case Some(f) =>
      LibraryLabels(f);
      f
    case None =>
      match FrameworkFromStructure(AnalyzeApkStructure(archive))
      case Some(f) => f
      case None => if DetectKotlin(archive) then KotlinLabel else JavaLabel
  }

  /** A library rule's label is a framework label other than the two native ones. */
  lemma LibraryLabels(f: string)
    requires exists i | 0 <= i < |LibraryRules| :: f == LibraryRules[i].framework
    ensures f in FrameworkLabels && f != KotlinLabel && f != JavaLabel
  {
    var i :| 0 <= i < |LibraryRules| && f == LibraryRules[i].framework;
    assert |f| < |KotlinLabel| && |f| < |JavaLabel|;
  }

  /**
   * Library names take precedence: once a library rule fires, the archive is not consulted and
   * the result is that rule's label whatever the archive holds.
   */
  lemma LibrarySignalWins(a: Archive, b: Archive, libs: seq<LibraryInfo>, i: int)
    requires FirstFiring(LibraryRules, LowerNames(libs), i)
    ensures DetectFramework(a, libs) == LibraryRules[i].framework
    ensures DetectFramework(a, libs) == DetectFramework(b, libs)
  {
    FirstMatchIsFirstFiring(LibraryRules, LowerNames(libs), i);
  }

  /** Library names are compared case-insensitively: only their lower-cased forms matter. */
  lemma LibraryNamesCaseInsensitive(archive: Archive, libs: seq<LibraryInfo>, libs': seq<LibraryInfo>)
    requires |libs| == |libs'|
    requires forall i | 0 <= i < |libs| :: ToLower(libs[i].name) == ToLower(libs'[i].name)
    ensures DetectFramework(archive, libs) == DetectFramework(archive, libs')
  {
    assert LowerNames(libs) == LowerNames(libs');
  }

  /**
   * Without a library signal the layout rules decide, in their own order; the native labels
   * agree with `detectLanguage`.
   */
  lemma StructureDecides(archive: Archive, libs: seq<LibraryInfo>)
    requires FirstMatch(LibraryRules, LowerNames(libs)).None?
    ensures EntryNames(archive).Some? && FirstMatch(StructureRules, EntryNames(archive).value).Some? ==>
      DetectFramework(archive, libs) == FirstMatch(StructureRules, EntryNames(archive).value).value
    ensures (EntryNames(archive).None? || FirstMatch(StructureRules, EntryNames(archive).value).None?) ==>
      DetectFramework(archive, libs) == "Native Android (" + DetectLanguage(archive) + ")"
  {
    if EntryNames(archive).Some? {
      StructureChainIsFirstMatch(archive);
    }
    NativeLabelsSpelled();
  }

  /** The native labels name their language between "Native Android (" and ")". */
  lemma NativeLabelsSpelled()
    ensures KotlinLabel == "Native Android (" + "Kotlin" + ")"
    ensures JavaLabel == "Native Android (" + "Java" + ")"
  {
  }

  /**
   * "Cordova/Ionic" has no library rule: it is reported only when the archive lists in full, no
   * library rule fires, and the Cordova layout rule is the first layout rule that fires.
   */
  lemma CordovaOnlyFromLayout(archive: Archive, libs: seq<LibraryInfo>)
    requires DetectFramework(archive, libs) == "Cordova/Ionic"
    ensures FirstMatch(LibraryRules, LowerNames(libs)).None?
    ensures EntryNames(archive).Some? && FirstFiring(StructureRules, EntryNames(archive).value, 2)
  {
    var m := FirstMatch(LibraryRules, LowerNames(libs));
    if m.Some? {
      NotALibraryLabel(m.value);
    }
    var info := AnalyzeApkStructure(archive);
    CordovaFromChain(info);
  }

  /** No library rule carries the Cordova label. */
  lemma NotALibraryLabel(f: string)
    requires exists i | 0 <= i < |LibraryRules| :: f == LibraryRules[i].framework
    ensures f != "Cordova/Ionic"
  {
    var i :| 0 <= i < |LibraryRules| && f == LibraryRules[i].framework;
    assert "Cordova/Ionic"[0] == 'C';
    if i == 6 {
      assert f[0] == 'U';
    } else {
      assert |f| != 13;
    }
  }

  /** The chain yields the Cordova label only past the Flutter and React Native flags. */
  lemma CordovaFromChain(info: ApkStructureInfo)
    requires FrameworkFromStructure(info) == Some("Cordova/Ionic")
    ensures !info.hasFlutterAssets && !info.hasReactNativeBundle && info.hasCordova
  {
    assert "Cordova/Ionic" != "Flutter" && "Cordova/Ionic" != "React Native" by {
      assert |"Cordova/Ionic"| == 13;
    }
    assert "Cordova/Ionic" != "Unity" && "Cordova/Ionic" != "Xamarin";
  }

  /**
   * An archive that cannot be listed in full looks like plain Java: only the library names can
   * change the answer.
   */
  lemma UnreadableArchive(archive: Archive, libs: seq<LibraryInfo>)
    requires EntryNames(archive).None?
    ensures DetectFramework(archive, libs) == FirstMatch(LibraryRules, LowerNames(libs)).GetOr(JavaLabel)
  {
  }

  /** A Flutter engine library decides Flutter even when the archive also carries a React Native bundle. */
  lemma FlutterLibraryBeatsReactNativeBundle(libs: seq<LibraryInfo>, archive: Archive, abi: string, size: int,
                                             payload: DexPayload)
    requires libs == [LibraryInfo("libflutter.so", abi, size)]
    requires archive == Listing([ZipEntry("assets/index.android.bundle", false, size, payload)], true)
    ensures DetectFramework(archive, libs) == "Flutter"
  {
    FlutterEngineName();
    assert LowerNames(libs)[0] == ToLower(libs[0].name);
    assert LowerNames(libs)[0] in LowerNames(libs);
    assert NameMatches(LowerNames(libs)[0], LibraryRules[0]) by {
      assert LibraryRules[0].markers[0] in LibraryRules[0].markers;
    }
    assert FirstFiring(LibraryRules, LowerNames(libs), 0);
    FirstMatchIsFirstFiring(LibraryRules, LowerNames(libs), 0);
  }

  /** The engine's file name is already lower-case and contains the Flutter marker. */
  lemma FlutterEngineName()
    ensures ToLower("libflutter.so") == "libflutter.so"
    ensures Contains("libflutter.so", "libflutter.so")
  {
    assert NoUpperCase("libflutter.so");
    LowerUnchanged("libflutter.so");
    assert OccursAt("libflutter.so", "libflutter.so", 0);
  }
}
