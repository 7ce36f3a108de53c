/**
 * Native-library extraction and ABI ranking: which archive entries are native libraries, the
 * distinct ABIs with the 64-bit ones first, and the primary ABI by a fixed preference.
 */
module NativeLibraryAnalyzer {
  import opened Wrappers
  import opened Strings
  import opened Seqs
  import opened Models

  // ----- extraction -----

  /** The entry filter: a path under `lib/` naming a `.so` file, and not a directory. */
  predicate IsLibraryCandidate(e: ZipEntry) {
    StartsWith(e.name, "lib/") && EndsWith(e.name, ".so") && !e.isDirectory
  }

  /** A suffix free of `sep` that ends `x + [sep] + y`, where `y` is free of `sep`, ends `y`. */
  lemma SuffixWithinLastPart(x: string, y: string, sep: char, suffix: string)
    requires sep !in y && sep !in suffix
    requires EndsWith(x + [sep] + y, suffix)
    ensures EndsWith(y, suffix)
  {
    var z := x + [sep] + y;
    var n := |z|;
    assert z[|x|] == sep;
    assert forall k | 0 <= k < |suffix| :: suffix[k] == z[n - |suffix| + k] && suffix[k] in suffix;
    assert |suffix| <= |y|;
    assert forall k | 0 <= k < |suffix| :: suffix[k] == y[|y| - |suffix| + k];
    assert y[|y| - |suffix|..] == suffix;
  }
  /** Joining three parts puts the separator between them. */
  lemma JoinThree(parts: seq<string>, sep: char)
    requires |parts| == 3
    ensures Join(parts, sep) == parts[0] + [sep] + parts[1] + [sep] + parts[2]
  {
    assert parts[1..][1..] == [parts[2]];
    assert Join(parts[1..][1..], sep) == parts[2];
    assert Join(parts[1..], sep) == parts[1] + [sep] + parts[2];
  }
  /**
   * An accepted path that splits into three parts is `lib/<abi>/<file>` with slash-free `abi`
   * and `file`, and the `.so` suffix lies within `file`.
   */
  lemma LibraryPathShape(path: string)
    requires StartsWith(path, "lib/") && EndsWith(path, ".so")
    requires |Split(path, '/')| == 3
    ensures var parts := Split(path, '/');
      && path == "lib/" + parts[1] + "/" + parts[2]
      && '/' !in parts[1] && '/' !in parts[2]
      && EndsWith(parts[2], ".so")
  {
    var parts := Split(path, '/');
    JoinThree(parts, '/');
    assert path == parts[0] + ['/'] + (parts[1] + ['/'] + parts[2]);
    assert path == "lib" + ['/'] + path[4..];
    DelimitedPrefixUnique(parts[0], parts[1] + ['/'] + parts[2], "lib", path[4..], '/');
    SuffixWithinLastPart(parts[0] + ['/'] + parts[1], parts[2], '/', ".so");
  }

  /**
   * The library an entry yields: an accepted entry whose path splits on `/` into exactly three
   * parts gives (file name, ABI directory, entry size); any other entry gives nothing.
   */
  function LibraryOf(e: ZipEntry): (lib: Option<LibraryInfo>)
    ensures lib.Some? ==>
      && !e.isDirectory
      && e.name == "lib/" + lib.value.abi + "/" + lib.value.name
      && '/' !in lib.value.abi && '/' !in lib.value.name
      && EndsWith(lib.value.name, ".so")
      && lib.value.size == e.size
  {
    if !IsLibraryCandidate(e) then None
    else
      var parts := Split(e.name, '/');
      if |parts| == 3 then
        LibraryPathShape(e.name);
        Some(LibraryInfo(parts[2], parts[1], e.size))
      else None
  }

  /**
   * The converse of `LibraryOf`'s contract: every non-directory entry named
   * `lib/<abi>/<file>.so` with slash-free `abi` and `file` yields exactly that library. With
   * `LibraryOf`'s contract this makes the filter an if-and-only-if.
   */
  lemma LibraryOfComplete(e: ZipEntry, abi: string, file: string)
    requires !e.isDirectory && '/' !in abi && '/' !in file && EndsWith(file, ".so")
    requires e.name == "lib/" + abi + "/" + file
    ensures LibraryOf(e) == Some(LibraryInfo(file, abi, e.size))
  {
    var parts := ["lib", abi, file];
    JoinThree(parts, '/');
    assert Join(parts, '/') == e.name;
    SplitJoin(parts, '/');
    assert e.name[..4] == "lib/";
    assert e.name[|e.name| - 3..] == file[|file| - 3..];
  }

  /** `lib/x.so` has two path parts and `lib/a/b/x.so` four: both are skipped. */
  lemma WrongDepthSkipped(size: int, payload: DexPayload)
    ensures LibraryOf(ZipEntry("lib/x.so", false, size, payload)) == None
    ensures LibraryOf(ZipEntry("lib/a/b/x.so", false, size, payload)) == None
  {
    var two := ["lib", "x.so"];
    assert two[1..] == ["x.so"];
    assert Join(two, '/') == "lib/x.so";
    SplitJoin(two, '/');
    var four := ["lib", "a", "b", "x.so"];
    assert four[1..][1..][1..] == ["x.so"];
    assert Join(four, '/') == "lib/a/b/x.so";
    SplitJoin(four, '/');
  }

  /** `lib//x.so` is kept, with an empty ABI. */
  lemma EmptyAbiKept(size: int, payload: DexPayload)
    ensures LibraryOf(ZipEntry("lib//x.so", false, size, payload)) == Some(LibraryInfo("x.so", "", size))
  {
    assert "lib/" + "" + "/" + "x.so" == "lib//x.so";
    LibraryOfComplete(ZipEntry("lib//x.so", false, size, payload), "", "x.so");
  }

  /** The scan: one library per accepted entry, appended in archive order, no deduplication. */
  function CollectLibraries(entries: seq<ZipEntry>): (libs: seq<LibraryInfo>)
    ensures |libs| <= |entries|
    ensures forall l | l in libs :: exists e | e in entries :: LibraryOf(e) == Some(l)
    ensures forall e | e in entries && LibraryOf(e).Some? :: LibraryOf(e).value in libs
  {
    if |entries| == 0 then []
    else
      var init := entries[..|entries| - 1];
      var last := entries[|entries| - 1];
      assert entries == init + [last];
      var libs := CollectLibraries(init);
      match LibraryOf(last)
      case Some(lib) => libs + [lib]
      case None => libs
  }

  /**
   * The scan distributes over concatenation: the libraries of `a + b` are those of `a` followed
   * by those of `b`, so archive order is kept and each accepted entry contributes its own element.
   */
  lemma {:induction false} CollectLibrariesAppend(a: seq<ZipEntry>, b: seq<ZipEntry>)
    ensures CollectLibraries(a + b) == CollectLibraries(a) + CollectLibraries(b)
    decreases |b|
  {
    if |b| == 0 {
      assert a + b == a;
    } else {
      var init, last := b[..|b| - 1], b[|b| - 1];
      assert b == init + [last];
      assert a + b == (a + init) + [last];
      CollectLibrariesAppend(a, init);
      CollectLibrariesStep(a + init, last);
      CollectLibrariesStep(init, last);
    }
  }

  /** Appending one entry appends its library, if any. */
  lemma CollectLibrariesStep(s: seq<ZipEntry>, e: ZipEntry)
    ensures CollectLibraries(s + [e]) ==
      CollectLibraries(s) + if LibraryOf(e).Some? then [LibraryOf(e).value] else []
  {
    assert (s + [e])[..|s|] == s;
  }

  /** A single entry contributes its library, or nothing. */
  lemma CollectLibrariesSingle(e: ZipEntry)
    ensures CollectLibraries([e]) == if LibraryOf(e).Some? then [LibraryOf(e).value] else []
  {
    assert [e][..0] == [];
  }

  /**
   * `extractNativeLibraries`: an archive that cannot be opened gives no libraries; an
   * enumeration that fails part-way keeps the libraries collected so far.
   */
  function ExtractNativeLibraries(archive: Archive): (libs: seq<LibraryInfo>)
    ensures archive.Unopenable? ==> libs == []
    ensures archive.Listing? ==>
      && (forall l | l in libs :: exists e | e in archive.entries :: LibraryOf(e) == Some(l))
      && (forall e | e in archive.entries && LibraryOf(e).Some? :: LibraryOf(e).value in libs)
  {
    match archive
    case Unopenable => []
    case Listing(entries, _) => CollectLibraries(entries)
  }

  /**
   * A scan whose enumeration fails after `k` entries returns a prefix of what the complete scan
   * returns: the libraries of the entries read before the failure.
   */
  lemma PartialScanIsPrefix(entries: seq<ZipEntry>, k: nat)
    requires k <= |entries|
    ensures var partial := ExtractNativeLibraries(Listing(entries[..k], false));
      var full := ExtractNativeLibraries(Listing(entries, true));
      |partial| <= |full| && full[..|partial|] == partial
  {
    assert entries == entries[..k] + entries[k..];
    CollectLibrariesAppend(entries[..k], entries[k..]);
  }

  // ----- ABIs -----

  /** The bitness test: the ABI label has "64" at some position (see `Is64Contains`). */
  predicate Is64(abi: string)
    decreases |abi|
  {
    |abi| >= 2 && ((abi[0] == '6' && abi[1] == '4') || Is64(abi[1..]))
  }

  /** The scan above is the substring test `abi.contains("64")`. */
  lemma {:induction false} Is64Contains(abi: string)
    ensures Is64(abi) <==> Contains(abi, "64")
    decreases |abi|
  {
    if |abi| >= 2 {
      Is64Contains(abi[1..]);
      ContainsStep(abi, "64");
      assert OccursAt(abi, "64", 0) <==> abi[0] == '6' && abi[1] == '4' by {
        assert abi[0..2] == [abi[0], abi[1]];
        assert "64" == ['6', '4'];
      }
    }
  }

  /** Its negation, as a named predicate for filtering. */
  predicate IsNot64(abi: string) {
    !Is64(abi)
  }

  /** The sort key of `getAbis`: 2 for a 64-bit label, 1 otherwise. */
  function AbiRank(abi: string): int {
    if Is64(abi) then 2 else 1
  }

  /** Inserts `x` before the first ABI of rank not above its own. */
  function InsertAbi(x: string, s: seq<string>): seq<string> {
    if |s| == 0 || AbiRank(x) >= AbiRank(s[0]) then [x] + s
    else [s[0]] + InsertAbi(x, s[1..])
  }

  /** Insertion adds exactly the inserted ABI. */
  lemma {:induction false} InsertAbiPermutes(x: string, s: seq<string>)
    ensures multiset(InsertAbi(x, s)) == multiset(s) + multiset{x}
  {
    if |s| > 0 && AbiRank(x) < AbiRank(s[0]) {
      InsertAbiPermutes(x, s[1..]);
      assert s == [s[0]] + s[1..];
    }
  }

  /** `sortedByDescending` on the rank: a stable insertion sort, highest rank first. */
  function SortByBitness(abis: seq<string>): (sorted: seq<string>)
    ensures multiset(sorted) == multiset(abis)
  {
    if |abis| == 0 then []
    else
      InsertAbiPermutes(abis[0], SortByBitness(abis[1..]));
      assert abis == [abis[0]] + abis[1..];
      InsertAbi(abis[0], SortByBitness(abis[1..]))
  }

  /** A 32-bit ABI inserted into (64-bit ABIs ++ 32-bit ABIs) lands between the two runs. */
  lemma {:induction false} InsertAbiAfter64(x: string, a: seq<string>, b: seq<string>)
    requires IsNot64(x)
    requires forall y | y in a :: Is64(y)
    requires forall y | y in b :: IsNot64(y)
    ensures InsertAbi(x, a + b) == a + [x] + b
    decreases |a|
  {
    if |a| == 0 {
      assert a + b == b;
      assert |b| > 0 ==> b[0] in b;
    } else {
      assert a[0] in a;
      assert (a + b)[0] == a[0];
      assert (a + b)[1..] == a[1..] + b;
      assert forall y | y in a[1..] :: y in a;
      InsertAbiAfter64(x, a[1..], b);
    }
  }

  /** One step of the sort: the head is inserted into the sorted tail. */
  lemma SortByBitnessStep(abis: seq<string>)
    requires |abis| > 0
    requires SortByBitness(abis[1..]) == Filter(abis[1..], Is64) + Filter(abis[1..], IsNot64)
    ensures SortByBitness(abis) == InsertAbi(abis[0], Filter(abis[1..], Is64) + Filter(abis[1..], IsNot64))
  { }

  /** Filtering a list whose head is 64-bit. */
  lemma FilterHead64(abis: seq<string>)
    requires |abis| > 0 && Is64(abis[0])
    ensures Filter(abis, Is64) == [abis[0]] + Filter(abis[1..], Is64)
    ensures Filter(abis, IsNot64) == Filter(abis[1..], IsNot64)
  { }

  /** Filtering a list whose head is not 64-bit. */
  lemma FilterHeadNot64(abis: seq<string>)
    requires |abis| > 0 && !Is64(abis[0])
    ensures Filter(abis, Is64) == Filter(abis[1..], Is64)
    ensures Filter(abis, IsNot64) == [abis[0]] + Filter(abis[1..], IsNot64)
  { }

  /** Regrouping the concatenations of the two cases. */
  lemma Regroup64(abis: seq<string>, x: string, a: seq<string>, b: seq<string>)
    requires SortByBitness(abis) == [x] + (a + b)
    requires Filter(abis, Is64) == [x] + a
    requires Filter(abis, IsNot64) == b
    ensures SortByBitness(abis) == Filter(abis, Is64) + Filter(abis, IsNot64)
  {
    assert [x] + (a + b) == ([x] + a) + b;
  }

  lemma RegroupNot64(abis: seq<string>, x: string, a: seq<string>, b: seq<string>)
    requires SortByBitness(abis) == a + [x] + b
    requires Filter(abis, Is64) == a
    requires Filter(abis, IsNot64) == [x] + b
    ensures SortByBitness(abis) == Filter(abis, Is64) + Filter(abis, IsNot64)
  {
    assert a + [x] + b == a + ([x] + b);
  }

  /**
   * The stable sort by descending rank is the stable partition: the 64-bit ABIs in their input
   * order, then the others in their input order.
   */
  lemma {:induction false} SortByBitnessPartition(abis: seq<string>)
    ensures SortByBitness(abis) == Filter(abis, Is64) + Filter(abis, IsNot64)
  {
    if |abis| > 0 {
      var x := abis[0];
      SortByBitnessPartition(abis[1..]);
      var a := Filter(abis[1..], Is64);
      var b := Filter(abis[1..], IsNot64);
      SortByBitnessStep(abis);
      if Is64(x) {
        FilterHead64(abis);
        assert InsertAbi(x, a + b) == [x] + (a + b);
        Regroup64(abis, x, a, b);
      } else {
        FilterHeadNot64(abis);
        InsertAbiAfter64(x, a, b);
        RegroupNot64(abis, x, a, b);
      }
    }
  }

  /** The ABI of every library, in library order. */
  function AbisOf(libs: seq<LibraryInfo>): seq<string> {
    KeysOf(libs, (l: LibraryInfo) => l.abi)
  }

  /** Every ABI among the first-seen ABIs is some library's ABI, and every library's ABI is among them. */
  lemma FirstSeenAbis(libs: seq<LibraryInfo>)
    ensures var firstSeen := Distinct(AbisOf(libs));
      && (forall a | a in firstSeen :: exists l | l in libs :: l.abi == a)
      && (forall l | l in libs :: l.abi in firstSeen)
  {
    var firstSeen := Distinct(AbisOf(libs));
    forall a | a in firstSeen
      ensures exists l | l in libs :: l.abi == a
    {
      var k :| 0 <= k < |libs| && AbisOf(libs)[k] == a;
      assert libs[k] in libs;
    }
    forall l | l in libs
      ensures l.abi in firstSeen
    {
      var k :| 0 <= k < |libs| && libs[k] == l;
      assert AbisOf(libs)[k] == l.abi;
    }
  }

  /** The partition keeps the elements, adds no duplicate, and puts every 64-bit ABI first. */
  lemma PartitionFacts(s: seq<string>)
    requires NoDuplicates(s)
    ensures var r := Filter(s, Is64) + Filter(s, IsNot64);
      && NoDuplicates(r)
      && (forall x | x in r :: x in s)
      && (forall x | x in s :: x in r)
      && (forall i, j | 0 <= i < j < |r| :: Is64(r[j]) ==> Is64(r[i]))
  {
    var a := Filter(s, Is64);
    var b := Filter(s, IsNot64);
    var r := a + b;
    FilterPartitionNoDuplicates(s);
    forall x | x in s
      ensures x in r
    {
      if Is64(x) { assert x in a; } else { assert x in b; }
    }
    forall i, j | 0 <= i < j < |r| && Is64(r[j])
      ensures Is64(r[i])
    {
      assert r[j] in b ==> IsNot64(r[j]);
      assert j < |a|;
      assert r[i] == a[i] && a[i] in a;
    }
  }

  /** `getAbis`: the distinct ABIs, 64-bit ones first, otherwise in first-seen order. */
  function GetAbis(libs: seq<LibraryInfo>): (abis: seq<string>)
    ensures NoDuplicates(abis)
    ensures forall a | a in abis :: exists l | l in libs :: l.abi == a
    ensures forall l | l in libs :: l.abi in abis
    ensures forall i, j | 0 <= i < j < |abis| :: Is64(abis[j]) ==> Is64(abis[i])
  {
    var firstSeen := Distinct(AbisOf(libs));
    SortByBitnessPartition(firstSeen);
    PartitionFacts(firstSeen);
    FirstSeenAbis(libs);
    SortByBitness(firstSeen)
  }

  /** The two runs of the partition hold the elements of a duplicate-free list, each once. */
  lemma FilterPartitionNoDuplicates(s: seq<string>)
    requires NoDuplicates(s)
    ensures NoDuplicates(Filter(s, Is64) + Filter(s, IsNot64))
  {
    var a := Filter(s, Is64);
    var b := Filter(s, IsNot64);
    FilterPreservesNoDuplicates(s, Is64);
    FilterPreservesNoDuplicates(s, IsNot64);
    assert forall i, j | 0 <= i < |a| && 0 <= j < |b| :: a[i] != b[j] by {
      assert forall i | 0 <= i < |a| :: a[i] in a && Is64(a[i]);
      assert forall j | 0 <= j < |b| :: b[j] in b && IsNot64(b[j]);
    }
    var c := a + b;
    forall i, j | 0 <= i < j < |c|
      ensures c[i] != c[j]
    {
      if j < |a| {
        assert c[i] == a[i] && c[j] == a[j];
      } else if i >= |a| {
        assert c[i] == b[i - |a|] && c[j] == b[j - |a|];
      }
    }
  }

  lemma {:induction false} FilterPreservesNoDuplicates<T>(s: seq<T>, p: T -> bool)
    requires NoDuplicates(s)
    ensures NoDuplicates(Filter(s, p))
  {
    if |s| > 0 {
      assert NoDuplicates(s[1..]) by {
        assert forall i | 0 <= i < |s| - 1 :: s[1..][i] == s[i + 1];
      }
      FilterPreservesNoDuplicates(s[1..], p);
      assert s[0] !in s[1..];
      var rest := Filter(s[1..], p);
      assert forall k | 0 <= k < |rest| :: rest[k] in rest && rest[k] in s[1..];
    }
  }

  /**
   * The ordering of `getAbis` in full: it is the first-seen distinct ABIs, stably partitioned
   * into the 64-bit ones and then the rest.
   */
  lemma GetAbisStablePartition(libs: seq<LibraryInfo>)
    ensures var firstSeen := Distinct(AbisOf(libs));
      GetAbis(libs) == Filter(firstSeen, Is64) + Filter(firstSeen, IsNot64)
  {
    SortByBitnessPartition(Distinct(AbisOf(libs)));
  }

  // ----- primary ABI -----

  /** The preference order of `getPrimaryAbi`. */
  const PreferredAbis: seq<string> := ["arm64-v8a", "x86_64", "armeabi-v7a", "x86", "armeabi"]

  /** The choice on an ABI list: the most preferred ABI present, else the first, else "Unknown". */
  function ChoosePrimary(abis: seq<string>): (primary: string)
    ensures |abis| == 0 ==> primary == "Unknown"
    ensures |abis| > 0 ==> primary in abis
  {
    if "arm64-v8a" in abis then "arm64-v8a"
    else if "x86_64" in abis then "x86_64"
    else if "armeabi-v7a" in abis then "armeabi-v7a"
    else if "x86" in abis then "x86"
    else if "armeabi" in abis then "armeabi"
    else if |abis| > 0 then abis[0]
    else "Unknown"
  }

  /** The choice is the first entry of the preference list that occurs in the ABI list. */
  lemma ChoosePrimaryPreference(abis: seq<string>, k: nat)
    requires k < |PreferredAbis|
    requires PreferredAbis[k] in abis
    requires forall j | 0 <= j < k :: PreferredAbis[j] !in abis
    ensures ChoosePrimary(abis) == PreferredAbis[k]
  {
    assert PreferredAbis[0] == "arm64-v8a" && PreferredAbis[1] == "x86_64";
    assert PreferredAbis[2] == "armeabi-v7a" && PreferredAbis[3] == "x86" && PreferredAbis[4] == "armeabi";
  }

  /** With no preferred ABI in the list the choice is its first element, or "Unknown". */
  lemma ChoosePrimaryFallback(abis: seq<string>)
    requires forall j | 0 <= j < |PreferredAbis| :: PreferredAbis[j] !in abis
    ensures ChoosePrimary(abis) == if |abis| > 0 then abis[0] else "Unknown"
  {
    assert PreferredAbis[0] == "arm64-v8a" && PreferredAbis[1] == "x86_64";
    assert PreferredAbis[2] == "armeabi-v7a" && PreferredAbis[3] == "x86" && PreferredAbis[4] == "armeabi";
  }

  /** `getPrimaryAbi`: the choice made on `getAbis`. */
  function GetPrimaryAbi(libs: seq<LibraryInfo>): (primary: string)
    ensures |libs| == 0 ==> primary == "Unknown"
    ensures |libs| > 0 ==> primary in GetAbis(libs)
  {
    var abis := GetAbis(libs);
    assert |libs| > 0 ==> libs[0] in libs && libs[0].abi in abis;
    ChoosePrimary(abis)
  }

  /** The primary ABI is the first entry of the preference list that some library uses. */
  lemma PrimaryAbiPreference(libs: seq<LibraryInfo>, k: nat)
    requires k < |PreferredAbis|
    requires exists l | l in libs :: l.abi == PreferredAbis[k]
    requires forall j, l | 0 <= j < k && l in libs :: l.abi != PreferredAbis[j]
    ensures GetPrimaryAbi(libs) == PreferredAbis[k]
  {
    var abis := GetAbis(libs);
    assert PreferredAbis[k] in abis;
    ChoosePrimaryPreference(abis, k);
  }

  /**
   * With no preferred ABI present the primary ABI is the first of `getAbis`: the first-seen
   * 64-bit ABI when there is one, else the first-seen ABI.
   */
  lemma PrimaryAbiFallback(libs: seq<LibraryInfo>)
    requires |libs| > 0
    requires forall l | l in libs :: l.abi !in PreferredAbis
    ensures var firstSeen := Distinct(AbisOf(libs));
      var with64 := Filter(firstSeen, Is64);
      && (|with64| > 0 ==> GetPrimaryAbi(libs) == with64[0])
      && (|with64| == 0 ==> GetPrimaryAbi(libs) == firstSeen[0])
  {
    var abis := GetAbis(libs);
    assert libs[0] in libs;
    ChoosePrimaryFallback(abis);
    var firstSeen := Distinct(AbisOf(libs));
    GetAbisStablePartition(libs);
    var with64 := Filter(firstSeen, Is64);
    if |with64| == 0 {
      FilterAllNot64(firstSeen);
    }
  }

  lemma {:induction false} FilterAllNot64(s: seq<string>)
    requires |Filter(s, Is64)| == 0
    ensures Filter(s, IsNot64) == s
  {
    if |s| > 0 {
      FilterAllNot64(s[1..]);
      assert s == [s[0]] + s[1..];
    }
  }

  /** A device build with both ARM ABIs reports the 64-bit one. */
  lemma PrimaryAbiPrefersArm64()
    ensures GetPrimaryAbi([LibraryInfo("liba.so", "armeabi-v7a", 1), LibraryInfo("liba.so", "arm64-v8a", 1)])
         == "arm64-v8a"
  {
    var both := [LibraryInfo("liba.so", "armeabi-v7a", 1), LibraryInfo("liba.so", "arm64-v8a", 1)];
    assert both[1] in both;
    PrimaryAbiPreference(both, 0);
  }

  /** An x86-only build reports x86; an app without native code reports "Unknown". */
  lemma PrimaryAbiX86Only()
    ensures GetPrimaryAbi([LibraryInfo("libb.so", "x86", 1)]) == "x86"
    ensures GetPrimaryAbi([]) == "Unknown"
  {
    var one := [LibraryInfo("libb.so", "x86", 1)];
    assert one[0] in one;
    assert forall l | l in one :: l.abi == "x86";
    assert "x86" != "arm64-v8a" && "x86" != "x86_64" && "x86" != "armeabi-v7a" by {
      assert |"x86"| == 3 && |"arm64-v8a"| == 9 && |"x86_64"| == 6 && |"armeabi-v7a"| == 11;
    }
    PrimaryAbiPreference(one, 3);
  }

  /**
   * For a non-empty library list, "Unknown" comes back exactly when no preferred ABI is present
   * and the first of `getAbis` is an ABI directory named "Unknown": the sentinel and a real
   * label can coincide.
   */
  lemma UnknownPrimaryAbi(libs: seq<LibraryInfo>)
    requires |libs| > 0
    ensures GetPrimaryAbi(libs) == "Unknown" <==>
      && (forall l | l in libs :: l.abi !in PreferredAbis)
      && GetAbis(libs)[0] == "Unknown"
  {
    var abis := GetAbis(libs);
    assert libs[0] in libs;
    NoPreferredAbiOfLibraries(libs);
    ChooseUnknown(abis);
  }

  /** No library has a preferred ABI exactly when no ABI of the list is preferred. */
  lemma NoPreferredAbiOfLibraries(libs: seq<LibraryInfo>)
    ensures (forall l | l in libs :: l.abi !in PreferredAbis) <==>
            (forall a | a in GetAbis(libs) :: a !in PreferredAbis)
  {
    var abis := GetAbis(libs);
    if forall l | l in libs :: l.abi !in PreferredAbis {
      forall a | a in abis
        ensures a !in PreferredAbis
      {
        var l :| l in libs && l.abi == a;
      }
    }
  }

  /** "Unknown" is not a preferred label. */
  lemma UnknownNotPreferred()
    ensures "Unknown" !in PreferredAbis
  {
    assert |"Unknown"| == 7 && |"armeabi"| == 7 && "Unknown"[0] != "armeabi"[0];
    assert forall j | 0 <= j < |PreferredAbis| :: PreferredAbis[j][0] != 'U' || |PreferredAbis[j]| != 7;
  }

  /** The choice is "Unknown" exactly when no preferred ABI is present and the list starts with it. */
  lemma ChooseUnknown(abis: seq<string>)
    requires |abis| > 0
    ensures ChoosePrimary(abis) == "Unknown" <==>
      (forall a | a in abis :: a !in PreferredAbis) && abis[0] == "Unknown"
  {
    UnknownNotPreferred();
    if forall a | a in abis :: a !in PreferredAbis {
      ChoosePrimaryFallback(abis);
    } else {
      var a :| a in abis && a in PreferredAbis;
      ChosenPreferred(abis, a);
    }
  }

  /** Some preferred ABI present: the choice is a preferred label. */
  lemma ChosenPreferred(abis: seq<string>, a: string)
    requires a in abis && a in PreferredAbis
    ensures ChoosePrimary(abis) in PreferredAbis
  {
    assert PreferredAbis[0] == "arm64-v8a" && PreferredAbis[1] == "x86_64";
    assert PreferredAbis[2] == "armeabi-v7a" && PreferredAbis[3] == "x86" && PreferredAbis[4] == "armeabi";
  }

  /** The sentinel collision, concretely: a library under `lib/Unknown/` yields "Unknown". */
  lemma UnknownAbiDirectory()
    ensures GetPrimaryAbi([LibraryInfo("libx.so", "Unknown", 0)]) == "Unknown"
  {
    var libs := [LibraryInfo("libx.so", "Unknown", 0)];
    assert libs[0] in libs;
    var abis := GetAbis(libs);
    assert forall a | a in abis :: a == "Unknown";
    ChoosePrimaryFallback(abis);
  }
}
