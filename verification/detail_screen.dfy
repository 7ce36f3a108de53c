/**
 * The pure helpers of the detail screen: the architecture and SDK-level captions, the
 * granted/not-granted permission filter with its counts, the grouping of permissions by category
 * and of native libraries by ABI, and the short permission label.
 */
module DetailScreen {
  import opened Strings
  import opened Seqs
  import opened Models

  // ----- architecture caption -----

  /** `formatArchitecture`: the ABI followed by its bitness in parentheses. */
  function FormatArchitecture(primaryAbi: string, is64Bit: bool): (caption: string)
    ensures StartsWith(caption, primaryAbi)
    ensures EndsWith(caption, if is64Bit then " (64-bit)" else " (32-bit)")
    ensures |caption| == |primaryAbi| + 9
  {
    var bitness := if is64Bit then "64-bit" else "32-bit";
    primaryAbi + " (" + bitness + ")"
  }

  /** Different ABIs or bitness flags give different captions. */
  lemma FormatArchitectureInjective(a: string, b: bool, a': string, b': bool)
    requires FormatArchitecture(a, b) == FormatArchitecture(a', b')
    ensures a == a' && b == b'
  {
    var s := FormatArchitecture(a, b);
    assert a == s[..|a|] == a';
    assert s[|s| - 7] == (if b then '6' else '3');
    assert s[|s| - 7] == (if b' then '6' else '3');
  }

  // ----- SDK level caption -----

  /**
   * The release name of an API level: levels 21 to 35 are named from the release table; later
   * levels are named "Android" with the level minus 20; earlier ones fall back to "API" and the
   * level.
   */
  function AndroidVersion(sdkVersion: int): (name: string)
    ensures 21 <= sdkVersion <= 35 ==> name == ReleaseNames[sdkVersion - 21]
    ensures sdkVersion > 35 ==> name == "Android " + IntToString(sdkVersion - 20)
    ensures sdkVersion < 21 ==> name == "API " + IntToString(sdkVersion)
  {
    match sdkVersion
    case 35 => "Android 15"
    case 34 => "Android 14"
    case 33 => "Android 13"
    case 32 => "Android 12L"
    case 31 => "Android 12"
    case 30 => "Android 11"
    case 29 => "Android 10"
    case 28 => "Android 9"
    case 27 => "Android 8.1"
    case 26 => "Android 8.0"
    case 25 => "Android 7.1"
    case 24 => "Android 7.0"
    case 23 => "Android 6.0"
    case 22 => "Android 5.1"
    case 21 => "Android 5.0"
    case _ => if sdkVersion > 35 then "Android " + IntToString(sdkVersion - 20) else "API " + IntToString(sdkVersion)
  }

  /** The release names of API levels 21 through 35, in level order. */
  const ReleaseNames: seq<string> := [
    "Android 5.0", "Android 5.1", "Android 6.0", "Android 7.0", "Android 7.1", "Android 8.0", "Android 8.1",
    "Android 9", "Android 10", "Android 11", "Android 12", "Android 12L", "Android 13", "Android 14",
    "Android 15"]

  /** `formatSdkVersion`: "API", the level, then the release name in parentheses. */
  function FormatSdkVersion(sdkVersion: int): (caption: string)
    ensures StartsWith(caption, "API " + IntToString(sdkVersion) + " (")
    ensures EndsWith(caption, AndroidVersion(sdkVersion) + ")")
    ensures |caption| == |"API " + IntToString(sdkVersion) + " ("| + |AndroidVersion(sdkVersion)| + 1
  {
    var prefix := "API " + IntToString(sdkVersion) + " (";
    var suffix := AndroidVersion(sdkVersion) + ")";
    assert (prefix + suffix)[..|prefix|] == prefix;
    assert (prefix + suffix)[|prefix + suffix| - |suffix|..] == suffix;
    prefix + suffix
  }

  /** A caption starts with "API", one space-free level numeral and " (": the numeral is determined. */
  lemma CaptionLevelUnique(caption: string, x: string, y: string)
    requires ' ' !in x && ' ' !in y
    requires StartsWith(caption, "API " + x + " (") && StartsWith(caption, "API " + y + " (")
    ensures x == y
  {
    var rest := caption[4..];
    assert caption[..4 + |x| + 2] == "API " + x + " (";
    assert caption[..4 + |y| + 2] == "API " + y + " (";
    assert rest == x + [' '] + rest[|x| + 1..];
    assert rest == y + [' '] + rest[|y| + 1..];
    DelimitedPrefixUnique(x, rest[|x| + 1..], y, rest[|y| + 1..], ' ');
  }

  /** Different API levels get different captions. */
  lemma FormatSdkVersionInjective(a: int, b: int)
    requires FormatSdkVersion(a) == FormatSdkVersion(b)
    ensures a == b
  {
    CaptionLevelUnique(FormatSdkVersion(a), IntToString(a), IntToString(b));
    IntToStringInjective(a, b);
  }

  // ----- the granted filter -----

  /** The three filter chips. */
  datatype GrantedFilter = All | Granted | NotGranted

  function IsGrantedPermission(p: PermissionInfo): bool {
    p.granted
  }

  function IsDeniedPermission(p: PermissionInfo): bool {
    !p.granted
  }

  /** The permissions the selected chip shows, in their original order. */
  function FilterPermissions(permissions: seq<PermissionInfo>, filter: GrantedFilter): (shown: seq<PermissionInfo>)
    ensures filter.All? ==> shown == permissions
    ensures forall p | p in shown :: p in permissions
    ensures filter.Granted? ==> forall p | p in permissions :: p in shown <==> p.granted
    ensures filter.NotGranted? ==> forall p | p in permissions :: p in shown <==> !p.granted
  {
    match filter
    case All => permissions
    case Granted => Filter(permissions, IsGrantedPermission)
    case NotGranted => Filter(permissions, IsDeniedPermission)
  }

  /** Filtering keeps the original order: it distributes over concatenation and keeps or drops each item. */
  lemma FilterKeepsOrder(a: seq<PermissionInfo>, b: seq<PermissionInfo>, p: PermissionInfo, filter: GrantedFilter)
    ensures FilterPermissions(a + b, filter) == FilterPermissions(a, filter) + FilterPermissions(b, filter)
    ensures FilterPermissions([p], filter) == if filter.All? || (filter.Granted? <==> p.granted) then [p] else []
  {
    FilterAppend(a, b, IsGrantedPermission);
    FilterAppend(a, b, IsDeniedPermission);
    assert [p][1..] == [];
  }

  /** Applying the same chip twice shows the same list. */
  lemma FilterIdempotent(permissions: seq<PermissionInfo>, filter: GrantedFilter)
    ensures FilterPermissions(FilterPermissions(permissions, filter), filter) == FilterPermissions(permissions, filter)
  {
    if !filter.All? {
      FilterAllPass(FilterPermissions(permissions, filter), filter);
    }
  }

  /** A list whose items all pass the chip is shown unchanged. */
  lemma {:induction false} FilterAllPass(permissions: seq<PermissionInfo>, filter: GrantedFilter)
    requires forall p | p in permissions :: filter.All? || (filter.Granted? <==> p.granted)
    ensures FilterPermissions(permissions, filter) == permissions
  {
    if |permissions| > 0 && !filter.All? {
      assert permissions[0] in permissions;
      assert forall p | p in permissions[1..] :: p in permissions;
      FilterAllPass(permissions[1..], filter);
      assert permissions == [permissions[0]] + permissions[1..];
    }
  }

  /** `permissions.count { it.granted }`. */
  function CountGranted(permissions: seq<PermissionInfo>): (count: nat)
    ensures count <= |permissions|
    ensures count == 0 <==> forall i | 0 <= i < |permissions| :: !permissions[i].granted
  {
    if |permissions| == 0 then 0
    else (if permissions[0].granted then 1 else 0) + CountGranted(permissions[1..])
  }

  /** `permissions.count { !it.granted }`. */
  function CountNotGranted(permissions: seq<PermissionInfo>): (count: nat)
    ensures count <= |permissions|
    ensures count == 0 <==> forall i | 0 <= i < |permissions| :: permissions[i].granted
  {
    if |permissions| == 0 then 0
    else (if permissions[0].granted then 0 else 1) + CountNotGranted(permissions[1..])
  }

  /**
   * The chip counts: the two counts add up to the "All" count, and each count is the length of
   * the list its chip shows.
   */
  lemma {:induction false} ChipCounts(permissions: seq<PermissionInfo>)
    ensures CountGranted(permissions) + CountNotGranted(permissions) == |permissions|
    ensures CountGranted(permissions) == |FilterPermissions(permissions, Granted)|
    ensures CountNotGranted(permissions) == |FilterPermissions(permissions, NotGranted)|
  {
    if |permissions| > 0 {
      ChipCounts(permissions[1..]);
    }
  }

  // ----- grouping by category -----

  function CategoryOf(p: PermissionInfo): PermissionCategory {
    p.category
  }

  function CategoryName(c: PermissionCategory): string {
    c.DisplayName()
  }

  /**
   * The section order: the categories present, each once, sorted by display name (stably, from
   * their first-seen order).
   */
  function SectionOrder(shown: seq<PermissionInfo>): (keys: seq<PermissionCategory>)
    ensures SortedByKey(keys, CategoryName)
    ensures NoDuplicates(keys)
    ensures forall p | p in shown :: p.category in keys
    ensures forall k | k in keys :: exists p | p in shown :: p.category == k
  {
    var firstSeen := Distinct(KeysOf(shown, CategoryOf));
    var keys := SortByKey(firstSeen, CategoryName);
    SortByKeySorted(firstSeen, CategoryName);
    NoDuplicatesPermutation(firstSeen, keys);
    SortByKeyElements(firstSeen, CategoryName);
    DistinctKeysExactly(shown, CategoryOf);
    keys
  }

  /**
   * The category sections: one per category present, in display-name order, each holding exactly
   * the shown permissions of its category; every shown permission lands in exactly one section.
   */
  function GroupPermissions(shown: seq<PermissionInfo>): (groups: seq<(PermissionCategory, seq<PermissionInfo>)>)
    ensures forall i, j | 0 <= i < j < |groups| :: LexLessEq(CategoryName(groups[i].0), CategoryName(groups[j].0))
    ensures forall i, j | 0 <= i < j < |groups| :: groups[i].0 != groups[j].0
    ensures forall i | 0 <= i < |groups| :: |groups[i].1| > 0
    ensures forall i, p | 0 <= i < |groups| && p in shown :: p in groups[i].1 <==> p.category == groups[i].0
    ensures forall i, p | 0 <= i < |groups| && p in groups[i].1 :: p in shown
    ensures forall p | p in shown :: exists i | 0 <= i < |groups| :: groups[i].0 == p.category
    ensures TotalSize(groups) == |shown|
  {
    var keys := SectionOrder(shown);
    GroupsForPartition(shown, CategoryOf, keys);
    GroupsFor(shown, CategoryOf, keys)
  }

  /** An empty filter result has no sections. */
  lemma NoPermissionsNoGroups()
    ensures GroupPermissions([]) == []
  {
  }

  // ----- grouping native libraries by ABI -----

  function AbiOf(lib: LibraryInfo): string {
    lib.abi
  }

  /**
   * `nativeLibraries.groupBy { it.abi }`: one non-empty group per ABI in first-seen order, each
   * library in exactly the group of its ABI, the group sizes adding up to the list length.
   */
  function GroupLibrariesByAbi(libs: seq<LibraryInfo>): (groups: seq<(string, seq<LibraryInfo>)>)
    ensures forall i, j | 0 <= i < j < |groups| :: groups[i].0 != groups[j].0
    ensures forall i | 0 <= i < |groups| :: |groups[i].1| > 0
    ensures forall i, l | 0 <= i < |groups| && l in libs :: l in groups[i].1 <==> l.abi == groups[i].0
    ensures forall l | l in libs :: exists i | 0 <= i < |groups| :: groups[i].0 == l.abi
    ensures TotalSize(groups) == |libs|
  {
    var keys := Distinct(KeysOf(libs, AbiOf));
    DistinctKeysExactly(libs, AbiOf);
    GroupsForPartition(libs, AbiOf, keys);
    var groups := GroupsFor(libs, AbiOf, keys);
    assert GroupBy(libs, AbiOf) == groups;
    groups
  }

  /** The ABI groups come in the order in which their ABIs first occur in the library list. */
  lemma AbiGroupsFirstSeenOrder(libs: seq<LibraryInfo>)
    ensures var groups := GroupLibrariesByAbi(libs); var firstSeen := Distinct(KeysOf(libs, AbiOf));
      |groups| == |firstSeen| && forall i | 0 <= i < |groups| :: groups[i].0 == firstSeen[i]
  {
  }

  // ----- permission label -----

  /**
   * The item label: the text after the last dot, or the whole name when it holds none. The label
   * has no dot, and the name is the part before that dot, the dot, and the label.
   */
  function PermissionLabel(name: string): (shortName: string)
    ensures '.' !in shortName
    ensures '.' !in name ==> shortName == name
    ensures '.' in name ==> exists prefix :: name == prefix + "." + shortName
  {
    var shortName := SubstringAfterLast(name, '.');
    if '.' in name then
      var prefix := name[..|name| - |shortName| - 1];
      assert name == prefix + "." + shortName;
      shortName
    else
      shortName
  }

  /** The label of a dotted name is its last segment. */
  lemma LabelIsLastSegment(prefix: string, segment: string)
    requires '.' !in segment
    ensures PermissionLabel(prefix + "." + segment) == segment
  {
    var name := prefix + "." + segment;
    var r := PermissionLabel(name);
    assert name[|prefix|] == '.';
    assert EndsWith(name, r) && name[|name| - |r| - 1] == '.';
    assert r == name[|name| - |r|..] == segment;
  }

  /** `android.permission.CAMERA` is shown as `CAMERA`. */
  lemma CameraLabel()
    ensures PermissionLabel("android.permission.CAMERA") == "CAMERA"
  {
    assert "android.permission.CAMERA" == "android.permission" + "." + "CAMERA";
    LabelIsLastSegment("android.permission", "CAMERA");
  }
}
