/**
 * Permission analysis: the first-match keyword classifier over upper-cased permission names, and
 * the index-aligned merge of requested permissions with their grant flags.
 */
module PermissionAnalyzer {
  import opened Wrappers
  import opened Strings
  import opened Models

  // ----- categorisation -----

  /** The keywords of each category's branch; `Other` is the fallback and has none. */
  function Keywords(c: PermissionCategory): seq<string> {
    match c
    case Camera => ["CAMERA"]
    case Location => ["LOCATION", "GPS", "FINE_LOCATION", "COARSE_LOCATION", "BACKGROUND_LOCATION"]
    case Storage => ["STORAGE", "EXTERNAL", "READ_MEDIA", "WRITE_MEDIA", "MANAGE_MEDIA", "MANAGE_EXTERNAL_STORAGE"]
    case Microphone => ["MICROPHONE", "RECORD_AUDIO"]
    case Contacts => ["CONTACTS", "READ_CONTACTS", "WRITE_CONTACTS", "GET_ACCOUNTS"]
    case Phone => ["PHONE", "CALL", "READ_PHONE_STATE", "CALL_PHONE", "ANSWER_PHONE_CALLS", "READ_CALL_LOG", "WRITE_CALL_LOG"]
    case Sms => ["SMS", "MMS", "READ_SMS", "SEND_SMS", "RECEIVE_SMS"]
    case Calendar => ["CALENDAR", "READ_CALENDAR", "WRITE_CALENDAR"]
    case Sensors => ["SENSOR", "BODY_SENSORS", "ACTIVITY_RECOGNITION", "STEP"]
    case Network => ["INTERNET", "NETWORK", "ACCESS_NETWORK_STATE", "ACCESS_WIFI_STATE", "CHANGE_NETWORK_STATE", "CHANGE_WIFI_STATE"]
    case Bluetooth => ["BLUETOOTH", "NFC", "BLUETOOTH_SCAN", "BLUETOOTH_CONNECT", "BLUETOOTH_ADVERTISE"]
    case System => [
      "SYSTEM", "WRITE_SETTINGS", "PACKAGE", "INSTALL", "DELETE", "REBOOT", "WAKE_LOCK", "VIBRATE",
      "FLASHLIGHT", "MODIFY_AUDIO_SETTINGS"]
    case Other => []
  }

  /** The name contains one of the category's keywords. */
  predicate Mentions(name: string, c: PermissionCategory) {
    exists k | k in Keywords(c) :: Contains(name, k)
  }

  /** The order in which the branches are tried: declaration order, without the fallback. */
  const TestOrder: seq<PermissionCategory> :=
    [Camera, Location, Storage, Microphone, Contacts, Phone, Sms, Calendar, Sensors, Network, Bluetooth, System]

  /** Position `i` of the test order holds the category of ordinal `i`, and every non-fallback category has its place. */
  lemma TestOrderIsDeclarationOrder(d: PermissionCategory)
    ensures |TestOrder| == 12
    ensures forall i | 0 <= i < |TestOrder| :: TestOrder[i].Ordinal() == i
    ensures d != Other ==> d.Ordinal() < |TestOrder| && TestOrder[d.Ordinal()] == d
  {
  }

  /** The fallback has no keywords, so no name mentions it. */
  lemma MentionsNotOther(name: string, c: PermissionCategory)
    requires Mentions(name, c)
    ensures c != Other
  {
  }

  /** The index of the first true test, or the number of tests when none holds: the branch a `when` chain takes. */
  function FirstTrue(tests: seq<bool>): (k: nat)
    ensures k <= |tests|
    ensures forall j | 0 <= j < k :: !tests[j]
    ensures k < |tests| ==> tests[k]
  {
    if |tests| == 0 then 0
    else if tests[0] then 0
    else 1 + FirstTrue(tests[1..])
  }

  /** The conditions of the `when` branches, in test order. */
  function BranchTests(name: string): (tests: seq<bool>)
    ensures |tests| == |TestOrder|
    ensures forall i | 0 <= i < |TestOrder| :: tests[i] == Mentions(name, TestOrder[i])
  {
    seq(|TestOrder|, i requires 0 <= i < |TestOrder| => Mentions(name, TestOrder[i]))
  }

  /** `categorizePermission`: the name is upper-cased, then the first branch whose test holds wins. */
  function CategorizePermission(permissionName: string): (c: PermissionCategory)
    ensures c != Other ==> Mentions(ToUpper(permissionName), c)
  {
    var k := FirstTrue(BranchTests(ToUpper(permissionName)));
    if k < |TestOrder| then TestOrder[k] else Other
  }

  /**
   * The category is the first one in declaration order with a keyword in the upper-cased name;
   * `Other` exactly when no keyword of any category occurs.
   */
  lemma CategorizeFirstMention(permissionName: string)
    ensures var c := CategorizePermission(permissionName); var name := ToUpper(permissionName);
      && (c == Other <==> forall d: PermissionCategory :: !Mentions(name, d))
      && (c != Other ==> Mentions(name, c))
      && (c != Other ==> forall d: PermissionCategory | d.Ordinal() < c.Ordinal() :: !Mentions(name, d))
  {
    var name := ToUpper(permissionName);
    var tests := BranchTests(name);
    var k := FirstTrue(tests);
    var c := CategorizePermission(permissionName);
    TestOrderIsDeclarationOrder(c);
    forall d: PermissionCategory
      ensures c == Other ==> !Mentions(name, d)
      ensures c != Other && d.Ordinal() < c.Ordinal() ==> !Mentions(name, d)
    {
      TestOrderIsDeclarationOrder(d);
      if d == Other {
        if Mentions(name, d) {
          MentionsNotOther(name, d);
        }
      } else {
        assert tests[d.Ordinal()] == Mentions(name, d);
      }
    }
  }

  /** Only ASCII case is folded: a name and its lower- or upper-cased forms fall in the same category. */
  lemma CategorizeIgnoresCase(name: string)
    ensures CategorizePermission(ToLower(name)) == CategorizePermission(name)
    ensures CategorizePermission(ToUpper(name)) == CategorizePermission(name)
  {
    UpperOfLower(name);
    UpperOfUpper(name);
  }

  /** Camera is tested first: any name containing "CAMERA" is a camera permission. */
  lemma CameraFirst(name: string)
    requires Contains(name, "CAMERA")
    ensures CategorizePermission(name) == Camera
  {
    ContainsAfterUpper(name, "CAMERA");
    CategorizeFirstMention(name);
    var c := CategorizePermission(name);
    assert Mentions(ToUpper(name), Camera);
    assert Camera.Ordinal() == 0;
  }

  // ----- keyword redundancy -----

  /** A name that contains a keyword contains every keyword occurring inside it. */
  lemma KeywordSubsumed(name: string, long: string, short: string, i: int)
    requires OccursAt(long, short, i)
    ensures Contains(name, long) ==> Contains(name, short)
  {
    if Contains(name, long) {
      ContainsTransitive(name, long, short);
    }
  }

  /** The location branch reduces to LOCATION and GPS: the other three keywords contain LOCATION. */
  lemma LocationKeywords(name: string)
    ensures Mentions(name, Location) <==> Contains(name, "LOCATION") || Contains(name, "GPS")
  {
    var ks := Keywords(Location);
    KeywordSubsumed(name, ks[2], "LOCATION", 5);
    KeywordSubsumed(name, ks[3], "LOCATION", 7);
    KeywordSubsumed(name, ks[4], "LOCATION", 11);
    assert Mentions(name, Location) <==>
      Contains(name, ks[0]) || Contains(name, ks[1]) || Contains(name, ks[2]) || Contains(name, ks[3]) || Contains(name, ks[4]);
  }

  /** The phone branch reduces to PHONE and CALL. */
  lemma PhoneKeywords(name: string)
    ensures Mentions(name, Phone) <==> Contains(name, "PHONE") || Contains(name, "CALL")
  {
    var ks := Keywords(Phone);
    KeywordSubsumed(name, ks[2], "PHONE", 5);
    KeywordSubsumed(name, ks[3], "CALL", 0);
    KeywordSubsumed(name, ks[4], "PHONE", 7);
    KeywordSubsumed(name, ks[5], "CALL", 5);
    KeywordSubsumed(name, ks[6], "CALL", 6);
    assert Mentions(name, Phone) <==>
      Contains(name, ks[0]) || Contains(name, ks[1]) || Contains(name, ks[2]) || Contains(name, ks[3])
      || Contains(name, ks[4]) || Contains(name, ks[5]) || Contains(name, ks[6]);
  }

  /** The SMS branch reduces to SMS and MMS. */
  lemma SmsKeywords(name: string)
    ensures Mentions(name, Sms) <==> Contains(name, "SMS") || Contains(name, "MMS")
  {
    var ks := Keywords(Sms);
    KeywordSubsumed(name, ks[2], "SMS", 5);
    KeywordSubsumed(name, ks[3], "SMS", 5);
    KeywordSubsumed(name, ks[4], "SMS", 8);
    assert Mentions(name, Sms) <==>
      Contains(name, ks[0]) || Contains(name, ks[1]) || Contains(name, ks[2]) || Contains(name, ks[3]) || Contains(name, ks[4]);
  }

  /** The contacts branch reduces to CONTACTS and GET_ACCOUNTS. */
  lemma ContactsKeywords(name: string)
    ensures Mentions(name, Contacts) <==> Contains(name, "CONTACTS") || Contains(name, "GET_ACCOUNTS")
  {
    var ks := Keywords(Contacts);
    KeywordSubsumed(name, ks[1], "CONTACTS", 5);
    KeywordSubsumed(name, ks[2], "CONTACTS", 6);
    assert Mentions(name, Contacts) <==>
      Contains(name, ks[0]) || Contains(name, ks[1]) || Contains(name, ks[2]) || Contains(name, ks[3]);
  }

  /** The Bluetooth branch reduces to BLUETOOTH and NFC. */
  lemma BluetoothKeywords(name: string)
    ensures Mentions(name, Bluetooth) <==> Contains(name, "BLUETOOTH") || Contains(name, "NFC")
  {
    var ks := Keywords(Bluetooth);
    KeywordSubsumed(name, ks[2], "BLUETOOTH", 0);
    KeywordSubsumed(name, ks[3], "BLUETOOTH", 0);
    KeywordSubsumed(name, ks[4], "BLUETOOTH", 0);
    assert Mentions(name, Bluetooth) <==>
      Contains(name, ks[0]) || Contains(name, ks[1]) || Contains(name, ks[2]) || Contains(name, ks[3]) || Contains(name, ks[4]);
  }

  // ----- worked examples -----

  /**
   * A category is not mentioned when each of its keywords holds a character the name lacks
   * (`witnesses[i]` for keyword `i`).
   */
  lemma NotMentioned(name: string, c: PermissionCategory, witnesses: seq<char>)
    requires |witnesses| == |Keywords(c)|
    requires forall i | 0 <= i < |witnesses| :: witnesses[i] in Keywords(c)[i] && witnesses[i] !in name
    ensures !Mentions(name, c)
  {
    forall k | k in Keywords(c)
      ensures !Contains(name, k)
    {
      var i :| 0 <= i < |Keywords(c)| && Keywords(c)[i] == k;
      AbsentCharacter(name, k, witnesses[i]);
    }
  }

  /** Keyword `i` of category `c` occurs in the name at position `at`. */
  lemma MentionedAt(name: string, c: PermissionCategory, i: int, at: int)
    requires 0 <= i < |Keywords(c)|
    requires OccursAt(name, Keywords(c)[i], at)
    ensures Mentions(name, c)
  {
    assert Contains(name, Keywords(c)[i]);
  }

  /**
   * A category is chosen as soon as its keywords are mentioned by the upper-cased name and those
   * of every category tested before it are not.
   */
  lemma FirstMentionDecides(name: string, c: PermissionCategory)
    requires c != Other
    requires Mentions(ToUpper(name), c)
    requires forall j | 0 <= j < c.Ordinal() :: !Mentions(ToUpper(name), TestOrder[j])
    ensures CategorizePermission(name) == c
  {
    var r := CategorizePermission(name);
    CategorizeFirstMention(name);
    TestOrderIsDeclarationOrder(r);
    TestOrderIsDeclarationOrder(c);
    assert r != Other;
    assert !(c.Ordinal() < r.Ordinal());
    assert TestOrder[r.Ordinal()] == r;
  }

  /** For a name without lower-case letters the test runs on the name itself. */
  lemma UpperCaseFirstMentionDecides(name: string, c: PermissionCategory)
    requires NoLowerCase(name)
    requires c != Other
    requires Mentions(name, c)
    requires forall j | 0 <= j < c.Ordinal() :: !Mentions(name, TestOrder[j])
    ensures CategorizePermission(name) == c
  {
    UpperUnchanged(name);
    FirstMentionDecides(name, c);
  }

  /** `ACCESS_MEDIA_LOCATION` mentions no camera keyword. */
  lemma MediaLocationNotCamera()
    ensures !Mentions("ACCESS_MEDIA_LOCATION", Camera)
  {
    NotMentioned("ACCESS_MEDIA_LOCATION", Camera, ['R']);
  }

  /** `ACCESS_MEDIA_LOCATION` has no lower-case letter and contains LOCATION. */
  lemma MediaLocationFacts()
    ensures NoLowerCase("ACCESS_MEDIA_LOCATION")
    ensures Mentions("ACCESS_MEDIA_LOCATION", Location)
  {
    assert Keywords(Location)[0] == "LOCATION";
    assert OccursAt("ACCESS_MEDIA_LOCATION", "LOCATION", 13);
    MentionedAt("ACCESS_MEDIA_LOCATION", Location, 0, 13);
  }

  /** `ACCESS_MEDIA_LOCATION` is a location permission, not storage: location is tested first. */
  lemma MediaLocationIsLocation(name: string)
    requires name == "ACCESS_MEDIA_LOCATION"
    ensures CategorizePermission(name) == Location
  {
    MediaLocationNotCamera();
    MediaLocationFacts();
    assert TestOrder[0] == Camera;
    UpperCaseFirstMentionDecides(name, Location);
  }

  /** `READ_CALL_LOG` mentions no camera keyword. */
  lemma CallLogNotCamera()
    ensures !Mentions("READ_CALL_LOG", Camera)
  {
    NotMentioned("READ_CALL_LOG", Camera, ['M']);
  }

  /** `READ_CALL_LOG` mentions no location keyword. */
  lemma CallLogNotLocation()
    ensures !Mentions("READ_CALL_LOG", Location)
  {
    NotMentioned("READ_CALL_LOG", Location, ['T', 'P', 'F', 'S', 'B']);
  }

  /** `READ_CALL_LOG` mentions no storage keyword. */
  lemma CallLogNotStorage()
    ensures !Mentions("READ_CALL_LOG", Storage)
  {
    NotMentioned("READ_CALL_LOG", Storage, ['S', 'X', 'M', 'W', 'M', 'M']);
  }

  /** `READ_CALL_LOG` mentions no microphone keyword. */
  lemma CallLogNotMicrophone()
    ensures !Mentions("READ_CALL_LOG", Microphone)
  {
    NotMentioned("READ_CALL_LOG", Microphone, ['M', 'U']);
  }

  /** `READ_CALL_LOG` mentions no contacts keyword. */
  lemma CallLogNotContacts()
    ensures !Mentions("READ_CALL_LOG", Contacts)
  {
    NotMentioned("READ_CALL_LOG", Contacts, ['T', 'T', 'W', 'T']);
  }

  /** `READ_CALL_LOG` is in upper case and passes the first five branches. */
  lemma CallLogPassesEarlyBranches()
    ensures NoLowerCase("READ_CALL_LOG")
    ensures forall j | 0 <= j < Phone.Ordinal() :: !Mentions("READ_CALL_LOG", TestOrder[j])
  {
    CallLogNotCamera();
    CallLogNotLocation();
    CallLogNotStorage();
    CallLogNotMicrophone();
    CallLogNotContacts();
    assert TestOrder[0] == Camera && TestOrder[1] == Location && TestOrder[2] == Storage;
    assert TestOrder[3] == Microphone && TestOrder[4] == Contacts;
  }

  /** `READ_CALL_LOG` contains CALL. */
  lemma CallLogMentionsPhone()
    ensures Mentions("READ_CALL_LOG", Phone)
  {
    assert Keywords(Phone)[1] == "CALL";
    assert OccursAt("READ_CALL_LOG", "CALL", 5);
    MentionedAt("READ_CALL_LOG", Phone, 1, 5);
  }

  /** `READ_CALL_LOG` is a phone permission. */
  lemma CallLogIsPhone()
    ensures CategorizePermission("READ_CALL_LOG") == Phone
  {
    CallLogPassesEarlyBranches();
    CallLogMentionsPhone();
    UpperCaseFirstMentionDecides("READ_CALL_LOG", Phone);
  }

  // ----- parsing -----

  /** The grant bit of a requested-permission flag word. */
  const RequestedPermissionGranted: bv32 := 2

  /** Permission `i` is granted when the flag array is present, long enough, and has the grant bit at `i`. */
  predicate IsGranted(flags: Option<seq<bv32>>, i: int) {
    && flags.Some?
    && 0 <= i < |flags.value|
    && flags.value[i] & RequestedPermissionGranted != 0
  }

  /** The permission record for entry `i` of the requested array. */
  function PermissionAt(requested: seq<string>, flags: Option<seq<bv32>>, i: nat): PermissionInfo
    requires i < |requested|
  {
    var granted := if flags.Some? && i < |flags.value| then flags.value[i] & RequestedPermissionGranted != 0 else false;
    PermissionInfo(requested[i], granted, CategorizePermission(requested[i]))
  }

  /** The records of the first `n` requested entries, appended in index order. */
  function ParsePrefix(requested: seq<string>, flags: Option<seq<bv32>>, n: nat): (perms: seq<PermissionInfo>)
    requires n <= |requested|
    ensures |perms| == n
    ensures forall i | 0 <= i < n ::
      && perms[i].name == requested[i]
      && (perms[i].granted <==> IsGranted(flags, i))
      && perms[i].category == CategorizePermission(requested[i])
  {
    if n == 0 then [] else ParsePrefix(requested, flags, n - 1) + [PermissionAt(requested, flags, n - 1)]
  }

  /**
   * `parsePermissions`: one record per requested permission, in the same order, with its name,
   * its grant bit and its category; no requested array gives no records.
   */
  function ParsePermissions(requested: Option<seq<string>>, flags: Option<seq<bv32>>): (perms: seq<PermissionInfo>)
    ensures requested.None? ==> perms == []
    ensures requested.Some? ==>
      && |perms| == |requested.value|
      && forall i | 0 <= i < |perms| ::
           && perms[i].name == requested.value[i]
           && (perms[i].granted <==> IsGranted(flags, i))
           && perms[i].category == CategorizePermission(requested.value[i])
  {
    match requested
    case None => []
    case Some(names) => ParsePrefix(names, flags, |names|)
  }

  /** A missing flag array, or entries past its end, are reported as not granted. */
  lemma MissingFlagsNotGranted(requested: seq<string>, flags: Option<seq<bv32>>, i: nat)
    requires i < |requested|
    requires flags.None? || i >= |flags.value|
    ensures !ParsePermissions(Some(requested), flags)[i].granted
  {
  }

  /** Only the grant bit counts: a flag word of 3 is granted, a flag word of 1 is not. */
  lemma GrantBitOnly(requested: seq<string>)
    requires |requested| == 2
    ensures var perms := ParsePermissions(Some(requested), Some([3, 1]));
      perms[0].granted && !perms[1].granted
  {
    assert (3 as bv32) & RequestedPermissionGranted != 0;
    assert (1 as bv32) & RequestedPermissionGranted == 0;
  }

  /** `extractPermissions`: a failed package lookup yields no permissions, otherwise the parse. */
  function ExtractPermissions(lookup: PackageLookup): (perms: seq<PermissionInfo>)
    ensures lookup.LookupFails? ==> perms == []
    ensures lookup.Found? ==> perms == ParsePermissions(lookup.requestedPermissions, lookup.requestedPermissionsFlags)
  {
    match lookup
    case LookupFails => []
    case Found(requested, flags) => ParsePermissions(requested, flags)
  }
}
