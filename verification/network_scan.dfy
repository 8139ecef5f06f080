/**
 * Host network-interface discovery on Linux: the scan of a sysfs-like
 * directory (one subdirectory per interface) that keeps the wired ethernet
 * devices and bridges a VM can be connected to, and describes each bridge by
 * the recognised interfaces attached to it.
 */
module NetworkScan {
  import opened Wrappers
  import opened Text

  /** What the scan can see in one interface's directory. */
  datatype InterfaceDir = InterfaceDir(
    typeFile: Option<string>,   // the contents of `type` with the trailing newline trimmed; None when missing or unreadable
    wireless: bool,             // a `wireless` subdirectory is present
    bridge: bool,               // a `bridge` subdirectory is present
    devtype: Option<string>,    // the value of the `DEVTYPE=` line of `uevent`, if there is one
    members: seq<string>)       // the entries of `brif`, in listing order

  /** The scanned root: its interface directories by name. */
  type SysTree = map<string, InterfaceDir>

  datatype NetworkInterfaceInfo = NetworkInterfaceInfo(id: string, ifaceType: string, description: string)

  /** The `type` value of ethernet-class devices (ARPHRD_ETHER). */
  const EthernetType := "1"

  /** The device subtypes the scan accepts; an interface whose uevent names another is left out. */
  const KnownDevtypes: set<string> := {"bridge"}

  /** A root lying in a `virtual` device tree. */
  predicate IsVirtualRoot(root: string) {
    ContainsSubstring("/" + root + "/", "/virtual/")
  }

  /** Whether an interface is one a VM can use: wired, ethernet-class, of a known subtype, not virtual. */
  predicate Qualifies(root: string, dir: InterfaceDir) {
    && !IsVirtualRoot(root)
    && !dir.wireless
    && dir.typeFile == Some(EthernetType)
    && (dir.devtype.None? || dir.devtype.value in KnownDevtypes)
  }

  predicate Recognised(root: string, tree: SysTree, name: string) {
    name in tree && Qualifies(root, tree[name])
  }

  /** The members that are themselves recognised interfaces, in order. */
  function RecognisedMembers(root: string, tree: SysTree, members: seq<string>): seq<string>
    decreases |members|
  {
    if members == [] then []
    else
      var last := members[|members| - 1];
      RecognisedMembers(root, tree, members[..|members| - 1]) + (if Recognised(root, tree, last) then [last] else [])
  }

  /** "Network bridge", followed by the members' names when there are any. */
  function BridgeDescription(members: seq<string>): (d: string)
    ensures StartsWith(d, "Network bridge")
    ensures d == "Network bridge" <==> members == []
  {
    if members == [] then "Network bridge"
    else
      var d := "Network bridge with " + Join(members, ", ");
      assert d[..|"Network bridge"|] == "Network bridge";
      d
  }

  /** Every member is named in the description. */
  lemma BridgeDescriptionNames(members: seq<string>, k: nat)
    requires k < |members|
    ensures ContainsSubstring(BridgeDescription(members), members[k])
  {
    JoinContainsPart(members, ", ", k);
    SubstringAfterPrefix("Network bridge with ", Join(members, ", "), members[k]);
  }

  /** The entry a recognised interface gets: a bridge listing its recognised members, or an ethernet device. */
  function InterfaceInfo(root: string, tree: SysTree, name: string): NetworkInterfaceInfo
    requires name in tree
  {
    if tree[name].bridge then
      NetworkInterfaceInfo(name, "bridge", BridgeDescription(RecognisedMembers(root, tree, tree[name].members)))
    else
      NetworkInterfaceInfo(name, "ethernet", "Ethernet device")
  }

  /** The interfaces a scan of `root` reports, keyed by name. */
  function Scan(root: string, tree: SysTree): (r: map<string, NetworkInterfaceInfo>)
    ensures forall name :: name in r ==> r[name].id == name
    ensures forall name :: name in r ==> r[name].ifaceType == "bridge" || r[name].ifaceType == "ethernet"
  {
    map name | name in tree && Qualifies(root, tree[name]) :: InterfaceInfo(root, tree, name)
  }

  /** Collects the members of a bridge that are recognised interfaces. */
  method BridgeMembers(root: string, tree: SysTree, members: seq<string>) returns (found: seq<string>)
    ensures found == RecognisedMembers(root, tree, members)
  {
    found := [];
    var i := 0;
    while i < |members|
      invariant 0 <= i <= |members|
      invariant found == RecognisedMembers(root, tree, members[..i])
    {
      assert members[..i + 1][..i] == members[..i];
      var member := members[i];
      if member in tree && Qualifies(root, tree[member]) {
        found := found + [member];
      }
      i := i + 1;
    }
    assert members[..i] == members;
  }

  /** Walks the interface directories, inserting an entry for each one that qualifies. */
  method GetNetworkInterfacesFrom(root: string, tree: SysTree) returns (result: map<string, NetworkInterfaceInfo>)
    ensures result == Scan(root, tree)
  {
    result := map[];
    var pending := tree.Keys;
    while pending != {}
      invariant pending <= tree.Keys
      invariant forall name :: name in result <==> name in tree && name !in pending && Qualifies(root, tree[name])
      invariant forall name :: name in result ==> result[name] == InterfaceInfo(root, tree, name)
      decreases pending
    {
      var name :| name in pending;
      pending := pending - {name};
      var dir := tree[name];
      if dir.wireless || IsVirtualRoot(root) {
        continue;
      }
      if dir.typeFile != Some(EthernetType) {
        continue;
      }
      if dir.devtype.Some? && dir.devtype.value !in KnownDevtypes {
        continue;
      }
      var info;
      if dir.bridge {
        var members := BridgeMembers(root, tree, dir.members);
        info := NetworkInterfaceInfo(name, "bridge", BridgeDescription(members));
      } else {
        info := NetworkInterfaceInfo(name, "ethernet", "Ethernet device");
      }
      result := result[name := info];
    }
    assert result.Keys == Scan(root, tree).Keys;
  }

  // ---------------------------------------------------------------------------
  // What a scan reports

  /** Exactly the recognised interfaces are reported, each with the entry its directory calls for. */
  lemma ScanEntry(root: string, tree: SysTree, name: string)
    ensures name in Scan(root, tree) <==> Recognised(root, tree, name)
    ensures name in Scan(root, tree) ==> Scan(root, tree)[name] == InterfaceInfo(root, tree, name)
  {
  }

  /** A scan under a `virtual` tree reports nothing, whatever the interfaces look like. */
  lemma VirtualRootYieldsNothing(root: string, tree: SysTree)
    requires IsVirtualRoot(root)
    ensures Scan(root, tree) == map[]
  {
    assert Scan(root, tree).Keys == {};
  }

  /** A root whose last component is `virtual` lies in a virtual tree. */
  lemma RootEndingInVirtual(parent: string)
    ensures IsVirtualRoot(parent + "/virtual")
  {
    SubstringOfConcat("/" + parent, "/virtual/", "");
    assert "/" + (parent + "/virtual") + "/" == "/" + parent + "/virtual/" + "";
  }

  /** Wireless interfaces, non-ethernet types, missing type files and unknown subtypes are never reported. */
  lemma Excluded(root: string, tree: SysTree, name: string)
    requires name in tree
    requires || tree[name].wireless
             || tree[name].typeFile != Some(EthernetType)
             || (tree[name].devtype.Some? && tree[name].devtype.value !in KnownDevtypes)
    ensures name !in Scan(root, tree)
  {
  }

  /**
   * Outside a virtual tree, a wired interface of type "1" with no DEVTYPE or a
   * known one is reported, as a bridge when it has a `bridge` directory and
   * as an ethernet device otherwise.
   */
  lemma Included(root: string, tree: SysTree, name: string)
    requires name in tree && !IsVirtualRoot(root)
    requires !tree[name].wireless && tree[name].typeFile == Some(EthernetType)
    requires tree[name].devtype.None? || tree[name].devtype.value in KnownDevtypes
    ensures name in Scan(root, tree)
    ensures Scan(root, tree)[name].ifaceType == (if tree[name].bridge then "bridge" else "ethernet")
  {
  }

  /** A root whose directories have no type file reports nothing. */
  lemma UntypedInterfacesYieldNothing(root: string, tree: SysTree)
    requires forall name :: name in tree ==> tree[name].typeFile.None?
    ensures Scan(root, tree) == map[]
  {
    assert Scan(root, tree).Keys == {};
  }

  /** A recognised member is listed by name. */
  lemma {:induction false} RecognisedMembersHas(root: string, tree: SysTree, members: seq<string>, k: nat)
    requires k < |members| && Recognised(root, tree, members[k])
    ensures members[k] in RecognisedMembers(root, tree, members)
    decreases |members|
  {
    var n := |members| - 1;
    if k < n {
      RecognisedMembersHas(root, tree, members[..n], k);
    }
  }

  /** Listing one more member adds it exactly when it is recognised. */
  lemma RecognisedMembersSnoc(root: string, tree: SysTree, members: seq<string>, last: string)
    ensures RecognisedMembers(root, tree, members + [last])
         == RecognisedMembers(root, tree, members) + (if Recognised(root, tree, last) then [last] else [])
  {
    assert (members + [last])[..|members|] == members;
  }

  /** Only recognised interfaces are listed. */
  lemma {:induction false} RecognisedMembersAreRecognised(root: string, tree: SysTree, members: seq<string>)
    ensures forall i :: 0 <= i < |RecognisedMembers(root, tree, members)| ==>
      Recognised(root, tree, RecognisedMembers(root, tree, members)[i])
    decreases |members|
  {
    if members != [] {
      RecognisedMembersAreRecognised(root, tree, members[..|members| - 1]);
    }
  }

  /**
   * Every recognised member of a reported bridge has an entry of its own and
   * is named in the bridge's description.
   */
  lemma BridgeMembersListed(root: string, tree: SysTree, bridge: string, k: nat)
    requires bridge in Scan(root, tree) && tree[bridge].bridge
    requires k < |tree[bridge].members|
    requires Recognised(root, tree, tree[bridge].members[k])
    ensures tree[bridge].members[k] in Scan(root, tree)
    ensures Scan(root, tree)[bridge].ifaceType == "bridge"
    ensures ContainsSubstring(Scan(root, tree)[bridge].description, tree[bridge].members[k])
  {
    var members := tree[bridge].members;
    var listed := RecognisedMembers(root, tree, members);
    RecognisedMembersHas(root, tree, members, k);
    var j :| 0 <= j < |listed| && listed[j] == members[k];
    BridgeDescriptionNames(listed, j);
  }

  /** A bridge without recognised members is described as a plain network bridge. */
  lemma BridgeWithoutMembers(root: string, tree: SysTree, bridge: string)
    requires bridge in Scan(root, tree) && tree[bridge].bridge
    requires forall i :: 0 <= i < |tree[bridge].members| ==> !Recognised(root, tree, tree[bridge].members[i])
    ensures Scan(root, tree)[bridge] == NetworkInterfaceInfo(bridge, "bridge", "Network bridge")
  {
    var members := tree[bridge].members;
    var listed := RecognisedMembers(root, tree, members);
    if listed != [] {
      RecognisedMembersAreRecognised(root, tree, members);
      RecognisedMembersOf(root, tree, members, 0);
      assert false;
    }
  }

  /** Every listed member is one of the bridge's members. */
  lemma {:induction false} RecognisedMembersOf(root: string, tree: SysTree, members: seq<string>, i: nat)
    requires i < |RecognisedMembers(root, tree, members)|
    ensures exists k :: 0 <= k < |members| && members[k] == RecognisedMembers(root, tree, members)[i]
    decreases |members|
  {
    var n := |members| - 1;
    var prefix := members[..n];
    if i < |RecognisedMembers(root, tree, prefix)| {
      RecognisedMembersOf(root, tree, prefix, i);
      var k :| 0 <= k < |prefix| && prefix[k] == RecognisedMembers(root, tree, prefix)[i];
      assert members[k] == prefix[k];
    } else {
      assert members[n] == RecognisedMembers(root, tree, members)[i];
    }
  }

  /** Every character of a join comes from the separator or from one of the parts. */
  lemma {:induction false} JoinChars(parts: seq<string>, sep: string, c: char)
    requires c in Join(parts, sep)
    ensures c in sep || exists i :: 0 <= i < |parts| && c in parts[i]
    decreases |parts|
  {
    if |parts| > 1 {
      var rest := Join(parts[1..], sep);
      assert Join(parts, sep) == parts[0] + sep + rest;
      if c !in parts[0] && c !in sep {
        JoinChars(parts[1..], sep, c);
        var i :| 0 <= i < |parts[1..]| && c in parts[1..][i];
        assert c in parts[i + 1];
      }
    }
  }

  /**
   * An unrecognised member is not named in the bridge's description as long as
   * it holds a character that neither the fixed text nor any recognised
   * member's name contains.
   */
  lemma UnrecognisedMemberNotNamed(root: string, tree: SysTree, bridge: string, member: string, c: char)
    requires bridge in Scan(root, tree) && tree[bridge].bridge
    requires c in member
    requires c !in "Network bridge with , "
    requires forall name :: Recognised(root, tree, name) ==> c !in name
    ensures !ContainsSubstring(Scan(root, tree)[bridge].description, member)
  {
    var listed := RecognisedMembers(root, tree, tree[bridge].members);
    var description := Scan(root, tree)[bridge].description;
    if ContainsSubstring(description, member) {
      SubstringChars(description, member, c);
      if listed == [] {
        assert false;
      } else {
        assert description == "Network bridge with " + Join(listed, ", ");
        if c !in "Network bridge with " {
          assert c in Join(listed, ", ");
          JoinChars(listed, ", ", c);
          RecognisedMembersAreRecognised(root, tree, tree[bridge].members);
          assert false;
        } else {
          assert false;
        }
      }
    }
  }

  // ---------------------------------------------------------------------------
  // The scenarios the platform tests set up

  /** A typed directory with nothing in it but a `bridge` subdirectory. */
  function EmptyBridgeDir(): InterfaceDir { InterfaceDir(Some(EthernetType), false, true, None, []) }

  /** A directory with only a `type` file. */
  function EthernetDir(typeFile: string): InterfaceDir { InterfaceDir(Some(typeFile), false, false, None, []) }

  /** A directory without a type file. */
  function BareDir(): InterfaceDir { InterfaceDir(None, false, false, None, []) }

  /** A lone bridge without members is reported as a plain network bridge. */
  lemma LoneEmptyBridge(root: string, name: string)
    requires !IsVirtualRoot(root)
    ensures Scan(root, map[name := EmptyBridgeDir()])
         == map[name := NetworkInterfaceInfo(name, "bridge", "Network bridge")]
  {
    var tree := map[name := EmptyBridgeDir()];
    assert Scan(root, tree).Keys == {name};
  }

  /** A lone ethernet-typed directory is reported as an ethernet device. */
  lemma LoneEthernet(root: string, name: string)
    requires !IsVirtualRoot(root)
    ensures Scan(root, map[name := EthernetDir("1")])
         == map[name := NetworkInterfaceInfo(name, "ethernet", "Ethernet device")]
  {
    var tree := map[name := EthernetDir("1")];
    assert Scan(root, tree).Keys == {name};
  }

  /** An ethernet-typed directory under a root ending in `virtual` is not reported. */
  lemma VirtualEthernet(parent: string, name: string)
    ensures Scan(parent + "/virtual", map[name := EthernetDir("1")]) == map[]
  {
    RootEndingInVirtual(parent);
    VirtualRootYieldsNothing(parent + "/virtual", map[name := EthernetDir("1")]);
  }

  /**
   * A bridge "aeiou" whose `brif` lists "en0", which has no type file, and
   * "en1", which is ethernet.
   */
  function BridgeTreeEn(): SysTree {
    map["aeiou" := InterfaceDir(Some("1"), false, true, None, ["en0", "en1"]),
        "en0" := BareDir(), "en1" := EthernetDir("1")]
  }

  /** Which entries of that tree are recognised. */
  lemma BridgeTreeEnRecognised(root: string, name: string)
    requires !IsVirtualRoot(root)
    ensures Recognised(root, BridgeTreeEn(), name) <==> name == "aeiou" || name == "en1"
  {
  }

  /** The bridge and "en1" are reported, the bridge described by its recognised members. */
  lemma BridgeTreeEnEntries(root: string)
    requires !IsVirtualRoot(root)
    ensures Scan(root, BridgeTreeEn()).Keys == {"aeiou", "en1"}
    ensures Scan(root, BridgeTreeEn())["aeiou"]
         == NetworkInterfaceInfo("aeiou", "bridge", BridgeDescription(RecognisedMembers(root, BridgeTreeEn(), ["en0", "en1"])))
    ensures Scan(root, BridgeTreeEn())["en1"] == NetworkInterfaceInfo("en1", "ethernet", "Ethernet device")
  {
    var tree := BridgeTreeEn();
    forall name ensures Recognised(root, tree, name) <==> name == "aeiou" || name == "en1" {
      BridgeTreeEnRecognised(root, name);
    }
    assert Scan(root, tree).Keys == {"aeiou", "en1"};
  }

  /** Of "en0" and "en1" only "en1" is recognised, so the description is "Network bridge with en1". */
  lemma BridgeTreeEnText(root: string)
    requires !IsVirtualRoot(root)
    ensures BridgeDescription(RecognisedMembers(root, BridgeTreeEn(), ["en0", "en1"])) == "Network bridge with en1"
  {
    var tree := BridgeTreeEn();
    BridgeTreeEnRecognised(root, "en0");
    BridgeTreeEnRecognised(root, "en1");
    RecognisedMembersSnoc(root, tree, [], "en0");
    RecognisedMembersSnoc(root, tree, ["en0"], "en1");
    assert [] + ["en0"] == ["en0"] && ["en0"] + ["en1"] == ["en0", "en1"];
  }

  /** Only the bridge and "en1" are reported, and the bridge is described by "en1" alone. */
  lemma BridgeTreeEnScan(root: string)
    requires !IsVirtualRoot(root)
    ensures Scan(root, BridgeTreeEn()).Keys == {"aeiou", "en1"}
    ensures Scan(root, BridgeTreeEn())["aeiou"] == NetworkInterfaceInfo("aeiou", "bridge", "Network bridge with en1")
    ensures Scan(root, BridgeTreeEn())["en1"] == NetworkInterfaceInfo("en1", "ethernet", "Ethernet device")
  {
    BridgeTreeEnEntries(root);
    BridgeTreeEnText(root);
  }

  /** "en1" occurs in the text "Network bridge with en1", and "en0" does not: it has no '0'. */
  lemma EnDescriptionText(d: string)
    requires d == "Network bridge with en1"
    ensures ContainsSubstring(d, "en1") && !ContainsSubstring(d, "en0")
  {
    SubstringOfConcat("Network bridge with ", "en1", "");
    assert "Network bridge with " + "en1" + "" == d;
    assert '0' !in d;
    if ContainsSubstring(d, "en0") {
      SubstringChars(d, "en0", '0');
    }
  }

  /** The description names "en1" and not "en0". */
  lemma BridgeTreeEnDescription(root: string)
    requires !IsVirtualRoot(root)
    ensures "aeiou" in Scan(root, BridgeTreeEn())
    ensures ContainsSubstring(Scan(root, BridgeTreeEn())["aeiou"].description, "en1")
    ensures !ContainsSubstring(Scan(root, BridgeTreeEn())["aeiou"].description, "en0")
  {
    BridgeTreeEnScan(root);
    EnDescriptionText(Scan(root, BridgeTreeEn())["aeiou"].description);
  }

  /**
   * A bridge "aeiou" whose `brif` lists "asdf", "ggi", "a1", "fu", "ho" and
   * "ra", of which "fu" and "ra" have no type file and the others are ethernet.
   */
  function BridgeTreeMixed(): SysTree {
    map["aeiou" := InterfaceDir(Some("1"), false, true, None, ["asdf", "ggi", "a1", "fu", "ho", "ra"]),
        "asdf" := EthernetDir("1"), "ggi" := EthernetDir("1"), "a1" := EthernetDir("1"),
        "fu" := BareDir(), "ho" := EthernetDir("1"), "ra" := BareDir()]
  }

  /** Which of that bridge's members are recognised. */
  lemma BridgeTreeMixedRecognised(root: string)
    requires !IsVirtualRoot(root)
    ensures Recognised(root, BridgeTreeMixed(), "asdf") && Recognised(root, BridgeTreeMixed(), "ggi")
    ensures Recognised(root, BridgeTreeMixed(), "a1") && Recognised(root, BridgeTreeMixed(), "ho")
    ensures !Recognised(root, BridgeTreeMixed(), "fu") && !Recognised(root, BridgeTreeMixed(), "ra")
  {
  }

  /** Exactly the bridge and its four typed members are recognised in that tree. */
  lemma BridgeTreeMixedRecognisedExactly(root: string, name: string)
    requires !IsVirtualRoot(root)
    ensures Recognised(root, BridgeTreeMixed(), name) <==> name in {"aeiou", "asdf", "ggi", "a1", "ho"}
  {
  }

  /** The scan of that tree reports the bridge and its four typed members, and nothing else. */
  lemma BridgeTreeMixedKeys(root: string)
    requires !IsVirtualRoot(root)
    ensures Scan(root, BridgeTreeMixed()).Keys == {"aeiou", "asdf", "ggi", "a1", "ho"}
  {
    forall name ensures name in Scan(root, BridgeTreeMixed()) <==> name in {"aeiou", "asdf", "ggi", "a1", "ho"} {
      ScanEntry(root, BridgeTreeMixed(), name);
      BridgeTreeMixedRecognisedExactly(root, name);
    }
  }

  /** Filtering a listing of six members where the fourth and sixth are unrecognised. */
  lemma RecognisedOfSix(root: string, tree: SysTree, a: string, b: string, c: string, d: string, e: string, f: string)
    requires Recognised(root, tree, a) && Recognised(root, tree, b) && Recognised(root, tree, c)
    requires !Recognised(root, tree, d) && Recognised(root, tree, e) && !Recognised(root, tree, f)
    ensures RecognisedMembers(root, tree, [a, b, c, d, e, f]) == [a, b, c, e]
  {
    RecognisedMembersSnoc(root, tree, [], a);
    RecognisedMembersSnoc(root, tree, [a], b);
    RecognisedMembersSnoc(root, tree, [a, b], c);
    RecognisedMembersSnoc(root, tree, [a, b, c], d);
    RecognisedMembersSnoc(root, tree, [a, b, c, d], e);
    RecognisedMembersSnoc(root, tree, [a, b, c, d, e], f);
    assert [] + [a] == [a];
    assert [a] + [b] == [a, b];
    assert [a, b] + [c] == [a, b, c];
    assert [a, b, c] + [d] == [a, b, c, d];
    assert [a, b, c, d] + [e] == [a, b, c, d, e];
    assert [a, b, c, d, e] + [f] == [a, b, c, d, e, f];
    assert [a, b, c] + [e] == [a, b, c, e];
  }

  /** "fu" and "ra" are dropped from the member list; the others keep their order. */
  lemma BridgeTreeMixedMembers(root: string)
    requires !IsVirtualRoot(root)
    ensures RecognisedMembers(root, BridgeTreeMixed(), ["asdf", "ggi", "a1", "fu", "ho", "ra"])
         == ["asdf", "ggi", "a1", "ho"]
  {
    BridgeTreeMixedRecognised(root);
    RecognisedOfSix(root, BridgeTreeMixed(), "asdf", "ggi", "a1", "fu", "ho", "ra");
  }

  /** Four parts joined with a separator. */
  lemma JoinFour(a: string, b: string, c: string, d: string, sep: string)
    ensures Join([a, b, c, d], sep) == a + sep + (b + sep + (c + sep + d))
  {
    assert [c, d][1..] == [d];
    assert Join([c, d], sep) == c + sep + d;
    assert [b, c, d][1..] == [c, d];
    assert Join([b, c, d], sep) == b + sep + (c + sep + d);
    assert [a, b, c, d][1..] == [b, c, d];
  }

  /** The bridge is reported, described by its recognised members. */
  lemma BridgeTreeMixedEntry(root: string)
    requires !IsVirtualRoot(root)
    ensures "aeiou" in Scan(root, BridgeTreeMixed())
    ensures Scan(root, BridgeTreeMixed())["aeiou"]
         == NetworkInterfaceInfo("aeiou", "bridge",
              BridgeDescription(RecognisedMembers(root, BridgeTreeMixed(), ["asdf", "ggi", "a1", "fu", "ho", "ra"])))
  {
  }

  /** Those recognised members make the description "Network bridge with asdf, ggi, a1, ho". */
  lemma BridgeTreeMixedText(root: string)
    requires !IsVirtualRoot(root)
    ensures BridgeDescription(RecognisedMembers(root, BridgeTreeMixed(), ["asdf", "ggi", "a1", "fu", "ho", "ra"]))
         == "Network bridge with asdf, ggi, a1, ho"
  {
    BridgeTreeMixedMembers(root);
    JoinFour("asdf", "ggi", "a1", "ho", ", ");
  }

  /** Only the bridge and its four typed members are reported, the bridge described by those members in listing order. */
  lemma BridgeTreeMixedScan(root: string)
    requires !IsVirtualRoot(root)
    ensures Scan(root, BridgeTreeMixed()).Keys == {"aeiou", "asdf", "ggi", "a1", "ho"}
    ensures "aeiou" in Scan(root, BridgeTreeMixed())
    ensures Scan(root, BridgeTreeMixed())["aeiou"]
         == NetworkInterfaceInfo("aeiou", "bridge", "Network bridge with asdf, ggi, a1, ho")
  {
    BridgeTreeMixedKeys(root);
    BridgeTreeMixedEntry(root);
    BridgeTreeMixedText(root);
  }

  /** The characters the argument below relies on. */
  lemma MixedDescriptionChars()
    ensures 'u' !in "Network bridge with asdf, ggi, a1, ho"
    ensures 'a' !in "Network bridge with " && 'r' !in "asdf, ggi, a1, ho"
  {
  }

  /** Neither "fu" nor "ra" occurs in "Network bridge with asdf, ggi, a1, ho". */
  lemma MixedDescriptionText(d: string)
    requires d == "Network bridge with asdf, ggi, a1, ho"
    ensures !ContainsSubstring(d, "fu") && !ContainsSubstring(d, "ra")
  {
    MixedDescriptionChars();
    // The text has no 'u'.
    NoCharNoSubstring(d, "fu", 'u');
    MixedDescriptionNoRa(d);
  }

  /**
   * "ra" is not in that text: its head "Network bridge with " has no 'a' and
   * ends in a space, and its tail has no 'r'.
   */
  lemma MixedDescriptionNoRa(d: string)
    requires d == "Network bridge with asdf, ggi, a1, ho"
    ensures !ContainsSubstring(d, "ra")
  {
    MixedDescriptionChars();
    assert d == "Network bridge with " + "asdf, ggi, a1, ho";
    NoPairAcross("Network bridge with ", "asdf, ggi, a1, ho", "ra");
  }

  /** A text lacking one of a pattern's characters does not contain the pattern. */
  lemma NoCharNoSubstring(s: string, p: string, c: char)
    requires c in p && c !in s
    ensures !ContainsSubstring(s, p)
  {
    if ContainsSubstring(s, p) {
      SubstringChars(s, p, c);
    }
  }

  /** A two-character text whose first character is missing from `tail` and second from `head` is not in `head + tail`. */
  lemma NoPairAcross(head: string, tail: string, p: string)
    requires |p| == 2 && p[1] !in head && p[0] !in tail && |head| > 0 && head[|head| - 1] != p[0]
    ensures !ContainsSubstring(head + tail, p)
  {
    if ContainsSubstring(head + tail, p) {
      PairInConcat(head, tail, p);
      if ContainsSubstring(head, p) {
        SubstringChars(head, p, p[1]);
      } else if ContainsSubstring(tail, p) {
        SubstringChars(tail, p, p[0]);
      }
    }
  }

  /** The description of that bridge names neither "fu" nor "ra". */
  lemma BridgeTreeMixedDescription(root: string)
    requires !IsVirtualRoot(root)
    ensures "aeiou" in Scan(root, BridgeTreeMixed())
    ensures !ContainsSubstring(Scan(root, BridgeTreeMixed())["aeiou"].description, "fu")
    ensures !ContainsSubstring(Scan(root, BridgeTreeMixed())["aeiou"].description, "ra")
  {
    BridgeTreeMixedScan(root);
    MixedDescriptionText(Scan(root, BridgeTreeMixed())["aeiou"].description);
  }
}
