/**
 * The pure parts of the client's `launch` command: checking a network mode and
 * a MAC address, digesting a `--network` spec into network options, splitting
 * the image argument into remote and image, turning the parsed command line
 * into a launch request, classifying the answers to the usage-data question,
 * and choosing the message for the daemon's launch error codes.
 */
module Launch {
  import opened Wrappers
  import opened Text

  // ---------------------------------------------------------------------------
  // Network options

  datatype Mode = Auto | Manual

  /** The network options of a launch request; an unset field keeps its default. */
  datatype NetworkOptions = NetworkOptions(id: string, mode: Mode, macAddress: string)

  const DefaultNetworkOptions := NetworkOptions("", Auto, "")

  /** The cases in which the source throws a ValidationException, with the offending text. */
  datatype ValidationError =
    | BadMode(mode: string)
    | InvalidMac(mac: string)
    | BadField(key: string)
    | BadFieldDefinition(item: string)
    | MissingName

  /** The spelling of a mode that the network spec accepts. */
  function ModeName(m: Mode): string {
    match m
    case Auto => "auto"
    case Manual => "manual"
  }

  /** Accepts exactly "auto" and "manual"; everything else is a bad mode. */
  function CheckedMode(mode: string): (r: Result<Mode, ValidationError>)
    ensures r.Success? <==> mode == "auto" || mode == "manual"
    ensures r.Success? ==> ModeName(r.value) == mode
    ensures r.Failure? ==> r.error == BadMode(mode)
  {
    if mode == "auto" then Success(Auto)
    else if mode == "manual" then Success(Manual)
    else Failure(BadMode(mode))
  }

  /** Every mode is accepted under its own name, and under no other. */
  lemma CheckedModeRoundTrip(m: Mode, s: string)
    ensures CheckedMode(ModeName(m)) == Success(m)
    ensures CheckedMode(s) == Success(m) ==> s == ModeName(m)
  {
  }

  /** A MAC address passes exactly when the validity predicate accepts it. */
  function CheckedMac(mac: string, validMac: string -> bool): (r: Result<string, ValidationError>)
    ensures r.Success? <==> validMac(mac)
    ensures r.Success? ==> r.value == mac
    ensures r.Failure? ==> r.error == InvalidMac(mac)
  {
    if validMac(mac) then Success(mac) else Failure(InvalidMac(mac))
  }

  /**
   * When a one-part item is read as the bare network name. AsWritten is the
   * source's test (one '='-separated part, one item); Intended adds what the
   * source's comment asks for: the item holds no '='.
   */
  datatype ShortcutRule = AsWritten | Intended

  predicate IsShortcut(item: string, kv: seq<string>, single: bool, rule: ShortcutRule) {
    |kv| == 1 && single && (rule == AsWritten || '=' !in item)
  }

  /** One `key=value` field; the key is case-insensitive and so is a mode value. */
  function ApplyField(net: NetworkOptions, key: string, val: string, validMac: string -> bool)
    : (r: Result<NetworkOptions, ValidationError>)
    ensures r.Success? <==>
      || Lower(key) == "name"
      || (Lower(key) == "mode" && (Lower(val) == "auto" || Lower(val) == "manual"))
      || (Lower(key) == "mac" && validMac(val))
    ensures r.Success? && Lower(key) == "name" ==> r.value == net.(id := val)
    ensures r.Success? && Lower(key) == "mode" ==>
      r.value.id == net.id && r.value.macAddress == net.macAddress && ModeName(r.value.mode) == Lower(val)
    ensures r.Success? && Lower(key) == "mac" ==> r.value == net.(macAddress := val)
    ensures r.Failure? ==> r.error in {BadField(Lower(key)), BadMode(Lower(val)), InvalidMac(val)}
  {
    var k := Lower(key);
    if k == "name" then Success(net.(id := val))
    else if k == "mode" then
      match CheckedMode(Lower(val))
      case Success(m) => Success(net.(mode := m))
      case Failure(e) => Failure(e)
    else if k == "mac" then
      match CheckedMac(val, validMac)
      case Success(mac) => Success(net.(macAddress := mac))
      case Failure(e) => Failure(e)
    else Failure(BadField(k))
  }

  /** One ','-separated item of a network spec, applied to what was digested so far. */
  function ApplyItem(net: NetworkOptions, item: string, single: bool, validMac: string -> bool,
                     rule: ShortcutRule): Result<NetworkOptions, ValidationError>
  {
    var kv := SplitSkipEmpty(item, '=');
    if |kv| == 2 then ApplyField(net, kv[0], kv[1], validMac)
    else if IsShortcut(item, kv, single, rule) then Success(net.(id := kv[0]))
    else Failure(BadFieldDefinition(item))
  }

  /** The items applied in order, stopping at the first failure. */
  function ApplyItems(items: seq<string>, single: bool, validMac: string -> bool, rule: ShortcutRule)
    : Result<NetworkOptions, ValidationError>
    decreases |items|
  {
    if items == [] then Success(DefaultNetworkOptions)
    else
      match ApplyItems(items[..|items| - 1], single, validMac, rule)
      case Failure(e) => Failure(e)
      case Success(net) => ApplyItem(net, items[|items| - 1], single, validMac, rule)
  }

  /** The non-empty ','-separated items of a network spec. */
  function NetworkItems(options: string): seq<string> {
    SplitSkipEmpty(options, ',')
  }

  /** The network options a `--network` spec stands for, under the given shortcut rule. */
  function Digest(options: string, validMac: string -> bool, rule: ShortcutRule)
    : (r: Result<NetworkOptions, ValidationError>)
    ensures r.Success? ==> r.value.id != ""
  {
    var items := NetworkItems(options);
    match ApplyItems(items, |items| == 1, validMac, rule)
    case Failure(e) => Failure(e)
    case Success(net) => if net.id == "" then Failure(MissingName) else Success(net)
  }

  /**
   * The digest as the launch command computes it: a loop over the items
   * updating one record. The command itself runs it with AsWritten.
   */
  method NetDigest(options: string, validMac: string -> bool, rule: ShortcutRule)
    returns (r: Result<NetworkOptions, ValidationError>)
    ensures r == Digest(options, validMac, rule)
  {
    var items := NetworkItems(options);
    var single := |items| == 1;
    var net := DefaultNetworkOptions;
    var i := 0;
    while i < |items|
      invariant 0 <= i <= |items|
      invariant ApplyItems(items[..i], single, validMac, rule) == Success(net)
    {
      ApplyItemsStep(items, i, single, validMac, rule, net);
      var step := ApplyItem(net, items[i], single, validMac, rule);
      if step.Failure? {
        ApplyItemsFailureSticks(items, i + 1, single, validMac, rule);
        return Failure(step.error);
      }
      net := step.value;
      i := i + 1;
    }
    assert items[..i] == items;
    if net.id == "" {
      return Failure(MissingName);
    }
    return Success(net);
  }

  // ---------------------------------------------------------------------------
  // What a digest holds

  /** The lower-cased key and the value of an item that splits into exactly two parts. */
  function FieldOf(item: string): Option<(string, string)> {
    var kv := SplitSkipEmpty(item, '=');
    if |kv| == 2 then Some((Lower(kv[0]), kv[1])) else None
  }

  /** The value given by the last field with this key, if any. */
  function LastValue(items: seq<string>, key: string): Option<string>
    decreases |items|
  {
    if items == [] then None
    else
      var f := FieldOf(items[|items| - 1]);
      if f.Some? && f.value.0 == key then Some(f.value.1)
      else LastValue(items[..|items| - 1], key)
  }

  /** The name given last, by a `name=` field or by the bare-name shortcut. */
  function LastName(items: seq<string>, single: bool, rule: ShortcutRule): Option<string>
    decreases |items|
  {
    if items == [] then None
    else
      var item := items[|items| - 1];
      var kv := SplitSkipEmpty(item, '=');
      var f := FieldOf(item);
      if f.Some? && f.value.0 == "name" then Some(f.value.1)
      else if IsShortcut(item, kv, single, rule) then Some(kv[0])
      else LastName(items[..|items| - 1], single, rule)
  }

  /** An item that fails whatever was digested before it. */
  predicate Rejected(item: string, single: bool, validMac: string -> bool, rule: ShortcutRule) {
    var kv := SplitSkipEmpty(item, '=');
    if |kv| == 2 then
      var k := Lower(kv[0]);
      || (k != "name" && k != "mode" && k != "mac")
      || (k == "mode" && CheckedMode(Lower(kv[1])).Failure?)
      || (k == "mac" && !validMac(kv[1]))
    else !IsShortcut(item, kv, single, rule)
  }

  lemma ApplyItemFails(net: NetworkOptions, item: string, single: bool, validMac: string -> bool,
                       rule: ShortcutRule)
    ensures ApplyItem(net, item, single, validMac, rule).Failure? <==> Rejected(item, single, validMac, rule)
  {
  }

  /** Once a prefix of the items fails, the whole list fails with the same error. */
  lemma {:induction false} ApplyItemsFailureSticks(items: seq<string>, k: nat, single: bool,
                                                   validMac: string -> bool, rule: ShortcutRule)
    requires k <= |items|
    requires ApplyItems(items[..k], single, validMac, rule).Failure?
    ensures ApplyItems(items, single, validMac, rule) == ApplyItems(items[..k], single, validMac, rule)
    decreases |items|
  {
    if k < |items| {
      var prefix := items[..|items| - 1];
      assert prefix[..k] == items[..k];
      ApplyItemsFailureSticks(prefix, k, single, validMac, rule);
    } else {
      assert items[..k] == items;
    }
  }

  /** Digesting one more item of a list continues from the digest of the items before it. */
  lemma ApplyItemsStep(items: seq<string>, i: nat, single: bool, validMac: string -> bool,
                       rule: ShortcutRule, net: NetworkOptions)
    requires i < |items|
    requires ApplyItems(items[..i], single, validMac, rule) == Success(net)
    ensures ApplyItems(items[..i + 1], single, validMac, rule) == ApplyItem(net, items[i], single, validMac, rule)
  {
    assert items[..i + 1][..i] == items[..i];
  }

  /** No item of the list is rejected, checked from the end. */
  predicate NoneRejected(items: seq<string>, single: bool, validMac: string -> bool, rule: ShortcutRule)
    decreases |items|
  {
    items == [] ||
    (NoneRejected(items[..|items| - 1], single, validMac, rule) && !Rejected(items[|items| - 1], single, validMac, rule))
  }

  lemma {:induction false} ApplyItemsSucceeds(items: seq<string>, single: bool, validMac: string -> bool,
                                              rule: ShortcutRule)
    ensures ApplyItems(items, single, validMac, rule).Success? <==> NoneRejected(items, single, validMac, rule)
    decreases |items|
  {
    if items != [] {
      var prefix := items[..|items| - 1];
      ApplyItemsSucceeds(prefix, single, validMac, rule);
      if ApplyItems(prefix, single, validMac, rule).Success? {
        ApplyItemFails(ApplyItems(prefix, single, validMac, rule).value, items[|items| - 1], single, validMac, rule);
      }
    }
  }

  lemma {:induction false} NoneRejectedAll(items: seq<string>, single: bool, validMac: string -> bool,
                                           rule: ShortcutRule)
    ensures NoneRejected(items, single, validMac, rule)
        <==> forall j :: 0 <= j < |items| ==> !Rejected(items[j], single, validMac, rule)
    decreases |items|
  {
    if items != [] {
      var n := |items| - 1;
      var prefix := items[..n];
      NoneRejectedAll(prefix, single, validMac, rule);
      if NoneRejected(items, single, validMac, rule) {
        forall j | 0 <= j < |items| ensures !Rejected(items[j], single, validMac, rule) {
          if j < n {
            assert prefix[j] == items[j];
          }
        }
      } else if NoneRejected(prefix, single, validMac, rule) {
        assert Rejected(items[n], single, validMac, rule);
      } else {
        var j :| 0 <= j < n && Rejected(prefix[j], single, validMac, rule);
        assert prefix[j] == items[j];
      }
    }
  }

  /** The items are accepted exactly when none of them is rejected. */
  lemma ApplyItemsAccepts(items: seq<string>, single: bool, validMac: string -> bool, rule: ShortcutRule)
    ensures ApplyItems(items, single, validMac, rule).Success?
        <==> forall j :: 0 <= j < |items| ==> !Rejected(items[j], single, validMac, rule)
  {
    ApplyItemsSucceeds(items, single, validMac, rule);
    NoneRejectedAll(items, single, validMac, rule);
  }

  /** What one accepted item does to each field: a field it names takes its value, the rest stay. */
  lemma ApplyItemEffect(net: NetworkOptions, item: string, single: bool, validMac: string -> bool,
                        rule: ShortcutRule, after: NetworkOptions)
    requires ApplyItem(net, item, single, validMac, rule) == Success(after)
    ensures var f := FieldOf(item);
      after.id == (if f.Some? && f.value.0 == "name" then f.value.1
                   else if IsShortcut(item, SplitSkipEmpty(item, '='), single, rule) then SplitSkipEmpty(item, '=')[0]
                   else net.id)
    ensures var f := FieldOf(item);
      after.macAddress == (if f.Some? && f.value.0 == "mac" then f.value.1 else net.macAddress)
    ensures var f := FieldOf(item);
      f.Some? && f.value.0 == "mac" ==> validMac(f.value.1)
    ensures var f := FieldOf(item);
      if f.Some? && f.value.0 == "mode" then CheckedMode(Lower(f.value.1)) == Success(after.mode)
      else after.mode == net.mode
  {
  }

  /**
   * Each field of an accepted digest holds the last value given for it: a
   * repeated key keeps its last value, and an unset field keeps its default.
   */
  lemma {:induction false} ApplyItemsFields(items: seq<string>, single: bool, validMac: string -> bool,
                                            rule: ShortcutRule, net: NetworkOptions)
    requires ApplyItems(items, single, validMac, rule) == Success(net)
    ensures net.id == LastName(items, single, rule).GetOr("")
    ensures net.macAddress == LastValue(items, "mac").GetOr("")
    ensures net.macAddress == "" || validMac(net.macAddress)
    ensures LastValue(items, "mode").None? ==> net.mode == Auto
    ensures LastValue(items, "mode").Some? ==> CheckedMode(Lower(LastValue(items, "mode").value)) == Success(net.mode)
    decreases |items|
  {
    if items != [] {
      var prefix := items[..|items| - 1];
      var before :| ApplyItems(prefix, single, validMac, rule) == Success(before);
      ApplyItemsFields(prefix, single, validMac, rule, before);
      ApplyItemEffect(before, items[|items| - 1], single, validMac, rule, net);
    }
  }

  /** Without the shortcut, the name is the last `name=` value. */
  lemma {:induction false} LastNameWithoutShortcut(items: seq<string>, rule: ShortcutRule)
    ensures LastName(items, false, rule) == LastValue(items, "name")
    decreases |items|
  {
    if items != [] {
      LastNameWithoutShortcut(items[..|items| - 1], rule);
    }
  }

  /** Every name a spec gives is non-empty, because empty parts are dropped. */
  lemma {:induction false} LastNameNonEmpty(items: seq<string>, single: bool, rule: ShortcutRule)
    ensures LastName(items, single, rule).Some? ==> LastName(items, single, rule).value != ""
    decreases |items|
  {
    if items != [] {
      var item := items[|items| - 1];
      SkipEmptyMembers(Split(item, '='));
      LastNameNonEmpty(items[..|items| - 1], single, rule);
    }
  }

  /**
   * A spec is accepted exactly when no item is rejected and some item names the
   * network; the options then hold the last name, mode and MAC address given.
   */
  lemma DigestMeaning(options: string, validMac: string -> bool, rule: ShortcutRule)
    ensures var items := NetworkItems(options);
      Digest(options, validMac, rule).Success?
      <==> (forall j :: 0 <= j < |items| ==> !Rejected(items[j], |items| == 1, validMac, rule))
           && LastName(items, |items| == 1, rule).Some?
    ensures var items := NetworkItems(options);
      Digest(options, validMac, rule).Success? ==>
        var net := Digest(options, validMac, rule).value;
        && net.id == LastName(items, |items| == 1, rule).value
        && net.macAddress == LastValue(items, "mac").GetOr("")
        && (net.macAddress == "" || validMac(net.macAddress))
        && (LastValue(items, "mode").None? ==> net.mode == Auto)
        && (LastValue(items, "mode").Some? ==> CheckedMode(Lower(LastValue(items, "mode").value)) == Success(net.mode))
  {
    var items := NetworkItems(options);
    var single := |items| == 1;
    ApplyItemsAccepts(items, single, validMac, rule);
    LastNameNonEmpty(items, single, rule);
    if ApplyItems(items, single, validMac, rule).Success? {
      ApplyItemsFields(items, single, validMac, rule, ApplyItems(items, single, validMac, rule).value);
    }
  }

  /** A spec of several items needs a `name=` field; there the shortcut never applies. */
  lemma MultiItemNeedsNameField(options: string, validMac: string -> bool, rule: ShortcutRule)
    requires |NetworkItems(options)| != 1
    requires LastValue(NetworkItems(options), "name").None?
    ensures Digest(options, validMac, rule).Failure?
  {
    DigestMeaning(options, validMac, rule);
    LastNameWithoutShortcut(NetworkItems(options), rule);
  }

  /** A field with an unrecognised key makes the whole spec fail. */
  lemma UnknownKeyRejected(options: string, validMac: string -> bool, rule: ShortcutRule, j: nat)
    requires j < |NetworkItems(options)|
    requires FieldOf(NetworkItems(options)[j]).Some?
    requires FieldOf(NetworkItems(options)[j]).value.0 !in {"name", "mode", "mac"}
    ensures Digest(options, validMac, rule).Failure?
  {
    DigestMeaning(options, validMac, rule);
    var items := NetworkItems(options);
    assert Rejected(items[j], |items| == 1, validMac, rule);
  }

  /** A MAC address the validity predicate refuses makes the whole spec fail. */
  lemma InvalidMacRejected(options: string, validMac: string -> bool, rule: ShortcutRule, j: nat)
    requires j < |NetworkItems(options)|
    requires FieldOf(NetworkItems(options)[j]).Some?
    requires FieldOf(NetworkItems(options)[j]).value.0 == "mac"
    requires !validMac(FieldOf(NetworkItems(options)[j]).value.1)
    ensures Digest(options, validMac, rule).Failure?
  {
    DigestMeaning(options, validMac, rule);
    var items := NetworkItems(options);
    assert Rejected(items[j], |items| == 1, validMac, rule);
  }

  /** An item with more than two '='-separated parts makes the whole spec fail. */
  lemma OverlongItemRejected(options: string, validMac: string -> bool, rule: ShortcutRule, j: nat)
    requires j < |NetworkItems(options)|
    requires |SplitSkipEmpty(NetworkItems(options)[j], '=')| > 2
    ensures Digest(options, validMac, rule).Failure?
  {
    DigestMeaning(options, validMac, rule);
    var items := NetworkItems(options);
    assert Rejected(items[j], |items| == 1, validMac, rule);
  }

  /** Keys are case-insensitive: an item's key may be written in any case. */
  lemma KeyCaseInsensitive(net: NetworkOptions, key: string, val: string, validMac: string -> bool)
    ensures ApplyField(net, key, val, validMac) == ApplyField(net, Lower(key), val, validMac)
  {
    LowerIdempotent(key);
  }

  /** Mode values are case-insensitive. */
  lemma ModeCaseInsensitive(net: NetworkOptions, key: string, val: string, validMac: string -> bool)
    requires Lower(key) == "mode"
    ensures ApplyField(net, key, val, validMac) == ApplyField(net, key, Lower(val), validMac)
  {
    LowerIdempotent(val);
  }

  /** A single token with no ',' and no '=' is the network's name. */
  lemma BareNameShortcut(options: string, validMac: string -> bool, rule: ShortcutRule)
    requires options != "" && ',' !in options && '=' !in options
    ensures Digest(options, validMac, rule) == Success(NetworkOptions(options, Auto, ""))
  {
    SingleToken(options, ',');
    SingleToken(options, '=');
    assert NetworkItems(options) == [options];
    assert ApplyItems([options], true, validMac, rule)
        == ApplyItem(DefaultNetworkOptions, options, true, validMac, rule);
  }

  /**
   * Under the intended rule, a spec accepted without a `name=` field is a bare
   * name: it holds no '=' at all.
   */
  lemma {:induction false} IntendedShortcutHasNoEquals(options: string, validMac: string -> bool)
    requires Digest(options, validMac, Intended).Success?
    requires LastValue(NetworkItems(options), "name").None?
    ensures '=' !in options
  {
    var items := NetworkItems(options);
    DigestMeaning(options, validMac, Intended);
    if |items| != 1 {
      LastNameWithoutShortcut(items, Intended);
      assert false;
    }
    var item := items[0];
    assert items[..0] == [];
    assert IsShortcut(item, SplitSkipEmpty(item, '='), true, Intended);
    assert '=' !in item;
    var parts := Split(options, ',');
    SkipEmptyMembers(parts);
    forall i | 0 <= i < |parts| ensures '=' !in parts[i] {
      if parts[i] != "" {
        assert parts[i] in items;
      }
    }
    JoinAvoids(parts, [','], '=');
    JoinSplit(options, ',');
  }

  const BridgedNetworkName := "bridged"

  /** The bridged-network shortcut of `--bridged` digests under either shortcut rule. */
  lemma BridgedDigests(validMac: string -> bool, rule: ShortcutRule)
    ensures Digest(BridgedNetworkName, validMac, rule) == Success(NetworkOptions(BridgedNetworkName, Auto, ""))
  {
    BareNameShortcut(BridgedNetworkName, validMac, rule);
  }

  // ---------------------------------------------------------------------------
  // The image argument

  /** A reference to an image, optionally on a named remote. */
  datatype ImageRef = ImageRef(remote: Option<string>, image: string)

  predicate IsUrl(arg: string) {
    StartsWith(arg, "http://") || StartsWith(arg, "https://") || StartsWith(arg, "file://")
  }

  /** The argument text an image reference is written as. */
  function ImageArgument(ref: ImageRef): string {
    match ref.remote
    case None => ref.image
    case Some(remote) => remote + ":" + ref.image
  }

  /**
   * The remote and image an image argument names: a URL is an image as it
   * stands; otherwise one ':' separates remote from image, and more are refused.
   */
  function SplitImageArgument(arg: string): (r: Option<ImageRef>)
    ensures r.None? <==> !IsUrl(arg) && CountChar(arg, ':') > 1
    ensures r.Some? ==> ImageArgument(r.value) == arg
    ensures IsUrl(arg) ==> r == Some(ImageRef(None, arg))
    ensures !IsUrl(arg) && CountChar(arg, ':') == 1 ==> r.Some? && r.value.remote.Some?
    ensures r.Some? && r.value.remote.Some? ==>
      !IsUrl(arg) && ':' !in r.value.remote.value && ':' !in r.value.image
  {
    if IsUrl(arg) then Some(ImageRef(None, arg))
    else if CountChar(arg, ':') > 1 then None
    else if CountChar(arg, ':') == 1 then
      ExactlyOne(arg, ':');
      var i := IndexOf(arg, ':');
      Some(ImageRef(Some(arg[..i]), arg[i + 1..]))
    else Some(ImageRef(None, arg))
  }

  /** `remote:image` has one colon, right after the remote. */
  lemma ColonSeparates(remote: string, image: string)
    requires ':' !in remote && ':' !in image
    ensures var arg := remote + ":" + image;
      && CountChar(arg, ':') == 1
      && IndexOf(arg, ':') == |remote|
      && arg[..|remote|] == remote
      && arg[|remote| + 1..] == image
  {
    CountConcat(remote + ":", image, ':');
    CountConcat(remote, ":", ':');
    IndexOfFirst(remote, ':', image);
  }

  /** Writing a remote and an image as `remote:image` and splitting it gives them back. */
  lemma RemoteImageRoundTrip(remote: string, image: string)
    requires ':' !in remote && ':' !in image
    requires !IsUrl(remote + ":" + image)
    ensures SplitImageArgument(remote + ":" + image) == Some(ImageRef(Some(remote), image))
  {
    ColonSeparates(remote, image);
  }

  /** An image without a colon, not a URL, is taken as it stands with no remote. */
  lemma PlainImage(image: string)
    requires ':' !in image && !IsUrl(image)
    ensures SplitImageArgument(image) == Some(ImageRef(None, image))
  {
  }

  // ---------------------------------------------------------------------------
  // From the command line to a launch request

  datatype ParseCode = Ok | CommandLineError

  /** The command line after option parsing: positional arguments and the option values given. */
  datatype CommandLine = CommandLine(
    positional: seq<string>,
    instanceName: Option<string>,
    cpus: Option<int>,
    mem: Option<string>,
    disk: Option<string>,
    bridged: bool,
    networks: seq<string>)

  datatype LaunchRequest = LaunchRequest(
    remoteName: string,
    image: string,
    instanceName: string,
    numCores: int,
    memSize: string,
    diskSpace: string,
    networkOptions: seq<NetworkOptions>)

  const EmptyRequest := LaunchRequest("", "", "", 0, "", "", [])

  /** The digest of one `--network` spec, as the launch command applies it to each. */
  function Digester(validMac: string -> bool, rule: ShortcutRule): string -> Result<NetworkOptions, ValidationError> {
    spec => Digest(spec, validMac, rule)
  }

  /** The digests of several specs, failing at the first spec that fails. */
  function DigestAll(specs: seq<string>, digest: string -> Result<NetworkOptions, ValidationError>)
    : (r: Result<seq<NetworkOptions>, ValidationError>)
    ensures r.Success? ==> |r.value| == |specs|
    ensures r.Failure? ==> exists j :: 0 <= j < |specs| && digest(specs[j]) == Failure(r.error)
    decreases |specs|
  {
    if specs == [] then Success([])
    else
      var n := |specs| - 1;
      match DigestAll(specs[..n], digest)
      case Failure(e) =>
        var j :| 0 <= j < n && digest(specs[..n][j]) == Failure(e);
        assert specs[..n][j] == specs[j];
        Failure(e)
      case Success(nets) =>
        match digest(specs[n])
        case Failure(e) => Failure(e)
        case Success(net) => Success(nets + [net])
  }

  /** All specs digest exactly when each does. */
  lemma {:induction false} DigestAllSucceeds(specs: seq<string>, digest: string -> Result<NetworkOptions, ValidationError>)
    ensures DigestAll(specs, digest).Success? <==> forall j :: 0 <= j < |specs| ==> digest(specs[j]).Success?
    decreases |specs|
  {
    if specs != [] {
      var n := |specs| - 1;
      var prefix := specs[..n];
      DigestAllSucceeds(prefix, digest);
      assert forall j :: 0 <= j < n ==> prefix[j] == specs[j];
    }
  }

  /** Digesting one more spec continues from the digests of the specs before it. */
  lemma DigestAllStep(specs: seq<string>, i: nat, digest: string -> Result<NetworkOptions, ValidationError>,
                      nets: seq<NetworkOptions>)
    requires i < |specs|
    requires DigestAll(specs[..i], digest) == Success(nets)
    ensures DigestAll(specs[..i + 1], digest)
        == match digest(specs[i]) case Failure(e) => Failure(e) case Success(net) => Success(nets + [net])
  {
    assert specs[..i + 1][..i] == specs[..i];
  }

  /** Once a prefix of the specs fails, all of them fail with the same error. */
  lemma {:induction false} DigestAllFailureSticks(specs: seq<string>, k: nat,
                                                  digest: string -> Result<NetworkOptions, ValidationError>)
    requires k <= |specs|
    requires DigestAll(specs[..k], digest).Failure?
    ensures DigestAll(specs, digest) == DigestAll(specs[..k], digest)
    decreases |specs|
  {
    if k < |specs| {
      var prefix := specs[..|specs| - 1];
      assert prefix[..k] == specs[..k];
      DigestAllFailureSticks(prefix, k, digest);
    } else {
      assert specs[..k] == specs;
    }
  }

  /** The digests of accepted specs come one per spec, in the specs' order. */
  lemma {:induction false} DigestAllValues(specs: seq<string>, digest: string -> Result<NetworkOptions, ValidationError>, j: nat)
    requires DigestAll(specs, digest).Success?
    requires j < |specs|
    ensures |DigestAll(specs, digest).value| == |specs|
    ensures digest(specs[j]).Success?
    ensures DigestAll(specs, digest).value[j] == digest(specs[j]).value
    decreases |specs|
  {
    var n := |specs| - 1;
    var prefix := specs[..n];
    if j < n {
      DigestAllValues(prefix, digest, j);
      assert prefix[j] == specs[j];
    } else if n > 0 {
      DigestAllValues(prefix, digest, 0);
    }
  }

  /**
   * Sets the request's remote and image from the image argument: a URL is the
   * image as it stands, one ':' separates remote from image, more are refused.
   */
  method SetImage(request: LaunchRequest, arg: string) returns (ok: bool, updated: LaunchRequest)
    ensures ok <==> SplitImageArgument(arg).Some?
    ensures !ok ==> updated == request
    ensures ok ==>
      var ref := SplitImageArgument(arg).value;
      updated == request.(remoteName := ref.remote.GetOr(request.remoteName), image := ref.image)
  {
    ok, updated := true, request;
    if IsUrl(arg) {
      updated := updated.(image := arg);
    } else {
      var colons := CountChar(arg, ':');
      if colons > 1 {
        ok := false;
      } else if colons == 1 {
        var i := IndexOf(arg, ':');
        updated := updated.(remoteName := arg[..i]);
        updated := updated.(image := arg[i + 1..]);
      } else {
        updated := updated.(image := arg);
      }
    }
  }

  /** Digests the `--network` specs one after the other, stopping at the first that fails. */
  method NetDigestAll(specs: seq<string>, validMac: string -> bool, rule: ShortcutRule)
    returns (r: Result<seq<NetworkOptions>, ValidationError>)
    ensures r == DigestAll(specs, Digester(validMac, rule))
  {
    ghost var digest := Digester(validMac, rule);
    var nets := [];
    var i := 0;
    while i < |specs|
      invariant 0 <= i <= |specs|
      invariant DigestAll(specs[..i], digest) == Success(nets)
    {
      var net := NetDigest(specs[i], validMac, rule);
      DigestAllStep(specs, i, digest, nets);
      if net.Failure? {
        DigestAllFailureSticks(specs, i + 1, digest);
        return Failure(net.error);
      }
      nets := nets + [net.value];
      i := i + 1;
    }
    assert specs[..i] == specs;
    return Success(nets);
  }

  /** Copies the name, cpus, memory and disk options that were given into the request. */
  method SetOptions(request: LaunchRequest, cl: CommandLine) returns (updated: LaunchRequest)
    ensures updated == request.(instanceName := cl.instanceName.GetOr(request.instanceName),
                                numCores := cl.cpus.GetOr(request.numCores),
                                memSize := cl.mem.GetOr(request.memSize),
                                diskSpace := cl.disk.GetOr(request.diskSpace))
  {
    updated := request;
    if cl.instanceName.Some? {
      updated := updated.(instanceName := cl.instanceName.value);
    }
    if cl.cpus.Some? {
      updated := updated.(numCores := cl.cpus.value);
    }
    if cl.mem.Some? {
      updated := updated.(memSize := cl.mem.value);
    }
    if cl.disk.Some? {
      updated := updated.(diskSpace := cl.disk.value);
    }
  }

  /**
   * Parses the launch command line into a request, setting the request's
   * fields one after the other as the command does. With AsWritten this is
   * the command as it stands; with Intended, the command with the bare-name
   * shortcut its comment describes.
   */
  method ParseArgs(cl: CommandLine, validMac: string -> bool, rule: ShortcutRule)
    returns (code: ParseCode, request: LaunchRequest)
    ensures |cl.positional| > 1 ==> code == CommandLineError && request == EmptyRequest
    ensures |cl.positional| == 1 && SplitImageArgument(cl.positional[0]).None? ==>
      code == CommandLineError && request == EmptyRequest
    ensures code == Ok <==>
      && |cl.positional| <= 1
      && (|cl.positional| == 1 ==> SplitImageArgument(cl.positional[0]).Some?)
      && DigestAll(cl.networks, Digester(validMac, rule)).Success?
    ensures code == Ok && |cl.positional| == 0 ==> request.remoteName == "" && request.image == ""
    ensures code == Ok && |cl.positional| == 1 ==>
      var ref := SplitImageArgument(cl.positional[0]).value;
      request.remoteName == ref.remote.GetOr("") && request.image == ref.image
    ensures code == Ok ==>
      && request.instanceName == cl.instanceName.GetOr("")
      && request.numCores == cl.cpus.GetOr(0)
      && request.memSize == cl.mem.GetOr("")
      && request.diskSpace == cl.disk.GetOr("")
    ensures code == Ok ==>
      request.networkOptions
        == (if cl.bridged then [NetworkOptions(BridgedNetworkName, Auto, "")] else [])
         + DigestAll(cl.networks, Digester(validMac, rule)).value
  {
    request := EmptyRequest;
    if |cl.positional| > 1 {
      // "Too many arguments supplied"
      return CommandLineError, request;
    }
    if |cl.positional| == 1 {
      var ok;
      ok, request := SetImage(request, cl.positional[0]);
      if !ok {
        // "Invalid remote and source image name supplied"
        return CommandLineError, request;
      }
    }
    ghost var image := request;
    assert image.(remoteName := "", image := "") == EmptyRequest;
    request := SetOptions(request, cl);
    ghost var options := request;
    if cl.bridged {
      var bridged := NetDigest(BridgedNetworkName, validMac, rule);
      BridgedDigests(validMac, rule);
      request := request.(networkOptions := request.networkOptions + [bridged.value]);
    }
    assert request == options.(networkOptions := if cl.bridged then [NetworkOptions(BridgedNetworkName, Auto, "")] else []);
    var nets := NetDigestAll(cl.networks, validMac, rule);
    if nets.Failure? {
      // "error: " followed by the validation message
      return CommandLineError, request;
    }
    request := request.(networkOptions := request.networkOptions + nets.value);
    code := Ok;
  }

  // ---------------------------------------------------------------------------
  // The usage-data question

  datatype OptInStatus = Accepted | Denied | Later

  /** What the command does with one answer: record a status, show an example report, or ask again. */
  datatype Reaction = Decide(status: OptInStatus) | ShowExample | AskAgain

  /**
   * The reaction to one answer: the patterns y|yes, n|no and l|later are
   * matched ignoring case, and so is s|show when there is host information;
   * an empty answer means later, and anything else asks again.
   */
  function Classify(answer: string, hasHostInfo: bool): (r: Reaction)
    ensures r == Decide(Accepted) <==> Lower(answer) in {"y", "yes"}
    ensures r == Decide(Denied) <==> Lower(answer) in {"n", "no"}
    ensures r == Decide(Later) <==> Lower(answer) in {"", "l", "later"}
    ensures r == AskAgain <==>
      Lower(answer) !in {"y", "yes", "n", "no", "", "l", "later"} && !(hasHostInfo && Lower(answer) in {"s", "show"})
  {
    var a := Lower(answer);
    if a == "y" || a == "yes" then Decide(Accepted)
    else if a == "n" || a == "no" then Decide(Denied)
    else if answer == "" || a == "l" || a == "later" then Decide(Later)
    else if hasHostInfo && (a == "s" || a == "show") then ShowExample
    else AskAgain
  }

  /** Answers are read case-insensitively. */
  lemma ClassifyIgnoresCase(answer: string, hasHostInfo: bool)
    ensures Classify(answer, hasHostInfo) == Classify(Lower(answer), hasHostInfo)
  {
    LowerIdempotent(answer);
  }

  /** The example report is offered only when the daemon sent host information. */
  lemma ShowNeedsHostInfo(answer: string)
    ensures Classify(answer, false) != ShowExample
    ensures Classify(answer, true) == ShowExample <==> Lower(answer) == "s" || Lower(answer) == "show"
  {
  }

  /** The answer read at position k; past the end of the input the line read is empty. */
  function AnswerAt(answers: seq<string>, k: nat): string {
    if k < |answers| then answers[k] else ""
  }

  /**
   * Reads answers until one decides. The status recorded is that of the first
   * deciding answer; every answer before it only re-prompted.
   */
  method AskOptIn(answers: seq<string>, hasHostInfo: bool) returns (status: OptInStatus, k: nat)
    ensures k <= |answers|
    ensures Classify(AnswerAt(answers, k), hasHostInfo) == Decide(status)
    ensures forall j :: 0 <= j < k ==> !Classify(answers[j], hasHostInfo).Decide?
  {
    k := 0;
    while true
      invariant k <= |answers|
      invariant forall j :: 0 <= j < k ==> !Classify(answers[j], hasHostInfo).Decide?
      decreases |answers| - k
    {
      var answer := AnswerAt(answers, k);
      var reaction := Classify(answer, hasHostInfo);
      if reaction.Decide? {
        return reaction.status, k;
      }
      k := k + 1;
    }
  }

  // ---------------------------------------------------------------------------
  // Launch failures

  datatype LaunchErrorCode = InvalidDiskSize | InvalidMemSize | InvalidHostname | InvalidNetwork | OtherError(code: int)

  /** The message for one error code, if the command has one for it. */
  function DetailsFor(code: LaunchErrorCode, request: LaunchRequest): (r: Option<string>)
    ensures r.Some? <==> !code.OtherError?
    ensures r.Some? ==> r.value != ""
  {
    match code
    case InvalidDiskSize => Some("Invalid disk size value supplied: " + request.diskSpace + ".")
    case InvalidMemSize => Some("Invalid memory size value supplied: " + request.memSize + ".")
    case InvalidHostname => Some("Invalid instance name supplied: " + request.instanceName)
    case InvalidNetwork => Some("Invalid network options supplied")
    case OtherError(_) => None
  }

  /** The message of the last code that has one, or "" when none has. */
  function LastDetails(codes: seq<LaunchErrorCode>, request: LaunchRequest): string
    decreases |codes|
  {
    if codes == [] then ""
    else
      match DetailsFor(codes[|codes| - 1], request)
      case Some(d) => d
      case None => LastDetails(codes[..|codes| - 1], request)
  }

  /** The details are empty exactly when no code has a message; otherwise the last such code wins. */
  lemma {:induction false} LastDetailsMeaning(codes: seq<LaunchErrorCode>, request: LaunchRequest, j: nat)
    ensures LastDetails(codes, request) == "" <==> forall l :: 0 <= l < |codes| ==> DetailsFor(codes[l], request).None?
    ensures j < |codes| && DetailsFor(codes[j], request).Some?
            && (forall l :: j < l < |codes| ==> DetailsFor(codes[l], request).None?)
        ==> LastDetails(codes, request) == DetailsFor(codes[j], request).value
    decreases |codes|
  {
    if codes != [] {
      var prefix := codes[..|codes| - 1];
      LastDetailsMeaning(prefix, request, j);
      forall l | 0 <= l < |prefix| ensures prefix[l] == codes[l] {}
    }
  }

  /** The failure handler's loop over the error codes, each recognised code overwriting the details. */
  method ErrorDetails(codes: seq<LaunchErrorCode>, request: LaunchRequest) returns (details: string)
    ensures details == LastDetails(codes, request)
  {
    details := "";
    var i := 0;
    while i < |codes|
      invariant 0 <= i <= |codes|
      invariant details == LastDetails(codes[..i], request)
    {
      assert codes[..i + 1][..i] == codes[..i];
      var d := DetailsFor(codes[i], request);
      if d.Some? {
        details := d.value;
      }
      i := i + 1;
    }
    assert codes[..i] == codes;
  }

  // ---------------------------------------------------------------------------
  // The discrepancy between the shortcut test and its comment

  /** "name=" is one item, and splitting it on '=' leaves the single part "name". */
  lemma DanglingEqualsSplits()
    ensures NetworkItems("name=") == ["name="]
    ensures SplitSkipEmpty("name=", '=') == ["name"]
  {
    SingleToken("name=", ',');
    SplitAtFirst("name", '=', "");
    assert "name" + ['='] + "" == "name=";
    assert Split("name=", '=') == ["name", ""];
    assert SkipEmpty(["name", ""]) == ["name"] + SkipEmpty([""]);
    assert SkipEmpty([""]) == [] + SkipEmpty([]);
  }

  /**
   * A lone item that holds '=' but splits into one part: the source's test takes
   * it for the bare-name shortcut, the intended test rejects it.
   */
  lemma ShortcutRulesDiffer(options: string, name: string, validMac: string -> bool)
    requires NetworkItems(options) == [options]
    requires SplitSkipEmpty(options, '=') == [name] && name != ""
    requires '=' in options
    ensures Digest(options, validMac, AsWritten) == Success(DefaultNetworkOptions.(id := name))
    ensures Digest(options, validMac, Intended) == Failure(BadFieldDefinition(options))
  {
    var items := [options];
    assert items[..|items| - 1] == [];
    assert items[|items| - 1] == options;
    assert ApplyItem(DefaultNetworkOptions, options, true, validMac, AsWritten) == Success(DefaultNetworkOptions.(id := name));
    assert ApplyItem(DefaultNetworkOptions, options, true, validMac, Intended) == Failure(BadFieldDefinition(options));
    assert ApplyItems(items, true, validMac, AsWritten) == Success(DefaultNetworkOptions.(id := name));
    assert ApplyItems(items, true, validMac, Intended) == Failure(BadFieldDefinition(options));
  }

  /** As written, `name=` is accepted as a network called "name" although it holds '=' and no name field. */
  lemma AsWrittenAcceptsDanglingEquals(validMac: string -> bool)
    ensures LastValue(NetworkItems("name="), "name").None?
    ensures Digest("name=", validMac, AsWritten) == Success(NetworkOptions("name", Auto, ""))
    ensures Digest("name=", validMac, Intended) == Failure(BadFieldDefinition("name="))
  {
    DanglingEqualsSplits();
    assert "name="[4] == '=';
    ShortcutRulesDiffer("name=", "name", validMac);
  }

  /** A lone spec's digests are its own digest. */
  lemma DigestAllOne(spec: string, digest: string -> Result<NetworkOptions, ValidationError>)
    ensures DigestAll([spec], digest)
        == match digest(spec) case Failure(e) => Failure(e) case Success(net) => Success([net])
  {
    var specs := [spec];
    assert specs[..|specs| - 1] == [];
    assert DigestAll(specs[..|specs| - 1], digest) == Success([]);
    if digest(spec).Success? {
      assert [] + [digest(spec).value] == [digest(spec).value];
    }
  }

  /**
   * So the command as written accepts `--network name=` and adds a network
   * called "name", where the intended rule refuses the spec.
   */
  lemma DanglingEqualsCommand(validMac: string -> bool)
    ensures DigestAll(["name="], Digester(validMac, AsWritten)) == Success([NetworkOptions("name", Auto, "")])
    ensures DigestAll(["name="], Digester(validMac, Intended)) == Failure(BadFieldDefinition("name="))
  {
    AsWrittenAcceptsDanglingEquals(validMac);
    DigestAllOne("name=", Digester(validMac, AsWritten));
    DigestAllOne("name=", Digester(validMac, Intended));
  }
}
