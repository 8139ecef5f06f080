# Multipass launch options and Linux platform layer, in Dafny

This project models two sequential parts of Multipass, the tool that launches and
manages Ubuntu VM instances.

**`multipass launch` argument handling** (`launch.cpp`) covers:

- the network-mode and MAC checks;
- the `--network` spec parser (`net_digest`), which turns `name=…,mode=…,mac=…` or a
  bare name into network options;
- the argument-count check and the split of the image argument into remote and image;
- option defaults and `--bridged`;
- the loop that asks whether to send usage data;
- the choice of error details from a failed launch's error codes.

**The Linux platform layer**, as its tests pin it down (`test_platform_linux.cpp`), covers:

- which VM factory the configured driver selects;
- which drivers and image remotes are supported;
- the host network-interface scan, which walks a sysfs-like directory and reports
  wired ethernet devices and bridges, with a bridge's recognised members named in its
  description.

Files:

- `wrappers.dfy`: the `Option` and `Result` types.
- `text.dfy`: the Qt string operations the code relies on, with their properties. These
  are ASCII lower-casing, split with and without dropping empty parts, join, character
  count, prefix test and substring test.
- `launch.dfy`: module `Launch`.
- `platform.dfy`: module `Platform`.
- `network_scan.dfy`: module `NetworkScan`.

Stateful code is modelled as methods. These are the `net_digest` loop (`NetDigest`), the
field-by-field filling of the request (`ParseArgs`, `SetImage`, `NetDigestAll`), the
`while (true)` prompt loop (`AskOptIn`), the loop over error codes (`ErrorDetails`) and
the scanner's walk over directory entries (`GetNetworkInterfacesFrom`, `BridgeMembers`).
`NetDigest`, `NetDigestAll`, `ErrorDetails`, `GetNetworkInterfacesFrom` and
`BridgeMembers` are proved equal to specification functions, and the properties are proved
about those functions. `SetImage` and `SetOptions` state the whole updated request.
`ParseArgs` states the result code and, on `Ok`, the request field by field. On a failing
network spec it states only the code. `AskOptIn`'s contract describes its outcome directly:
the first deciding answer and the status it gives.

MAC validity (`valid_mac_address`) is not part of this model. It is a parameter
`validMac: string -> bool` everywhere.

## Model

| member | source | states |
|---|---|---|
| Launch.CheckedMode | src/client/cli/cmd/launch.cpp:55-63 | succeeds exactly for "auto" and "manual", and the mode it returns is named by the input; every other string fails with `BadMode` carrying that string |
| Launch.CheckedModeRoundTrip | src/client/cli/cmd/launch.cpp:55-63 | checking a mode's own name gives that mode back, and a string that checks to a mode is that mode's name |
| Launch.CheckedMac | src/client/cli/cmd/launch.cpp:65-71 | passes the address through unchanged exactly when the validity predicate accepts it, else fails with `InvalidMac(mac)` |
| Launch.ApplyField | src/client/cli/cmd/launch.cpp:81-93 | a field is accepted exactly when its lower-cased key is name, or mode with a value that is "auto" or "manual" ignoring case, or mac with a valid address; name and mac set only their own field, mode sets the mode that value names and keeps the rest; a refusal names the bad key, mode or MAC |
| Launch.Digest | src/client/cli/cmd/launch.cpp:73-107 | every network options value the digest returns has a non-empty id |
| Launch.NetDigest | src/client/cli/cmd/launch.cpp:73-107 | the loop over the ','-separated items, which updates the record field by field, returns exactly the specification `Digest` under the shortcut rule it is given (AsWritten is the command as it stands) |
| Launch.ApplyItemFails | src/client/cli/cmd/launch.cpp:79-100 | one item is refused exactly when it is a key=value with an unknown key, a bad mode or a bad MAC, or neither a key=value pair nor an allowed bare name |
| Launch.ApplyItemsFailureSticks | src/client/cli/cmd/launch.cpp:77-101 | once an item is refused, later items change nothing: the first error is the result |
| Launch.ApplyItemsAccepts | src/client/cli/cmd/launch.cpp:77-101 | the items are accepted exactly when none of them is refused |
| Launch.ApplyItemsSucceeds | src/client/cli/cmd/launch.cpp:77-101 | the items are accepted exactly when, item by item from the first, each one is accepted after those before it |
| Launch.ApplyItemEffect | src/client/cli/cmd/launch.cpp:80-97 | one accepted item sets the id from a `name=` value or the bare-name shortcut, the MAC from a `mac=` value (which is valid), the mode from a `mode=` value checked case-insensitively, and leaves every other field as it was |
| Launch.ApplyItemsFields | src/client/cli/cmd/launch.cpp:80-97 | after accepted items, the id is the last name given (field or shortcut), the MAC is the last `mac=` value and is valid, and the mode is the last `mode=` value checked case-insensitively, or AUTO when none was given |
| Launch.LastNameWithoutShortcut | src/client/cli/cmd/launch.cpp:85-97 | in a multi-item spec only `name=` fields can set the id |
| Launch.LastNameNonEmpty | src/client/cli/cmd/launch.cpp:76-79 | a name picked up from the items is never empty, because empty parts are dropped by both splits |
| Launch.DigestMeaning | src/client/cli/cmd/launch.cpp:73-107 | the digest succeeds exactly when no item is refused and some name was given; on success the fields are the last name, last valid MAC and last mode |
| Launch.MultiItemNeedsNameField | src/client/cli/cmd/launch.cpp:95-104 | a spec that is not a single item and has no `name=` field is rejected |
| Launch.UnknownKeyRejected | src/client/cli/cmd/launch.cpp:83-92 | any key=value item whose lower-cased key is not name, mode or mac makes the whole spec fail |
| Launch.InvalidMacRejected | src/client/cli/cmd/launch.cpp:65-90 | a `mac=` value the validity predicate refuses makes the whole spec fail |
| Launch.OverlongItemRejected | src/client/cli/cmd/launch.cpp:79-100 | an item with more than two non-empty '='-parts makes the whole spec fail |
| Launch.KeyCaseInsensitive | src/client/cli/cmd/launch.cpp:83 | a field key is matched without regard to case |
| Launch.ModeCaseInsensitive | src/client/cli/cmd/launch.cpp:88 | a mode value is matched without regard to case |
| Launch.BareNameShortcut | src/client/cli/cmd/launch.cpp:95-97 | a non-empty spec with no ',' and no '=' is a network of that name, mode AUTO, no MAC |
| Launch.IntendedShortcutHasNoEquals | src/client/cli/cmd/launch.cpp:95-97 | under the intended shortcut, a spec accepted without a `name=` field contains no '=' |
| Launch.BridgedDigests | src/client/cli/cmd/launch.cpp:305-308 | under either shortcut rule the `--bridged` spec "bridged" digests to the network named "bridged", mode AUTO, no MAC |
| Launch.SplitImageArgument | src/client/cli/cmd/launch.cpp:224-251 | rejects exactly a non-URL argument with more than one ':'; a URL is the image verbatim with no remote; a remote and an image contain no ':'; whatever it returns re-assembles into the argument |
| Launch.RemoteImageRoundTrip | src/client/cli/cmd/launch.cpp:242-246 | "remote:image" splits back into that remote and image |
| Launch.ColonSeparates | src/client/cli/cmd/launch.cpp:242-246 | in "remote:image" with no ':' in either part there is exactly one ':', it stands right after the remote, and the text before and after it gives back the remote and the image |
| Launch.PlainImage | src/client/cli/cmd/launch.cpp:247-250 | an argument with no ':' that is not a URL is the image, with no remote |
| Launch.DigestAllSucceeds | src/client/cli/cmd/launch.cpp:310-322 | digesting all `--network` specs succeeds exactly when every spec digests |
| Launch.DigestAllFailureSticks | src/client/cli/cmd/launch.cpp:310-322 | the first spec that fails ends the loop with its error |
| Launch.DigestAllValues | src/client/cli/cmd/launch.cpp:313-314 | on success there is one network entry per spec, in order, each the digest of its spec |
| Launch.DigestAll | src/client/cli/cmd/launch.cpp:310-322 | accepted specs give one network entry per spec, and a failure carries the error of one of the specs |
| Launch.SetImage | src/client/cli/cmd/launch.cpp:224-251 | succeeds exactly when the argument splits; on failure the request is untouched; on success the image is set and the remote only when one was given |
| Launch.NetDigestAll | src/client/cli/cmd/launch.cpp:310-322 | the loop over the specs returns exactly `DigestAll` of the digest under the given shortcut rule |
| Launch.SetOptions | src/client/cli/cmd/launch.cpp:254-272 | the name, cpus, memory and disk options that were given replace the request's values and every other field of the request is kept |
| Launch.Classify | src/client/cli/cmd/launch.cpp:50-53 | an answer is "yes" exactly when it is y or yes ignoring case, "no" exactly for n or no, "later" exactly for l, later or the empty answer, and the question is asked again exactly when no pattern matches and it is not an allowed "show" |
| Launch.ParseArgs | src/client/cli/cmd/launch.cpp:218-322 | more than one positional argument or a bad image argument is a command-line error with nothing set; otherwise the result is Ok exactly when every network spec digests under the given shortcut rule (AsWritten for the command as it stands), and then the request holds the split image, the given name, cpus, memory and disk (empty or 0 when not given) and the bridged network followed by the digested specs |
| Launch.ClassifyIgnoresCase | src/client/cli/cmd/launch.cpp:50-53 | an answer is classified without regard to case |
| Launch.ShowNeedsHostInfo | src/client/cli/cmd/launch.cpp:381-386 | "s"/"show" asks for an example only when host information is present, and nothing else does |
| Launch.AskOptIn | src/client/cli/cmd/launch.cpp:361-392 | the loop stops at the first answer that decides (yes, no, later or empty), that answer gives the status, and every earlier answer only re-prompts; reading past the last answer gives "" and so LATER |
| Launch.LastDetailsMeaning | src/client/cli/cmd/launch.cpp:418-438 | the details are empty exactly when no code has a message, and otherwise are the message of the last code that has one |
| Launch.DetailsFor | src/client/cli/cmd/launch.cpp:418-435 | the disk, memory, hostname and network codes each have a non-empty message and every other code has none |
| Launch.ErrorDetails | src/client/cli/cmd/launch.cpp:411-438 | the loop over the error codes returns exactly `LastDetails` |
| Launch.AsWrittenAcceptsDanglingEquals | src/client/cli/cmd/launch.cpp:95-97 | under the shortcut test as written, "name=" is accepted as a network named "name"; under the intended rule it is refused as a bad field definition |
| Launch.ShortcutRulesDiffer | src/client/cli/cmd/launch.cpp:95-97 | a lone item that holds '=' but splits into one non-empty part is a network of that name under the test as written, and a bad field definition under the intended rule |
| Launch.DanglingEqualsCommand | src/client/cli/cmd/launch.cpp:310-322 | the command as written turns `--network name=` into one network named "name", and under the intended rule it refuses the spec as a bad field definition |
| Platform.DriverNamed | tests/linux/test_platform_linux.cpp:299-314 | a driver found for a setting has the lower-cased setting as its name |
| Platform.IsBackendSupported | tests/linux/test_platform_linux.cpp:389-402 | a driver name is supported exactly when it names one of qemu, libvirt and lxd, ignoring case; the case-folding is this model's choice |
| Platform.VmBackend | tests/linux/test_platform_linux.cpp:293-328 | a factory is built exactly when the setting is empty or supported; an empty setting gives qemu; the factory keeps the data directory; an unsupported setting fails, naming that setting |
| Platform.DriverSelectsItsFactory | tests/linux/test_platform_linux.cpp:299-328 | "qemu", "libvirt" and "lxd" each select their own factory, whatever the driver environment variable holds |
| Platform.UnsupportedDrivers | tests/linux/test_platform_linux.cpp:389-402 | "hyperkit", "hyper-v" and "other" are unsupported and selecting them fails |
| Platform.RemoteSupportTable | tests/linux/test_platform_linux.cpp:343-361 | under the default driver every remote is supported; under lxd every remote but "snapcraft" |
| Platform.IsRemoteSupported | tests/linux/test_platform_linux.cpp:343-361 | a remote is refused exactly when it is "snapcraft" and the driver setting is "lxd" ignoring case; the case-folding is this model's choice |
| NetworkScan.Scan | tests/linux/test_platform_linux.cpp:404-441 | every reported entry's id is its key, and its type is "bridge" or "ethernet" |
| NetworkScan.BridgeMembers | tests/linux/test_platform_linux.cpp:507-549 | the loop over `brif` collects exactly the recognised members, in order |
| NetworkScan.GetNetworkInterfacesFrom | tests/linux/test_platform_linux.cpp:404-559 | the walk over the directory entries builds exactly the map `Scan` specifies |
| NetworkScan.VirtualRootYieldsNothing | tests/linux/test_platform_linux.cpp:455-464 | a scan under a virtual tree reports nothing |
| NetworkScan.RootEndingInVirtual | tests/linux/test_platform_linux.cpp:460 | a root whose last component is `virtual` lies in a virtual tree |
| NetworkScan.Excluded | tests/linux/test_platform_linux.cpp:443-505 | wireless entries, entries whose type is missing or not "1", and entries with an unknown DEVTYPE are never reported |
| NetworkScan.Included | tests/linux/test_platform_linux.cpp:404-441 | outside a virtual tree, a wired interface of type "1" with no DEVTYPE or the known one is reported, as a bridge when it has a `bridge` directory and as an ethernet device otherwise |
| NetworkScan.UntypedInterfacesYieldNothing | tests/linux/test_platform_linux.cpp:443-453 | a root whose entries have no type file reports nothing |
| NetworkScan.RecognisedMembersHas | tests/linux/test_platform_linux.cpp:530-537 | every recognised member is listed |
| NetworkScan.RecognisedMembersAreRecognised | tests/linux/test_platform_linux.cpp:530-540 | only recognised members are listed |
| NetworkScan.RecognisedMembersOf | tests/linux/test_platform_linux.cpp:526-540 | everything listed is one of the bridge's members |
| NetworkScan.BridgeMembersListed | tests/linux/test_platform_linux.cpp:532-549 | every recognised member of a reported bridge has its own entry and is named in the bridge's description |
| NetworkScan.BridgeWithoutMembers | tests/linux/test_platform_linux.cpp:404-422 | a bridge with no recognised members is described as "Network bridge" |
| NetworkScan.BridgeDescription | tests/linux/test_platform_linux.cpp:404-422 | a bridge description starts with "Network bridge", and is exactly that text when there are no members |
| NetworkScan.BridgeDescriptionNames | tests/linux/test_platform_linux.cpp:530-549 | every member is named in the description |
| NetworkScan.JoinChars | tests/linux/test_platform_linux.cpp:542-549 | each character of a joined member list comes from the separator or from a member |
| NetworkScan.UnrecognisedMemberNotNamed | tests/linux/test_platform_linux.cpp:538-549 | an unrecognised member is not in the description if it has a character found neither in the fixed text nor in any recognised name |
| NetworkScan.LoneEmptyBridge | tests/linux/test_platform_linux.cpp:404-422 | a root holding only a typed bridge directory reports exactly that bridge, as "Network bridge" |
| NetworkScan.LoneEthernet | tests/linux/test_platform_linux.cpp:424-441 | a root holding only a directory of type "1" reports exactly one "ethernet" entry, "Ethernet device" |
| NetworkScan.VirtualEthernet | tests/linux/test_platform_linux.cpp:455-464 | the same directory under a root ending in `virtual` is not reported |
| NetworkScan.BridgeTreeEnRecognised | tests/linux/test_platform_linux.cpp:507-561 | in the bridge tree with members "en0" (untyped) and "en1" (ethernet), exactly the bridge and "en1" are recognised |
| NetworkScan.BridgeTreeEnEntries | tests/linux/test_platform_linux.cpp:507-561 | that scan reports exactly the bridge and "en1"; the bridge is described by its recognised members and "en1" is an ethernet device |
| NetworkScan.BridgeTreeEnText | tests/linux/test_platform_linux.cpp:542-549 | of "en0" and "en1" only "en1" is recognised, so the description is "Network bridge with en1" |
| NetworkScan.BridgeTreeEnScan | tests/linux/test_platform_linux.cpp:507-561 | the scan of that tree has exactly the keys "aeiou" and "en1", the bridge described as "Network bridge with en1" and "en1" as an ethernet device |
| NetworkScan.EnDescriptionText | tests/linux/test_platform_linux.cpp:538-539 | "Network bridge with en1" contains "en1" and does not contain "en0" |
| NetworkScan.BridgeTreeEnDescription | tests/linux/test_platform_linux.cpp:507-561 | that bridge's description names "en1" and not "en0" |
| NetworkScan.BridgeTreeMixedRecognised | tests/linux/test_platform_linux.cpp:526-540 | of the members "asdf", "ggi", "a1", "fu", "ho", "ra", the four with type "1" are recognised and the untyped "fu" and "ra" are not |
| NetworkScan.RecognisedOfSix | tests/linux/test_platform_linux.cpp:526-540 | filtering a listing of six members whose fourth and sixth are unrecognised keeps the other four in order |
| NetworkScan.BridgeTreeMixedMembers | tests/linux/test_platform_linux.cpp:507-561 | of "asdf", "ggi", "a1", "fu", "ho", "ra", the untyped "fu" and "ra" are dropped |
| NetworkScan.BridgeTreeMixedEntry | tests/linux/test_platform_linux.cpp:544-559 | that bridge is reported as a bridge of its own name, described by its recognised members |
| NetworkScan.BridgeTreeMixedText | tests/linux/test_platform_linux.cpp:542-549 | those members make the description "Network bridge with asdf, ggi, a1, ho" |
| NetworkScan.BridgeTreeMixedKeys | tests/linux/test_platform_linux.cpp:544-552 | the scan of that tree has exactly the keys "aeiou", "asdf", "ggi", "a1" and "ho" |
| NetworkScan.BridgeTreeMixedScan | tests/linux/test_platform_linux.cpp:507-561 | the scan reports exactly "aeiou", "asdf", "ggi", "a1" and "ho", and the bridge is described as "Network bridge with asdf, ggi, a1, ho" |
| NetworkScan.MixedDescriptionText | tests/linux/test_platform_linux.cpp:538-539 | "fu" and "ra" do not occur in "Network bridge with asdf, ggi, a1, ho" |
| NetworkScan.NoPairAcross | tests/linux/test_platform_linux.cpp:538-539 | a two-character text does not occur in `head + tail` when its second character is missing from the head, its first from the tail, and the head does not end in its first character |
| NetworkScan.BridgeTreeMixedDescription | tests/linux/test_platform_linux.cpp:538-561 | the description of that bridge names neither "fu" nor "ra" |

## Left out

- `Launch::run`, `request_launch`'s RPC dispatch, the spinner, the timer, progress output and reading from the terminal are I/O and gRPC plumbing. The prompt's answers are a sequence parameter.
- Cloud-init loading (launch.cpp:274-303) is a wrapper over a YAML library and file checks. `ParseArgs` treats it as absent.
- The verbosity level (launch.cpp:324) is set by code this model does not have.
- Launch.ParseArgs: the `--timeout` parse (launch.cpp:316) is not modelled. It sits in the same `try` block as the network specs, so an invalid timeout also makes the command return a command-line error. The model's `code == Ok` holds exactly as stated only when the timeout is valid.
- Launch.ParseArgs: the error messages written to standard error (launch.cpp:220, 239 and 320) are not modelled, only the result code.
- `commandParse` (launch.cpp:211-216) is not part of this model. `ParseArgs` starts from its already-parsed command line.
- Launch.ParseArgs: on a failing network spec it states only the code, not the partly filled request the caller then discards.
- Launch.ParseArgs: `--cpus` is an integer already. Qt's `toInt`, which gives 0 for non-numeric text, is not modelled.
- The message texts of the validation exceptions are not modelled. Errors are the `ValidationError` constructors, which carry the offending mode, MAC, key or item.
- Text.Lower: lower-cases ASCII letters only, where Qt's `toLower` also folds other Unicode letters.
- The bodies of `valid_mac_address` and of the platform implementation file are not part of this model. The scanner and driver selection follow what the platform tests assert, with the choices the lines below name.
- `default_server_address` reads an environment variable and is not modelled. `is_alias_supported` is not modelled either: its one visible test checks only that the pair "focal", "release" is supported.
- Platform.DriverNamed: the tests use only lower-case driver names. Matching the setting without regard to case is this model's choice, so `VmBackend` accepts "QEMU" as qemu and `IsRemoteSupported` reads "LXD" as lxd.
- The autostart, workflows-URL and settings tests are filesystem and environment side effects.
- The VM lifecycle state machine, libvirt handle ownership, the mock VM and the URL downloader have no visible behaviour to model beyond declarations.
- NetworkScan.GetNetworkInterfacesFrom: the directory tree is an abstract map from entry name to what the scan reads there (type file, wireless and bridge markers, DEVTYPE, `brif` entries). File reading and its failures are folded into "no type file".
- NetworkScan.IsVirtualRoot: "under a virtual tree" is modelled as the root path containing a `virtual` component, which covers the tested root ending in `/virtual`.
- NetworkScan.KnownDevtypes: the allow-list of DEVTYPE values is taken as {"bridge"}. The tests show only that an unknown value ("crazytype") is refused and that a missing `uevent` is accepted.
- NetworkScan: the order of `brif` entries is an input, and the tests check members only as substrings.
- NetworkScan.BridgeDescription: the tests fix only the text "Network bridge" for a bridge without recognised members and, for the others, which member names the description contains. The wording "Network bridge with " followed by the names joined with ", " is this model's choice. So are the exact description texts in the `BridgeTreeEn…` and `BridgeTreeMixed…` lemmas.

## Findings

| source | as written | input that shows it | evidently intended | confidence | as-written member | corrected member |
|---|---|---|---|---|---|---|
| src/client/cli/cmd/launch.cpp:95-97 | the shortcut is taken when the item splits into one non-empty '='-part and the spec has one item, so an '=' with nothing on one side slips through | `--network name=` (also `mac=`, `=eth0`) is accepted as a network whose id is "name" | a bare name only when the lone item holds no '=' (the '=' half of the comment's rule; a trailing ',' still leaves one item) | not executed; high (direct reading of the split with empty parts dropped) | Launch.AsWrittenAcceptsDanglingEquals | Launch.IntendedShortcutHasNoEquals |
