# chr-install, modelled and proved in Dafny

`chr-install` replaces a Debian or Ubuntu server with MikroTik CHR. It inspects the host, stages a
writer, hands the machine over to it through kexec or GRUB, writes the authorized disk, verifies what
it wrote and reboots; the network configuration travels along as a RouterOS script. This project models
the parts of it that carry state, search, parsing or arithmetic, and proves what they promise. Whatever
the environment does (commands that fail, devices that lie, servers that break off) is an arbitrary
outcome of a step, so a contract speaks about every run.

`dafny verify dfyconfig.toml` checks everything.

## How the pieces fit

* **Staging and hand-over** (`Staging`, `GrubOneShot`). `Host` holds what the installer can leave
  behind: files, directories, the writer's menu entry, `next_entry`, the loaded kexec image. Each
  command is a step of its own kind with an arbitrary outcome. Ghost monitors watch the whole run:
  `alwaysSafe` (in every state an armed entry finds everything it boots and never competes with a loaded
  image, and no step is tried before those it needs have passed), and `run` (the kinds that have passed,
  whether nothing has failed, and whether anything has failed `elsewhere` than in leaving and unloading);
  `Watched` ties the first to the present state. A host may have its `luck` fixed: kinds of steps that
  always work, always fail, or go either way. An error is the set of its causes; nil is the empty set.
* **Network plan** (`NetworkPlan`, `RouteDetection`, `RouterTables`, `RouterScript`, `RouterRun`,
  `RouterOutcome`, `Forwarding`, `Addressing`). Detection reads Linux's main table and the uplink's addresses; the
  compiler turns the plan into commands; a small interpreter runs the commands on router tables, and
  `RouterOutcome` says what a configured router holds without reference to the compiler. At the end stands the comparison of two longest-prefix matches, before and after.
* **Target disk** (`BlockGraph`, `Hex`, `Wwn`, `Vpd83`, `Fingerprint`). Graph search with shared seen
  sets, the SCSI identification page (section 7.6.3 of SPC-3), and the fail-closed choice.
* **Writer and download** (`Writer`, `WriterRun`, `ContentRange`, `Download`). Chunked copying to a
  device that may store and admit to anything, read-back, and the resumable download (section 14.4 of
  RFC 9110).
* **Formats** (`Checksum`, `DhcpOptions`, `DhcpPacket`, `Mbr`, `ShellQuote`, `Clock`). Section 1 of
  RFC 1071, section 2 of RFC 2132, the partition table, sections 2.2.2 and 2.2.3 of the POSIX Shell
  Command Language, and clock-skew arithmetic.
* **Shared** (`StableSort`, `StringOrder`, `Sequences`, `Text`, `Utf8`, `Bytes`, `Wrappers`). The Go library
  functions that the code leans on, stated by what they guarantee.

Methods are proved against their contracts; where the contract names a specification function, that
function has lemmas of its own that say what it means.

## Findings

* **IPv4 link-local gateways.** `gatewayOutside` (internal/network/detect.go:523-535) never asks for a
  host route to a link-local gateway, while `isGatewayHostRoute` accepts the host route that Linux used
  for it. Forwarding is preserved if and only if the host's gateway is `Covered`: its default route is
  flagged onlink, or the gateway is not link-local, or it lies in the prefix of one of the host's
  addresses (`PreservedExactlyWhenCovered`). Otherwise the script's default route does not resolve and
  the router sends nothing off-link (`UncoveredGatewayIsLost`). `DetectExample` detects such a host
  without any issue, and `LinkLocalGatewayExample` shows what its plan leads to.
* **kexec errors are dropped by the fallback.** `StageAndBoot` goes on to GRUB without looking at
  `kexec -u`, and returns the error of `executeGRUB` alone (internal/install/stage.go:57-70). A kexec
  image that could not be unloaded is then still loaded and not reported: `UnloadFailed in err` is exact
  only when the run did not fall back (`!fellBack`), while a writer image remains after an error exactly
  when `kexec -u` failed. `UnreportedImage` is such a run: jump, unload and reboot fail, and the error
  names nothing that is left.
* **A saved entry boots once only if it can be saved.** `save_env` may fail; a boot of the writer at
  which it does leaves the entry armed (`UnsavedEntryBootsAgain`). The bound of `EachArmingBootsOnce`
  counts those boots only, and `BootsAgainExactlyWhenUnsaved` says when a second boot happens.
* **The checksum bound is tight.** 131074 bytes is the last even length for which the 32-bit sum of
  `checksum` cannot wrap (`NoOverflow`, `BoundIsTight`).

## Assumptions

* A failed `kexec -l` leaves the earlier image loaded or none; a failed `kexec -u` leaves it loaded; a
  failed `unset` may or may not have cleared the entry. `update-grub` lists the writer only if the
  script is there, and when it fails it may leave the menu as it was.
* GRUB: `load_env`, `set` and `save_env` as in the GRUB manual; a missing or empty block is skipped.
* RouterOS: additions succeed; connected routes have scope 10 and a default target scope is 10; a route
  whose gateway does not resolve is not in force; a host's own addresses are delivered locally. The
  Linux kernel makes no connected route for a /32.
* Where a clause says so, `lsblk` gives a kernel name the same type (`SameKind`) or the same mounts
  (`SameMounts`) wherever it lists it. Termination and everything else holds for every document.
* SHA-256 is an arbitrary function; where it matters, freedom from collisions is a hypothesis.
* Text fields of a plan carry no surrounding white space: validation trims them and the script does not.

## Model

| member | source | states |
|---|---|---|
| Staging.Host.StageAndBoot | internal/install/stage.go:40-77 | for every pattern of failures, the kexec fallback included: each leftover is named by the error, an error that names none leaves no file, directory, menu entry, armed entry or loaded image; success means loaded and jumping, or armed with everything in place; the writer image outlives an error exactly when `kexec -u` failed; a failed `unset` is always reported; every state passed was safe, every step was tried in order, and no error comes without a failed step. With GRUB usable an error without a fallback needs a failed step of a preparation, the sync or a cleanup; where these work, a failed load or jump leads to GRUB whatever the unload does, and then only a failed reboot ends in an error; with the unload failing the image stays loaded |
| Staging.UnreportedImage | internal/install/stage.go:57-70 | on a host that was clean, a run that leaves a loaded image while its error names nothing |
| Staging.Host.BootThroughStage | internal/install/stage.go:48-76 | the same for the two staged methods, from a host with nothing pending; any other method is an error that changes nothing |
| Staging.Host.KexecOrFallBack | internal/install/stage.go:56-70 | after a failed kexec the second stage accounts for its leftovers against the state before the first one; with GRUB usable only a failed cleanup or second preparation keeps the run from falling back, and a fallback after a failed load that ends well started from a clean removal |
| Staging.Host.FallBack | internal/install/stage.go:65-70 | a second preparation that fails adds to the error of kexec; one that succeeds hands over to GRUB, whose error replaces it |
| Staging.Host.Sync | internal/install/stage.go:53-55 | a failed sync takes the stage down, and what stays is named by the error |
| Staging.Host.PrepareStage | internal/install/stage.go:139-241 | success leaves exactly the files and directories of the method, GRUB's build image moved and not copied; failure at any step accounts for all it made |
| Staging.Host.Fill | internal/install/stage.go:163-240 | whatever it adds is registered at every exit, and success leaves what the method needs |
| Staging.Host.BuildInitrdStage | internal/install/stage.go:157-203 | whatever it adds to the host is already registered for the deferred cleanup, at every failing step |
| Staging.Host.InstallGrubEntry | internal/install/stage.go:207-240 | the same for the second half, keeping what the first half registered |
| Staging.Host.Abandon | internal/install/stage.go:157-161 | the deferred cleanup removes or names everything registered |
| Staging.Host.CleanupPartialStage | internal/install/stage.go:387-400 | each registered path is gone, named by the error, or a directory still in use; nothing else is touched |
| Staging.Host.CleanupStage | internal/install/stage.go:354-385 | no error means entry cleared, files gone, directories gone unless in use, menu free of the writer; the steps stay safe because the entry is cleared first |
| Staging.Host.RemoveStaged | internal/install/stage.go:363-378 | files before directories; each is gone or named, and no state on the way is unsafe while nothing is armed |
| Staging.Host.RemoveFiles | internal/install/stage.go:363-370 | only the given files go, and each that stays is named |
| Staging.Host.RemoveDirs | internal/install/stage.go:371-378 | only the given directories go; one that stays is named or holds something |
| Staging.Host.ClearEntry | internal/install/stage.go:358-362 | no error means nothing is armed; the failure is recorded and reported |
| Staging.Host.RefreshMenu | internal/install/stage.go:379-383 | no error means the menu lists the writer only if its script is still there |
| Staging.Host.ExecuteKexec | internal/install/stage.go:79-105 | an error leaves the image loaded exactly when unloading failed, and says so; an image that was loaded and not jumped into is asked to unload; success leaves no staged file behind |
| Staging.Host.LoadAndJump | internal/install/stage.go:91-104 | the jump happens only with the image loaded and the staging files gone; only a failed load, cleanup or jump is an error |
| Staging.Host.HandOver | internal/install/stage.go:98-103 | either form of the request is enough: it fails only when both do |
| Staging.Host.ListEntry | internal/install/stage.go:115-124 | passes only with the writer listed completely and the storage checked, in that order, and is safe while nothing is armed |
| Staging.Host.ArmAndReboot | internal/install/stage.go:115-136 | arming is attempted only with a validated menu entry, reboot only with the entry read back; every state on the way is safe |
| Staging.Host.ExecuteGrub | internal/install/stage.go:107-137 | success is an armed host with everything in place; an error disarms, removes and refreshes, or names what it could not |
| GrubOneShot.BootTakesTheEntry | internal/install/stage.go:447-456 | the writer is chosen exactly when the block names it, and choosing it takes the name out when the block can be saved |
| GrubOneShot.EachArmingBootsOnce | internal/install/stage.go:447-456 | over any run of armings, unsets and starts, the writer boots at most once per arming, plus once per boot of the writer that could not save |
| GrubOneShot.EntryLasts | internal/install/stage.go:447-456 | with no arming in a run, the entry is still armed after it exactly when it was before, nothing unset it and no start could save |
| GrubOneShot.BootsAgainExactlyWhenUnsaved | internal/install/stage.go:452-456 | without a new arming the writer boots again exactly when no start in between could save and nothing unset it |
| GrubOneShot.UnsavedEntryBootsAgain | internal/install/stage.go:452-456 | without a working save, one arming boots the writer twice |
| StableSort.SortPutsEarliestLeastFirst | internal/disk/fingerprint.go:212-213 | a stable sort puts the earliest element of least key first |
| StringOrder.SortCanonical | internal/network/routeros.go:42-43 | sorting forgets the order it was given |
| StringOrder.SortedKeys | internal/disk/detect.go:246-255 | the keys of a map, each once and in order, however the map is traversed |
| RouteDetection.SelectDefault | internal/network/detect.go:306-325 | the earliest default route of least metric, when any default exists; the issue is raised exactly when another default differs in device or gateway |
| RouteDetection.SelectedIsUnique | internal/network/detect.go:316-317 | there is only one such route |
| RouteDetection.FirstIsSelected | internal/network/detect.go:307-317 | it is what the stable sort puts first |
| RouteDetection.Diverge | internal/network/detect.go:318-323 | true exactly when some default leads elsewhere than the first |
| RouteDetection.InspectRouteSet | internal/network/detect.go:327-347 | silent exactly when every route is a default, the kernel's, or the gateway's host route on the uplink; otherwise exactly the issues of the others |
| RouteDetection.GatewayOutside | internal/network/detect.go:523-535 | true exactly for a gateway that is not link-local and lies in none of the prefixes |
| Addressing.ContainsIsInterval | internal/network/detect.go:523-535 | a prefix holds the 2^(32-bits) addresses from its network address, a multiple of their number |
| RouteDetection.ClassifyAddresses | internal/network/detect.go:171-206 | both lists hold exactly the global, current addresses of their kind, in their order |
| RouteDetection.PickUplink | internal/network/detect.go:103-125 | the uplink is the device of the IPv4 default or else of the IPv6 one; multiple defaults and multi-WAN are raised exactly when they are there |
| RouteDetection.PickMode | internal/network/detect.go:207-225 | static, DHCP, none or mixed follows from the addresses in use, which the plan carries over exactly and sorted |
| RouteDetection.DetectIPv4 | internal/network/detect.go:103-290 | the issues are exactly the justified ones; uplink, mode, addresses and gateway follow from the input; the gateway is marked on-link exactly when Linux marked it so or it is not link-local and no address in use reaches it |
| RouteDetection.CleanIsStatic | internal/network/detect.go:103-290 | a static plan without issues has one way out and every other route accounted for |
| RouteDetection.OutsideIsOutOfReach | internal/network/detect.go:226-228 | the on-link test over the collected prefixes is the one over the addresses in use |
| RouteDetection.SortedByMetric | internal/network/detect.go:316 | sorting by metric keeps the routes and orders them |
| RouteDetection.MultiUplinkExactly | internal/network/detect.go:327-347 | the multi-uplink issue is raised for exactly the routes of other interfaces that are neither a default nor the kernel's |
| RouteDetection.UnsupportedRouteExactly | internal/network/detect.go:327-347 | the unsupported-route issue is raised for exactly the routes of the uplink that are neither of these nor the plain route to the gateway |
| RouteDetection.MultipleDefaultsExactly | internal/network/detect.go:317-324 | the routes diverge exactly when some default has another device or gateway than the one chosen |
| RouterTables.Refilled | internal/network/routeros.go:27-66 | clearing and adding leaves what was not owned, followed by what the additions make on an empty table |
| RouterTables.KeptOfJoin | internal/network/routeros.go:27-34 | a second clearing removes exactly what the first run added |
| RouterTables.AddsAreOwned | internal/network/routeros.go:38-83 | everything an addition makes is what a later run removes |
| RouterScript.Validate | internal/network/validate.go:12-71 | passes exactly the plans with a name that is not blank, a MAC, an MTU in range, an IPv4 mode with what it needs, texts that parse, link-local servers in the uplink's zone, and some way to an address |
| RouterScript.RouterOSScript | internal/network/routeros.go:13-98 | a valid plan compiles to the specified commands, an invalid one to an error |
| RouterScript.StaticLines4 | internal/network/routeros.go:40-53 | the loop over sorted addresses, the optional host route and the default with the matching target scope |
| RouterScript.Lines6 | internal/network/routeros.go:57-84 | the IPv6 commands, a link-local gateway never getting a host route |
| RouterScript.DnsLine | internal/network/routeros.go:85-95 | one command for all three cases of the server list |
| RouterScript.DnsExpression | internal/network/routeros.go:112-128 | the parts of the expression, and whether any server has a zone |
| RouterRun.ScriptConverges | internal/network/routeros.go:20-96 | from any router: one matching MAC reaches the converged state, none or several change nothing |
| RouterRun.ScriptIsIdempotent | internal/network/routeros.go:20-96 | a second run changes nothing, from any router and for any plan |
| RouterRun.OnlyThePlanRemains | internal/network/routeros.go:20-96 | clients, static addresses, static defaults and tagged routes of the uplink depend on the plan alone; everything else is as before |
| RouterRun.RunHeader | internal/network/routeros.go:20-36 | the uplink is unique and its tables cleared, or the script has stopped with nothing changed |
| RouterRun.OrderDoesNotMatter | internal/network/routeros.go:42-95 | permuting addresses and DNS servers changes neither validity nor the script |
| RouterRun.ValidityIgnoresOrder | internal/network/validate.go:12-74 | validity of a plan under permutation of its lists |
| RouterRun.DnsExpressionDenotes | internal/network/routeros.go:112-128 | for every server list the expression evaluates to the comma-joined servers, each zone replaced by the uplink's name |
| RouterRun.ServersReachTheRouter | internal/network/routeros.go:85-95 | whichever form was emitted, the router holds exactly the sorted servers: as spelled, or all in canonical form and on the uplink once any has a zone |
| RouterOutcome.ScriptConfigures | internal/network/routeros.go:20-96 | what the router holds afterwards, without the compiler: for DHCP one tagged client with the plan's peer-DNS flag and no tagged address or route, for static the addresses and one default (on-link through a host route), for none nothing owned; for IPv6 a client exactly when asked for, the plan's addresses, and one default, zoned when link-local; the rest untouched; without exactly one matching interface nothing changes |
| Forwarding.ForwardingIsPreserved | internal/network/routeros.go:41-53 | for every destination, longest-prefix match over the uplink's Linux routes and over the tables the script builds give the same next hop, when the host's gateway is covered |
| Forwarding.PreservedExactlyWhenCovered | internal/network/detect.go:523-535 | forwarding is preserved for all destinations if and only if the gateway is flagged onlink, not link-local, or in the prefix of an address |
| Forwarding.DetectionCoversTheGateway | internal/network/detect.go:226-228 | detection provides a way to the gateway for exactly those hosts |
| Forwarding.UncoveredGatewayIsLost | internal/network/detect.go:523-527 | for the others, what Linux sends to the gateway the router does not send at all |
| Forwarding.DetectExample | internal/network/detect.go:103-290 | detection of a host with a link-local gateway: no issues, and that plan |
| Forwarding.LinkLocalGatewayExample | internal/network/detect.go:523-527 | the plan detected for the example host is valid, and its router sends nothing to a destination that Linux sends to the gateway |
| Forwarding.LinuxHasShape | internal/network/detect.go:327-366 | a table that passed detection is connected routes, the gateway's host route and one default |
| Forwarding.RouterHasShape | internal/network/routeros.go:41-53 | so are the tables the script builds, with the default in force |
| Forwarding.ShapeDecides | internal/network/routeros.go:41-53 | any table of that shape sends connected destinations directly and all others to the gateway |
| Forwarding.GatewayResolves | internal/network/routeros.go:48-53 | the default's target scope reaches its gateway, through a connected or the host route |
| BlockGraph.Graph.Build | internal/disk/detect.go:159-199 | links are exactly those of the tree and those named by PKNAME, parents and children mirror each other, the disks are exactly those of the document in order, and every usable key leads to a node that has it |
| BlockGraph.Graph.Walk | internal/disk/detect.go:169-188 | the first pass, tied to a specification over the forest |
| BlockGraph.WalkFindsDisks | internal/disk/detect.go:179-181 | that specification collects exactly the disks of the forest, parents first |
| BlockGraph.WalkFindsLinks | internal/disk/detect.go:182-187 | and exactly the child-parent pairs of the tree |
| BlockGraph.WalkFindsKeys | internal/disk/detect.go:174-178 | every usable key of every node is found, and leads to a node that has it |
| BlockGraph.Graph.LinkNamedParents | internal/disk/detect.go:189-197 | the second pass adds exactly the named links, in whatever order the map is traversed |
| BlockGraph.Graph.NamingLinks | internal/disk/detect.go:189-197 | a registered node that names a registered parent is linked to it |
| BlockGraph.Graph.Link | internal/disk/detect.go:182-185 | one link in both maps keeps them mirrored |
| BlockGraph.AddLinkAdds | internal/disk/detect.go:201-208 | appending without repetition adds that link and no other |
| BlockGraph.LookupMeans | internal/disk/detect.go:210-219 | white space around a name and a bracketed tail make no difference: the node of the name itself, or else of its last element |
| BlockGraph.BackingSearch.Visit | internal/disk/detect.go:225-243 | terminates on every graph; the names it newly meets are reachable from the node and closed under links up to what was met before |
| BlockGraph.BackingDisks | internal/disk/detect.go:221-256 | on every graph: with one description taken for each name met, exactly the disks reachable along parents through non-disks, each once and sorted, and exactly the unsupported types met; where types agree, exactly what the document says |
| BlockGraph.Explore | internal/disk/detect.go:221-243 | the finished search has met exactly what is reachable through what it took for other than disks |
| BlockGraph.ExploredExactly | internal/disk/detect.go:225-243 | where types agree that is reachability through the non-disks of the document |
| BlockGraph.MountSearch.Visit | internal/disk/detect.go:260-276 | terminates on every graph; a hit is a reachable mounted node, a miss leaves a closed set of names met without a mount |
| BlockGraph.HasMountedDescendant | internal/disk/detect.go:258-279 | on every graph a hit is a reachable mounted node, and a miss leaves every reachable name described without a mount; where mounts agree, true exactly when a mounted node is reachable |
| BlockGraph.HasMountpoint | internal/disk/detect.go:265-270 | true exactly when some mount point is a text with a character that is not white space |
| BlockGraph.SwapIsMounted | internal/disk/detect.go:265-270 | active swap, which lsblk shows as `[SWAP]`, counts as mounted |
| BlockGraph.RootTarget | internal/disk/detect.go:88-96 | succeeds exactly when the search met one disk; where types agree, exactly when one disk backs the root file system |
| BlockGraph.RescueTarget | internal/disk/detect.go:103-112 | never passes over a free disk nor takes one that does not seem free; where mounts agree, succeeds exactly when one disk is writable, fixed and free of mounts |
| BlockGraph.SelectTarget | internal/disk/detect.go:85-117 | always a disk of the document; the choice in both situations, and on a rescue system where mounts agree a disk behind any node with a mount point that is not blank, swap included, is never offered |
| BlockGraph.UpIsDown | internal/disk/detect.go:182-195 | in mirrored maps a path up is a path down |
| BlockGraph.BackingAMountIsBusy | internal/disk/detect.go:103-108 | a disk that backs a mounted node has it as a descendant |
| Hex.DecodeEncode | internal/disk/fingerprint.go:276-332 | decoding undoes encoding |
| Hex.DecodesExactly | internal/disk/fingerprint.go:276-332 | once separators are out, a text decodes to bytes exactly when it spells their nibbles |
| Hex.TextExactly | internal/disk/fingerprint.go:348-359 | the text read off a descriptor is exactly the clean text that the data holds inside padding |
| Utf8.ValidExactly | internal/disk/fingerprint.go:348-359 | the texts that pass for UTF-8 are exactly the encodings of Unicode scalar values |
| Wwn.CanonicalCarries | internal/disk/fingerprint.go:313-332 | an accepted name is a known prefix and the digits of non-zero bytes |
| Wwn.CanonicalExactly | internal/disk/fingerprint.go:313-332 | a name is accepted as a prefix and bytes exactly when it spells them, in either case and with separators, and the bytes are not all zero |
| Wwn.CanonicalIsIdempotent | internal/disk/fingerprint.go:313-332 | a canonical name is its own canonical form |
| Wwn.NormalizedIsBytes | internal/disk/fingerprint.go:172-178 | normalization leaves exactly the digits of the bytes |
| Wwn.NormalizedExactly | internal/disk/fingerprint.go:172-178 | identities, serials included, compare equal exactly when they agree up to surrounding white space, case, name prefixes and dashes |
| Wwn.EqualExactlyOnBytes | internal/disk/fingerprint.go:172-178 | two names compare equal exactly when they carry the same bytes |
| Vpd83.ParseVPD83 | internal/disk/fingerprint.go:180-214 | accepted exactly when descriptors tile the declared length and one is a usable logical-unit identity; the result is what the earliest of the preferred descriptors yields: NAA 6, NAA 5, other NAA, EUI-64, T10, vendor, binary before ASCII within a kind |
| Vpd83.ReadDescriptors | internal/disk/fingerprint.go:190-208 | the loop over offsets is the tiling of the area |
| Vpd83.ReadDescriptor | internal/disk/fingerprint.go:191-207 | one turn reads one descriptor, or there is no tiling |
| Vpd83.TilingIsExact | internal/disk/fingerprint.go:190-208 | an area tiles as a list exactly when the list spells it, so in one way at most |
| Vpd83.StableFirstIsChoice | internal/disk/fingerprint.go:212-213 | the head of the stable sort is the earliest identity of least rank |
| Vpd83.PageIsRead | internal/disk/fingerprint.go:180-208 | a page encoding a list of descriptors is read back as that list, whatever follows it |
| Vpd83.RankIgnoresOrder | internal/disk/fingerprint.go:212-213 | the rank chosen does not depend on the order of descriptors |
| Vpd83.AcceptanceIgnoresOrder | internal/disk/fingerprint.go:209-211 | nor does acceptance |
| Vpd83.DescriptorCarries | internal/disk/fingerprint.go:229-254 | a name read off a descriptor carries bytes |
| Vpd83.ContributionExactly | internal/disk/fingerprint.go:216-274 | which descriptors are usable, and what each yields, in terms of code set, type, association and payload: the prefix and digits of the payload, its trimmed text, or `vpd83-<label>-<hex>` |
| Vpd83.ChoiceIsPreferred | internal/disk/fingerprint.go:209-213 | the earliest identity of least rank is the preferred one in those terms |
| Vpd83.NamesComeFirst | internal/disk/fingerprint.go:229-273 | a page with a usable WWN descriptor never yields a serial |
| Fingerprint.SelectAuthorizedFingerprint | internal/disk/fingerprint.go:126-140 | a result is the one authorized disk, no result means no disk is authorized |
| Fingerprint.MatchFingerprints | internal/disk/fingerprint.go:142-166 | both directions over the fields: size, identity or place, and drivers that agree where both are known |
| Fingerprint.AuthorizesByCount | internal/disk/fingerprint.go:126-140 | authorization is a matter of what matches and how often it occurs |
| Fingerprint.OneAtMost | internal/disk/fingerprint.go:136-139 | never two |
| Fingerprint.OrderDoesNotMatter | internal/disk/fingerprint.go:126-140 | independent of enumeration order |
| Fingerprint.AddedDisksNeverRedirect | internal/disk/fingerprint.go:126-140 | another disk may block the choice, never move it |
| Fingerprint.IdentityIsNeverDropped | internal/disk/fingerprint.go:142-170 | a recorded WWN or serial is never traded for the kernel-name fallback, which works only alone |
| Fingerprint.AuthorizedDiskCarriesTheBytes | internal/disk/fingerprint.go:146-149 | with names read off hardware, only a disk with the same identifier bytes is authorized |
| Writer.CopyImage | internal/install/write.go:12-52 | at every exit the bytes sent are a prefix of the source of at most the total, bytes past it are untouched, success means all was sent and the hash is theirs; an error tells a failed read, a failed write, a short write and an early end apart |
| Writer.HashPrefix | internal/install/write.go:54-84 | success is the hash of exactly the prefix; an error tells a failed read from an early end |
| WriterRun.EnsureUnmounted | internal/install/writer_linux.go:133-186 | passes exactly when neither the disk nor a partition of it is mounted or used for swap; for `/dev/` and the name of a listed block, exactly when no mount line and no swap carries its number or that of a partition resolved below it |
| WriterRun.UnusedExactly | internal/install/writer_linux.go:133-186 | the gate at `/dev/NAME` in terms of the listed blocks alone |
| WriterRun.BelongsToNone | internal/install/writer_linux.go:133-151 | a device that is not listed has no number, and nothing below it |
| WriterRun.CheckManifest | internal/install/manifest.go:51-69 | passes exactly the manifests with a complete disk, an identity and a size that fits |
| WriterRun.WaitForFingerprint | internal/install/writer_linux.go:101-131 | a path only if some poll shows an authorized disk there; none means no poll did |
| WriterRun.PassGates | internal/install/writer_linux.go:22-41 | a path only after manifest, image hash, unique match and usage have all been checked; a refusal names the first that failed |
| WriterRun.ReadBack | internal/install/writer_linux.go:74-91 | passes only when the hash of what the disk now holds is the manifest's |
| WriterRun.WriteAndVerify | internal/install/writer_linux.go:60-91 | what was sent is a prefix of the source, bytes past the image stay, success means the hash of what was sent, sync, flush and a matching read-back, and each error has its own cause |
| WriterRun.RunWriter | internal/install/writer_linux.go:20-99 | nothing is written before the gates, nor to a listed disk in use; other devices and bytes past the image never change, what was sent is a prefix of the source within the authorized size, reboot only after the read-back hash matched, each error has its own cause, and without collisions success means that the disk starts with the image |
| ContentRange.AcceptedIsARange | internal/mikrotik/client.go:330-349 | an accepted header is a range inside its total |
| ContentRange.HeaderRoundTrip | internal/mikrotik/client.go:330-349 | every well-formed header is understood |
| ContentRange.ParsedExactly | internal/mikrotik/client.go:330-349 | a header parses exactly when it spells its numbers, and they form a range inside the total |
| ContentRange.ParseIntExactly | internal/mikrotik/client.go:342-344 | what parses is exactly what writes a 64-bit number: an optional sign and digits, by their places |
| Download.Files.DownloadOnce | internal/mikrotik/client.go:244-328 | one attempt against an honest origin keeps the partial file a payload prefix of at most maximum+1 bytes; it succeeds exactly when the answer completes the file and everything on this side works, and otherwise leaves exactly the bytes that arrived |
| Download.Files.Fetch | internal/mikrotik/client.go:225-242 | the attempts made follow one another, each asking for what is missing from what the last one left; success is that of the last one, a payload prefix of the announced length within the maximum; failure means five attempts of which none completed, unless it was called off |
| Download.Begin | internal/mikrotik/client.go:271-290 | an answer is welcome exactly when it starts where the file ends, or at zero, and fits the maximum |
| Download.AcceptSize | internal/mikrotik/client.go:318-326 | the sizes after the transfer agree with each announced one |
| Checksum.InternetChecksum | internal/network/dhcp_linux.go:168-181 | the ones' complement checksum of the wrapped 32-bit sum, for input of any length |
| Checksum.Fold | internal/network/dhcp_linux.go:177-179 | the loop terminates on the value that the sum is congruent to modulo 65535, zero for zero only |
| Checksum.WordSum | internal/network/dhcp_linux.go:169-176 | the accumulator holds the sum of the 16-bit words modulo 2^32 |
| Checksum.FoldStep | internal/network/dhcp_linux.go:177-179 | a fold keeps the sum modulo 65535 and makes it smaller |
| Checksum.NoOverflow | internal/network/dhcp_linux.go:168-176 | up to 131074 bytes nothing is lost to the accumulator's width |
| Checksum.BoundIsTight | internal/network/dhcp_linux.go:168-176 | one word more and it can be |
| Checksum.StoredChecksumVerifies | internal/network/dhcp_linux.go:100-105 | storing the checksum in its zeroed, aligned field makes the block's checksum zero |
| DhcpOptions.ParseDHCPOptions | internal/network/dhcp_linux.go:146-166 | equals the table of the items a field splits into, for all byte strings |
| DhcpOptions.FieldSplits | internal/network/dhcp_linux.go:146-166 | every field is the encoding of its items followed by a tail that stops the reader |
| DhcpOptions.SplitIsUnique | internal/network/dhcp_linux.go:146-166 | and in no other way: encoded items are read back |
| DhcpOptions.LastOccurrenceWins | internal/network/dhcp_linux.go:162 | of options with the same code the last one counts |
| DhcpOptions.TailIsIgnored | internal/network/dhcp_linux.go:154-161 | bytes after END and a truncated last option leave the earlier options as they are |
| DhcpPacket.BuildDHCPDiscover | internal/network/dhcp_linux.go:79-112 | the buffer filled in place is the frame, part by part |
| DhcpPacket.BuildMessage | internal/network/dhcp_linux.go:80-91 | the fixed part and the options, 260 bytes |
| DhcpPacket.DiscoverParts | internal/network/dhcp_linux.go:79-112 | where the headers and the message of the frame lie |
| DhcpPacket.HeaderBytes | internal/network/dhcp_linux.go:92-111 | byte for byte: an Ethernet broadcast, an IP header from 0.0.0.0 to 255.255.255.255, and ports 68 to 67 |
| DhcpPacket.MessageParts | internal/network/dhcp_linux.go:80-91 | a request for Ethernet with the transaction, the broadcast flag, the hardware address and the cookie in their places |
| DhcpPacket.SentHeaderVerifies | internal/network/dhcp_linux.go:100-105 | the IP header sent passes its own checksum |
| DhcpPacket.DiscoverReadsBack | internal/network/dhcp_linux.go:86-91 | the options sent parse back exactly |
| DhcpPacket.ParseDHCPOffer | internal/network/dhcp_linux.go:114-144 | accepted exactly when the frame is from a server, carries the transaction and the cookie, and says OFFER; the server is option 54 or else the sender |
| DhcpPacket.OfferIsAccepted | internal/network/dhcp_linux.go:114-144 | a genuine OFFER, built field by field, is accepted with its address and server |
| DhcpPacket.CheckFrame | internal/network/dhcp_linux.go:116-126 | long enough for the header it announces, and between the DHCP ports |
| DhcpPacket.DiscoverIsNoOffer | internal/network/dhcp_linux.go:79-144 | what is sent is never accepted as an answer, for any transaction |
| Mbr.Inspect | internal/mikrotik/image.go:32-87 | accepts exactly the tables with a signature, a used entry, and used entries that are well flagged, inside the image, past sector 0 and pairwise disjoint; a refusal names the first of these that is missing, with the entry or the two partitions concerned |
| Mbr.ReadTable | internal/mikrotik/image.go:49-75 | the partitions of the table, or an error exactly when a used entry is unsound |
| Mbr.ReadEntry | internal/mikrotik/image.go:51-73 | one entry: skipped, described or refused |
| Bytes.LittleEndianRoundTrip | internal/mikrotik/image.go:54-55 | start and length of an entry are read least significant byte first |
| Mbr.TableIsRead | internal/mikrotik/image.go:43-73 | a table with given entries at its offsets reads as those entries |
| Mbr.EntryIsRead | internal/mikrotik/image.go:51-73 | an entry encoded field by field reads as flag, type, start and length |
| Mbr.FindOverlap | internal/mikrotik/image.go:81-85 | silent exactly when neighbours do not overlap |
| Mbr.NeighboursDecide | internal/mikrotik/image.go:79-85 | once sorted, neighbours are apart exactly when all are, whatever order ties took |
| Mbr.LayoutDisjoint | internal/mikrotik/image.go:79-85 | the scan of any sorted arrangement decides disjointness of the table's entries |
| Mbr.SortByOffset | internal/mikrotik/image.go:79-80 | ordered by offset with the same partitions; ties are left open |
| ShellQuote.QuoteIsOneWord | internal/install/initramfs.go:109-111 | for every string, a shell reads the quoted value as one word equal to it, before a blank or the end |
| ShellQuote.QuoteInjective | internal/install/initramfs.go:109-111 | different values are never quoted alike |
| ShellQuote.CopyLine | internal/install/initramfs.go:68-70 | a `cp -p` line of the hook is four words, the third being the value, whatever the value holds |
| Clock.ArithmeticIsExact | internal/install/manifest.go:100-124 | saturation and wrap-around never change a verdict |
| Clock.VerdictExactly | internal/install/manifest.go:82-124 | the verdict in plain numbers, for every input; the zero time is never accepted and an unreadable clock gives no offset |
| Clock.SubIsNearest | internal/install/manifest.go:100-103 | the saturating difference is the 64-bit value nearest to the true one |
| Clock.SkewedClockIsForgiven | internal/install/manifest.go:82-124 | with a hardware clock off by whole seconds of up to a day, a manifest is accepted whenever its true age is in the window |
| Clock.AnySkewIsForgiven | internal/install/manifest.go:82-124 | with any skew below that, up to one second at either end |
| Clock.AcceptedAgeIsBounded | internal/install/manifest.go:82-98 | however the clocks are set, acceptance bounds the age by the writer's own clock |

## Left out

- Staging.Host.StageAndBoot: temporary files whose removal error the code ignores (`copyFileAtomic`, `writeFileAtomic`, the build's working directory) are only tracked as strays of a directory; what the menu entry, the storage check and the initramfs contain is a yes or no. A kind of step counts as passed from its first success on: as in the code, the stage of a fallback is armed on the strength of the `sync` before kexec.
- GrubOneShot.EachArmingBootsOnce: what GRUB's own 00_header does with `next_entry` before the fragment runs is not part of this model.
- Forwarding.ForwardingIsPreserved: routes on other interfaces, policy rules and IPv6 forwarding are not compared; the router starts without static IPv4 configuration of its own on the uplink.
- RouterScript.Validate: gateways are addresses or absent, so the error for a gateway text that does not parse is not modelled.
- RouterScript.RouterOSScript: commands are a datatype, not text; IP addresses are parsed and printed by abstract functions, so the spelling of a prefix or gateway is not modelled.
- RouterRun.ScriptConverges: logging, delays and the fields of a command that no later command looks at (`use-peer-ntp`, `advertise`, `disabled`) are dropped.
- RouteDetection.DetectIPv4: `InvalidPlan` is about the IPv4 half of validation only; link, driver, rule and configuration-file checks, DNS and IPv6 detection are not part of this model; the evidence of files is one flag.
- BlockGraph.SelectTarget: the size, driver and firmware checks that follow the choice, and the recognition of live file systems, are left out or inputs.
- BlockGraph.BackingDisks: where a kernel name is listed with two types, which description is met first is left open (`chosen` is some description of each name).
- Wwn.EqualExactlyOnBytes: letters outside ASCII (case folding, and U+0085 and U+00A0 as space) are not modelled.
- Fingerprint.SelectAuthorizedFingerprint: how a fingerprint is assembled from sysfs, page 0x80 included, is left out.
- WriterRun.RunWriter: the manifest's schema, release, network plan, checksum digits and timestamp are one flag (the timestamp is the subject of Clock); the time between polls and the console are left out.
- Download.Files.DownloadOnce: request headers, redirects and a partial file that is not a regular file are left out.
- Mbr.Inspect: reading errors other than a short file.
- Extraction of the archive, injection of the autorun script, copying of directory trees, space and memory estimates, progress and timeouts: simple or environmental.
- User interface, reports, preflight, platform detection and the shell bootstrap: formatting and glue.
- Processes, HTTP, JSON, sysfs, mounts and ioctls: inputs or arbitrary outcomes.
