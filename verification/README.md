# z8s: verified models

z8s is a single-node orchestrator in the style of Kubernetes, written in Rust. This project models its hard
parts in Dafny and proves what they promise:

- **Volume provisioning** (`Provisioning.dfy`, `VolumeBinding.dfy`): any number of provisioning tasks as a state
  machine with a step for each lock or store operation; mutual exclusion per claim, one backend success per claim,
  bound claims that name a stored volume pointing back.
- **Packet filter** (`PacketFilter.dfy`): network security group rules compiled to a first-match chain; the
  chain means "the applicable rule of least priority and position, else drop", and what is left of that when the
  kernel's refusals are reported, or not reported, as errors.
- **Image layers** (`ImageLayers.dfy`, `LayerOrder.dfy`): in-place extraction with whiteouts against the overlay
  meaning of the OCI image specification, and the restoring of manifest order after an unordered download.
- **DNS** (`DnsName.dfy`, `DnsMessage.dfy`, `DnsZone.dfy`): names with compression pointers, answers read back by an
  independent decoder written from section 4.1 of RFC 1035, and what is answered, told from the zone.
- **Protobuf** (`ProtoWire.dfy`, `ProtoMessage.dfy`): the wire reader against an independent serialiser, and the
  object metadata reader against an encoder.
- **Address pools** (`IpPool.dfy`, `IpLedger.dfy`, `NetMux.dfy`): allocation, block carving and pod attachment as
  conservation of addresses over whole runs.
- **Netlink** (`Netlink.dfy`): nested attributes against an attribute walker.
- **Merge patch** (`MergePatch.dfy`): `json_merge_patch` against section 2 of RFC 7396.
- **Pod lifecycle** (`PodLifecycle.dfy`, `PodHistory.dfy`): start with placeholders and rollback, exit handling,
  restart policy and back-off over every interleaving of the steps, and what an uninterrupted call does.

`Prelude.dfy` holds shared types and arithmetic. Code that updates maps, buffers or trees in place is modelled by
classes and methods with loops, each proved against a specification function; the properties are lemmas about
those functions and about runs. Where the code does not meet the law one would expect, the model keeps the code
as it is and a lemma whose name ends in `Iff` gives the exact condition.

`dafny verify dfyconfig.toml` checks the whole project.

## Model

| member | source | states |
|---|---|---|
| `Provisioning.Dispatcher.constructor` | src/storage/mod.rs:46-54 | a new dispatcher has nothing in flight and the given store |
| `Provisioning.Step` | src/storage/mod.rs:131-170 | one atomic step of a task; past the entry checks the claim stays eligible and a task that writes has a known storage class |
| `Provisioning.Dispatcher.DoProvision` | src/storage/mod.rs:64-126 | an uninterrupted provisioning is the backend call, the volume write and the claim write in that order, or a failure with nothing written |
| `Provisioning.Dispatcher.ProvisionForPvc` | src/storage/mod.rs:131-170 | an uninterrupted call is exactly the steps of one task, with the same result |
| `Provisioning.AloneOutcome` | src/storage/mod.rs:131-170 | an uninterrupted call leaves `inflight` as it was on every path, writes volume and bound claim together or nothing, and fails exactly in the listed cases |
| `Provisioning.CallOutcome` | src/storage/mod.rs:20-170 | every uninterrupted call in plain terms: the early exits, class "standard" provisioned by "z8s.io/loop" and "hostpath" by "z8s.io/hostpath" with the names, keys, request, claim reference and "Bound" phases spelled out, and any other class or a failing backend an error that changes nothing |
| `Provisioning.WritesInAnyRun` | src/storage/mod.rs:64-126 | the same volume and claim, spelled out, for the writes of any task between any other steps |
| `Provisioning.AloneIsARun` | src/storage/mod.rs:131-170 | an uninterrupted call is a run of the state machine in which only its task moves |
| `Provisioning.StepKeepsExclusive` | src/storage/mod.rs:146-152 | after any step two tasks between insert and remove have different uids |
| `Provisioning.StepKeepsInflight` | src/storage/mod.rs:146-168 | after any step `inflight` is exactly the uids held between insert and remove |
| `Provisioning.StepKeepsAccount` | src/storage/mod.rs:154-168 | after any step there is at most one success per uid, and after a success the stored claim is bound or about to be |
| `Provisioning.StepKeepsUnmade` | src/storage/mod.rs:154-166 | a task that reaches the backend call belongs to a claim not provisioned before |
| `Provisioning.NextKeepsInv` | src/storage/mod.rs:131-170 | every step, spawn, claim update that keeps a binding, and volume creation keeps the whole invariant |
| `Provisioning.RunsProvisionOnce` | src/storage/mod.rs:131-170 | in every run of any number of tasks in which a uid determines its claim and the API keeps bindings: one task per uid between insert and remove, `inflight` exact and empty at rest, the backend succeeds at most once per uid |
| `Provisioning.BindingChangesIff` | src/storage/mod.rs:111-122 | in every state of a run a stored binding is never lost by a step, and changes exactly when a task past its check writes the claim over another volume |
| `Provisioning.LateWriteReplacesBinding` | src/storage/mod.rs:157-166 | a binding made by the API between a task's check and its write is replaced |
| `VolumeBinding.BoundClaimsPointBack` | src/storage/mod.rs:64-126 | in every run whose claims have volume names apart: after a success and its claim write the stored claim names a stored volume whose claim reference points back |
| `VolumeBinding.WriteClaimLinks` | src/storage/mod.rs:121-122 | the claim is written only when its volume is stored and points to it |
| `VolumeBinding.NextKeepsLinks` | src/storage/mod.rs:64-126 | no step of any task or of the API breaks an existing link |
| `VolumeBinding.NamesMeetIff` | src/storage/mod.rs:68-70 | two namespaces can share a volume name exactly when one followed by "--" begins the other followed by "--" |
| `VolumeBinding.PlainNamesAreInjective` | src/storage/mod.rs:68-70 | volume names are injective for namespaces without "--" that do not end in "-" |
| `VolumeBinding.PlainPoolIsApart` | src/storage/mod.rs:68-70 | claims in such namespaces have volume names apart |
| `VolumeBinding.CollisionBreaksTheLink` | src/storage/mod.rs:64-126 | two claims that share a volume name: the first is left with a volume that points to the second |
| `VolumeBinding.NamesThatMeet` | src/storage/mod.rs:68-70 | claims "b--c" in "a" and "c" in "a--b" are such a pair |
| `VolumeBinding.SecondCallProvisionsIff` | src/storage/mod.rs:154-164 | a second call for a provisioned claim provisions again exactly when the claim has no name |
| `PacketFilter.NftEngine.ResetNsgRules` | src/netmux/nftables.rs:237-241 | fails exactly when the delete or the add is refused; an ignored delete keeps the rules, and a delete without an add leaves no chain |
| `PacketFilter.NftEngine.AddForward` | src/netmux/nftables.rs:44-61 | succeeds exactly when both prefixes parse and the kernel does not refuse; appends the rule only if the kernel took it, so an ignored answer is a success that appends nothing |
| `PacketFilter.NftEngine.SendRow` | src/netmux/mod.rs:284-285 | the inner loop sends one batch per destination in order, goes on after an ignored one and stops at the first failure |
| `PacketFilter.NftEngine.SendRule` | src/netmux/mod.rs:282-288 | the nested loops send the source times destination expansion in order, in the same way |
| `PacketFilter.NftEngine.ApplyNsg` | src/netmux/mod.rs:278-293 | for every combination of kernel answers the chain is what the reset left plus the batches the kernel took before the first failure, and success means no failure |
| `PacketFilter.SortIsStable` | src/netmux/mod.rs:280-281 | the sort is ordered by priority, a permutation, and keeps the order within a priority |
| `PacketFilter.ExpandMeaning` | src/netmux/mod.rs:282-288 | first match on the expansion of a rule decides exactly the packets with a matching source and a matching destination |
| `PacketFilter.ChainMeansFirstApplying` | src/netmux/mod.rs:278-293 | first match on the chain of an ordered list of rules is the action of the first applicable one |
| `PacketFilter.SortedSearchFindsDecider` | src/netmux/mod.rs:278-293 | the first applicable rule of the sorted list is the one of least (priority, original position) |
| `PacketFilter.CompilationPreservesMeaning` | src/netmux/mod.rs:278-293 | for every packet the compiled chain gives the action of the least (priority, position) applicable rule, and drop if there is none |
| `PacketFilter.PrefixMeaning` | src/netmux/nftables.rs:213-225 | a /0 prefix covers every address, a /24 those that agree in the first three bytes, a /32 only its own, and a longer one none |
| `PacketFilter.PartialChainNeverDecidesDifferently` | src/netmux/mod.rs:278-293 | on every prefix of the chain a packet is undecided or decided as on the whole chain |
| `PacketFilter.RuleOrderIsImmaterial` | src/netmux/mod.rs:278-293 | with pairwise distinct priorities, permuting the rules changes no decision |
| `PacketFilter.SuccessInstallsAllIff` | src/netmux/mod.rs:278-293 | after an effective reset and a reported success the chain is the compiled one exactly when the kernel ignored no batch |
| `PacketFilter.DecidedAsIntendedIff` | src/netmux/mod.rs:278-293 | whatever reset and batches left, a packet is decided as intended exactly when the leftover decides it so, or does not decide it and the first installed batch matching it has the right verdict |
| `PacketFilter.KeptMeaning` | src/netmux/nftables.rs:44-61 | first match on the installed batches is the verdict of the first installed one that matches |
| `PacketFilter.AppliedChainMeaning` | src/netmux/mod.rs:278-293 | where the kernel ignored no batch the chain is a prefix of the compiled one, and every packet is undecided or decided as intended, also after a failure |
| `PacketFilter.IgnoredDenyLetsThrough` | src/netmux/nftables.rs:50-53 | an ignored deny in front of an allow: the call reports success and the packet is accepted instead of dropped |
| `PacketFilter.MissingChainDecidesNothing` | src/netmux/nftables.rs:50-53 | if the chain is missing after the reset no packet is decided, and without a refusal the call reports success |
| `PacketFilter.WithoutResetLaterRulesAreDead` | src/netmux/nftables.rs:237-241 | if an earlier group's chain was not emptied, a later group has no effect on any packet |
| `ImageLayers.Rootfs.constructor` | src/cri/image.rs:163-204 | unpacking starts in a directory with some contents, such as the saved image configuration |
| `ImageLayers.EntryMeaning` | src/cri/image.rs:287-316 | entries by file name: what ".wh..wh..opq", ".wh." with a name and ".wh." alone delete, path by path, and that any other entry is unpacked as it is |
| `ImageLayers.Rootfs.Remove` | src/cri/image.rs:307-315 | a whiteout removes the path and everything below it |
| `ImageLayers.Rootfs.ClearDirectory` | src/cri/image.rs:292-306 | an opaque marker removes exactly what is below the unmarked children of its directory |
| `ImageLayers.Rootfs.UnpackEntry` | src/cri/image.rs:292-321 | one entry succeeds and changes the tree as the specification of an entry says |
| `ImageLayers.Rootfs.UnpackLayer` | src/cri/image.rs:279-321 | the entry loop succeeds exactly when no entry meets a node of the wrong kind, and leaves the extracted tree, in which every entry stands in a directory |
| `ImageLayers.ExtractionSucceedsIff` | src/cri/image.rs:279-321 | extraction succeeds exactly when, at each ordinary entry, no ancestor is a file and nothing of the other kind stands at its path |
| `ImageLayers.Rootfs.UnpackAll` | src/cri/image.rs:206-209 | the layer loop is extraction of the layers one over the other |
| `ImageLayers.ApplyKeepsWellFormed` | src/cri/image.rs:279-321 | every entry keeps the tree well formed |
| `ImageLayers.ExtractionIsPathwise` | src/cri/image.rs:279-321 | what stands at a path afterwards depends only on what stood there and on the entries |
| `ImageLayers.ExtractionIsOverlayIff` | src/cri/image.rs:279-321 | extraction succeeds with the layer's overlay over the lower tree, path by path, exactly when no entry meets a node of the wrong kind and no whiteout of the layer deletes one of its own entries for good |
| `ImageLayers.FileOverDirectoryFails` | src/cri/image.rs:316-320 | a file over a lower directory replaces it in the overlay, and extraction fails |
| `ImageLayers.LateWhiteoutIsVisible` | src/cri/image.rs:292-315 | a whiteout that does so leaves the wrong thing at that path |
| `ImageLayers.OpaqueMarkerDeletesEarlierSibling` | src/cri/image.rs:292-306 | an opaque marker after a file of its own layer deletes that file, which the overlay keeps |
| `ImageLayers.ExtractionIsStackIff` | src/cri/image.rs:206-209 | layers without late whiteouts extract exactly when each fits the overlays below it, and then give the stack of their overlays |
| `ImageLayers.EveryLayerIsOverlaidIff` | src/cri/image.rs:206-209 | for any layers: each in turn extracts to its overlay exactly when each fits what is below it and none has a late whiteout |
| `LayerOrder.RestoreOrder` | src/cri/image.rs:169-187 | without a manifest nothing moves; with one the result is the layers found in manifest order, then each remaining layer once |
| `LayerOrder.ByDigestIsLast` | src/cri/image.rs:174-177 | of layers with the same digest the last is kept |
| `LayerOrder.RestoredKeepsLayers` | src/cri/image.rs:173-186 | the result holds exactly the layers kept by digest, in the manifest or not: none is lost and none is made up |
| `LayerOrder.OrderIsRestoredIff` | src/cri/image.rs:169-187 | whatever order the manifest's layers arrived in, the result is manifest order exactly when the manifest lists no digest twice |
| `LayerOrder.PulledImageIsStackIff` | src/cri/image.rs:169-209 | for distinct digests, any order of arrival and any directory: each layer of the manifest unpacks to its overlay exactly when each fits what is below it and none has a whiteout that deletes an entry of its own layer for good; layers without such whiteouts unpack at all exactly when each fits, to the overlay stack |
| `LayerOrder.RepeatedLayerIsLost` | src/cri/image.rs:174-182 | a layer listed again above one that deletes its file is dropped, and the file with it |
| `DnsName.ParseName` | src/netmux/dns.rs:72-114 | the loop computes the step function on every buffer, including pointer cycles |
| `DnsName.EncodeName` | src/netmux/dns.rs:116-127 | the encoder writes the wire form of the dot-separated parts |
| `DnsName.LoopRefinesLabels` | src/netmux/dns.rs:72-114 | the loop reads the labels reached by following labels and pointers within the step budget |
| `DnsName.ParseNameMeaning` | src/netmux/dns.rs:72-114 | success moves the offset strictly forward within the buffer, past the first terminator or first pointer whatever the later jumps |
| `DnsName.RevisitIsRefused` | src/netmux/dns.rs:72-114 | a name whose reading comes back to any position it has been at is refused, for every budget |
| `DnsName.SplitUndoesJoin` | src/netmux/dns.rs:116-127 | splitting at dots recovers dot-free labels |
| `DnsName.NameRoundTrip` | src/netmux/dns.rs:72-127 | an encoded name anywhere in any buffer is read back in lower case, with the offset just past it, exactly when it has at most 50 labels |
| `DnsName.CompressedNameRoundTrip` | src/netmux/dns.rs:72-114 | a name compressed by any chain of pointers is read as the whole name, with the offset two past the first pointer, exactly when labels and pointers together are at most 50 |
| `DnsMessage.MakeResponse` | src/netmux/dns.rs:129-154 | the builder writes header, question and records in order |
| `DnsMessage.QuestionIsParsed` | src/netmux/dns.rs:187-215 | the query reader finds the question's name, type and class |
| `DnsMessage.EmptyResponseIsRead` | src/netmux/dns.rs:129-154 | a reply without records is read back by the independent decoder |
| `DnsMessage.RecordResponseIsRead` | src/netmux/dns.rs:129-177 | a reply with one record is read back with owner, type, class, time to live and data |
| `DnsMessage.AnswerIsReadBack` | src/netmux/dns.rs:181-265 | every in-cluster answer is read back with the query's identifier, its question and the record the zone holds; otherwise the query was forwarded or the zone's address text was unreadable |
| `DnsMessage.AliasDataIsTheTarget` | src/netmux/dns.rs:167-177 | the data of an alias record reads as the target's labels |
| `DnsZone.HostRecordIsAnswered` | src/netmux/dns.rs:219-227 | a name with a host record is answered with one address record of that address, in numbers, whatever the services are |
| `DnsZone.ServiceIsAnswered` | src/netmux/dns.rs:229-362 | a name in any of the five shapes is answered from the first listed service of its name and namespace: a readable cluster address, an external name that reads as an address, an alias to any other external name, silence for an unreadable address, and code 3 or forwarding where there is none |
| `DnsZone.OtherNamesAreDeclined` | src/netmux/dns.rs:254-362 | a name of no such shape gets code 3, or is forwarded if the query asks for recursion |
| `DnsZone.OtherQueries` | src/netmux/dns.rs:187-217 | other query types are forwarded, and responses, short messages and messages without a question get no reply |
| `DnsZone.AskedIsRead` | src/netmux/dns.rs:322-362 | each of the five shapes of names is read as its service and namespace |
| `DnsZone.ReadIsAsked` | src/netmux/dns.rs:322-362 | a name that is read as a service has one of the five shapes |
| `ProtoWire.Parser.constructor` | src/api/proto.rs:264-267 | a new parser stands at the start of its data |
| `ProtoWire.Parser.ReadVarint` | src/api/proto.rs:303-315 | the loop reads the varint at the position and moves the position as the specification says, failures included |
| `ProtoWire.Parser.NextField` | src/api/proto.rs:269-301 | reads the field at the position, or reports the end, or the overflow of the length arithmetic |
| `ProtoWire.ReadVarintMeaning` | src/api/proto.rs:303-315 | a read succeeds exactly where a varint of at most ten bytes stands, and gives its value modulo 2^64 |
| `ProtoWire.VarintRoundTrip` | src/api/proto.rs:303-315 | every 64-bit number is read back from its encoding anywhere in any data |
| `ProtoWire.FieldAdvances` | src/api/proto.rs:269-301 | each field read moves the position strictly forward within the data |
| `ProtoWire.LengthOutcome` | src/api/proto.rs:285-291 | a length-delimited field with any length is read exactly if that many bytes follow; otherwise the reader ends, or overflows where position and length reach 2^64 |
| `ProtoWire.OtherKindsEnd` | src/api/proto.rs:299 | the wire kinds 3, 4, 6 and 7 end the reader behind the tag |
| `ProtoWire.TruncatedFixedEnds` | src/api/proto.rs:278-298 | a fixed field whose bytes are not all there ends the reader |
| `ProtoWire.FieldRoundTrip` | src/api/proto.rs:269-301 | a serialised field of any of the four wire kinds is read back and nothing after it is touched |
| `ProtoWire.WireRoundTrip` | src/api/proto.rs:269-315 | a serialised list of fields is read back exactly, then the end is reported |
| `ProtoMessage.GetBytesField` | src/api/proto.rs:220-228 | the search loop computes the look-up over the leading run of length-delimited fields |
| `ProtoMessage.GetVarintField` | src/api/proto.rs:234-244 | the search loop finds the first varint field with the number |
| `ProtoMessage.VarintIsFirstIff` | src/api/proto.rs:234-244 | on any serialised fields the result is the value of the first varint with the number, by index, and nothing exactly when there is none |
| `ProtoMessage.VarintIsFoundBehind` | src/api/proto.rs:234-244 | fields of any other number or kind in front do not stop the search |
| `ProtoMessage.VarintPanicsIff` | src/api/proto.rs:234-244 | the search stops at an overflowing length exactly when no varint with the number stands before |
| `ProtoMessage.LookUpPanicsIff` | src/api/proto.rs:220-228 | the search for a length-delimited field does so exactly when all fields before are length-delimited and none has the number |
| `ProtoMessage.LabelsPanicIff` | src/api/proto.rs:89-98 | the label loop does so exactly at a bad entry or an overflowing length that it gets to |
| `ProtoMessage.ParseLabels` | src/api/proto.rs:89-98 | the label loop computes the label map over the leading run of length-delimited fields |
| `ProtoMessage.ParseObjectMeta` | src/api/proto.rs:80-106 | the four text fields and the labels of the message, absent ones empty |
| `ProtoMessage.LookUpIsWholeSearchIff` | src/api/proto.rs:220-228 | the look-up agrees with a search of the whole message exactly when no other kind of field stands before the first match |
| `ProtoMessage.LabelsRecoveredIff` | src/api/proto.rs:89-98 | with any other fields in front, the labels are read exactly when those are all length-delimited or there are no labels |
| `ProtoMessage.ObjectMetaRoundTripIff` | src/api/proto.rs:80-106 | reading inverts an encoder of any name, generateName, namespace, uid and labels, with any other fields between, exactly when those are all length-delimited or there are no labels |
| `ProtoMessage.ObjectMetaOfAnyFields` | src/api/proto.rs:80-106 | for any fields in any order: each text is the first match unless another kind of field stands before it, and the labels are those of the leading run |
| `ProtoMessage.ObjectMetaIsWholeIff` | src/api/proto.rs:80-106 | for any fields in any order with no label behind another kind of field: the result is that of whole-message searches exactly when no text that is not empty is cut off, or a label entry cannot be read |
| `ProtoMessage.LabelsAreCutOff` | src/api/proto.rs:89-98 | the generation, a varint, in front of the labels loses them |
| `IpPool.ParsedCidr` | src/netmux/pool.rs:25-53 | parsing fails exactly above 32; the network starts at a multiple of its size, holds the address of the text, lies in the address space, and `contains` is membership of its range |
| `IpPool.UsableExcludesReserved` | src/netmux/mod.rs:84-87 | for prefixes 1 to 30 the network, gateway and broadcast addresses are not usable |
| `IpPool.UsableIff` | src/netmux/pool.rs:57-72 | exactly the usable addresses: all for prefixes 31 and 32, all but the first two and the last for 1 to 30, none for 0; the gateway is the second address |
| `IpPool.LowestFreeBlockIff` | src/netmux/pool.rs:114-137 | the block granted for a prefix of 1 to 32 starts at a multiple of its size, is wholly free, and no lower one is |
| `IpPool.Pool.constructor` | src/netmux/pool.rs:57-72 | a new pool has exactly the usable addresses free |
| `IpPool.Pool.Allocate` | src/netmux/pool.rs:74-77 | takes the least free address, or nothing exactly when none is free |
| `IpPool.Pool.Release` | src/netmux/pool.rs:79-81 | adds the address |
| `IpPool.Pool.Expand` | src/netmux/pool.rs:90-106 | accepts exactly the network that starts right after, and adds its whole range |
| `IpPool.Pool.AllocateSubnet` | src/netmux/pool.rs:114-137 | returns the lowest aligned block that is wholly free and removes exactly it; returns none only if there is no such block |
| `IpPool.FreeBlockIsWindow` | src/netmux/pool.rs:114-137 | an aligned free block stands in the sorted listing as a window of consecutive addresses, so the search cannot miss it |
| `IpLedger.CarveKeepsPartitionIff` | src/netmux/pool.rs:114-137 | granting a block keeps free, held and carved apart and complete exactly when the block ends before 2^32 |
| `IpLedger.ReleaseKeepsPartitionIff` | src/netmux/pool.rs:79-81 | releasing keeps it exactly when the address is held or free |
| `IpLedger.ExpandKeepsPartitionIff` | src/netmux/pool.rs:90-106 | expanding extends it exactly when nothing of the new range is held or carved |
| `IpLedger.RunsKeepPartition` | src/netmux/pool.rs:57-137 | over every run free, held and carved addresses are disjoint and together the initial usable set |
| `IpLedger.RunsNeverGrantReserved` | src/netmux/pool.rs:57-137 | no run from a fresh pool of prefix 1 to 30 hands out the network, gateway or broadcast address |
| `NetMux.Engine.constructor` | src/netmux/mod.rs:65-81 | the main pool has the usable addresses of its network and no subnet is registered |
| `NetMux.Engine.RegisterSubnetCidr` | src/netmux/mod.rs:121-128 | registering sets a fresh pool for the subnet and leaves the others |
| `NetMux.Engine.ReleaseIp` | src/netmux/mod.rs:102-111 | the address joins the main pool always, and at most one registered pool whose network contains it |
| `NetMux.Engine.AttachPod` | src/netmux/mod.rs:130-166 | takes the least address of the asked pool; a failed link creation keeps it taken, the two later failures release it |
| `NetMux.AttachMoves` | src/netmux/mod.rs:130-166 | attaching takes the address out of the asked pool and nothing else, and only a failure after the link was created gives it back |
| `NetMux.CannotAllocateIff` | src/netmux/mod.rs:130-142 | no address is found exactly when none could be allocated |
| `NetMux.Engine.DetachPod` | src/netmux/mod.rs:169-184 | releases the address |
| `NetMux.MainReleaseRestoresIff` | src/netmux/mod.rs:102-111 | releasing a main-pool address restores every pool, in any iteration order, exactly when no registered network contains it without having it free |
| `NetMux.NamedReleaseRestoresIff` | src/netmux/mod.rs:102-111 | releasing a subnet address restores every pool, in any iteration order, exactly when the main pool had it already and the subnet's own network is the only registered one that contains it |
| `NetMux.NamedSubnetHandsOutTwice` | src/netmux/mod.rs:102-111 | a subnet address released into the main pool can be handed out twice |
| `NetMux.RollbackRestores` | src/netmux/mod.rs:304-310 | both rollback paths restore every pool exactly |
| `NetMux.DetachUndoesAttach` | src/netmux/mod.rs:130-184 | detaching a pod just attached restores every pool exactly |
| `NetMux.RunsKeepAddressesApart` | src/netmux/mod.rs:130-184 | over every run without named subnets attached pods have pairwise distinct addresses and no address is lost or made, failed link creations counted |
| `NetMux.FreshEngine` | src/netmux/mod.rs:65-81 | a new engine satisfies that invariant |
| `Netlink.NlAttr` | src/netmux/netlink.rs:109-118 | writes length, type and data into a fresh buffer |
| `Netlink.NlAttrBytes` | src/netmux/netlink.rs:120-128 | writes length, type and data padded with zeros to four bytes |
| `Netlink.BuildVethRequest` | src/netmux/netlink.rs:155-199 | the buffer filled at a running offset is the head followed by the attribute tree of the pair |
| `Netlink.EveryAttributeIsAligned` | src/netmux/netlink.rs:109-137 | every attribute, reached by any path of child indices, stands in the encoding at its offset, and the offset is a multiple of four |
| `Netlink.RequestIsAligned` | src/netmux/netlink.rs:155-199 | the same inside a whole request, behind its head |
| `Netlink.WalkRecovers` | src/netmux/netlink.rs:109-137 | an attribute walker recovers types and zero-padded payloads at every depth, for every tree that fits 16-bit lengths and whose scalars are whole words |
| `Netlink.ScalarIsFoundIff` | src/netmux/netlink.rs:109-118 | a scalar of any size is found together with what follows it exactly when it is a whole number of words or the last of its list |
| `Netlink.NarrowScalarLosesNext` | src/netmux/netlink.rs:109-118 | an unpadded scalar and the attribute behind it are not both found |
| `Netlink.TextIsRecoveredIff` | src/netmux/netlink.rs:120-128 | a text comes back without padding exactly when its length is a multiple of four |
| `Netlink.VethAttrsFitIff` | src/netmux/netlink.rs:155-199 | the request fits 16-bit lengths exactly below a bound on the two names |
| `Netlink.VethRequestIsReadBack` | src/netmux/netlink.rs:155-199 | the length field is the buffer's length and walking all bytes behind the head recovers exactly the pair's attributes |
| `Netlink.VethRequestMeaning` | src/netmux/netlink.rs:155-199 | the request in literal bytes and attribute types: length, type 16, flags 0x605, sequence 1, port 0, zeros; type 3 the host name, type 4 1500, type 18 holding "veth" and, inside types 2 and 1 behind sixteen zeros, the peer name under 3 and exactly if given the process under 19 |
| `MergePatch.JsonMergePatch` | src/api/server.rs:337-347 | the loop over the patch's members, in any order, computes the merged value |
| `MergePatch.AgreesWithRfcIff` | src/api/server.rs:337-347 | the result is that of RFC 7396 exactly when objects of the patch meet only objects or nothing in the base |
| `MergePatch.ShortcutIsObservable` | src/api/server.rs:337-347 | a patch that should replace a string by an object changes nothing |
| `MergePatch.Idempotent` | src/api/server.rs:337-347 | applying a patch twice is applying it once, for all inputs |
| `MergePatch.UnmentionedPathsKeepTheirValue` | src/api/server.rs:337-347 | every path the patch does not mention keeps its value |
| `MergePatch.MentionedPathsTakeThePatchValue` | src/api/server.rs:337-347 | a value the patch sets is what the result holds there, and null erases |
| `MergePatch.NoNullIsAdded` | src/api/server.rs:337-347 | every null member of the result was there before |
| `MergePatch.ValuesUnderObjectsStay` | src/api/server.rs:337-347 | an object of the patch leaves a value that is not an object as it is, at any depth |
| `MergePatch.OnlyObjectsPatch` | src/api/server.rs:337-347 | a patch that is not an object changes nothing, where the RFC replaces the whole value |
| `PodLifecycle.ProcessTracker.constructor` | src/scheduler/process.rs:22-29 | a new tracker tracks no container |
| `PodLifecycle.ProcessTracker.UpdateState` | src/types.rs:87-94 | sets the phase of a stored pod and ignores a missing one |
| `PodLifecycle.ProcessTracker.InsertPlaceholders` | src/cri/runtime.rs:281-310 | every id is tracked afterwards and ids already tracked keep their entry |
| `PodLifecycle.ProcessTracker.RemovePlaceholders` | src/cri/runtime.rs:334-342 | exactly the listed ids are dropped |
| `PodLifecycle.ProcessTracker.SpawnAll` | src/cri/runtime.rs:344-363 | all containers spawned in order, or the first failure decides: a spawn failure takes the placeholders back, an image failure does not |
| `PodLifecycle.ProcessTracker.StartPod` | src/cri/runtime.rs:245-274 | the running map, result and phase after a start, for every combination of outcomes |
| `PodLifecycle.ProcessTracker.Reconcile` | src/components/compute/pod.rs:32-43 | only a Pending pod is started |
| `PodLifecycle.ProcessTracker.StopPod` | src/cri/runtime.rs:965-982 | drops the pod's entries and restart counts and sets Terminated |
| `PodLifecycle.ProcessTracker.ListDead` | src/scheduler/process.rs:153-163 | every tracked container whose process was reaped, once, with its code |
| `PodLifecycle.ProcessTracker.HandleOne` | src/scheduler/process.rs:194-215 | drops the entry, then counts and schedules a restart, or sets the final phase |
| `PodLifecycle.ProcessTracker.HandleExited` | src/scheduler/process.rs:152-217 | a pass is a legal run: list the dead containers, then handle each once with a pod it matches |
| `PodLifecycle.BackOff` | src/scheduler/process.rs:202 | the delays are 0, 10, 20, 40, 80, 160, then 300 seconds for ever |
| `PodLifecycle.StartIsARun` | src/cri/runtime.rs:245-363 | a start is a run of its lock-sized steps |
| `PodLifecycle.StopIsARun` | src/cri/runtime.rs:965-982 | so is a stop, with the Terminated write as its last step |
| `PodHistory.FailedStartRestoresIff` | src/cri/runtime.rs:245-363 | a failed start leaves the running map as it was exactly when it did not fail in preparing an image |
| `PodHistory.FailedImageLooksRunning` | src/cri/runtime.rs:351-359 | after a failed image every entry of the pod is a placeholder and every later start is taken for a duplicate |
| `PodHistory.StartTracksProcesses` | src/cri/runtime.rs:265-272 | a successful start that is not taken for a duplicate tracks each container under its own process |
| `PodHistory.StartTracksIff` | src/cri/runtime.rs:245-279 | a start that reports success has every container tracked under its new process exactly when no tracked id matched the pod's name before, or there is no container |
| `PodHistory.RestartBringsBackIff` | src/cri/runtime.rs:245-279 | after an exit that restarts the pod, a start that reports success brings the container back exactly when no other tracked id matches the pod's name |
| `PodHistory.SiblingBlocksRestart` | src/cri/runtime.rs:276-279 | of two containers one exits and is to be restarted: the start reports success and the container stays untracked |
| `PodHistory.StopUndoesStart` | src/cri/runtime.rs:245-274 | a stop removes exactly the entries a start has made |
| `PodHistory.OwnerIsItsPodIff` | src/scheduler/process.rs:165-170 | exits are attributed to the container's own pod, whatever the container's name, exactly when no other pod's name followed by "-" begins it or is begun by it |
| `PodHistory.RestartsAreConserved` | src/scheduler/process.rs:195-209 | over every run, timers fired plus timers waiting equal the exits that were allowed to restart the pod |
| `PodHistory.RestartsFollowThePolicy` | src/scheduler/process.rs:171-184 | every restart has an exit code that the pod's own policy permits |
| `PodHistory.HandlingFollowsPolicyIff` | src/scheduler/process.rs:171-215 | in every run, handling an exit counts a restart and adds a timer exactly under Always, a missing or an unknown policy, or OnFailure with a nonzero code; otherwise it sets Succeeded for code 0 and Failed for any other |
| `PodHistory.PendingOnlyAfterPermittedExit` | src/scheduler/process.rs:152-217 | in every run a pod returns to Pending only after an exit attributed to it which its own policy permits, and never more often than such exits |
| `PodHistory.PendingOnlyAfterOwnExit` | src/scheduler/process.rs:152-217 | where names do not meet and starts track containers of stored pods, that exit is of a container of the pod itself |
| `PodHistory.NeverMeansNever` | src/scheduler/process.rs:182-184 | under Never no return to Pending at all; under OnFailure none by code zero |
| `PodHistory.ReturnsAreBounded` | src/scheduler/process.rs:203-208 | without further restarts of a pod it returns to Pending at most as often as timers are waiting for it |
| `PodHistory.StopIsFinalIff` | src/scheduler/process.rs:38-42 | a stopped pod stays away from Pending in every run without further restarts exactly when no timer was waiting for it |
| `PodHistory.CountsAreRestarts` | src/scheduler/process.rs:196-200 | the restart count of a container is its restarts since the last stop, in every run |
| `PodHistory.RestartWaits` | src/scheduler/process.rs:196-209 | the k-th restart since the last stop waits for the k-th delay of the schedule |
| `PodHistory.HandlingIsExactIff` | src/scheduler/process.rs:186-215 | in every run, handling an exit touches at most the entry and, by one, the count of its own container id; it spares the entries of other processes exactly when the id is tracked under the reaped process or not at all |
| `PodHistory.UntouchedExitIsItsOwn` | src/scheduler/process.rs:152-194 | in every run in which no step touches the id between listing and handling, exactly the entry of the reaped process goes |
| `PodHistory.StaleExitDropsNewProcess` | src/scheduler/process.rs:155-194 | a stop and a start in between: the handling drops the entry of the new process |
| `PodHistory.PassIsExact` | src/scheduler/process.rs:152-217 | in an uninterrupted pass each reaped tracked process removes exactly its own entry, is handled with its own code, and at most its own count goes up, by one |
| `PodHistory.ReapedCodeIsLast` | src/scheduler/process.rs:153 | the code of a process is the last one it was reaped with |
| `PodHistory.OnlyReapedHaveCodes` | src/scheduler/process.rs:153 | exactly the reaped processes have a code |
| `PodHistory.PassPhases` | src/scheduler/process.rs:210-215 | a pass changes a pod's phase only by an exit its policy does not restart, and the last such exit decides |

## Left out

- The superseded copies under `retired/`: the live `src/` files are modelled instead.
- HTTP routing, table rendering, discovery and metrics under `src/api/handlers/`: plumbing.
- fork/exec, namespaces, mounts, capabilities and the pseudo-terminal code: system calls; cgroup creation, image preparation and spawning appear as outcomes given from outside.
- `NetworkPolicyController`, address translation, nftables sets and the service proxy: they program the kernel or forward connections, so their effect is outside the modelled state.
- Ports and protocols of security group rules: `apply_nsg` does not compile them either.
- Textual IPv4 and CIDR parsing, UTF-8 decoding and Unicode lower case: library routines, given as parameters; the DNS results ask of the decoder only that it lower-cases ASCII.
- The kernel's answer to each batch is a parameter: taken, answered with one of the codes that `send` reports as success, or refused. A rule for a missing chain is never taken.
- Arithmetic of `pool.rs` is modelled as in a release build, with shift counts taken modulo 32 and 32-bit wrap-around; a debug build would stop instead.
- Overflow of `pos + len` in the protobuf reader ends in the outcome `Panicked`; 64-bit positions are otherwise unbounded.
- Netlink integers are little-endian; the code uses the host's order.
- Pod specs, deployments and containers in `proto.rs`: the same two look-ups again.
- Upstream DNS forwarding and the UDP loop: network I/O.
- Symbolic links, hard links, absolute paths, "." and ".." components and whiteouts of such names in image layers, a marker without a name at the root of a layer (it deletes the target directory itself); compression of layers.
- ImageLayers.Rootfs.UnpackLayer: does not state what a failed extraction leaves behind, because the next pull removes the directory first.
- JSON merge patch is modelled on values; the code updates the base object's map in place, and no other reference to it exists during the call.
- MergePatch.NoNullIsAdded: speaks of members reached through objects; nulls inside arrays are copied as they are.
- One iteration of the exit loop is one step of the runs, although it takes the store, the running map and the counts one after the other; starts and stops are stepped lock by lock.
- The action of a security group rule is allow, deny or any other text.
- The restart policy is one of Always, OnFailure, Never or any other text; `u32` overflow of a restart count is not modelled.
- The duplicate check and the placeholder insert of a start take the lock separately, so nothing is claimed about two starts of one pod at once; the run results hold for every interleaving of their steps, and for re-applied or deleted pods nothing is claimed.
- Readiness probes, service synchronisation and logs of the pod controller.
- Deprovisioning of volumes, static binding of claims, and cancellation of a provisioning task.
- The run results for provisioning ask that a uid determines the claim's namespace and name and that the API never takes a binding away; `SecondCallProvisionsIff` and `CollisionBreaksTheLink` show where such conditions are needed.
